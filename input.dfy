/** The arrow keys and the bounded queue of directions waiting for the next ticks. */
module Input {
  import opened Wrappers
  import opened Codec

  /** At most this many directions wait in the queue. */
  const MAX_QUEUED: int := 5

  /** KEY_DIR: the four arrow keys and their direction vectors; any other key has none. */
  function KeyDir(key: string): (r: Option<Vec>)
    ensures r.Some? <==> key in {"ArrowUp", "ArrowDown", "ArrowLeft", "ArrowRight"}
    ensures r.Some? ==> IsUnit(r.value)
    ensures r == Some(Vec(0, 1)) <==> key == "ArrowUp"
    ensures r == Some(Vec(0, -1)) <==> key == "ArrowDown"
    ensures r == Some(Vec(-1, 0)) <==> key == "ArrowLeft"
    ensures r == Some(Vec(1, 0)) <==> key == "ArrowRight"
  {
    if key == "ArrowUp" then Some(Vec(0, 1))
    else if key == "ArrowDown" then Some(Vec(0, -1))
    else if key == "ArrowLeft" then Some(Vec(-1, 0))
    else if key == "ArrowRight" then Some(Vec(1, 0))
    else None
  }

  /** Every queued entry is a unit direction. */
  predicate AllUnit(queue: seq<Vec>) {
    forall k :: 0 <= k < |queue| ==> IsUnit(queue[k])
  }

  /**
   * The queue after the key `key` is pressed: an arrow key's direction is
   * appended while fewer than MAX_QUEUED entries wait; any other key, or a
   * full queue, leaves it as it was.
   */
  function Enqueued(queue: seq<Vec>, key: string): (r: seq<Vec>)
    ensures |queue| <= MAX_QUEUED ==> |r| <= MAX_QUEUED
    ensures |queue| <= |r| <= |queue| + 1 && r[..|queue|] == queue
    ensures |r| == |queue| + 1 <==> KeyDir(key).Some? && |queue| < MAX_QUEUED
    ensures |r| == |queue| + 1 ==> r[|queue|] == KeyDir(key).value
    ensures AllUnit(queue) ==> AllUnit(r)
  {
    var dir := KeyDir(key);
    if dir.Some? && |queue| < MAX_QUEUED then queue + [dir.value] else queue
  }

  /** The queue after any run of key presses. */
  function EnqueuedAll(queue: seq<Vec>, keys: seq<string>): seq<Vec>
    decreases |keys|
  {
    if keys == [] then queue else EnqueuedAll(Enqueued(queue, keys[0]), keys[1..])
  }

  /**
   * However many keys are pressed, the queue never holds more than
   * MAX_QUEUED entries, and the entries already waiting stay at its front.
   */
  lemma {:induction false} QueueBounded(queue: seq<Vec>, keys: seq<string>)
    requires |queue| <= MAX_QUEUED
    ensures |EnqueuedAll(queue, keys)| <= MAX_QUEUED
    ensures |queue| <= |EnqueuedAll(queue, keys)| && EnqueuedAll(queue, keys)[..|queue|] == queue
    decreases |keys|
  {
    if keys != [] {
      var q1 := Enqueued(queue, keys[0]);
      QueueBounded(q1, keys[1..]);
      assert EnqueuedAll(queue, keys)[..|queue|] == EnqueuedAll(q1, keys[1..])[..|q1|][..|queue|];
    }
  }
}
