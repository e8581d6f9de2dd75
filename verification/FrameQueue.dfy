/** The queue of frames, linked through the frames themselves. */
module FrameQueue {

  class Frame {
    var next: Frame?
    const bufferLen: nat

    constructor (bufferLen: nat)
      ensures next == null && this.bufferLen == bufferLen
    {
      next := null;
      this.bufferLen := bufferLen;
    }
  }

  /** Unsigned 32-bit arithmetic. */
  function U32(x: int): nat { x % 0x1_0000_0000 }

  /** The cast to a signed number. */
  function I32(x: nat): int { if U32(x) < 0x8000_0000 then U32(x) else U32(x) - 0x1_0000_0000 }

  lemma Carry(x: int, y: int)
    ensures U32(U32(x) + y) == U32(x + y)
  {}

  function Bytes(s: seq<Frame>): nat {
    if s == [] then 0 else Bytes(s[..|s| - 1]) + s[|s| - 1].bufferLen
  }

  lemma {:induction false} BytesRest(s: seq<Frame>)
    requires |s| > 0
    ensures Bytes(s) == s[0].bufferLen + Bytes(s[1..])
  {
    if |s| > 1 {
      BytesRest(s[..|s| - 1]);
      assert s[..|s| - 1][1..] == s[1..][..|s| - 2];
    }
  }

  lemma BytesAdd(s: seq<Frame>, p: Frame)
    ensures Bytes(s + [p]) == Bytes(s) + p.bufferLen
  {
    assert (s + [p])[..|s|] == s;
  }

  /** The frames are distinct and each links to the next. */
  ghost predicate Chain(s: seq<Frame>)
    reads s
  {
    && (forall i, j :: 0 <= i < j < |s| ==> s[i] != s[j])
    && (forall i :: 0 <= i < |s| - 1 ==> s[i].next == s[i + 1])
    && (|s| > 0 ==> s[|s| - 1].next == null)
  }

  /** The size counter, when `taken` frames have been taken out since a frame was last put into an empty
      queue: each of them added the overhead once more instead of taking it off. */
  ghost function Size(s: seq<Frame>, overhead: nat, taken: nat): nat {
    U32(Bytes(s) + overhead * (|s| + 2 * taken))
  }

  lemma SizeOut(s: seq<Frame>, overhead: nat, taken: nat)
    requires |s| > 0
    ensures U32(Size(s, overhead, taken) - (s[0].bufferLen - overhead)) == Size(s[1..], overhead, taken + 1)
  {
    BytesRest(s);
    More(overhead, |s| + 2 * taken);
    Carry(Bytes(s) + overhead * (|s| + 2 * taken), -(s[0].bufferLen - overhead));
  }

  lemma SizeIn(s: seq<Frame>, overhead: nat, taken: nat, p: Frame)
    ensures U32(Size(s, overhead, taken) + (p.bufferLen + overhead)) == Size(s + [p], overhead, taken)
  {
    BytesAdd(s, p);
    More(overhead, |s| + 2 * taken);
    Carry(Bytes(s) + overhead * (|s| + 2 * taken), p.bufferLen + overhead);
  }

  class Queue {
    var head: Frame?
    var tail: Frame?
    var frames: nat
    var size: nat
    const maxFrames: nat
    const maxSize: nat
    const overhead: nat
    /** The frames in the queue, first to last. */
    ghost var spine: seq<Frame>
    /** Frames taken out since a frame was last put into an empty queue. */
    ghost var taken: nat

    /** The links lead from `head` through the whole queue to `tail`, the counters agree with it, and the
        limit on frames is kept. */
    ghost predicate Valid()
      reads this, spine
    {
      && frames == |spine| && (maxFrames != 0 ==> frames <= maxFrames)
      && (spine == [] ==> head == null && tail == null)
      && (spine != [] ==> head == spine[0] && tail == spine[|spine| - 1])
      && Chain(spine)
      && size == Size(spine, overhead, taken)
    }

    constructor (maxFrames: nat, maxSize: nat, overhead: nat)
      ensures Valid() && spine == [] && size == 0
      ensures this.maxFrames == maxFrames && this.maxSize == maxSize && this.overhead == overhead
    {
      head, tail, frames, size := null, null, 0, 0;
      this.maxFrames, this.maxSize, this.overhead := maxFrames, maxSize, overhead;
      spine, taken := [], 0;
    }

    /** Whether a frame of this length is turned away. */
    predicate Rejects(bufferLen: nat)
      reads this
    {
      (maxFrames != 0 && maxFrames <= frames) || (maxSize != 0 && maxSize < U32(bufferLen + size))
    }

    /** Links `p` behind the last frame. */
    method Link(p: Frame)
      requires Valid() && p !in spine
      modifies `head, `tail, spine, p
      ensures Chain(spine + [p]) && tail == p && head == (spine + [p])[0]
    {
      p.next := null;
      if head == null {
        head := p;
      } else {
        tail.next := p;
      }
      tail := p;
    }

    /** `pico_enqueue`. */
    method Enqueue(p: Frame) returns (r: int)
      requires Valid() && p !in spine
      modifies this, spine, p
      ensures Valid()
      ensures old(Rejects(p.bufferLen)) ==> r == -1 && spine == old(spine) && size == old(size) && taken == old(taken) && p.next == old(p.next)
      ensures !old(Rejects(p.bufferLen)) ==>
        r == I32(size) && spine == old(spine) + [p] && taken == (if old(spine) == [] then 0 else old(taken))
    {
      hide Bytes, Size, Chain;
      if Rejects(p.bufferLen) { return -1; }
      hide U32;
      if head == null {
        size, frames, taken := 0, 0, 0;
        Start(overhead);
      }
      Link(p);
      SizeIn(spine, overhead, taken, p);
      size := U32(size + (p.bufferLen + overhead));
      frames := frames + 1;
      spine := spine + [p];
      r := I32(size);
    }

    /** Takes the first frame off the chain. */
    method Unlink() returns (p: Frame)
      requires Valid() && spine != []
      modifies `head, `tail, spine
      ensures p == spine[0] && p.next == null && Chain(spine[1..])
      ensures if |spine| == 1 then head == tail == null else head == spine[1] && tail == spine[|spine| - 1]
    {
      hide U32, Bytes, Size;
      p := head;
      ghost var rest := spine[1..];
      assert |spine| > 1 ==> p.next == spine[0 + 1];
      assert forall i :: 0 <= i < |rest| ==> rest[i] == spine[i + 1] && rest[i] != spine[0];
      forall i | 0 <= i < |rest| - 1 ensures rest[i].next == rest[i + 1] { assert spine[i + 1].next == spine[i + 1 + 1]; }
      head := p.next;
      if head == null { tail := null; }
      p.next := null;
    }

    /** `pico_dequeue`. */
    method Dequeue() returns (p: Frame?)
      requires Valid()
      modifies this, spine
      ensures Valid() && (p == null <==> old(spine) == [])
      ensures p == null ==> spine == [] && size == old(size) && taken == old(taken)
      ensures p != null ==> p == old(spine)[0] && p.next == null && spine == old(spine)[1..] && taken == old(taken) + 1
    {
      hide U32, Bytes, Size, Chain;
      if head == null { return null; }
      if frames < 1 { return null; }
      SizeOut(spine, overhead, taken);
      p := Unlink();
      frames := frames - 1;
      size := U32(size - (p.bufferLen - overhead));
      spine, taken := spine[1..], taken + 1;
    }

    /** `pico_queue_peek`. */
    method Peek() returns (p: Frame?)
      requires Valid()
      ensures if spine == [] then p == null else p == spine[0]
    {
      p := head;
      if frames < 1 { p := null; }
    }

    /** `pico_queue_empty`: takes out every frame, in order. */
    method Empty() returns (ghost discarded: seq<Frame>)
      requires Valid()
      modifies this, spine
      ensures Valid() && spine == [] && discarded == old(spine)
    {
      hide U32, Bytes, Size, Chain;
      discarded := [];
      var p := Dequeue();
      while p != null
        invariant Valid() && (p == null ==> spine == [])
        invariant |discarded| + |spine| + (if p == null then 0 else 1) == |old(spine)|
        invariant discarded == old(spine)[..|discarded|] && spine == old(spine)[|old(spine)| - |spine|..]
        invariant p != null ==> p == old(spine)[|discarded|]
        decreases |spine|, p != null
      {
        discarded := discarded + [p];
        p := Dequeue();
      }
    }
  }

  lemma Start(overhead: nat)
    ensures Size([], overhead, 0) == 0
  {}

  lemma More(overhead: nat, n: nat)
    ensures overhead * (n + 1) == overhead * n + overhead
  {}

  /** What the counter is for: the bytes in the queue and the overhead of each frame. */
  ghost function Intended(q: Queue): nat
    reads q
  {
    U32(Bytes(q.spine) + q.overhead * |q.spine|)
  }

  lemma OffBy(overhead: nat, n: nat, taken: nat)
    ensures overhead * (n + 2 * taken) == overhead * n + 2 * (overhead * taken)
  {}

  lemma SameModulo(x: nat, d: nat)
    ensures U32(x + d) == U32(x) <==> U32(d) == 0
  {}

  /** The counter has its intended value exactly when the overhead is zero or no frame has been taken out since
      the queue was last filled from empty (up to a whole turn of the 32-bit counter). */
  lemma SizeExactly(q: Queue)
    requires q.Valid()
    ensures q.size == Intended(q) <==> U32(2 * (q.overhead * q.taken)) == 0
    ensures 2 * (q.overhead * q.taken) < 0x1_0000_0000 ==> (q.size == Intended(q) <==> q.overhead == 0 || q.taken == 0)
  {
    OffBy(q.overhead, |q.spine|, q.taken);
    var d := q.overhead * q.taken;
    SameModulo(Bytes(q.spine) + q.overhead * |q.spine|, 2 * d);
    assert d == 0 <==> q.overhead == 0 || q.taken == 0;
    hide Bytes, Chain;
  }

  /** Two frames in, one out: the counter is off by twice the overhead. */
  method TwoInOneOut(overhead: nat) returns (q: Queue)
    requires 0 < overhead < 65536
    ensures fresh(q) && q.Valid() && |q.spine| == 1 && q.size != Intended(q)
  {
    hide U32, Bytes, Size, Chain, Intended;
    q := new Queue(0, 0, overhead);
    var a := new Frame(100);
    var b := new Frame(200);
    var r := q.Enqueue(a);
    r := q.Enqueue(b);
    var out := q.Dequeue();
    SizeExactly(q);
    ghost var d := q.overhead * q.taken;
    assert d == overhead;
  }
}
