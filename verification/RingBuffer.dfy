/** The ring buffer between an application and the network stack: a bounded first-in-first-out queue. */
module RingBuffer {

  /** The place of the element `k` places after `from` in a ring of `size`. */
  function Place(from: nat, k: nat, size: nat): nat {
    if from + k < size then from + k else from + k - size
  }

  lemma Turn(x: nat, size: nat)
    requires 0 < size && x <= size
    ensures x % size == if x == size then 0 else x
  {}

  function Min(a: nat, b: nat): nat { if a < b then a else b }

  /** The `n` elements of the ring `a` from `from` on. */
  ghost function Around<T>(a: seq<T>, from: nat, n: nat): (s: seq<T>)
    requires n <= |a| && (n > 0 ==> from < |a|)
    ensures |s| == n && forall k :: 0 <= k < n ==> s[k] == a[Place(from, k, |a|)]
  {
    if n == 0 then [] else if from + n <= |a| then a[from..from + n] else a[from..] + a[..from + n - |a|]
  }

  lemma AroundPrefix<T>(a: seq<T>, from: nat, n: nat, m: nat)
    requires m <= n <= |a| && (n > 0 ==> from < |a|)
    ensures Around(a, from, n)[..m] == Around(a, from, m)
  {}

  lemma AroundAdd<T>(a: seq<T>, b: seq<T>, begin: nat, held: nat, data: seq<T>)
    requires |a| == |b| && begin < |a| && held + |data| <= |a|
    requires forall k :: 0 <= k < |data| ==> b[Place(Place(begin, held, |a|), k, |a|)] == data[k]
    requires forall k :: |data| <= k < |a| ==> b[Place(Place(begin, held, |a|), k, |a|)] == a[Place(Place(begin, held, |a|), k, |a|)]
    ensures Around(b, begin, held + |data|) == Around(a, begin, held) + data
  {
    var from, size := Place(begin, held, |a|), |a|;
    forall k | 0 <= k < held ensures b[Place(begin, k, size)] == a[Place(begin, k, size)] {
      assert Place(begin, k, size) == Place(from, size - held + k, size);
    }
    forall k | held <= k < held + |data| ensures b[Place(begin, k, size)] == data[k - held] {
      assert Place(begin, k, size) == Place(from, k - held, size);
    }
    hide Around, Place;
  }

  class RingBuffer<T(0)> {
    const buf: array<T>
    const size: nat
    var begin: nat
    var end: nat
    var wrap: bool

    ghost predicate Valid()
      reads this
    {
      && buf.Length == size
      && (if size == 0 then begin == end == 0 && !wrap else begin < size && end < size)
      && (wrap ==> begin == end)
    }

    /** `count`. */
    function Count(): (n: nat)
      requires Valid()
      reads this
      ensures n <= size
      ensures size > 0 ==> end == Place(begin, n, size) || (n == size && end == begin)
    {
      if end == begin then (if wrap then size else 0)
      else if end > begin then end - begin
      else size + end - begin
    }

    function Free(): nat
      requires Valid()
      reads this
    {
      size - Count()
    }

    /** What is in the buffer, oldest first. */
    ghost function Contents(): (s: seq<T>)
      requires Valid()
      reads this, buf
      ensures |s| == Count()
    {
      Around(buf[..], begin, Count())
    }

    constructor (size: nat)
      ensures Valid() && this.size == size && fresh(buf) && begin == 0 && Contents() == []
    {
      this.size := size;
      begin, end, wrap := 0, 0, false;
      buf := new T[size];
    }

    /** The two copies of `write`, up to the end of the buffer and from its start. */
    method PutAround(data: seq<T>)
      requires Valid() && 0 < |data| <= size
      modifies `end, buf
      ensures end < size && end == Place(old(end), |data|, size)
      ensures forall k :: 0 <= k < |data| ==> buf[Place(old(end), k, size)] == data[k]
      ensures forall k :: |data| <= k < size ==> buf[Place(old(end), k, size)] == old(buf[Place(end, k, size)])
    {
      var n := |data|;
      var first := Min(n, size - end);
      CopyIn(end, data[..first]);
      Turn(end + first, size);
      end := (end + first) % size;
      if first < n {
        CopyIn(end, data[first..n]);
        Turn(end + (n - first), size);
        end := (end + (n - first)) % size;
      }
    }

    method CopyIn(at: nat, data: seq<T>)
      requires at + |data| <= buf.Length
      modifies buf
      ensures forall i :: 0 <= i < buf.Length ==> buf[i] == if at <= i < at + |data| then data[i - at] else old(buf[i])
    {
      forall k | 0 <= k < |data| { buf[at + k] := data[k]; }
    }

    /** `write`: as much of the data as fits is added behind what is there. */
    method Write(data: seq<T>) returns (n: nat)
      requires Valid()
      modifies this, buf
      ensures Valid() && n == Min(|data|, old(Free())) && Contents() == old(Contents()) + data[..n]
      ensures begin == old(begin)
    {
      hide Around;
      n := Min(|data|, Free());
      if n == 0 {
        assert data[..0] == [];
        return;
      }
      ghost var a, held := buf[..], Count();
      PutAround(data[..n]);
      if begin == end { wrap := true; }
      assert Count() == held + n;
      AroundAdd(a, buf[..], begin, held, data[..n]);
    }

    /** Moves `end` on by `n`, in two steps if it passes the end of the buffer. */
    method MoveEnd(n: nat)
      requires Valid() && 0 < n <= size
      modifies `end
      ensures end < size && end == Place(old(end), n, size)
    {
      var first := Min(n, size - end);
      Turn(end + first, size);
      end := (end + first) % size;
      if first < n {
        Turn(end + (n - first), size);
        end := (end + (n - first)) % size;
      }
    }

    /** `produce`: elements that were put behind the contents by other means become part of them. */
    method Produce(n: nat) returns (m: nat)
      requires Valid()
      modifies this
      ensures Valid() && m == Min(n, old(Free()))
      ensures m > 0 ==> old(end) < size && Contents() == old(Contents()) + Around(buf[..], old(end), m)
      ensures m == 0 ==> Contents() == old(Contents())
    {
      hide Around;
      m := Min(n, Free());
      if m == 0 { return; }
      ghost var held, from := Count(), end;
      MoveEnd(m);
      if begin == end { wrap := true; }
      assert Count() == held + m;
      AroundAdd(buf[..], buf[..], begin, held, Around(buf[..], from, m));
    }

    /** The two copies of `read`. */
    method TakeAround(m: nat) returns (out: seq<T>)
      requires Valid() && 0 < m <= size
      modifies `begin
      ensures begin < size && begin == Place(old(begin), m, size) && out == Around(buf[..], old(begin), m)
    {
      var first := Min(m, size - begin);
      out := buf[begin..begin + first];
      Turn(begin + first, size);
      begin := (begin + first) % size;
      if first < m {
        out := out + buf[begin..begin + (m - first)];
        Turn(begin + (m - first), size);
        begin := (begin + (m - first)) % size;
      }
    }

    /** `read`: the oldest elements are taken out. */
    method Read(n: nat) returns (out: seq<T>)
      requires Valid()
      modifies this
      ensures Valid() && out == old(Contents()[..Min(n, Count())]) && Contents() == old(Contents()[Min(n, Count())..])
    {
      hide Around;
      var m := Min(n, Count());
      out := [];
      if m == 0 { return; }
      ghost var from, was := begin, Contents();
      AroundPrefix(buf[..], begin, Count(), m);
      wrap := false;
      out := TakeAround(m);
      Dropped(was, m, from);
    }

    /** `consume`: the oldest elements are dropped. */
    method Consume(n: nat) returns (m: nat)
      requires Valid()
      modifies this
      ensures Valid() && m == Min(n, old(Count())) && Contents() == old(Contents())[m..]
      ensures begin == if m > 0 then Place(old(begin), m, size) else old(begin)
    {
      m := Min(n, Count());
      if m == 0 { return; }
      ghost var from, was := begin, Contents();
      wrap := false;
      var first := Min(m, size - begin);
      Turn(begin + first, size);
      begin := (begin + first) % size;
      if first < m {
        Turn(begin + (m - first), size);
        begin := (begin + (m - first)) % size;
      }
      Dropped(was, m, from);
    }

    lemma Dropped(was: seq<T>, m: nat, from: nat)
      requires Valid() && 0 < m <= |was| <= size && from < size && was == Around(buf[..], from, |was|)
      requires begin == Place(from, m, size) && !wrap && (end == Place(from, |was|, size))
      ensures Contents() == was[m..]
    {
      assert Count() == |was| - m;
      forall k | 0 <= k < |was| - m ensures Contents()[k] == was[m + k] {
        assert Place(begin, k, size) == Place(from, m + k, size);
      }
    }
  }
}
