/** The buffer between the virtual wire and the network stack: Ethernet frames, each after its length, one
    behind the other.  One thread adds frames, the polling function of the stack takes them out. */
module RxFrames {
  import opened Bytes
  import opened Sequences

  const ETH_HEADER := 14
  const LENGTH := 4

  /** An `int` as it lies in memory. */
  function Le(n: nat): (s: seq<octet>)
    ensures |s| == 4
  {
    [n % 256, n / 256 % 256, n / 256 / 256 % 256, n / 256 / 256 / 256 % 256]
  }

  function UnLe(s: seq<octet>): nat
    requires |s| == 4
  {
    s[0] as int + 256 * (s[1] as int + 256 * (s[2] as int + 256 * s[3] as int))
  }

  lemma LeRoundTrip(n: nat)
    requires n < 0x1_0000_0000
    ensures UnLe(Le(n)) == n
  {}

  /** The frames as they lie in the buffer. */
  function Enc(q: seq<seq<octet>>): seq<octet> {
    if q == [] then [] else Le(|q[0]| + LENGTH) + (q[0] + Enc(q[1..]))
  }

  lemma {:induction false} EncAdd(q: seq<seq<octet>>, f: seq<octet>)
    ensures Enc(q + [f]) == Enc(q) + (Le(|f| + LENGTH) + f)
  {
    hide Le;
    if q == [] {
      assert Enc([f]) == Le(|f| + LENGTH) + (f + []);
      assert q + [f] == [f];
    } else {
      EncAdd(q[1..], f);
      assert (q + [f])[1..] == q[1..] + [f];
      Nested(Le(|q[0]| + LENGTH), q[0], Enc(q[1..]), Le(|f| + LENGTH) + f);
    }
  }

  lemma Nested<T>(a: seq<T>, b: seq<T>, c: seq<T>, d: seq<T>)
    ensures a + (b + (c + d)) == (a + (b + c)) + d
  {}

  /** The bytes in use after `k` rounds of the loop that makes room. */
  function TotAfter(tot: nat, k: nat): nat { if k == 0 then tot else 0 }

  predicate NoRoom(newlen: nat, size: nat, tot: nat) { newlen > size - tot }

  /** For an IPv6 frame that loop ends exactly if the frame fits into the empty buffer. */
  lemma EmptyingEnds(newlen: nat, size: nat, tot: nat)
    requires tot <= size
    ensures (exists k: nat :: !NoRoom(newlen, size, TotAfter(tot, k))) <==> newlen <= size
  {
    if newlen <= size { assert !NoRoom(newlen, size, TotAfter(tot, 1)); }
  }

  class RxBuffer {
    const buf: array<octet>
    /** The MTU, which bounds the frames taken out. */
    const mtu: nat
    var tot: nat
    /** The frames that are waiting. */
    ghost var queue: seq<seq<octet>>

    ghost predicate Valid()
      reads this, buf
    {
      && tot <= buf.Length < 0x8000_0000 && buf[..tot] == Enc(queue)
      && forall i :: 0 <= i < |queue| ==> |queue[i]| <= mtu
    }

    constructor (size: nat, mtu: nat)
      requires size < 0x8000_0000
      ensures Valid() && queue == [] && buf.Length == size && this.mtu == mtu && fresh(buf)
    {
      buf := new octet[size](_ => 0);
      this.mtu := mtu;
      tot, queue := 0, [];
    }

    /** `pico_rx`.  An IPv6 frame that finds no room empties the buffer first; any other frame must find
        room, for the code does not check. */
    method Add(header: seq<octet>, data: seq<octet>, ipv6: bool)
      requires Valid() && |header| == ETH_HEADER && ETH_HEADER + |data| <= mtu
      requires LENGTH + ETH_HEADER + |data| <= if ipv6 then buf.Length else buf.Length - tot
      modifies this, buf
      ensures Valid()
      ensures queue == (if LENGTH + ETH_HEADER + |data| > buf.Length - old(tot) then [] else old(queue)) + [header + data]
    {
      hide Enc, Le;
      var newlen := |data| + LENGTH + ETH_HEADER;
      while newlen > buf.Length - tot && ipv6
        invariant Valid() && ((queue == old(queue) && tot == old(tot)) || (newlen > buf.Length - old(tot) && queue == [] && tot == 0))
        decreases tot
      {
        forall i | 0 <= i < buf.Length { buf[i] := 0; }
        tot, queue := 0, [];
        EncEmpty(queue);
      }
      EncAdd(queue, header + data);
      Store(newlen, header, data);
      tot, queue := tot + newlen, queue + [header + data];
    }

    /** The three copies behind what is there. */
    method Store(newlen: nat, header: seq<octet>, data: seq<octet>)
      requires |header| == ETH_HEADER && newlen == |data| + LENGTH + ETH_HEADER && tot + newlen <= buf.Length
      modifies buf
      ensures buf[..tot + newlen] == old(buf[..tot]) + (Le(newlen) + (header + data))
    {
      hide Le;
      Copy(buf, tot, Le(newlen));
      Copy(buf, tot + LENGTH, header);
      Copy(buf, tot + LENGTH + ETH_HEADER, data);
      InTurn(old(buf[..tot]), Le(newlen), header, data);
    }

    /** The `memmove` that drops the first `len` bytes. */
    method Shift(len: nat)
      requires len <= tot <= buf.Length
      modifies buf
      ensures buf[..tot - len] == old(buf[..tot])[len..]
    {
      forall i | 0 <= i < buf.Length - len { buf[i] := buf[i + len]; }
    }

    /** `pico_eth_poll`: hands the stack as many frames as `score` allows, oldest first. */
    method Poll(score: nat) returns (out: seq<seq<octet>>, left: nat)
      requires Valid()
      modifies this, buf
      ensures Valid()
      ensures var n := if score < old(|queue|) then score else old(|queue|);
        out == old(queue)[..n] && queue == old(queue)[n..] && left == score - n
    {
      hide Enc, UnLe;
      left, out := score, [];
      while tot > 0 && left > 0
        invariant Valid() && left <= score && score - left == |out| <= old(|queue|)
        invariant out == old(queue)[..|out|] && queue == old(queue)[|out|..]
        decreases left
      {
        FirstFrame();
        var len := UnLe(buf[..LENGTH]);
        ghost var rest := queue[1..];
        out := out + [buf[LENGTH..len]];
        Shift(len);
        tot, queue := tot - len, rest;
        left := left - 1;
      }
      EncEmpty(queue);
    }

    /** The first frame, as the buffer holds it. */
    lemma FirstFrame()
      requires Valid() && tot > 0
      ensures |queue| > 0 && buf.Length >= LENGTH
      ensures var len := UnLe(buf[..LENGTH]);
        && len == |queue[0]| + LENGTH <= tot && buf[LENGTH..len] == queue[0] && buf[..tot][len..] == Enc(queue[1..])
    {
      var f, e := queue[0], Enc(queue[1..]);
      var n := |f| + LENGTH;
      assert buf[..tot] == Le(n) + (f + e);
      hide Enc, Le, UnLe;
      Front(buf[..tot], Le(n), f, e);
      LeRoundTrip(n);
      ArraySlice(buf, tot, 0, LENGTH);
      ArraySlice(buf, tot, LENGTH, n);
    }
  }

  lemma InTurn<T>(a: seq<T>, b: seq<T>, c: seq<T>, d: seq<T>)
    ensures ((a + b) + c) + d == a + (b + (c + d))
  {}

  lemma Front<T>(s: seq<T>, a: seq<T>, f: seq<T>, e: seq<T>)
    requires s == a + (f + e)
    ensures s[..|a|] == a && s[|a|..|a| + |f|] == f && s[|a| + |f|..] == e
  {}

  lemma ArraySlice<T>(a: array<T>, tot: nat, lo: nat, hi: nat)
    requires lo <= hi <= tot <= a.Length
    ensures a[..tot][lo..hi] == a[lo..hi]
  {
    forall i | 0 <= i < hi - lo ensures a[..tot][lo..hi][i] == a[lo..hi][i] {}
  }

  lemma EncEmpty(q: seq<seq<octet>>)
    ensures |Enc(q)| == 0 <==> q == []
  {}
}
