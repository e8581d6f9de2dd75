/** The sending path of a connection: the application's bytes go into the TX ring buffer and from its head
    into the network stack. */
module Transmit {
  import opened Bytes
  import opened RingBuffer

  const WR_MAX := 4096

  /** How a write ends: the process exits, the call fails, or the stack has taken `n` bytes. */
  datatype Outcome = Exited | Failed | Taken(n: nat)

  /** The stack is given a plain pointer to the head of the ring.  What it takes runs on into the memory behind
      the buffer, `past`, when the ring turns before the `r` bytes are over. */
  function Sent(contents: seq<byte>, begin: nat, size: nat, past: seq<byte>, r: nat): seq<byte>
    requires begin <= size && r <= |contents| && begin + r <= size + |past|
  {
    if begin + r <= size then contents[..r] else contents[..size - begin] + past[..begin + r - size]
  }

  /** The ring does not turn, or the memory behind it happens to hold the same bytes. */
  predicate Matches(contents: seq<byte>, begin: nat, size: nat, past: seq<byte>, r: nat)
    requires begin <= size && r <= |contents| && begin + r <= size + |past|
  {
    begin + r <= size || past[..begin + r - size] == contents[size - begin..r]
  }

  /** Exactly then nothing is lost, added or moved. */
  lemma ConservedExactly(accepted: seq<byte>, contents: seq<byte>, begin: nat, size: nat, past: seq<byte>, r: nat)
    requires begin <= size && r <= |contents| && begin + r <= size + |past|
    ensures (accepted + Sent(contents, begin, size, past, r)) + contents[r..] == accepted + contents <==>
      Matches(contents, begin, size, past, r)
  {
    var sent := Sent(contents, begin, size, past, r);
    Parts(accepted, sent, contents, r);
    if begin + r > size {
      var k := size - begin;
      assert sent[k..] == past[..begin + r - size] && contents[..r][k..] == contents[k..r];
      assert contents[..r] == contents[..k] + contents[k..r];
    }
  }

  lemma Parts<T>(a: seq<T>, s: seq<T>, c: seq<T>, r: nat)
    requires |s| == r <= |c|
    ensures (a + s) + c[r..] == a + c <==> s == c[..r]
  {
    assert ((a + s) + c[r..])[|a|..|a| + r] == s;
    assert (a + c)[|a|..|a| + r] == c[..r];
    if s == c[..r] { assert (a + s) + c[r..] == a + c; }
  }

  class Connection {
    const txbuf: RingBuffer<byte>
    /** The MTU. */
    const mtu: nat
    /** What the application has written and what the stack has taken, since the start. */
    ghost var written: seq<byte>
    ghost var accepted: seq<byte>

    /** The buffer is never full. */
    ghost predicate Valid()
      reads this, txbuf
    {
      txbuf.Valid() && txbuf.Count() < txbuf.size
    }

    /** No byte is lost, added or moved. */
    ghost predicate Conserved()
      requires Valid()
      reads this, txbuf, txbuf.buf
    {
      accepted + txbuf.Contents() == written
    }

    constructor (size: nat, mtu: nat)
      requires size > 0
      ensures Valid() && Conserved() && written == accepted == [] && fresh(txbuf) && fresh(txbuf.buf)
      ensures txbuf.size == size && txbuf.begin == 0 && this.mtu == mtu
    {
      txbuf := new RingBuffer(size);
      this.mtu := mtu;
      written, accepted := [], [];
    }

    /** How much is offered to the stack. */
    function Offer(): nat
      requires txbuf.Valid()
      reads this, txbuf
    {
      Min(Min(txbuf.Count(), mtu), WR_MAX)
    }

    /** Offers the head of the buffer to the stack, which answers `r`: an error, or how many bytes it has
        taken. */
    method Offered(r: int, ghost past: seq<byte>)
      requires Valid() && r <= Offer() && |past| == WR_MAX
      modifies this, txbuf
      ensures Valid() && written == old(written)
      ensures r <= 0 ==> accepted == old(accepted) && txbuf.Contents() == old(txbuf.Contents()) && txbuf.begin == old(txbuf.begin)
      ensures r > 0 ==>
        && accepted == old(accepted) + Sent(old(txbuf.Contents()), old(txbuf.begin), txbuf.size, past, r)
        && txbuf.Contents() == old(txbuf.Contents())[r..] && txbuf.begin == Place(old(txbuf.begin), r, txbuf.size)
    {
      hide Around, Place;
      if r > 0 {
        ghost var was, sent := txbuf.Contents(), (txbuf.buf[txbuf.begin..] + past)[..r];
        HeadIs(was, sent, past, r);
        var m := txbuf.Consume(r);
        accepted := accepted + sent;
      }
    }

    /** The bytes from the head of the buffer on are the oldest ones, as far as the buffer goes. */
    lemma HeadIs(was: seq<byte>, sent: seq<byte>, past: seq<byte>, r: nat)
      requires txbuf.Valid() && was == txbuf.Contents() && 0 < r <= |was| && txbuf.begin + r <= txbuf.size + |past|
      requires sent == (txbuf.buf[txbuf.begin..] + past)[..r]
      ensures sent == Sent(was, txbuf.begin, txbuf.size, past, r)
    {}

    /** `pico_cb_tcp_write`: the stack has room and answers `r` to what it is offered. */
    method OnWritable(r: int, ghost past: seq<byte>)
      requires Valid() && Conserved() && r <= Offer() && |past| == WR_MAX
      modifies this, txbuf
      ensures Valid() && written == old(written)
      ensures r <= 0 ==> accepted == old(accepted)
      ensures r > 0 ==> accepted == old(accepted) + Sent(old(txbuf.Contents()), old(txbuf.begin), txbuf.size, past, r)
      ensures Conserved() <==> r <= 0 || Matches(old(txbuf.Contents()), old(txbuf.begin), txbuf.size, past, r)
    {
      hide Around, Place, Sent, Matches;
      if txbuf.Count() == 0 { return; }
      if r < 0 { return; }
      Offered(r, past);
      if r > 0 {
        ConservedExactly(old(accepted), old(txbuf.Contents()), old(txbuf.begin), txbuf.size, past, r);
      }
    }

    /** The call puts the data into the buffer. */
    predicate Goes(data: seq<byte>, closed: bool)
      requires Valid()
      reads this, txbuf
    {
      0 < |data| && !closed && txbuf.Count() + |data| < txbuf.size
    }

    /** `pico_Write`: `closed` is the state of the stack socket and `r` what the stack answers. */
    method Write(data: seq<byte>, closed: bool, r: int, ghost past: seq<byte>) returns (out: Outcome)
      requires Valid() && Conserved() && r <= Min(Min(txbuf.Count() + |data|, mtu), WR_MAX) && |past| == WR_MAX
      modifies this, txbuf, txbuf.buf
      ensures Valid()
      ensures out.Exited? <==> 0 < |data| && !closed && old(txbuf.Count()) + |data| >= txbuf.size
      ensures out.Failed? <==> |data| == 0 || closed || (r < 0 && old(Goes(data, closed)))
      ensures out.Taken? ==> out.n == r
      ensures written == old(written) + (if old(Goes(data, closed)) then data else [])
      ensures var all, sends := old(txbuf.Contents()) + data, old(Goes(data, closed)) && r > 0;
        && (!sends ==> accepted == old(accepted) && txbuf.begin == old(txbuf.begin) && Conserved())
        && (sends ==>
              && accepted == old(accepted) + Sent(all, old(txbuf.begin), txbuf.size, past, r)
              && txbuf.begin == Place(old(txbuf.begin), r, txbuf.size) && txbuf.Contents() == all[r..]
              && (Conserved() <==> Matches(all, old(txbuf.begin), txbuf.size, past, r)))
    {
      hide Around, Place, Sent, Matches;
      if |data| == 0 { return Failed; }
      if closed { return Failed; }
      if txbuf.Count() + |data| >= txbuf.size { return Exited; }
      ghost var held, was := txbuf.Count(), txbuf.Contents();
      var n := txbuf.Write(data);
      if n != |data| {
        assert false;
      }
      assert data[..n] == data;
      assert txbuf.Count() == |txbuf.Contents()| == held + n;
      assert accepted + (was + data) == written + data;
      written := written + data;
      Offered(r, past);
      if r > 0 { ConservedExactly(old(accepted), was + data, old(txbuf.begin), txbuf.size, past, r); }
      out := if r < 0 then Failed else Taken(r);
    }
  }

  /** A stream that is spoiled: six bytes go through a ring of eight, then four, of which the last two lie at
      the start of the ring while the stack reads on behind it. */
  method SpoiledAtTheTurn(six: seq<byte>, four: seq<byte>, past: seq<byte>) returns (c: Connection)
    requires |six| == 6 && |four| == 4 && |past| == WR_MAX && past[0] != four[2]
    ensures c.Valid() && c.written == six + four && c.accepted == six + [four[0], four[1], past[0], past[1]]
    ensures !c.Conserved()
  {
    c := new Connection(8, 1500);
    hide Around;
    assert c.txbuf.Contents() == [] && [] + six == six;
    var first := c.Write(six, false, 6, past);
    assert c.txbuf.Contents() == six[6..] == [] && [] + four == four;
    assert c.accepted == six;
    var second := c.Write(four, false, 4, past);
    assert Sent(four, 6, 8, past, 4) == [four[0], four[1], past[0], past[1]];
    assert past[..2][0] != four[2..4][0];
  }
}
