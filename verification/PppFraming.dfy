/**
 Byte stuffing and the persistent byte-at-a-time frame decoder of the PPP device
 (section 4.2 of RFC 1662), and control frames end to end.
 */
module PppFraming {
  import opened Bytes
  import opened Sequences
  import opened PppFcs

  const FLAG := Byte(0x7e)
  const ESCAPE := Byte(0x7d)
  const ADDR := Byte(0xff)
  const CTRL := Byte(0x03)
  const MAXPKT := 2048

  // ----- Sender -----

  /** The driver's test for the two bytes that must be escaped. */
  predicate NeedsEscape(b: byte) {
    ((b.bits as bv16) + 1) >> 1 == 0x3F
  }

  function Flip(b: byte): byte { Byte(b.bits ^ 0x20) }

  lemma EscapedBytes(b: byte)
    ensures NeedsEscape(b) <==> b == FLAG || b == ESCAPE
    ensures Flip(Flip(b)) == b
    ensures NeedsEscape(b) ==> Flip(b) != FLAG && Flip(b) != ESCAPE
  {}

  function StuffByte(b: byte): seq<byte> {
    if NeedsEscape(b) then [ESCAPE, Flip(b)] else [b]
  }

  function Stuff(body: seq<byte>): seq<byte> {
    if body == [] then [] else Stuff(body[..|body| - 1]) + StuffByte(body[|body| - 1])
  }

  function Escapes(body: seq<byte>): nat {
    if body == [] then 0
    else Escapes(body[..|body| - 1]) + if NeedsEscape(body[|body| - 1]) then 1 else 0
  }

  lemma {:induction false} StuffLength(body: seq<byte>)
    ensures |Stuff(body)| == |body| + Escapes(body)
    ensures Escapes(body) == 0 ==> Stuff(body) == body
  {
    if body != [] {
      StuffLength(body[..|body| - 1]);
    }
  }

  lemma {:induction false} EscapesMonotone(body: seq<byte>, k: nat)
    requires k <= |body|
    ensures |Stuff(body[..k])| <= |Stuff(body)|
  {
    if k < |body| {
      EscapesMonotone(body[..|body| - 1], k);
      assert body[..|body| - 1][..k] == body[..k];
    } else {
      assert body[..k] == body;
    }
  }

  /** What is on the line for a buffer whose first and last bytes are its flags. */
  function Escaped(buf: seq<byte>): seq<byte> {
    if |buf| < 2 then buf else [buf[0]] + Stuff(buf[1..|buf| - 1]) + [buf[|buf| - 1]]
  }

  lemma StuffStep(body: seq<byte>, k: nat)
    requires k < |body|
    ensures Stuff(body[..k + 1]) == Stuff(body[..k]) + StuffByte(body[k])
    ensures Escapes(body[..k + 1]) == Escapes(body[..k]) + if NeedsEscape(body[k]) then 1 else 0
    ensures |Stuff(body[..k + 1])| <= |Stuff(body)|
  {
    hide NeedsEscape, Flip;
    assert body[..k + 1][..k] == body[..k];
    EscapesMonotone(body, k + 1);
  }

  /** `ppp_serial_send_escape`: counts the bytes to escape, then copies into a buffer of the
      exact size; without escapes the buffer goes out as it is. */
  method SendEscape(buf: seq<byte>) returns (line: seq<byte>)
    ensures line == Escaped(buf)
  {
    hide NeedsEscape, Flip, StuffByte;
    if |buf| < 2 { return buf; }
    var len, count, i := |buf|, 0, 1;
    ghost var body := buf[1..len - 1];
    while i < len - 1
      invariant 1 <= i <= len - 1
      invariant count == Escapes(body[..i - 1])
    {
      StuffStep(body, i - 1);
      if NeedsEscape(buf[i]) { count := count + 1; }
      i := i + 1;
    }
    StuffLength(body);
    assert body[..len - 2] == body;
    if count == 0 {
      assert buf == [buf[0]] + body + [buf[len - 1]];
      return buf;
    }
    var out := CopyEscaped(buf, len + count);
    line := out[..];
  }

  /** Writes the next element of a buffer that is filled from the front. */
  method Put<T>(out: array<T>, j: nat, x: T)
    requires j < out.Length
    modifies out
    ensures out[..j + 1] == old(out[..j]) + [x]
  {
    out[j] := x;
  }

  method PutStuffed(out: array<byte>, j: nat, b: byte) returns (j': nat)
    requires j + |StuffByte(b)| <= out.Length
    modifies out
    ensures j' == j + |StuffByte(b)|
    ensures out[..j'] == old(out[..j]) + StuffByte(b)
  {
    hide NeedsEscape, Flip;
    if NeedsEscape(b) {
      Put(out, j, ESCAPE);
      Put(out, j + 1, Flip(b));
      j' := j + 2;
    } else {
      Put(out, j, b);
      j' := j + 1;
    }
  }

  method CopyEscaped(buf: seq<byte>, newlen: nat) returns (out: array<byte>)
    requires |buf| >= 2 && newlen == 2 + |Stuff(buf[1..|buf| - 1])|
    ensures fresh(out) && out[..] == Escaped(buf)
  {
    hide StuffByte, Stuff;
    var len := |buf|;
    ghost var body := buf[1..len - 1];
    out := new byte[newlen];
    Put(out, 0, buf[0]);
    var i, j := 1, 1;
    StuffNothing(body);
    while i < len - 1
      invariant 1 <= i <= len - 1
      invariant j == 1 + |Stuff(body[..i - 1])| <= newlen - 1
      invariant out[..j] == [buf[0]] + Stuff(body[..i - 1])
    {
      StuffStep(body, i - 1);
      Assoc([buf[0]], Stuff(body[..i - 1]), StuffByte(buf[i]));
      j := PutStuffed(out, j, buf[i]);
      i := i + 1;
    }
    assert body[..len - 2] == body;
    Put(out, newlen - 1, buf[len - 1]);
    assert out[..] == out[..newlen];
  }

  lemma StuffNothing(body: seq<byte>)
    ensures Stuff(body[..0]) == []
  {}

  // ----- Receiver -----

  // Between two bytes the decoder keeps what it has collected of the current frame (`buf`)
  // and whether the last byte was an escape (`esc`).  The next three functions give its reaction
  // to one byte `x`: the new buffer, the new escape flag, and the frames handed up (at most one).

  function NextBuf(buf: seq<byte>, esc: bool, x: byte): seq<byte> {
    if x == FLAG then (if esc || |buf| > 1 then [] else buf)
    else if esc then buf + [Flip(x)]
    else if x == ESCAPE then buf
    else buf + [x]
  }

  function NextEsc(esc: bool, x: byte): bool {
    x != FLAG && !esc && x == ESCAPE
  }

  function Handed(buf: seq<byte>, esc: bool, x: byte): seq<seq<byte>> {
    if x == FLAG && !esc && |buf| > 1 then [buf] else []
  }

  // The same after a whole stream of bytes.

  function EscAfter(esc: bool, input: seq<byte>): bool {
    if input == [] then esc else NextEsc(EscAfter(esc, input[..|input| - 1]), input[|input| - 1])
  }

  function BufAfter(buf: seq<byte>, esc: bool, input: seq<byte>): seq<byte> {
    if input == [] then buf else
    var init := input[..|input| - 1];
    NextBuf(BufAfter(buf, esc, init), EscAfter(esc, init), input[|input| - 1])
  }

  function Delivered(buf: seq<byte>, esc: bool, input: seq<byte>): seq<seq<byte>> {
    if input == [] then [] else
    var init := input[..|input| - 1];
    Delivered(buf, esc, init) + Handed(BufAfter(buf, esc, init), EscAfter(esc, init), input[|input| - 1])
  }

  /** The receive buffer never overflows while `input` arrives. */
  predicate Fits(buf: seq<byte>, esc: bool, input: seq<byte>) {
    forall k :: 0 <= k < |input| ==> |BufAfter(buf, esc, input[..k])| < MAXPKT
  }

  lemma OneByte(buf: seq<byte>, esc: bool, x: byte)
    ensures EscAfter(esc, [x]) == NextEsc(esc, x)
    ensures BufAfter(buf, esc, [x]) == NextBuf(buf, esc, x)
    ensures Delivered(buf, esc, [x]) == Handed(buf, esc, x)
  {
    hide NextEsc, NextBuf, Handed;
    assert [x][..0] == [];
  }

  lemma NextByte(buf: seq<byte>, esc: bool, input: seq<byte>, k: nat)
    requires k < |input|
    ensures var b, e := BufAfter(buf, esc, input[..k]), EscAfter(esc, input[..k]);
      && BufAfter(buf, esc, input[..k + 1]) == NextBuf(b, e, input[k])
      && EscAfter(esc, input[..k + 1]) == NextEsc(e, input[k])
      && Delivered(buf, esc, input[..k + 1]) == Delivered(buf, esc, input[..k]) + Handed(b, e, input[k])
  {
    hide NextEsc, NextBuf, Handed;
    assert input[..k + 1][..k] == input[..k];
  }

  /** How a stream is cut into pieces does not matter. */
  lemma {:induction false} Pieces(buf: seq<byte>, esc: bool, a: seq<byte>, b: seq<byte>)
    ensures var buf1, esc1 := BufAfter(buf, esc, a), EscAfter(esc, a);
      && EscAfter(esc, a + b) == EscAfter(esc1, b)
      && BufAfter(buf, esc, a + b) == BufAfter(buf1, esc1, b)
      && Delivered(buf, esc, a + b) == Delivered(buf, esc, a) + Delivered(buf1, esc1, b)
  {
    hide NextEsc, NextBuf, Handed;
    if b == [] {
      assert a + b == a;
    } else {
      var n := |b| - 1;
      assert (a + b)[..|a + b| - 1] == a + b[..n];
      Pieces(buf, esc, a, b[..n]);
    }
  }

  // ----- Stuffed bodies -----

  lemma StuffedByte(buf: seq<byte>, b: byte)
    ensures BufAfter(buf, false, StuffByte(b)) == buf + [b]
    ensures EscAfter(false, StuffByte(b)) == false
    ensures Delivered(buf, false, StuffByte(b)) == []
  {
    EscapedBytes(b);
    hide NeedsEscape, Flip, BufAfter, EscAfter, Delivered;
    if NeedsEscape(b) {
      assert [ESCAPE, Flip(b)] == [ESCAPE] + [Flip(b)];
      Pieces(buf, false, [ESCAPE], [Flip(b)]);
      OneByte(buf, false, ESCAPE);
      OneByte(buf, true, Flip(b));
    } else {
      OneByte(buf, false, b);
    }
  }

  lemma AppendLast<T>(a: seq<T>, b: seq<T>)
    requires b != []
    ensures a + b[..|b| - 1] + [b[|b| - 1]] == a + b
  {}

  lemma {:induction false} Stuffed(buf: seq<byte>, body: seq<byte>)
    ensures BufAfter(buf, false, Stuff(body)) == buf + body
    ensures EscAfter(false, Stuff(body)) == false
    ensures Delivered(buf, false, Stuff(body)) == []
  {
    if body == [] {
      assert buf + body == buf;
    } else {
      var n := |body| - 1;
      assert Stuff(body) == Stuff(body[..n]) + StuffByte(body[n]);
      hide StuffByte, Stuff, BufAfter, EscAfter, Delivered;
      Stuffed(buf, body[..n]);
      StuffedByte(buf + body[..n], body[n]);
      Pieces(buf, false, Stuff(body[..n]), StuffByte(body[n]));
      AppendLast(buf, body);
      assert [] + [] == Delivered(buf, false, Stuff(body));
    }
  }

  /** A frame on the line: stuffed body between two flags. */
  function Frame(body: seq<byte>): seq<byte> {
    [FLAG] + Stuff(body) + [FLAG]
  }

  function Wire(bodies: seq<seq<byte>>): seq<byte> {
    if bodies == [] then [] else Wire(bodies[..|bodies| - 1]) + Frame(bodies[|bodies| - 1])
  }

  /** A frame from any state: its first flag may hand up what was collected, and what that flag leaves ends
      up in front of the body. */
  lemma FrameFrom(buf: seq<byte>, esc: bool, body: seq<byte>)
    requires |body| >= 2
    ensures BufAfter(buf, esc, Frame(body)) == [] && !EscAfter(esc, Frame(body))
    ensures Delivered(buf, esc, Frame(body)) == Handed(buf, esc, FLAG) + [NextBuf(buf, esc, FLAG) + body]
  {
    hide Stuff, BufAfter, EscAfter, Delivered;
    var left := NextBuf(buf, esc, FLAG);
    assert Frame(body) == [FLAG] + (Stuff(body) + [FLAG]);
    Pieces(buf, esc, [FLAG], Stuff(body) + [FLAG]);
    OneByte(buf, esc, FLAG);
    Pieces(left, false, Stuff(body), [FLAG]);
    Stuffed(left, body);
    OneByte(left + body, false, FLAG);
    assert [] + [left + body] == [left + body];
  }

  /** From any state the decoder hands up what its first flag makes it hand up, then the first body behind
      what that flag leaves, then the other bodies as they are; and it is clean. */
  lemma {:induction false} WireFrom(buf: seq<byte>, esc: bool, bodies: seq<seq<byte>>)
    requires bodies != [] && forall i :: 0 <= i < |bodies| ==> |bodies[i]| >= 2
    ensures BufAfter(buf, esc, Wire(bodies)) == [] && !EscAfter(esc, Wire(bodies))
    ensures Delivered(buf, esc, Wire(bodies)) == Handed(buf, esc, FLAG) + [NextBuf(buf, esc, FLAG) + bodies[0]] + bodies[1..]
  {
    var n := |bodies| - 1;
    hide *;
    WireStep(bodies);
    var head := Handed(buf, esc, FLAG) + [NextBuf(buf, esc, FLAG) + bodies[0]];
    if n == 0 {
      FrameFrom(buf, esc, bodies[0]);
      assert bodies[1..] == [] && head + [] == head;
    } else {
      WireFrom(buf, esc, bodies[..n]);
      Pieces(buf, esc, Wire(bodies[..n]), Frame(bodies[n]));
      FrameFrom([], false, bodies[n]);
      CleanFlag();
      assert [] + bodies[n] == bodies[n];
      LastBody(head, bodies);
    }
  }

  lemma CleanFlag()
    ensures Handed([], false, FLAG) == [] && NextBuf([], false, FLAG) == []
  {}

  lemma WireStep(bodies: seq<seq<byte>>)
    requires bodies != []
    ensures Wire(bodies) == Wire(bodies[..|bodies| - 1]) + Frame(bodies[|bodies| - 1])
    ensures |bodies| == 1 ==> Wire(bodies) == Frame(bodies[0])
  {
    hide Frame;
    if |bodies| == 1 {
      assert Wire(bodies[..0]) == [];
      assert [] + Frame(bodies[0]) == Frame(bodies[0]);
    }
  }

  lemma LastBody<T>(head: seq<T>, s: seq<T>)
    requires |s| >= 2
    ensures head + s[..|s| - 1][1..] + ([] + [s[|s| - 1]]) == head + s[1..] && s[..|s| - 1][0] == s[0]
  {}

  /** From its clean state the decoder delivers exactly the bodies that were framed, in order,
      and is clean again. */
  lemma WireDelivers(bodies: seq<seq<byte>>)
    requires forall i :: 0 <= i < |bodies| ==> |bodies[i]| >= 2
    ensures BufAfter([], false, Wire(bodies)) == [] && !EscAfter(false, Wire(bodies))
    ensures Delivered([], false, Wire(bodies)) == bodies
  {
    if bodies != [] {
      WireFrom([], false, bodies);
      assert [] + bodies[0] == bodies[0] && [] + [bodies[0]] + bodies[1..] == bodies;
    }
  }

  // ----- The receive buffer is large enough -----

  lemma FitsAt(buf: seq<byte>, esc: bool, input: seq<byte>, k: nat)
    requires Fits(buf, esc, input) && k < |input|
    ensures |BufAfter(buf, esc, input[..k])| < MAXPKT
  {
    hide BufAfter;
  }

  lemma FitsPiecesAt(buf: seq<byte>, esc: bool, a: seq<byte>, b: seq<byte>, k: nat)
    requires Fits(buf, esc, a) && Fits(BufAfter(buf, esc, a), EscAfter(esc, a), b) && k < |a + b|
    ensures |BufAfter(buf, esc, (a + b)[..k])| < MAXPKT
  {
    hide *;
    if k < |a| {
      TakeLeft(a, b, k);
      FitsAt(buf, esc, a, k);
    } else {
      TakeRight(a, b, k - |a|);
      Pieces(buf, esc, a, b[..k - |a|]);
      FitsAt(BufAfter(buf, esc, a), EscAfter(esc, a), b, k - |a|);
    }
  }

  lemma FitsPieces(buf: seq<byte>, esc: bool, a: seq<byte>, b: seq<byte>)
    requires Fits(buf, esc, a) && Fits(BufAfter(buf, esc, a), EscAfter(esc, a), b)
    ensures Fits(buf, esc, a + b)
  {
    hide BufAfter, EscAfter;
    forall k | 0 <= k < |a + b| ensures |BufAfter(buf, esc, (a + b)[..k])| < MAXPKT { FitsPiecesAt(buf, esc, a, b, k); }
  }

  lemma FitsByte(buf: seq<byte>, esc: bool, x: byte)
    requires |buf| < MAXPKT
    ensures Fits(buf, esc, [x])
  {}

  lemma FitsStuffedByte(buf: seq<byte>, b: byte)
    requires |buf| < MAXPKT
    ensures Fits(buf, false, StuffByte(b))
  {
    hide NeedsEscape, Flip, BufAfter, EscAfter, Fits;
    FitsByte(buf, false, b);
    FitsByte(buf, false, ESCAPE);
    OneByte(buf, false, ESCAPE);
    FitsByte(buf, true, Flip(b));
    FitsPieces(buf, false, [ESCAPE], [Flip(b)]);
    assert [ESCAPE, Flip(b)] == [ESCAPE] + [Flip(b)];
  }

  lemma {:induction false} FitsStuffed(buf: seq<byte>, body: seq<byte>)
    requires |buf| + |body| < MAXPKT
    ensures Fits(buf, false, Stuff(body))
  {
    if body != [] {
      var n := |body| - 1;
      assert Stuff(body) == Stuff(body[..n]) + StuffByte(body[n]);
      hide StuffByte, Stuff, BufAfter, EscAfter, Fits;
      FitsStuffed(buf, body[..n]);
      Stuffed(buf, body[..n]);
      FitsStuffedByte(buf + body[..n], body[n]);
      FitsPieces(buf, false, Stuff(body[..n]), StuffByte(body[n]));
    }
  }

  lemma FitsFrame(body: seq<byte>)
    requires |body| < MAXPKT
    ensures Fits([], false, Frame(body))
  {
    hide Stuff, BufAfter, EscAfter, Delivered, Fits;
    FitsByte([], false, FLAG);
    OneByte([], false, FLAG);
    FitsStuffed([], body);
    FitsPieces([], false, [FLAG], Stuff(body));
    Pieces([], false, [FLAG], Stuff(body));
    Stuffed([], body);
    assert [] + body == body;
    FitsByte(body, false, FLAG);
    FitsPieces([], false, [FLAG] + Stuff(body), [FLAG]);
  }

  /** Frames of fewer than `MAXPKT` bytes never overrun the receive buffer. */
  lemma {:induction false} FitsWire(bodies: seq<seq<byte>>)
    requires forall i :: 0 <= i < |bodies| ==> 2 <= |bodies[i]| < MAXPKT
    ensures Fits([], false, Wire(bodies))
  {
    if bodies != [] {
      var n := |bodies| - 1;
      assert Wire(bodies) == Wire(bodies[..n]) + Frame(bodies[n]);
      hide Frame, Wire, BufAfter, EscAfter, Delivered, Fits;
      FitsWire(bodies[..n]);
      WireDelivers(bodies[..n]);
      FitsFrame(bodies[n]);
      FitsPieces([], false, Wire(bodies[..n]), Frame(bodies[n]));
    }
  }

  // ----- Resynchronisation -----

  /** After any noise, that is from any state, the frames that follow are delivered as they are exactly
      unless one unescaped byte has been collected; then that byte is put in front of the first body, and
      only that body is spoiled. */
  lemma FlagResyncs(buf: seq<byte>, esc: bool, bodies: seq<seq<byte>>)
    requires bodies != [] && forall i :: 0 <= i < |bodies| ==> |bodies[i]| >= 2
    ensures Delivered(buf, esc, Wire(bodies)) == Handed(buf, esc, FLAG) + bodies <==> esc || |buf| != 1
    ensures !esc && |buf| == 1 ==> Delivered(buf, esc, Wire(bodies)) == [buf + bodies[0]] + bodies[1..]
  {
    hide *;
    WireFrom(buf, esc, bodies);
    FirstFlag(buf, esc, bodies[0]);
    FirstReplaced(Handed(buf, esc, FLAG), NextBuf(buf, esc, FLAG) + bodies[0], bodies);
    assert !esc && |buf| == 1 ==> [] + [buf + bodies[0]] + bodies[1..] == [buf + bodies[0]] + bodies[1..];
  }

  lemma FirstFlag(buf: seq<byte>, esc: bool, body: seq<byte>)
    ensures NextBuf(buf, esc, FLAG) + body == body <==> esc || |buf| != 1
    ensures !esc && |buf| == 1 ==> Handed(buf, esc, FLAG) == [] && NextBuf(buf, esc, FLAG) == buf
  {
    assert [] + body == body;
    assert |NextBuf(buf, esc, FLAG) + body| == |NextBuf(buf, esc, FLAG)| + |body|;
  }

  lemma FirstReplaced<T>(p: seq<T>, x: T, s: seq<T>)
    requires s != []
    ensures p + [x] + s[1..] == p + s <==> x == s[0]
  {
    assert (p + [x] + s[1..])[|p|] == x && (p + s)[|p|] == s[0];
    if x == s[0] { assert p + [x] + s[1..] == p + s; }
  }

  // ----- The receiver object -----

  class Receiver {
    var recv: array<byte>
    var len: nat
    var escaped: bool
    var line: seq<byte>             // bytes the serial port has not handed over yet
    var delivered: seq<seq<byte>>   // frames handed up, oldest first

    ghost predicate Valid()
      reads this
    {
      recv.Length == MAXPKT && len <= MAXPKT
    }

    ghost function Buf(): seq<byte>
      requires Valid()
      reads this, recv
    {
      recv[..len]
    }

    constructor (input: seq<byte>)
      ensures Valid() && fresh(recv) && Buf() == [] && !escaped && line == input && delivered == []
    {
      recv := new byte[MAXPKT](_ => FLAG);
      len, escaped := 0, false;
      line, delivered := input, [];
    }

    method Take(x: byte)
      requires Valid() && len < MAXPKT
      modifies this`len, this`escaped, this`delivered, recv
      ensures Valid() && recv == old(recv)
      ensures Buf() == NextBuf(old(Buf()), old(escaped), x)
      ensures escaped == NextEsc(old(escaped), x)
      ensures delivered == old(delivered) + Handed(old(Buf()), old(escaped), x)
    {
      hide Flip;
      recv[len] := x;
      if recv[len] == FLAG {
        if escaped {
          escaped := false;
          len := 0;
        }
        if len > 1 {
          delivered := delivered + [recv[..len]];
          len := 0;
        }
      } else if escaped {
        recv[len] := Flip(recv[len]);
        escaped := false;
        len := len + 1;
      } else if recv[len] == ESCAPE {
        escaped := true;
      } else {
        len := len + 1;
      }
    }

    /** `pico_ppp_poll` while the modem is connected: reads until the line is empty or
        `loopScore` frames have been handed up, but always at least one byte. */
    method Poll(loopScore: int) returns (score: int, ghost k: nat)
      requires Valid() && Fits(Buf(), escaped, line)
      modifies this`len, this`escaped, this`delivered, this`line, recv
      ensures Valid() && recv == old(recv)
      ensures k <= |old(line)| && line == old(line)[k..]
      ensures Buf() == BufAfter(old(Buf()), old(escaped), old(line)[..k])
      ensures escaped == EscAfter(old(escaped), old(line)[..k])
      ensures delivered == old(delivered) + Delivered(old(Buf()), old(escaped), old(line)[..k])
      ensures score == loopScore - (|delivered| - |old(delivered)|)
      ensures line == [] || (k > 0 && score <= 0)
    {
      hide NextBuf, NextEsc, Handed;
      ghost var buf, esc, input := Buf(), escaped, line;
      score, k := loopScore, 0;
      var again := true;
      while again && line != []
        invariant Valid() && recv == old(recv)
        invariant k <= |input| && line == input[k..]
        invariant Buf() == BufAfter(buf, esc, input[..k])
        invariant escaped == EscAfter(esc, input[..k])
        invariant delivered == old(delivered) + Delivered(buf, esc, input[..k])
        invariant score == loopScore - (|delivered| - |old(delivered)|)
        invariant !again ==> k > 0 && (score <= 0 || line == [])
        decreases |line|
      {
        var queued := |delivered|;
        NextByte(buf, esc, input, k);
        Take(line[0]);
        line, k := line[1..], k + 1;
        score := score - (|delivered| - queued);
        again := len < MAXPKT && score > 0;
        assert line != [] ==> |BufAfter(buf, esc, input[..k])| < MAXPKT;
      }
    }
  }

  lemma FitsRest(buf: seq<byte>, esc: bool, a: seq<byte>, b: seq<byte>)
    requires Fits(buf, esc, a + b)
    ensures Fits(BufAfter(buf, esc, a), EscAfter(esc, a), b)
  {
    hide BufAfter, EscAfter, Delivered;
    forall k | 0 <= k < |b| ensures |BufAfter(BufAfter(buf, esc, a), EscAfter(esc, a), b[..k])| < MAXPKT {
      TakeRight(a, b, k);
      FitsAt(buf, esc, a + b, |a| + k);
      Pieces(buf, esc, a, b[..k]);
    }
  }

  lemma FitsPrefix(buf: seq<byte>, esc: bool, a: seq<byte>, b: seq<byte>)
    requires Fits(buf, esc, a + b)
    ensures Fits(buf, esc, a)
  {
    hide BufAfter, EscAfter;
    forall k | 0 <= k < |a| ensures |BufAfter(buf, esc, a[..k])| < MAXPKT {
      TakeLeft(a, b, k);
      FitsAt(buf, esc, a + b, k);
    }
  }

  function Concat(chunks: seq<seq<byte>>): seq<byte> {
    if chunks == [] then [] else chunks[0] + Concat(chunks[1..])
  }

  /** One poll, when the receiver has read `read` of what has arrived and `later` is still to come. */
  method PollOnce(r: Receiver, loopScore: int, ghost read: seq<byte>, ghost later: seq<byte>, ghost wire: seq<byte>)
    returns (ghost read': seq<byte>)
    requires r.Valid() && Fits([], false, wire) && wire == read + r.line + later
    requires r.Buf() == BufAfter([], false, read) && r.escaped == EscAfter(false, read) && r.delivered == Delivered([], false, read)
    modifies r`len, r`escaped, r`delivered, r`line, r.recv
    ensures r.Valid() && r.recv == old(r.recv) && wire == read' + r.line + later
    ensures r.Buf() == BufAfter([], false, read') && r.escaped == EscAfter(false, read') && r.delivered == Delivered([], false, read')
    ensures r.line == [] || |r.line| < |old(r.line)|
  {
    hide BufAfter, EscAfter, Delivered, Fits;
    ghost var line := r.line;
    assert wire == read + (line + later);
    FitsRest([], false, read, line + later);
    FitsPrefix(BufAfter([], false, read), EscAfter(false, read), line, later);
    var score, k := r.Poll(loopScore);
    Pieces([], false, read, line[..k]);
    read' := read + line[..k];
    assert line == line[..k] + line[k..];
    assert read + line + later == read' + line[k..] + later;
  }

  /** The framed bodies arrive in pieces of any size, and after each piece the receiver is polled with a
      limit of its own; in the end it is polled until the line is empty.  Exactly the bodies are delivered. */
  method PollAll(bodies: seq<seq<byte>>, chunks: seq<seq<byte>>, scores: seq<int>, last: int) returns (r: Receiver)
    requires forall i :: 0 <= i < |bodies| ==> 2 <= |bodies[i]| < MAXPKT
    requires Concat(chunks) == Wire(bodies) && |scores| == |chunks|
    ensures fresh(r) && r.line == [] && r.delivered == bodies
  {
    hide BufAfter, EscAfter, Delivered, Fits, Wire;
    ghost var wire := Wire(bodies);
    FitsWire(bodies);
    WireDelivers(bodies);
    r := new Receiver([]);
    ghost var read: seq<byte> := [];
    Nothing();
    assert chunks[0..] == chunks;
    for i := 0 to |chunks|
      invariant fresh(r) && r.Valid() && fresh(r.recv) && wire == read + r.line + Concat(chunks[i..])
      invariant r.Buf() == BufAfter([], false, read) && r.escaped == EscAfter(false, read) && r.delivered == Delivered([], false, read)
    {
      assert chunks[i..][0] == chunks[i] && chunks[i..][1..] == chunks[i + 1..];
      Regroup(read, r.line, chunks[i], Concat(chunks[i + 1..]));
      r.line := r.line + chunks[i];
      read := PollOnce(r, scores[i], read, Concat(chunks[i + 1..]), wire);
    }
    while r.line != []
      invariant fresh(r) && r.Valid() && fresh(r.recv) && wire == read + r.line + []
      invariant r.Buf() == BufAfter([], false, read) && r.escaped == EscAfter(false, read) && r.delivered == Delivered([], false, read)
      decreases |r.line|
    {
      read := PollOnce(r, last, read, [], wire);
    }
    assert read == wire;
  }

  lemma Regroup<T>(a: seq<T>, b: seq<T>, c: seq<T>, d: seq<T>)
    ensures a + b + (c + d) == a + (b + c) + d
  {}

  lemma Nothing()
    ensures BufAfter([], false, []) == [] && !EscAfter(false, []) && Delivered([], false, []) == []
  {}

  // ----- Control packets end to end -----

  /** What the frame check covers: address, control, protocol and payload. */
  function Packet(p0: byte, p1: byte, payload: seq<byte>): seq<byte> {
    [ADDR, CTRL, p0, p1] + payload
  }

  function Checked(packet: seq<byte>): seq<byte> {
    packet + Trailer(packet)
  }

  method FillHeader(p0: byte, p1: byte, pkt: array<byte>)
    requires pkt.Length >= 8
    modifies pkt
    ensures pkt[..pkt.Length - 3] == [FLAG] + Packet(p0, p1, old(pkt[5..pkt.Length - 3]))
  {
    pkt[0], pkt[1], pkt[2] := FLAG, ADDR, CTRL;
    pkt[3], pkt[4] := p0, p1;
  }

  method FillTrailer<T>(pkt: array<T>, lo: T, hi: T, flag: T)
    requires pkt.Length >= 3
    modifies pkt
    ensures pkt[..] == old(pkt[..pkt.Length - 3]) + [lo, hi, flag]
  {
    var len := pkt.Length;
    pkt[len - 3], pkt[len - 2], pkt[len - 1] := lo, hi, flag;
  }

  lemma Inside<T>(a: T, body: seq<T>, x: T, y: T, z: T)
    ensures var s := [a] + body + [x, y, z];
      |s| >= 2 && s[0] == a && s[|s| - 1] == z && s[1..|s| - 1] == body + [x, y]
  {}

  /** `pico_ppp_ctl_send`: fills in header, check sequence and flags around a payload that is
      already in place, and puts the escaped frame on the line. */
  method CtlSend(p0: byte, p1: byte, pkt: array<byte>) returns (line: seq<byte>)
    requires pkt.Length >= 8
    modifies pkt
    ensures line == Frame(Checked(Packet(p0, p1, old(pkt[5..pkt.Length - 3]))))
  {
    hide Stuff, FcsFrom, Finish, LowByte, HighByte, Packet;
    ghost var packet := Packet(p0, p1, pkt[5..pkt.Length - 3]);
    FillHeader(p0, p1, pkt);
    assert pkt[1..pkt.Length - 3] == packet;
    var fcs := FcsContinue(INITIAL_FCS, pkt[1..pkt.Length - 3]);
    fcs := Finish(fcs);
    FillTrailer(pkt, Byte(LowByte(fcs)), Byte(HighByte(fcs)), FLAG);
    Inside(FLAG, packet, Byte(LowByte(fcs)), Byte(HighByte(fcs)), FLAG);
    line := SendEscape(pkt[..]);
  }

  datatype Received = Dropped | Accepted(payload: seq<byte>)

  /** `ppp_process_packet`: frames that fail the check are dropped; the check sequence and an
      address and control field are removed from the others. */
  function Process(frame: seq<byte>): Received
    requires |frame| >= 2
  {
    if !Verifies(frame) then Dropped
    else if |frame| >= 4 && frame[0] == ADDR && frame[1] == CTRL then Accepted(frame[2..|frame| - 2])
    else Accepted(frame[..|frame| - 2])
  }

  lemma ProcessChecked(p0: byte, p1: byte, payload: seq<byte>)
    ensures Process(Checked(Packet(p0, p1, payload))) == Accepted([p0, p1] + payload)
  {
    hide FcsFrom, LowByte, HighByte, Finish, Verifies;
    TrailerVerifies(Packet(p0, p1, payload));
    var frame := Checked(Packet(p0, p1, payload));
    assert frame[2..|frame| - 2] == [p0, p1] + payload;
  }

  datatype Control = Control(p0: byte, p1: byte, payload: seq<byte>)

  function Bodies(packets: seq<Control>): seq<seq<byte>> {
    seq(|packets|, i requires 0 <= i < |packets| => Checked(Packet(packets[i].p0, packets[i].p1, packets[i].payload)))
  }

  /** Whatever control packets are sent back to back, the receiver accepts exactly their
      protocol and payload, in order. */
  lemma ControlEndToEnd(packets: seq<Control>)
    requires forall i :: 0 <= i < |packets| ==> |packets[i].payload| <= MAXPKT - 7
    ensures Fits([], false, Wire(Bodies(packets)))
    ensures var frames := Delivered([], false, Wire(Bodies(packets)));
      && |frames| == |packets|
      && forall i :: 0 <= i < |packets| ==>
           |frames[i]| >= 2 && Process(frames[i]) == Accepted([packets[i].p0, packets[i].p1] + packets[i].payload)
  {
    hide Delivered, Wire, Process, Fits;
    WireDelivers(Bodies(packets));
    FitsWire(Bodies(packets));
    forall i | 0 <= i < |packets|
      ensures Process(Bodies(packets)[i]) == Accepted([packets[i].p0, packets[i].p1] + packets[i].payload)
    {
      ProcessChecked(packets[i].p0, packets[i].p1, packets[i].payload);
    }
  }
}
