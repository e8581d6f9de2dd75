/**
 The 16-bit frame check sequence of PPP (Appendix C of RFC 1662).
 */
module PppFcs {
  import opened Bytes

  const INITIAL_FCS: bv16 := 0xFFFF
  const GOOD_FCS: bv16 := 0xF0B8

  function Xor(a: bv16, b: bv16): bv16 { a ^ b }

  function Low(x: bv16): bv16 { x & 0x00FF }

  function High(x: bv16): bv16 { x >> 8 }

  function AddByte(crc: bv16, data: bv8): bv16 { crc ^ (data as bv16) }

  /** The part of a byte step that depends on the low byte of the register. */
  function Mix(w: bv16): bv16 {
    var w1 := w ^ ((w << 4) & 0x00FF);
    (w1 << 8) ^ (w1 << 3) ^ (w1 >> 4)
  }

  /** The shift-and-xor form the driver uses for one byte. */
  function FcsChar(crc: bv16, data: bv8): bv16 {
    Xor(High(crc), Mix(Low(AddByte(crc, data))))
  }

  // ----- The driver's byte step is the bit-serial CRC -----

  /** One bit of the CRC with the (reversed) polynomial 0x8408. */
  function BitStep(crc: bv16): bv16 {
    if crc & 1 == 1 then (crc >> 1) ^ 0x8408 else crc >> 1
  }

  function BitSteps(crc: bv16, n: nat): bv16
    decreases n
  {
    if n == 0 then crc else BitSteps(BitStep(crc), n - 1)
  }

  function Taps(crc: bv16): bv16 {
    (crc >> 1) ^ ((crc & 1) << 15) ^ ((crc & 1) << 10) ^ ((crc & 1) << 3)
  }

  lemma BitStepTaps(crc: bv16)
    ensures BitStep(crc) == Taps(crc)
  {}

  lemma TapsLinear(x: bv16, y: bv16)
    ensures Taps(Xor(x, y)) == Xor(Taps(x), Taps(y))
  {}

  lemma {:induction false} BitStepsLinear(x: bv16, y: bv16, n: nat)
    ensures BitSteps(Xor(x, y), n) == Xor(BitSteps(x, n), BitSteps(y, n))
    decreases n
  {
    hide Taps, BitStep, Xor;
    if n > 0 {
      TapsLinear(x, y);
      BitStepTaps(x);
      BitStepTaps(y);
      BitStepTaps(Xor(x, y));
      BitStepsLinear(BitStep(x), BitStep(y), n - 1);
    }
  }

  lemma Unroll8(x: bv16)
    ensures BitSteps(x, 8) ==
      BitStep(BitStep(BitStep(BitStep(BitStep(BitStep(BitStep(BitStep(x))))))))
  {
    hide BitStep;
    assert BitSteps(x, 8) == BitSteps(BitStep(BitStep(x)), 6);
    var y := BitStep(BitStep(x));
    assert BitSteps(y, 6) == BitSteps(BitStep(BitStep(y)), 4);
    var z := BitStep(BitStep(y));
    assert BitSteps(z, 4) == BitSteps(BitStep(BitStep(z)), 2);
    var w := BitStep(BitStep(z));
    assert BitSteps(w, 2) == BitSteps(BitStep(w), 1);
  }

  function ClearLow(x: bv16): bv16 { x & 0xFF00 }

  lemma HighByteSteps(x: bv16)
    ensures BitSteps(ClearLow(x), 8) == High(x)
  {
    Unroll8(ClearLow(x));
    hide BitSteps;
  }

  lemma LowByteSteps(x: bv16)
    ensures BitSteps(Low(x), 8) == Mix(Low(x))
  {
    Unroll8(Low(x));
    hide BitSteps;
  }

  lemma SplitByte(crc: bv16, data: bv8)
    ensures var x := AddByte(crc, data); x == Xor(ClearLow(x), Low(x)) && High(x) == High(crc)
  {}

  lemma FcsCharIsBitSerial(crc: bv16, data: bv8)
    ensures FcsChar(crc, data) == BitSteps(AddByte(crc, data), 8)
  {
    hide BitSteps, Mix, Xor, AddByte, Low, High, ClearLow;
    var x := AddByte(crc, data);
    SplitByte(crc, data);
    BitStepsLinear(ClearLow(x), Low(x), 8);
    HighByteSteps(x);
    LowByteSteps(x);
  }

  // ----- No change of two bytes goes unnoticed -----

  lemma MixTop(v: bv16, w: bv16)
    requires High(Mix(Low(v))) == High(Mix(Low(w)))
    ensures Low(v) == Low(w)
  {
    MixUndo(v);
    MixUndo(w);
    hide Mix, Low, High, Unmix;
  }

  function Unmix(t: bv16): bv16 {
    var w1 := t ^ (t >> 5);
    w1 ^ ((w1 << 4) & 0x00FF)
  }

  lemma MixUndo(w: bv16)
    ensures Unmix(High(Mix(Low(w)))) == Low(w)
  {}

  lemma XorHigh(c: bv16, m: bv16)
    ensures High(Xor(High(c), m)) == High(m)
  {}

  lemma XorCancel(a: bv16, b: bv16, m: bv16)
    requires Xor(a, m) == Xor(b, m)
    ensures a == b
  {}

  /** Equal results come from registers with equal high bytes and equal mixed low bytes. */
  lemma FcsCharUndo(c: bv16, a: bv8, d: bv16, b: bv8)
    requires FcsChar(c, a) == FcsChar(d, b)
    ensures Low(AddByte(c, a)) == Low(AddByte(d, b)) && High(c) == High(d)
  {
    hide Mix, Low, High, Xor, AddByte;
    XorHigh(c, Mix(Low(AddByte(c, a))));
    XorHigh(d, Mix(Low(AddByte(d, b))));
    MixTop(AddByte(c, a), AddByte(d, b));
    XorCancel(High(c), High(d), Mix(Low(AddByte(c, a))));
  }

  lemma SameByte(c: bv16, a: bv8, b: bv8)
    requires Low(AddByte(c, a)) == Low(AddByte(c, b))
    ensures a == b
  {}

  lemma SameRegister(c: bv16, d: bv16, a: bv8)
    requires Low(AddByte(c, a)) == Low(AddByte(d, a)) && High(c) == High(d)
    ensures c == d
  {}

  lemma FcsCharInjective(c: bv16, d: bv16, a: bv8)
    requires FcsChar(c, a) == FcsChar(d, a)
    ensures c == d
  {
    hide FcsChar, Low, High, AddByte;
    FcsCharUndo(c, a, d, a);
    SameRegister(c, d, a);
  }

  lemma FcsCharHigh(c: bv16, a: bv8)
    ensures High(FcsChar(c, a)) == High(Mix(Low(AddByte(c, a))))
  {
    hide Mix, Low, Xor, High, AddByte;
    XorHigh(c, Mix(Low(AddByte(c, a))));
  }

  lemma TwoBytesInjective(c: bv16, a1: bv8, a2: bv8, b1: bv8, b2: bv8)
    requires FcsChar(FcsChar(c, a1), a2) == FcsChar(FcsChar(c, b1), b2)
    ensures a1 == b1 && a2 == b2
  {
    hide FcsChar, Low, High, AddByte, Mix;
    FcsCharUndo(FcsChar(c, a1), a2, FcsChar(c, b1), b2);
    FcsCharHigh(c, a1);
    FcsCharHigh(c, b1);
    MixTop(AddByte(c, a1), AddByte(c, b1));
    SameByte(c, a1, b1);
    SameByte(FcsChar(c, a1), a2, b2);
  }

  /** Running the register over its own complement, low byte first, always gives the good value. */
  lemma Residue(c: bv16)
    ensures FcsChar(FcsChar(c, LowByte(Finish(c))), HighByte(Finish(c))) == GOOD_FCS
  {}

  function LowByte(x: bv16): bv8 { (x & 0xFF) as bv8 }

  function HighByte(x: bv16): bv8 { ((x & 0xFF00) >> 8) as bv8 }

  // ----- Buffers -----

  function FcsFrom(fcs: bv16, buf: seq<byte>): bv16 {
    if buf == [] then fcs else FcsChar(FcsFrom(fcs, buf[..|buf| - 1]), buf[|buf| - 1].bits)
  }

  function Finish(fcs: bv16): bv16 { fcs ^ 0xFFFF }

  method FcsContinue(fcs: bv16, buf: seq<byte>) returns (r: bv16)
    ensures r == FcsFrom(fcs, buf)
  {
    hide FcsChar;
    r := fcs;
    for pos := 0 to |buf|
      invariant r == FcsFrom(fcs, buf[..pos])
    {
      assert buf[..pos + 1][..pos] == buf[..pos];
      r := FcsChar(r, buf[pos].bits);
    }
    assert buf[..|buf|] == buf;
  }

  lemma {:induction false} FcsAppend(c: bv16, a: seq<byte>, b: seq<byte>)
    ensures FcsFrom(c, a + b) == FcsFrom(FcsFrom(c, a), b)
  {
    hide FcsChar;
    if b == [] {
      assert a + b == a;
    } else {
      var n := |b| - 1;
      assert (a + b)[..|a + b| - 1] == a + b[..n];
      FcsAppend(c, a, b[..n]);
    }
  }

  lemma {:induction false} FcsFromInjective(c: bv16, d: bv16, s: seq<byte>)
    requires FcsFrom(c, s) == FcsFrom(d, s)
    ensures c == d
  {
    hide FcsChar;
    if s != [] {
      var n := |s| - 1;
      FcsCharInjective(FcsFrom(c, s[..n]), FcsFrom(d, s[..n]), s[n].bits);
      FcsFromInjective(c, d, s[..n]);
    }
  }

  lemma FcsPair(c: bv16, x: byte, y: byte)
    ensures FcsFrom(c, [x, y]) == FcsChar(FcsChar(c, x.bits), y.bits)
  {
    hide FcsChar;
    assert [x, y][..1] == [x] && [x][..0] == [];
    assert FcsFrom(c, [x]) == FcsChar(FcsFrom(c, []), x.bits);
  }

  /** Two buffers of equal length that differ only within two adjacent bytes never share an FCS. */
  lemma BurstChangesFcs(c: bv16, p: seq<byte>, a1: byte, a2: byte, b1: byte, b2: byte, q: seq<byte>)
    requires FcsFrom(c, p + [a1, a2] + q) == FcsFrom(c, p + [b1, b2] + q)
    ensures a1 == b1 && a2 == b2
  {
    hide FcsChar, FcsFrom;
    var c1 := FcsFrom(c, p);
    FcsAppend(c, p + [a1, a2], q);
    FcsAppend(c, p + [b1, b2], q);
    FcsFromInjective(FcsFrom(c, p + [a1, a2]), FcsFrom(c, p + [b1, b2]), q);
    FcsAppend(c, p, [a1, a2]);
    FcsAppend(c, p, [b1, b2]);
    FcsPair(c1, a1, a2);
    FcsPair(c1, b1, b2);
    TwoBytesInjective(c1, a1.bits, a2.bits, b1.bits, b2.bits);
  }

  /** The check sequence of a body, in the order it is sent. */
  function Trailer(body: seq<byte>): seq<byte> {
    var f := Finish(FcsFrom(INITIAL_FCS, body));
    [Byte(LowByte(f)), Byte(HighByte(f))]
  }

  /** The receiver's test: the last two bytes are the check sequence of what precedes them. */
  predicate Verifies(frame: seq<byte>)
    requires |frame| >= 2
  {
    var n := |frame| - 2;
    var f := Finish(FcsFrom(INITIAL_FCS, frame[..n]));
    frame[n] == Byte(LowByte(f)) && frame[n + 1] == Byte(HighByte(f))
  }

  method FcsVerify(frame: seq<byte>) returns (ok: bool)
    requires |frame| >= 2
    ensures ok <==> Verifies(frame)
  {
    hide FcsFrom, LowByte, HighByte, Finish;
    var n := |frame|;
    var fcs := FcsContinue(INITIAL_FCS, frame[..n - 2]);
    fcs := Finish(fcs);
    ok := Byte(HighByte(fcs)) == frame[n - 1] && Byte(LowByte(fcs)) == frame[n - 2];
  }

  lemma TrailerVerifies(body: seq<byte>)
    ensures Verifies(body + Trailer(body))
  {
    hide FcsFrom, LowByte, HighByte, Finish;
    assert (body + Trailer(body))[..|body|] == body;
  }

  lemma GoodPair(c: bv16, x: byte, y: byte)
    ensures FcsChar(FcsChar(c, x.bits), y.bits) == GOOD_FCS
            <==> x == Byte(LowByte(Finish(c))) && y == Byte(HighByte(Finish(c)))
  {
    hide FcsChar, LowByte, HighByte, Finish;
    var lo, hi := LowByte(Finish(c)), HighByte(Finish(c));
    Residue(c);
    if FcsChar(FcsChar(c, x.bits), y.bits) == GOOD_FCS {
      TwoBytesInjective(c, x.bits, y.bits, lo, hi);
    }
  }

  lemma FcsLastTwo(c: bv16, frame: seq<byte>)
    requires |frame| >= 2
    ensures var n := |frame| - 2;
      FcsFrom(c, frame) == FcsChar(FcsChar(FcsFrom(c, frame[..n]), frame[n].bits), frame[n + 1].bits)
  {
    hide FcsChar;
    var n := |frame| - 2;
    assert frame[..n + 1][..n] == frame[..n];
    assert frame[..n + 1][n] == frame[n];
  }

  /** Equivalently, the register ends at the fixed good value after the whole frame. */
  lemma VerifiesIffGood(frame: seq<byte>)
    requires |frame| >= 2
    ensures Verifies(frame) <==> FcsFrom(INITIAL_FCS, frame) == GOOD_FCS
  {
    hide FcsChar, FcsFrom, LowByte, HighByte, Finish;
    var n := |frame| - 2;
    FcsLastTwo(INITIAL_FCS, frame);
    GoodPair(FcsFrom(INITIAL_FCS, frame[..n]), frame[n], frame[n + 1]);
  }

  /** No corruption of a valid frame confined to two adjacent bytes, trailer included, passes the test. */
  lemma BurstDetected(p: seq<byte>, a1: byte, a2: byte, b1: byte, b2: byte, q: seq<byte>)
    requires Verifies(p + [a1, a2] + q) && Verifies(p + [b1, b2] + q)
    ensures a1 == b1 && a2 == b2
  {
    VerifiesIffGood(p + [a1, a2] + q);
    VerifiesIffGood(p + [b1, b2] + q);
    BurstChangesFcs(INITIAL_FCS, p, a1, a2, b1, b2, q);
  }
}
