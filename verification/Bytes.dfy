/** Bytes, and numbers as the bit patterns the code stores them in. */
module Bytes {

  datatype Option<T> = None | Some(value: T)

  /** A byte where the code calculates with it as a number. */
  type octet = x: nat | x < 256

  /** A bit pattern in a constructor, so that sequences of bytes are compared as wholes. */
  datatype byte = Byte(bits: bv8)

  /** The cast of a number to eight bits. */
  function Bits8(n: nat): bv8 {
    if n == 0 then 0 else Bits8(n - 1) + 1
  }

  /** The number a bit pattern stands for. */
  function Num(v: bv8): nat { v as int }

  lemma Successor8(v: bv8)
    requires v != 0xFF
    ensures Num(v + 1) == Num(v) + 1
  {}

  lemma {:induction false} Value8(n: nat)
    requires n < 256
    ensures Num(Bits8(n)) == n
  {
    if n > 0 {
      Value8(n - 1);
      Successor8(Bits8(n - 1));
    }
  }

  lemma Below8(v: bv8, w: bv8)
    ensures v < w <==> Num(v) < Num(w)
  {}

  /** The two bytes of a 16-bit number. */
  function High(n: nat): byte { Byte(Bits8(n / 256 % 256)) }

  function Low(n: nat): byte { Byte(Bits8(n % 256)) }

  function Join(hi: bv8, lo: bv8): nat { 256 * Num(hi) + Num(lo) }

  lemma JoinSplit(n: nat)
    requires n < 65536
    ensures Join(High(n).bits, Low(n).bits) == n
  {
    hide Bits8, Num;
    Value8(n / 256 % 256);
    Value8(n % 256);
  }

  function Zeros(n: nat): (r: seq<byte>)
    ensures |r| == n
  {
    seq(n, _ => Byte(0))
  }
}
