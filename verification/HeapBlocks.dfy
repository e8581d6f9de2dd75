/** The storage of a heap: up to sixteen blocks of equal size, of which the last grows one element at a
    time.  Seen from outside it is one flat array. */
module HeapBlocks {
  import opened HeapOrder

  const MAX_BLOCKS := 16

  type Blocks = seq<seq<Elem>>

  /** The block of element `i`, and its place there. */
  function Block(epb: nat, i: nat): nat
    requires epb > 0
  {
    i / epb
  }

  function Slot(epb: nat, i: nat): nat
    requires epb > 0
  {
    i % epb
  }

  lemma Parts(epb: nat, i: nat)
    requires epb > 0
    ensures i == epb * Block(epb, i) + Slot(epb, i) && Slot(epb, i) < epb
  {}

  lemma Further(d: nat, q: nat, q': nat)
    requires q < q'
    ensures d * q + d <= d * q'
  {
    var k := q' - q - 1;
    assert d * q' == d * q + d + d * k;
  }

  lemma PartsOrder(d: nat, q: nat, r: nat, q': nat, r': nat)
    requires r < d && r' < d
    ensures d * q + r < d * q' + r' <==> q < q' || (q == q' && r < r')
  {
    if q < q' { Further(d, q, q'); }
    if q' < q { Further(d, q', q); }
  }

  /** Element `i` lies in an allocated block. */
  predicate Has(top: Blocks, epb: nat, i: nat)
    requires epb > 0
  {
    Block(epb, i) < |top| && Slot(epb, i) < |top[Block(epb, i)]|
  }

  /** `heap_get_element`. */
  function At(top: Blocks, epb: nat, i: nat): Elem
    requires epb > 0 && Has(top, epb, i)
  {
    top[Block(epb, i)][Slot(epb, i)]
  }

  function Put(top: Blocks, epb: nat, i: nat, e: Elem): Blocks
    requires epb > 0 && Has(top, epb, i)
  {
    top[Block(epb, i) := top[Block(epb, i)][Slot(epb, i) := e]]
  }

  ghost predicate Covers(top: Blocks, epb: nat, m: nat)
    requires epb > 0
  {
    forall i :: 1 <= i <= m ==> Has(top, epb, i)
  }

  /** The flat array that elements 1 to `m` form; nothing is ever read at 0. */
  ghost function Flat(top: Blocks, epb: nat, m: nat): (r: seq<Elem>)
    requires epb > 0 && Covers(top, epb, m)
    ensures |r| == m + 1 && r[0] == Elem(0, 0) && forall i :: 1 <= i <= m ==> r[i] == At(top, epb, i)
  {
    seq(m + 1, i requires 0 <= i <= m => if i == 0 then Elem(0, 0) else At(top, epb, i))
  }

  /** Elements are placed in order: by block, then within the block. */
  lemma InOrder(epb: nat, i: nat, j: nat)
    requires epb > 0
    ensures i < j <==> Block(epb, i) < Block(epb, j) || (Block(epb, i) == Block(epb, j) && Slot(epb, i) < Slot(epb, j))
  {
    Parts(epb, i);
    Parts(epb, j);
    hide Block, Slot;
    PartsOrder(epb, Block(epb, i), Slot(epb, i), Block(epb, j), Slot(epb, j));
  }

  lemma PutHas(top: Blocks, epb: nat, i: nat, e: Elem, j: nat)
    requires epb > 0 && Has(top, epb, i) && Has(top, epb, j)
    ensures |Put(top, epb, i, e)| == |top| && Has(Put(top, epb, i, e), epb, j)
    ensures At(Put(top, epb, i, e), epb, j) == if i == j then e else At(top, epb, j)
  {
    InOrder(epb, i, j);
    InOrder(epb, j, i);
    hide Block, Slot;
  }

  /** Writing into a block is writing into the flat array. */
  lemma PutFlat(top: Blocks, epb: nat, i: nat, e: Elem, m: nat)
    requires epb > 0 && Covers(top, epb, m) && 1 <= i <= m
    ensures |Put(top, epb, i, e)| == |top| && Covers(Put(top, epb, i, e), epb, m)
    ensures Flat(Put(top, epb, i, e), epb, m) == Flat(top, epb, m)[i := e]
  {
    PutHas(top, epb, i, e, i);
    forall j | 1 <= j <= m
      ensures Has(Put(top, epb, i, e), epb, j)
      ensures At(Put(top, epb, i, e), epb, j) == if i == j then e else At(top, epb, j)
    {
      PutHas(top, epb, i, e, j);
    }
    hide Has, At, Put;
  }

  /** The size that `heap_increase_size` computes for the block of element `n`. */
  function BlockSize(epb: nat, n: nat): nat
    requires epb > 0
  {
    if Slot(epb, n + 1) == 0 then epb else Slot(epb, n + 1)
  }

  lemma BlockSizeIs(epb: nat, n: nat)
    requires epb > 0
    ensures BlockSize(epb, n) == Slot(epb, n) + 1
  {
    Parts(epb, n);
    Parts(epb, n + 1);
    var q, r, q', r' := Block(epb, n), Slot(epb, n), Block(epb, n + 1), Slot(epb, n + 1);
    assert BlockSize(epb, n) == if r' == 0 then epb else r';
    hide Block, Slot, BlockSize;
    if r + 1 < epb {
      PartsOrder(epb, q, r + 1, q', r');
      PartsOrder(epb, q', r', q, r + 1);
    } else {
      assert epb * (q + 1) == epb * q + epb;
      PartsOrder(epb, q + 1, 0, q', r');
      PartsOrder(epb, q', r', q + 1, 0);
    }
  }

  /** The blocks once element `n` has room: its block is allocated anew and all but the last element of it
      copied. */
  function Grown(top: Blocks, epb: nat, n: nat): Blocks
    requires epb > 0 && Block(epb, n) < |top|
  {
    var was, size := top[Block(epb, n)], BlockSize(epb, n);
    top[Block(epb, n) := seq(size, k requires 0 <= k < size => if k < size - 1 && k < |was| then was[k] else Elem(0, 0))]
  }

  lemma GrownAt(top: Blocks, epb: nat, n: nat, i: nat)
    requires epb > 0 && Block(epb, n) < |top| && i < n && Has(top, epb, i)
    ensures Has(Grown(top, epb, n), epb, i) && At(Grown(top, epb, n), epb, i) == At(top, epb, i)
  {
    BlockSizeIs(epb, n);
    InOrder(epb, i, n);
    hide BlockSize, Block, Slot;
  }

  /** Growth makes room for element `n` and keeps every element before it. */
  lemma GrownCovers(top: Blocks, epb: nat, n: nat)
    requires epb > 0 && Block(epb, n) < |top| && n > 0 && Covers(top, epb, n - 1)
    ensures Covers(Grown(top, epb, n), epb, n) && |Grown(top, epb, n)| == |top|
    ensures forall i :: 0 <= i < n ==> Flat(Grown(top, epb, n), epb, n)[i] == Flat(top, epb, n - 1)[i]
  {
    BlockSizeIs(epb, n);
    assert Has(Grown(top, epb, n), epb, n);
    forall i | 1 <= i < n
      ensures Has(Grown(top, epb, n), epb, i) && At(Grown(top, epb, n), epb, i) == At(top, epb, i)
    {
      GrownAt(top, epb, n, i);
    }
    hide Has, At, Grown, BlockSize;
  }
}
