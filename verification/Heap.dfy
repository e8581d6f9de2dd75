/** The generic priority queue: a binary heap over blocked storage. */
module Heap {
  import opened Bytes
  import opened HeapOrder
  import opened HeapBlocks

  lemma Fits(epb: nat, n: nat)
    requires epb > 0
    ensures n + 1 <= epb * MAX_BLOCKS <==> Block(epb, n) < MAX_BLOCKS
  {
    Parts(epb, n);
    hide Block, Slot;
    var q, r := Block(epb, n), Slot(epb, n);
    PartsOrder(epb, q, r, MAX_BLOCKS, 0);
  }

  class Heap {
    /** Elements per block. */
    const epb: nat
    var size: nat
    var n: nat
    var top: Blocks
    /** The largest `n` so far. */
    ghost var high: nat

    /** The storage covers every element that was ever in use, and `size` follows the high-water mark. */
    ghost predicate Stored()
      reads this
    {
      && epb > 0 && |top| == MAX_BLOCKS && n <= high < epb * MAX_BLOCKS
      && high <= size <= high + 1 && (high == 0 ==> size == 0)
      && Covers(top, epb, high)
    }

    ghost function View(): (a: seq<Elem>)
      requires Stored()
      reads this
      ensures |a| == high + 1
    {
      Flat(top, epb, high)
    }

    ghost predicate Valid()
      reads this
    {
      Stored() && IsHeap(View(), n)
    }

    ghost function Elements(): multiset<Elem>
      requires Stored()
      reads this
    {
      Bag(View(), n)
    }

    /** `heap_init`. */
    constructor (epb: nat)
      requires epb > 0
      ensures Valid() && n == 0 && this.epb == epb && Elements() == multiset{}
    {
      this.epb := epb;
      size, n, high := 0, 0, 0;
      top := seq(MAX_BLOCKS, _ => []);
    }

    method Set(i: nat, e: Elem)
      requires Stored() && 1 <= i <= high
      modifies `top
      ensures Stored() && View() == old(View())[i := e]
    {
      PutFlat(top, epb, i, e, high);
      top := Put(top, epb, i, e);
    }

    method Get(i: nat) returns (e: Elem)
      requires Stored() && 1 <= i <= high
      ensures e == View()[i]
    {
      e := At(top, epb, i);
    }

    /** `heap_increase_size`, called when `n` has just been raised to `next`. */
    method IncreaseSize(next: nat) returns (ok: bool)
      requires Stored() && next == n + 1 && next >= size
      modifies `top, `size, `high
      ensures ok <==> next + 1 <= epb * MAX_BLOCKS
      ensures !ok ==> top == old(top) && size == old(size) && high == old(high)
      ensures ok ==> size == old(size) + 1 && high == next && Stored() && forall i :: 1 <= i <= n ==> View()[i] == old(View())[i]
    {
      Fits(epb, next);
      if next + 1 > epb * MAX_BLOCKS { return false; }
      assert Covers(top, epb, next - 1);
      GrownCovers(top, epb, next);
      assert forall i :: 1 <= i <= n ==> Flat(top, epb, next - 1)[i] == Flat(top, epb, high)[i];
      top, size, high := Grown(top, epb, next), size + 1, next;
      ok := true;
    }

    /** The loop of `heap_insert` that moves the hole at `n` up to where `el` belongs. */
    method SiftUp(el: Elem)
      requires Stored() && 1 <= n && UpTo(View()[n := el], n, n)
      modifies `top
      ensures Stored() && IsHeap(View(), n) && Bag(View(), n) == old(Bag(View()[n := el], n))
    {
      hide Covers, Bag, Flat, UpTo, IsHeap;
      var i := n;
      ghost var b := View()[n := el];
      while i > 1
        invariant Stored() && 1 <= i <= n && b == View()[i := el]
        invariant UpTo(b, n, i) && Bag(b, n) == old(Bag(View()[n := el], n))
      {
        var half := Get(i / 2);
        if half.key <= el.key { break; }
        UpStep(b, n, i);
        BagExchange(b, n, i, i / 2);
        Set(i, half);
        b := b[i := b[i / 2]][i / 2 := b[i]];
        i := i / 2;
      }
      UpDone(b, n, i);
      Set(i, el);
    }

    /** `heap_insert`: fails, changing nothing, exactly when the storage is full. */
    method Insert(el: Elem) returns (ok: bool)
      requires Valid()
      modifies this
      ensures Valid()
      ensures ok <==> old(n) < epb * MAX_BLOCKS - 1
      ensures ok ==> n == old(n) + 1 && Elements() == old(Elements()) + multiset{el}
      ensures !ok ==> n == old(n) && size == old(size) && top == old(top)
    {
      hide Covers, Bag, Flat, UpTo, IsHeap;
      ghost var a0 := View();
      if n + 1 >= size {
        ok := IncreaseSize(n + 1);
        if !ok { return; }
      }
      n := n + 1;
      Inserted(a0, View(), n, el);
      SiftUp(el);
      ok := true;
    }

    /** The smaller child of `i`. */
    method SmallerChild(i: nat) returns (child: nat)
      requires Stored() && 1 <= i && 2 * i <= n
      ensures child <= n && LeastChild(View(), n, i, child)
    {
      hide Covers, Flat;
      child := 2 * i;
      if child != n {
        var right := Get(child + 1);
        var left := Get(child);
        if right.key < left.key { child := child + 1; }
      }
    }

    /** The loop of `heap_peek` that moves the hole at the root down to where `last` belongs. */
    method SiftDown(last: Elem)
      requires Stored() && 1 <= n && DownTo(View()[1 := last], n, 1)
      modifies `top
      ensures Stored() && IsHeap(View(), n) && Bag(View(), n) == old(Bag(View()[1 := last], n))
    {
      hide Covers, Bag, Flat, DownTo, IsHeap, LeastChild;
      var i := 1;
      ghost var b := View()[1 := last];
      while 2 * i <= n
        invariant Stored() && 1 <= i <= n && b == View()[i := last]
        invariant DownTo(b, n, i) && Bag(b, n) == old(Bag(View()[1 := last], n))
        decreases n - i
      {
        var child := SmallerChild(i);
        ChildOf(View(), b, n, i, child, last);
        var c := Get(child);
        if last.key <= c.key { break; }
        DownStep(b, n, i, child);
        BagExchange(b, n, i, child);
        Set(i, c);
        b := b[i := b[child]][child := b[i]];
        i := child;
      }
      Settled(b, n, i);
      Set(i, last);
    }

    /** `heap_peek`, which takes the first element out. */
    method Peek() returns (first: Option<Elem>)
      requires Valid()
      modifies this
      ensures Valid() && size == old(size)
      ensures first.None? <==> old(n) == 0
      ensures first.None? ==> n == 0 && top == old(top)
      ensures first.Some? ==> n == old(n) - 1 && old(Elements()) == Elements() + multiset{first.value}
      ensures first.Some? ==> forall e :: e in old(Elements()) ==> first.value.key <= e.key
    {
      hide Covers, Bag, Flat, DownTo, IsHeap;
      if n == 0 { return None; }
      ghost var a0 := View();
      var root := Get(1);
      var last := Get(n);
      n := n - 1;
      Removed(a0, n, root, last);
      if n == 0 {
        Set(1, last);
      } else {
        SiftDown(last);
      }
      first := Some(root);
    }

    /** `heap_first`. */
    method First() returns (first: Option<Elem>)
      requires Valid()
      ensures first.None? <==> n == 0
      ensures first.Some? ==> first.value in Elements() && forall e :: e in Elements() ==> first.value.key <= e.key
    {
      if n == 0 { return None; }
      var root := Get(1);
      Removed(View(), n - 1, root, View()[n]);
      first := Some(root);
    }

    /** Taking out everything gives the elements in order. */
    method Drain() returns (out: seq<Elem>)
      requires Valid()
      modifies this
      ensures Valid() && n == 0 && multiset(out) == old(Elements()) && Sorted(out)
    {
      hide Covers, Bag, Flat, IsHeap, Sorted, Below;
      out := [];
      ghost var all, rest := Elements(), Elements();
      Nothing(all);
      while n > 0
        invariant Valid() && rest == Elements() && multiset(out) + rest == all && Sorted(out) && Below(out, rest)
        decreases n
      {
        var first := Peek();
        OneMore(out, rest, first.value, Elements());
        out := out + [first.value];
        rest := Elements();
      }
      EmptyBag(View());
    }
  }

  lemma Inserted(a0: seq<Elem>, a: seq<Elem>, n: nat, el: Elem)
    requires 1 <= n < |a| && n - 1 < |a0| && IsHeap(a0, n - 1) && forall i :: 1 <= i < n ==> a[i] == a0[i]
    ensures UpTo(a[n := el], n, n) && Bag(a[n := el], n) == Bag(a0, n - 1) + multiset{el}
  {
    BagPut(a, n, el);
    BagSame(a, a0, n - 1);
  }

  lemma EmptyBag(a: seq<Elem>)
    requires |a| > 0
    ensures Bag(a, 0) == multiset{}
  {}

  lemma ChildOf(a: seq<Elem>, b: seq<Elem>, n: nat, i: nat, child: nat, last: Elem)
    requires n < |a| && 1 <= i <= n && b == a[i := last] && LeastChild(a, n, i, child)
    ensures LeastChild(b, n, i, child) && i < child <= n && b[child] == a[child]
  {}

  /** Without a smaller child the hole has reached its place. */
  lemma Settled(b: seq<Elem>, n: nat, i: nat)
    requires n < |b| && 1 <= i <= n && DownTo(b, n, i)
    requires 2 * i > n || exists c: nat :: LeastChild(b, n, i, c) && b[i].key <= b[c].key
    ensures IsHeap(b, n)
  {
    DownDone(b, n, i);
  }

  lemma RemovedBag(a: seq<Elem>, n: nat)
    requires n + 1 < |a|
    ensures Bag(a, n + 1) == Bag(a[1 := a[n + 1]], n) + multiset{a[1]}
  {
    var s := a[1..n + 2];
    assert s == [a[1]] + s[1..];
    if n > 0 {
      assert s[1..] == a[2..n + 1] + [a[n + 1]];
      assert a[1 := a[n + 1]][1..n + 1] == [a[n + 1]] + a[2..n + 1];
    }
  }

  lemma RootOfBag(a: seq<Elem>, n: nat, e: Elem)
    requires n < |a| && IsHeap(a, n) && e in Bag(a, n)
    ensures a[1].key <= e.key
  {
    var i :| 0 <= i < n && a[1..n + 1][i] == e;
    RootIsLeast(a, n, i + 1);
  }

  /** Taking the root out of a heap of `n + 1` elements and putting the last one in its place. */
  lemma Removed(a: seq<Elem>, n: nat, root: Elem, last: Elem)
    requires n + 1 < |a| && IsHeap(a, n + 1) && root == a[1] && last == a[n + 1]
    ensures root in Bag(a, n + 1) && forall e :: e in Bag(a, n + 1) ==> root.key <= e.key
    ensures n > 0 ==> DownTo(a[1 := last], n, 1)
    ensures Bag(a, n + 1) == Bag(a[1 := last], n) + multiset{root}
    ensures IsHeap(a[1 := last], 0)
  {
    RemovedBag(a, n);
    hide Bag;
    forall e | e in Bag(a, n + 1) ensures root.key <= e.key { RootOfBag(a, n + 1, e); }
  }

  predicate Sorted(s: seq<Elem>) {
    forall i, j :: 0 <= i < j < |s| ==> s[i].key <= s[j].key
  }

  ghost predicate Below(s: seq<Elem>, bag: multiset<Elem>) {
    forall i, e :: 0 <= i < |s| && e in bag ==> s[i].key <= e.key
  }

  lemma Nothing(bag: multiset<Elem>)
    ensures Sorted([]) && Below([], bag)
  {}

  lemma OneMore(out: seq<Elem>, bag: multiset<Elem>, first: Elem, rest: multiset<Elem>)
    requires Sorted(out) && Below(out, bag) && bag == rest + multiset{first} && forall e :: e in bag ==> first.key <= e.key
    ensures Sorted(out + [first]) && Below(out + [first], rest) && multiset(out + [first]) + rest == multiset(out) + bag
  {
    assert first in bag;
    forall e | e in rest ensures e in bag {}
  }
}
