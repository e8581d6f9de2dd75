/** Binary heaps in a flat sequence whose elements are numbered from 1, and what it takes to move a
    hole up or down in one. */
module HeapOrder {

  /** An element: the field the heap is ordered by, and the rest of it. */
  datatype Elem = Elem(key: int, rest: int)

  predicate IsHeap(a: seq<Elem>, n: nat)
    requires n < |a|
  {
    forall i :: 2 <= i <= n ==> a[i / 2].key <= a[i].key
  }

  /** The elements in the heap. */
  ghost function Bag(a: seq<Elem>, n: nat): multiset<Elem>
    requires n < |a|
  {
    multiset(a[1..n + 1])
  }

  /** The root is a minimum. */
  lemma {:induction false} RootIsLeast(a: seq<Elem>, n: nat, i: nat)
    requires n < |a| && IsHeap(a, n) && 1 <= i <= n
    ensures a[1].key <= a[i].key
  {
    if i > 1 { RootIsLeast(a, n, i / 2); }
  }

  lemma Exchange<T>(s: seq<T>, i: nat, j: nat)
    requires i < |s| && j < |s|
    ensures multiset(s[i := s[j]][j := s[i]]) == multiset(s)
  {}

  lemma BagExchange(a: seq<Elem>, n: nat, i: nat, j: nat)
    requires n < |a| && 1 <= i <= n && 1 <= j <= n
    ensures Bag(a[i := a[j]][j := a[i]], n) == Bag(a, n)
  {
    var s := a[1..n + 1];
    assert a[i := a[j]][j := a[i]][1..n + 1] == s[i - 1 := s[j - 1]][j - 1 := s[i - 1]];
    Exchange(s, i - 1, j - 1);
  }

  lemma BagPut(a: seq<Elem>, n: nat, e: Elem)
    requires n < |a| && 1 <= n
    ensures Bag(a[n := e], n) == Bag(a, n - 1) + multiset{e}
  {
    assert a[n := e][1..n + 1] == a[1..n] + [e];
  }

  lemma BagSame(a: seq<Elem>, b: seq<Elem>, n: nat)
    requires n < |a| && n < |b| && forall i :: 1 <= i <= n ==> a[i] == b[i]
    ensures Bag(a, n) == Bag(b, n)
  {
    assert a[1..n + 1] == b[1..n + 1];
  }

  // ----- Moving up -----

  /** `a` is a heap but for element `i`, which may be smaller than its parent. */
  predicate UpTo(a: seq<Elem>, n: nat, i: nat)
    requires n < |a| && 1 <= i <= n
  {
    && (forall j :: 2 <= j <= n && j != i ==> a[j / 2].key <= a[j].key)
    && (forall j :: 2 <= j <= n && j / 2 == i && 1 <= i / 2 ==> a[i / 2].key <= a[j].key)
  }

  lemma UpStep(a: seq<Elem>, n: nat, i: nat)
    requires n < |a| && 2 <= i <= n && UpTo(a, n, i) && a[i / 2].key > a[i].key
    ensures UpTo(a[i := a[i / 2]][i / 2 := a[i]], n, i / 2)
  {
    var b := a[i := a[i / 2]][i / 2 := a[i]];
    forall j | 2 <= j <= n && j != i / 2 ensures b[j / 2].key <= b[j].key {}
    forall j | 2 <= j <= n && j / 2 == i / 2 && 1 <= i / 2 / 2 ensures b[i / 2 / 2].key <= b[j].key {}
  }

  lemma UpDone(a: seq<Elem>, n: nat, i: nat)
    requires n < |a| && 1 <= i <= n && UpTo(a, n, i) && (i > 1 ==> a[i / 2].key <= a[i].key)
    ensures IsHeap(a, n)
  {}

  // ----- Moving down -----

  /** `a` is a heap but for element `i`, which may be larger than its children. */
  predicate DownTo(a: seq<Elem>, n: nat, i: nat)
    requires n < |a| && 1 <= i <= n
  {
    && (forall j :: 2 <= j <= n && j / 2 != i ==> a[j / 2].key <= a[j].key)
    && (forall j :: 2 <= j <= n && j / 2 == i && 1 <= i / 2 ==> a[i / 2].key <= a[j].key)
  }

  /** `c` is a child of `i` and no child of `i` is smaller. */
  predicate LeastChild(a: seq<Elem>, n: nat, i: nat, c: nat)
    requires n < |a|
  {
    2 <= c <= n && c / 2 == i && forall j :: 2 <= j <= n && j / 2 == i ==> a[c].key <= a[j].key
  }

  lemma DownStep(a: seq<Elem>, n: nat, i: nat, c: nat)
    requires n < |a| && 1 <= i <= n && DownTo(a, n, i) && LeastChild(a, n, i, c) && a[i].key > a[c].key
    ensures DownTo(a[i := a[c]][c := a[i]], n, c)
  {
    var b := a[i := a[c]][c := a[i]];
    forall j | 2 <= j <= n && j / 2 != c ensures b[j / 2].key <= b[j].key {}
    forall j | 2 <= j <= n && j / 2 == c && 1 <= c / 2 ensures b[c / 2].key <= b[j].key {}
  }

  lemma DownDone(a: seq<Elem>, n: nat, i: nat)
    requires n < |a| && 1 <= i <= n && DownTo(a, n, i)
    requires forall j :: 2 <= j <= n && j / 2 == i ==> a[i].key <= a[j].key
    ensures IsHeap(a, n)
  {}
}
