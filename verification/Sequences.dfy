/** Facts about slices of sequences. */
module Sequences {

  lemma SliceOfSlice<T>(s: seq<T>, lo: nat, hi: nat, a: nat, b: nat)
    requires lo <= hi <= |s| && a <= b <= hi - lo
    ensures s[lo..hi][a..b] == s[lo + a..lo + b]
  {
    forall i | 0 <= i < b - a ensures s[lo..hi][a..b][i] == s[lo + a..lo + b][i] {}
  }

  lemma SameSlice<T>(p: seq<T>, q: seq<T>, lim: nat, a: nat, b: nat)
    requires a <= b <= lim <= |p| && lim <= |q| && p[..lim] == q[..lim]
    ensures p[a..b] == q[a..b]
  {
    SliceOfSlice(p, 0, lim, a, b);
    SliceOfSlice(q, 0, lim, a, b);
  }

  lemma SameAt<T>(p: seq<T>, q: seq<T>, lim: nat, i: nat)
    requires i < lim <= |p| && lim <= |q| && p[..lim] == q[..lim]
    ensures p[i] == q[i]
  {
    assert p[i] == p[..lim][i] && q[i] == q[..lim][i];
  }

  lemma SliceAt<T>(s: seq<T>, lo: nat, hi: nat, i: nat)
    requires lo <= hi <= |s| && i < hi - lo
    ensures s[lo..hi][i] == s[lo + i]
  {}

  lemma SliceOfTail<T>(s: seq<T>, c: nat, a: nat, b: nat)
    requires a <= b && c + b <= |s|
    ensures s[c..][a..b] == s[c + a..c + b]
  {
    forall i | 0 <= i < b - a ensures s[c..][a..b][i] == s[c + a..c + b][i] {}
  }

  lemma TakeLeft<T>(a: seq<T>, b: seq<T>, k: nat)
    requires k <= |a|
    ensures (a + b)[..k] == a[..k]
  {}

  lemma TakeRight<T>(a: seq<T>, b: seq<T>, k: nat)
    requires k <= |b|
    ensures (a + b)[..|a| + k] == a + b[..k]
  {}

  lemma Assoc<T>(a: seq<T>, b: seq<T>, c: seq<T>)
    ensures (a + b) + c == a + (b + c)
  {}

  /** Copies `s` into a buffer. */
  method Copy<T>(buf: array<T>, at: nat, s: seq<T>)
    requires at + |s| <= buf.Length
    modifies buf
    ensures buf[..at + |s|] == old(buf[..at]) + s
    ensures buf[at + |s|..] == old(buf[at + |s|..])
  {
    forall k | 0 <= k < |s| { buf[at + k] := s[k]; }
  }
}
