/**
 Names in DNS packets (sections 3.1 and 4.1.4 of RFC 1035): labels preceded by their length, ended by
 a zero byte or by a pointer to an earlier place in the packet.
 */
module DnsWire {
  import opened Bytes
  import opened Sequences

  const HEADER := 12

  /** A name as it is written without compression: labels of 1 to 63 bytes, none of them zero, and a
      zero byte. */
  predicate IsName(name: seq<octet>) {
    && |name| > 0
    && if name[0] == 0 then |name| == 1
       else name[0] < 64 && |name| > name[0] + 1 && (forall i :: 1 <= i <= name[0] ==> name[i] != 0) && IsName(name[name[0] + 1..])
  }

  function Target(p: seq<octet>, pos: nat): nat
    requires pos + 1 < |p|
  {
    p[pos] as int % 64 * 256 + p[pos + 1]
  }

  /** The bytes at `pos`, up to `lim`, mean `name`.  What a pointer leads to lies wholly before it. */
  ghost predicate Reads(p: seq<octet>, pos: nat, lim: nat, name: seq<octet>)
    decreases |name|, pos
  {
    && pos < lim <= |p|
    && if p[pos] == 0 then name == [0]
       else if p[pos] >= 64 then pos + 2 <= lim && Target(p, pos) < pos && Reads(p, Target(p, pos), pos, name)
       else
         && pos + 1 + p[pos] < lim && p[pos] + 1 < |name| && name[..p[pos] + 1] == p[pos..pos + 1 + p[pos]]
         && Reads(p, pos + 1 + p[pos], lim, name[p[pos] + 1..])
  }

  lemma ReadsRoot(p: seq<octet>, pos: nat, lim: nat)
    requires pos < lim <= |p| && p[pos] == 0
    ensures Reads(p, pos, lim, [0])
  {}

  lemma ReadsByPointer(p: seq<octet>, pos: nat, lim: nat, name: seq<octet>)
    requires pos + 2 <= lim <= |p| && p[pos] >= 64 && Target(p, pos) < pos && Reads(p, Target(p, pos), pos, name)
    ensures Reads(p, pos, lim, name)
  {}

  lemma ReadsByLabel(p: seq<octet>, pos: nat, lim: nat, name: seq<octet>)
    requires pos < lim <= |p| && 0 < p[pos] < 64 && pos + 1 + p[pos] < lim && p[pos] + 1 < |name|
    requires name[..p[pos] + 1] == p[pos..pos + 1 + p[pos]] && Reads(p, pos + 1 + p[pos], lim, name[p[pos] + 1..])
    ensures Reads(p, pos, lim, name)
  {}

  lemma SameTarget(p: seq<octet>, q: seq<octet>, pos: nat)
    requires pos + 1 < |p| && pos + 1 < |q| && p[pos] == q[pos] && p[pos + 1] == q[pos + 1]
    ensures Target(p, pos) == Target(q, pos)
  {}

  /** Meaning depends only on the bytes before the limit. */
  lemma {:induction false} ReadsFrame(p: seq<octet>, q: seq<octet>, pos: nat, lim: nat, name: seq<octet>)
    requires Reads(p, pos, lim, name) && lim <= |q| && p[..lim] == q[..lim]
    ensures Reads(q, pos, lim, name)
    decreases |name|, pos
  {
    hide Target;
    SameAt(p, q, lim, pos);
    if p[pos] == 0 {
    } else if p[pos] >= 64 {
      SameAt(p, q, lim, pos + 1);
      SameSlice(p, q, lim, 0, pos);
      SameTarget(p, q, pos);
      ReadsFrame(p, q, Target(p, pos), pos, name);
      hide Reads;
      ReadsByPointer(q, pos, lim, name);
    } else {
      SameSlice(p, q, lim, pos, pos + 1 + p[pos]);
      ReadsFrame(p, q, pos + 1 + p[pos], lim, name[p[pos] + 1..]);
      hide Reads;
      ReadsByLabel(q, pos, lim, name);
    }
  }

  /** The same without a limit and with pointers to anywhere, read in at most `steps` steps. */
  ghost predicate Follows(p: seq<octet>, pos: nat, name: seq<octet>, steps: nat)
    decreases steps
  {
    && pos < |p|
    && if p[pos] == 0 then name == [0]
       else if steps == 0 then false
       else if p[pos] >= 64 then pos + 1 < |p| && Follows(p, Target(p, pos), name, steps - 1)
       else
         && pos + 1 + p[pos] <= |p| && p[pos] + 1 < |name| && name[..p[pos] + 1] == p[pos..pos + 1 + p[pos]]
         && Follows(p, pos + 1 + p[pos], name[p[pos] + 1..], steps - 1)
  }

  lemma {:induction false} ReadsFollows(p: seq<octet>, pos: nat, lim: nat, name: seq<octet>) returns (steps: nat)
    requires Reads(p, pos, lim, name)
    ensures Follows(p, pos, name, steps)
    decreases |name|, pos
  {
    hide Target;
    steps := 0;
    if p[pos] >= 64 {
      steps := ReadsFollows(p, Target(p, pos), pos, name);
      steps := steps + 1;
    } else if p[pos] > 0 {
      steps := ReadsFollows(p, pos + 1 + p[pos], lim, name[p[pos] + 1..]);
      steps := steps + 1;
    }
  }

  /** A pointer to itself is never read to an end. */
  lemma {:induction false} SelfPointer(p: seq<octet>, pos: nat, name: seq<octet>, steps: nat)
    requires pos + 1 < |p| && p[pos] >= 64 && Target(p, pos) == pos
    ensures !Follows(p, pos, name, steps)
  {
    hide Target;
    if steps > 0 { SelfPointer(p, pos, name, steps - 1); }
  }

  /** A text of C: up to and with its first zero byte. */
  function UpToZero(s: seq<octet>): seq<octet> {
    if s == [] then [] else if s[0] == 0 then [0] else [s[0]] + UpToZero(s[1..])
  }

  lemma {:induction false} UpToZeroIs(s: seq<octet>, n: nat)
    requires n < |s| && s[n] == 0 && forall i :: 0 <= i < n ==> s[i] != 0
    ensures UpToZero(s) == s[..n + 1]
  {
    if n > 0 {
      UpToZeroIs(s[1..], n - 1);
      assert s[..n + 1] == [s[0]] + s[1..][..n];
    }
  }

  lemma NameUpToZero(name: seq<octet>)
    requires IsName(name)
    ensures UpToZero(name) == name
  {
    assert |name| > 0;
    hide IsName;
    forall i | 0 <= i < |name| ensures name[i] == 0 <==> i == |name| - 1 { ZeroLast(name, i); }
    UpToZeroIs(name, |name| - 1);
    assert name[..|name|] == name;
  }

  /** The bytes of `name` stand at `pos`. */
  predicate Written(p: seq<octet>, pos: nat, name: seq<octet>) {
    pos + |name| <= |p| && p[pos..pos + |name|] == name
  }

  lemma WrittenFrom(p: seq<octet>, pos: nat, name: seq<octet>, n: nat)
    requires Written(p, pos, name) && n <= |name|
    ensures Written(p, pos + n, name[n..]) && p[pos..pos + n] == name[..n]
    ensures n < |name| ==> p[pos + n] == name[n]
  {
    SliceOfSlice(p, pos, pos + |name|, n, |name|);
    SliceOfSlice(p, pos, pos + |name|, 0, n);
  }

  /** A name written out means itself. */
  lemma {:induction false} WrittenReads(p: seq<octet>, pos: nat, lim: nat, name: seq<octet>)
    requires IsName(name) && Written(p, pos, name) && pos + |name| <= lim <= |p|
    ensures Reads(p, pos, lim, name)
    decreases |name|
  {
    hide Reads, Written, Target;
    WrittenFrom(p, pos, name, 0);
    if name[0] == 0 {
      assert name == [0];
      ReadsRoot(p, pos, lim);
    } else {
      WrittenFrom(p, pos, name, name[0] + 1);
      WrittenReads(p, pos + name[0] + 1, lim, name[name[0] + 1..]);
      ReadsByLabel(p, pos, lim, name);
    }
  }

  /** The only zero byte of a name is its last. */
  lemma {:induction false} ZeroLast(name: seq<octet>, i: nat)
    requires IsName(name) && i < |name|
    ensures name[i] == 0 <==> i == |name| - 1
    decreases |name|
  {
    if name[0] != 0 && i > name[0] {
      ZeroLast(name[name[0] + 1..], i - name[0] - 1);
    } else if name[0] != 0 {
      ZeroLast(name[name[0] + 1..], 0);
    }
  }

  // ----- Compressing one name -----

  predicate Occurs(p: seq<octet>, m: nat, lbl: nat, n: nat)
    requires m <= lbl && lbl + n <= |p|
  {
    p[m..m + n] == p[lbl..lbl + n]
  }

  /** The first place from `it` on, before `lbl`, where the `n` bytes at `lbl` occur; or -1. */
  function FirstMatch(p: seq<octet>, it: nat, lbl: nat, n: nat): (r: int)
    requires lbl + n <= |p|
    ensures r == -1 || it <= r < lbl
    ensures r >= 0 ==> Occurs(p, r, lbl, n)
    ensures forall m :: it <= m < (if r < 0 then lbl else r) ==> !Occurs(p, m, lbl, n)
    decreases lbl - it
  {
    if it >= lbl then -1
    else if Occurs(p, it, lbl, n) then it
    else FirstMatch(p, it + 1, lbl, n)
  }

  function Pointer(m: nat): seq<octet>
    requires m < 16384
  {
    [192 + m / 256, m % 256]
  }

  /** Some suffix of `name`, other than the root, occurs earlier in the packet. */
  predicate Shared(p: seq<octet>, lbl: nat, name: seq<octet>)
    requires IsName(name) && lbl + |name| <= |p|
    decreases |name|
  {
    name[0] != 0 && (FirstMatch(p, HEADER, lbl, |name|) >= 0 || Shared(p, lbl + name[0] + 1, name[name[0] + 1..]))
  }

  /** The packet with the longest such suffix of the name at `lbl` replaced by a pointer. */
  function Compressed(p: seq<octet>, lbl: nat, name: seq<octet>): seq<octet>
    requires IsName(name) && lbl + |name| <= |p| <= 16384 && Shared(p, lbl, name)
    decreases |name|
  {
    var m := FirstMatch(p, HEADER, lbl, |name|);
    if m >= 0 then p[..lbl] + Pointer(m) + p[lbl + |name|..]
    else Compressed(p, lbl + name[0] + 1, name[name[0] + 1..])
  }

  /** An earlier occurrence of a name ends before the name begins, since its last byte is zero. */
  lemma MatchBefore(p: seq<octet>, m: nat, lbl: nat, name: seq<octet>)
    requires IsName(name) && lbl + |name| <= |p| && m < lbl
    requires Written(p, lbl, name) && Written(p, m, name)
    ensures m + |name| <= lbl
  {
    assert |name| > 0;
    hide IsName, Written;
    forall j | lbl <= j < lbl + |name| - 1 ensures p[j] != 0 {
      ZeroLast(name, j - lbl);
      WrittenFrom(p, lbl, name, j - lbl);
    }
    ZeroLast(name, |name| - 1);
    WrittenFrom(p, m, name, |name| - 1);
  }

  /** Where the bytes of the name at `pos` end. */
  function NameEnd(p: seq<octet>, pos: nat): nat
    decreases |p| - pos
  {
    if pos >= |p| || p[pos] == 0 then pos + 1
    else if p[pos] >= 64 then pos + 2
    else NameEnd(p, pos + 1 + p[pos])
  }

  /** `q` is `p` with the bytes of `name` at `lbl` replaced by fewer that mean the same: everything
      before them is as it was, everything after them has moved up. */
  ghost predicate Shortened(p: seq<octet>, q: seq<octet>, lbl: nat, name: seq<octet>) {
    var e := NameEnd(q, lbl);
    && lbl + |name| <= |p| && lbl < e < lbl + |name| && e <= |q|
    && q[..lbl] == p[..lbl] && q[e..] == p[lbl + |name|..]
    && Reads(q, lbl, e, name)
  }

  lemma PointerMeans(p: seq<octet>, q: seq<octet>, lbl: nat, name: seq<octet>, m: nat)
    requires IsName(name) && |name| > 2 && HEADER <= m < lbl && Written(p, lbl, name) && Occurs(p, m, lbl, |name|)
    requires lbl + 2 <= |q| && q[..lbl] == p[..lbl] && q[lbl + 2..] == p[lbl + |name|..] && q[lbl] >= 64 && Target(q, lbl) == m
    ensures Shortened(p, q, lbl, name)
  {
    hide Reads, Target, IsName, NameEnd;
    assert Written(p, m, name);
    MatchBefore(p, m, lbl, name);
    SameSlice(p, q, lbl, m, m + |name|);
    assert Written(q, m, name);
    WrittenReads(q, m, lbl, name);
    EndOfPointer(q, lbl);
    ReadsByPointer(q, lbl, lbl + 2, name);
  }

  lemma EndOfPointer(q: seq<octet>, pos: nat)
    requires pos < |q| && q[pos] >= 64
    ensures NameEnd(q, pos) == pos + 2
  {}

  lemma PointerBytes(a: seq<octet>, m: nat, b: seq<octet>)
    requires m < 16384
    ensures var q := a + Pointer(m) + b; q[..|a|] == a && q[|a| + 2..] == b && q[|a|] >= 64 && Target(q, |a|) == m
  {}

  lemma LabelMeans(p: seq<octet>, q: seq<octet>, lbl: nat, name: seq<octet>)
    requires IsName(name) && name[0] != 0 && Written(p, lbl, name)
    requires Shortened(p, q, lbl + name[0] + 1, name[name[0] + 1..])
    ensures Shortened(p, q, lbl, name)
  {
    hide Reads, Target;
    var n := name[0] + 1;
    var e := NameEnd(q, lbl + n);
    WrittenFrom(p, lbl, name, 0);
    WrittenFrom(p, lbl, name, n);
    SameAt(p, q, lbl + n, lbl);
    SameSlice(p, q, lbl + n, lbl, lbl + n);
    SameSlice(p, q, lbl + n, 0, lbl);
    assert NameEnd(q, lbl) == e;
    hide Reads, NameEnd, Written, IsName;
    ReadsByLabel(q, lbl, e, name);
  }

  /** MAIN RESULT for one name: compressing it saves space and changes no meaning. */
  lemma {:induction false} CompressedMeans(p: seq<octet>, lbl: nat, name: seq<octet>)
    requires IsName(name) && HEADER <= lbl && Written(p, lbl, name) && |p| <= 16384 && Shared(p, lbl, name)
    ensures Shortened(p, Compressed(p, lbl, name), lbl, name)
    decreases |name|
  {
    assert lbl + |name| <= |p|;
    hide Reads, NameEnd, Target, Occurs, Written, Shortened;
    var m := FirstMatch(p, HEADER, lbl, |name|);
    if m >= 0 {
      PointerBytes(p[..lbl], m, p[lbl + |name|..]);
      PointerMeans(p, Compressed(p, lbl, name), lbl, name, m);
    } else {
      var n := name[0] + 1;
      WrittenFrom(p, lbl, name, n);
      CompressedMeans(p, lbl + n, name[n..]);
      LabelMeans(p, Compressed(p, lbl, name), lbl, name);
    }
  }

  // ----- Without a shared suffix -----

  /** The label of `name` at which the search stops: the first whose rest occurs earlier, or the root. */
  function SearchStop(p: seq<octet>, lbl: nat, name: seq<octet>): nat
    requires IsName(name) && lbl + |name| <= |p|
    decreases |name|
  {
    if name[0] == 0 || FirstMatch(p, HEADER, lbl, |name|) >= 0 then lbl
    else SearchStop(p, lbl + name[0] + 1, name[name[0] + 1..])
  }

  lemma {:induction false} StopsAtRoot(p: seq<octet>, lbl: nat, name: seq<octet>)
    requires IsName(name) && lbl + |name| <= |p|
    ensures lbl <= SearchStop(p, lbl, name) < lbl + |name|
    ensures !Shared(p, lbl, name) <==> SearchStop(p, lbl, name) == lbl + |name| - 1
    ensures SearchStop(p, lbl, name) != lbl + |name| - 1 ==> SearchStop(p, lbl, name) + 3 <= lbl + |name|
    decreases |name|
  {
    if name[0] != 0 { StopsAtRoot(p, lbl + name[0] + 1, name[name[0] + 1..]); }
  }

  /** By how many bytes the code moves up what follows `n` bytes that a pointer replaces, in 16 bits. */
  function Difference(n: nat): nat { (n - 2) % 65536 }

  lemma RootMatches(p: seq<octet>, lbl: nat, z: nat)
    requires HEADER <= z < lbl < |p| && p[z] == 0 == p[lbl]
    ensures FirstMatch(p, HEADER, lbl, 1) >= 0
  {
    hide FirstMatch;
    assert p[z..z + 1] == [0] == p[lbl..lbl + 1];
    assert Occurs(p, z, lbl, 1);
  }

  lemma StopStep(p: seq<octet>, lbl: nat, name: seq<octet>)
    requires IsName(name) && lbl + |name| <= |p|
    ensures |name| > 0 && name[0] < 64 && (name[0] == 0 ==> |name| == 1)
    ensures name[0] == 0 || FirstMatch(p, HEADER, lbl, |name|) >= 0 ==> SearchStop(p, lbl, name) == lbl
    ensures name[0] != 0 ==> name[0] + 1 < |name| && IsName(name[name[0] + 1..])
    ensures name[0] != 0 && FirstMatch(p, HEADER, lbl, |name|) < 0 ==>
      SearchStop(p, lbl, name) == SearchStop(p, lbl + name[0] + 1, name[name[0] + 1..])
  {
    hide FirstMatch;
  }

  lemma {:induction false} StopMatches(p: seq<octet>, lbl: nat, name: seq<octet>, z: nat)
    requires IsName(name) && Written(p, lbl, name) && lbl + |name| <= |p| && HEADER <= z < lbl && p[z] == 0
    ensures var s := SearchStop(p, lbl, name); lbl <= s < lbl + |name| && FirstMatch(p, HEADER, s, lbl + |name| - s) >= 0
    decreases |name|
  {
    hide FirstMatch, Written, Occurs, IsName, SearchStop;
    StopStep(p, lbl, name);
    WrittenFrom(p, lbl, name, 0);
    if name[0] == 0 {
      RootMatches(p, lbl, z);
    } else if FirstMatch(p, HEADER, lbl, |name|) < 0 {
      WrittenFrom(p, lbl, name, name[0] + 1);
      StopMatches(p, lbl + name[0] + 1, name[name[0] + 1..], z);
    }
  }

  /** If the packet has a zero byte before the name, as every packet with an earlier name does, the search always
      ends with a match, and what follows moves up by no more than the bytes replaced exactly if the name shares
      a suffix.  Otherwise the root is replaced, and what follows moves by 65535. */
  lemma MovesInsideExactly(p: seq<octet>, lbl: nat, name: seq<octet>, z: nat)
    requires IsName(name) && Written(p, lbl, name) && lbl + |name| <= |p| && HEADER <= z < lbl && p[z] == 0
    requires |name| <= 65535
    ensures var s := SearchStop(p, lbl, name); var n := lbl + |name| - s;
      && lbl <= s && 0 < n && FirstMatch(p, HEADER, s, n) >= 0
      && (Difference(n) <= n <==> Shared(p, lbl, name))
      && (!Shared(p, lbl, name) ==> Difference(n) == 65535)
  {
    StopsAtRoot(p, lbl, name);
    StopMatches(p, lbl, name, z);
    hide Shared, SearchStop, FirstMatch, IsName;
  }
}
