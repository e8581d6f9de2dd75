/** The code that compresses a DNS packet in place, and the code that reads a compressed name. */
module DnsCompress {
  import opened Bytes
  import opened Sequences
  import opened DnsWire
  import opened DnsPacket

  /** `strlen` of the name at `at`, in terms of the name that is written there. */
  method NameLength(a: array<octet>, at: nat, len: nat, ghost name: seq<octet>) returns (n: nat)
    requires len <= a.Length && IsName(name) && Written(a[..len], at, name)
    ensures n + 1 == |name|
  {
    n := 0;
    NameParts(name);
    while a[at + n] != 0
      invariant n < |name| && at + |name| <= len
      invariant a[at + n] == name[n]
      decreases |name| - n
    {
      ZeroLast(name, n);
      n := n + 1;
      WrittenFrom(a[..len], at, name, n);
    }
    ZeroLast(name, n);
  }

  lemma MatchStep(p: seq<octet>, it: nat, lbl: nat, n: nat)
    requires it <= lbl && lbl + n <= |p|
    ensures FirstMatch(p, it, lbl, n) == if it == lbl then -1 else if Occurs(p, it, lbl, n) then it else FirstMatch(p, it + 1, lbl, n)
  {}

  lemma SameBytes(a: array<octet>, len: nat, it: nat, lbl: nat, n: nat)
    requires it <= lbl && lbl + n <= len <= a.Length
    ensures Occurs(a[..len], it, lbl, n) <==> a[it..it + n] == a[lbl..lbl + n]
  {
    assert a[it..it + n] == a[..len][it..it + n] && a[lbl..lbl + n] == a[..len][lbl..lbl + n];
  }

  /** `pico_dns_packet_compress_find_ptr`. */
  method FindPtr(a: array<octet>, lbl: nat, len: nat, ghost name: seq<octet>) returns (m: int)
    requires HEADER <= lbl && len <= a.Length && IsName(name) && Written(a[..len], lbl, name)
    ensures lbl + |name| <= len && m == FirstMatch(a[..len], HEADER, lbl, |name|)
  {
    hide FirstMatch, Occurs, IsName, Written;
    ghost var p := a[..len];
    WrittenBounds(p, lbl, name);
    ghost var size := |name|;
    var it := HEADER;
    while it < lbl
      invariant HEADER <= it <= lbl
      invariant FirstMatch(p, HEADER, lbl, size) == FirstMatch(p, it, lbl, size)
    {
      var n := NameLength(a, lbl, len, name);
      MatchStep(p, it, lbl, size);
      SameBytes(a, len, it, lbl, size);
      if a[it..it + n + 1] == a[lbl..lbl + n + 1] { return it; }
      it := it + 1;
    }
    MatchStep(p, it, lbl, size);
    m := -1;
  }

  /** The shifting loop: what stands from `after` on moves up to `to`. */
  method MoveUp<T>(a: array<T>, to: nat, after: nat, len: nat)
    requires to <= after <= len <= a.Length
    modifies a
    ensures a[..len - (after - to)] == old(a[..to]) + old(a[after..len])
  {
    var i := after;
    assert a[..i - (after - to)] == old(a[..to]) + old(a[after..i]);
    while i < len
      invariant after <= i <= len
      invariant a[..i - (after - to)] == old(a[..to]) + old(a[after..i])
      invariant forall j :: i <= j < a.Length ==> a[j] == old(a[j])
    {
      a[i - (after - to)] := a[i];
      i := i + 1;
      assert old(a[after..i]) == old(a[after..i - 1]) + [old(a[i - 1])];
      assert a[..i - (after - to)] == a[..i - 1 - (after - to)] + [old(a[i - 1])];
    }
  }

  /** One label of the search, on values. */
  lemma SearchStep(p: seq<octet>, lbl: nat, name: seq<octet>)
    requires IsName(name) && Written(p, lbl, name) && |p| <= 16384 && lbl + |name| <= |p| && Shared(p, lbl, name)
    ensures |name| > 0 && name[0] != 0 && p[lbl] == name[0]
    ensures var m := FirstMatch(p, HEADER, lbl, |name|);
      if m >= 0 then Compressed(p, lbl, name) == p[..lbl] + Pointer(m) + p[lbl + |name|..]
      else
        && name[0] + 1 < |name| && IsName(name[name[0] + 1..]) && Written(p, lbl + name[0] + 1, name[name[0] + 1..])
        && Shared(p, lbl + name[0] + 1, name[name[0] + 1..])
        && Compressed(p, lbl, name) == Compressed(p, lbl + name[0] + 1, name[name[0] + 1..])
  {
    WrittenFrom(p, lbl, name, 0);
    WrittenFrom(p, lbl, name, name[0] + 1);
    hide FirstMatch;
  }

  /** `pico_dns_packet_compress_name`. */
  method CompressName(a: array<octet>, at: nat, len: nat, ghost name: seq<octet>) returns (newLen: nat)
    requires HEADER <= at && len <= a.Length && len <= 16384
    requires IsName(name) && Written(a[..len], at, name) && at + |name| <= len && Shared(a[..len], at, name)
    modifies a
    ensures newLen <= len && a[..newLen] == Compressed(old(a[..len]), at, name)
  {
    hide FirstMatch, Occurs, IsName, Written, Shared, Compressed;
    ghost var p := a[..len];
    var lbl := at;
    ghost var rest := name;
    while true
      invariant a[..len] == p && HEADER <= lbl && lbl + |rest| <= len
      invariant IsName(rest) && Written(p, lbl, rest) && Shared(p, lbl, rest)
      invariant Compressed(p, at, name) == Compressed(p, lbl, rest)
      decreases |rest|
    {
      SearchStep(p, lbl, rest);
      var m := FindPtr(a, lbl, len, rest);
      if m >= 0 {
        newLen := ReplaceByPointer(a, lbl, len, m, rest);
        return;
      }
      assert a[lbl] == a[..len][lbl];
      lbl, rest := lbl + a[lbl] + 1, rest[rest[0] + 1..];
    }
  }

  method ReplaceByPointer(a: array<octet>, lbl: nat, len: nat, m: nat, ghost name: seq<octet>) returns (newLen: nat)
    requires len <= a.Length && m < lbl && len <= 16384 && IsName(name) && name[0] != 0 && Written(a[..len], lbl, name) && lbl + |name| <= len
    modifies a
    ensures newLen <= len && a[..newLen] == old(a[..len])[..lbl] + Pointer(m) + old(a[..len])[lbl + |name|..]
  {
    var n := NameLength(a, lbl, len, name);
    NameParts(name);
    var after := lbl + n + 1;
    a[lbl] := 192 + m / 256;
    a[lbl + 1] := m % 256;
    var offset := lbl + 2;
    ghost var head, tail := a[..offset], a[after..len];
    assert head == old(a[..len])[..lbl] + Pointer(m);
    assert tail == old(a[..len])[lbl + |name|..];
    MoveUp(a, offset, after, len);
    newLen := len - (after - offset);
  }

  /** `pico_dns_namelen_comp`: one less than the bytes the name takes. */
  method NamelenComp(a: array<octet>, at: nat, len: nat) returns (n: nat)
    requires len <= a.Length && at < NameEnd(a[..len], at) <= len
    ensures NameEnd(a[..len], at) - at <= 256 ==> at + n + 1 == NameEnd(a[..len], at)
    ensures at + n + 1 <= NameEnd(a[..len], at)
  {
    ghost var p := a[..len];
    var lbl := at;
    EndAfter(p, lbl);
    while a[lbl] != 0 && lbl - at < 255
      invariant at <= lbl < NameEnd(p, lbl) == NameEnd(p, at) <= len
      decreases len - lbl
    {
      EndStep(p, lbl);
      if a[lbl] >= 64 { break; }
      lbl := lbl + a[lbl] + 1;
      EndAfter(p, lbl);
    }
    EndStep(p, lbl);
    if 0 < a[lbl] < 64 { EndAfter(p, lbl + 1 + a[lbl]); }
    n := lbl - at;
    if a[lbl] != 0 { n := n + 1; }
  }

  lemma {:induction false} ReadsLength(p: seq<octet>, pos: nat, name: seq<octet>)
    requires Reads(p, pos, NameEnd(p, pos), name)
    ensures NameEnd(p, pos) - pos <= |name| + 1
    decreases |name|
  {
    EndStep(p, pos);
    if 0 < p[pos] < 64 {
      ReadsLength(p, pos + 1 + p[pos], name[p[pos] + 1..]);
    } else if p[pos] >= 64 {
      ReadsNonEmpty(p, Target(p, pos), pos, name);
    }
  }

  lemma ReadsNonEmpty(p: seq<octet>, pos: nat, lim: nat, name: seq<octet>)
    requires Reads(p, pos, lim, name)
    ensures |name| > 0
    decreases pos
  {
    if p[pos] >= 64 { ReadsNonEmpty(p, Target(p, pos), pos, name); }
  }

  /** What stands where entry `k` has been dealt with. */
  lemma EntryThere(q: seq<octet>, names: Texts, tails: Texts, k: nat)
    requires |names| == |tails| && k < |names| && Inv(q, names, tails, k + 1)
    ensures var at := EndOf(q, tails, k); var e := NameEnd(q, at);
      && at < e <= at + |names[k]| + 1 && e + |tails[k]| == EndOf(q, tails, k + 1) <= |q| && q[e..e + |tails[k]|] == tails[k]
  {
    var at := EndOf(q, tails, k);
    assert EntryAt(q, at, names[k], tails[k]);
    ReadsLength(q, at, names[k]);
    hide Reads, NameEnd, Means;
  }

  lemma StepFacts(p: seq<octet>, names: Texts, tails: Texts, k: nat)
    requires |names| == |tails| && k < |names| && AllShared(p, names, tails, k)
    ensures k == 0 ==> Step(p, names, tails, k) == p
    ensures var at := EndOf(p, tails, k);
      k > 0 ==> CanStep(p, names[k], at) && IsName(names[k]) && at + |names[k]| <= |p| <= 16384
                && Shared(p, at, names[k]) && Step(p, names, tails, k) == Compressed(p, at, names[k])
    ensures AllShared(Step(p, names, tails, k), names, tails, k + 1)
  {
    hide EndOf, Shared, IsName, Compressed;
  }

  /** Deals with the name of entry `k`, and finds where it ends. */
  method DoName(a: array<octet>, at: nat, len: nat, first: bool, ghost names: Texts, ghost tails: Texts, ghost k: nat)
    returns (newLen: nat, e: nat)
    requires |names| == |tails| && k < |names| && AllNames(names) && |names[k]| <= 255 && len <= a.Length
    requires Inv(a[..len], names, tails, k) && AllShared(a[..len], names, tails, k)
    requires at == EndOf(a[..len], tails, k) && (first <==> k == 0)
    modifies a
    ensures newLen <= len && a[..newLen] == Step(old(a[..len]), names, tails, k)
    ensures Inv(a[..newLen], names, tails, k + 1) && AllShared(a[..newLen], names, tails, k + 1)
    ensures e + |tails[k]| == EndOf(a[..newLen], tails, k + 1) <= newLen && a[..newLen][e..e + |tails[k]|] == tails[k]
  {
    hide Inv, EndOf, Means, Compressed, Shared, IsName, Written, NameEnd, AllShared, Step, CanStep;
    ghost var p := a[..len];
    StepFacts(p, names, tails, k);
    StepKeeps(p, names, tails, k);
    NameWritten(p, names, tails, k);
    newLen := len;
    if !first {
      newLen := CompressName(a, at, len, names[k]);
    }
    ghost var q := a[..newLen];
    EntryThere(q, names, tails, k);
    var n := NamelenComp(a, at, newLen);
    e := at + n + 1;
  }

  lemma NameWritten(p: seq<octet>, names: Texts, tails: Texts, k: nat)
    requires |names| == |tails| && k < |names| && Inv(p, names, tails, k)
    ensures var at := EndOf(p, tails, k); HEADER <= at && Written(p, at, names[k]) && at + |names[k]| <= |p| <= 16384
  {
    hide Means, EndOf;
    NextWritten(p, EndOf(p, tails, k), names[k], tails[k], Flat(names, tails, k + 1));
  }

  function Count(hi: octet, lo: octet): nat { 256 * hi as int + lo }

  /** The entries fit the counts in the packet header and the length fields of the records. */
  ghost predicate Layout(p: seq<octet>, names: Texts, tails: Texts) {
    && HEADER <= |p| && |names| == |tails| && AllNames(names)
    && |names| == Count(p[4], p[5]) + (Count(p[6], p[7]) + Count(p[8], p[9]) + Count(p[10], p[11])) % 65536
    && (forall k :: 0 <= k < |names| ==> |names[k]| <= 255)
    && (forall k :: 0 <= k < |names| && k < Count(p[4], p[5]) ==> |tails[k]| == QUESTION_SUFFIX)
    && (forall k :: Count(p[4], p[5]) <= k < |names| ==> IsRecordTail(tails[k]))
  }

  predicate IsRecordTail(tail: seq<octet>) {
    |tail| >= RECORD_SUFFIX && |tail| == RECORD_SUFFIX + Count(tail[8], tail[9])
  }

  /** `pico_dns_compress_record_sections`. */
  method CompressRecords(a: array<octet>, qdcount: nat, count: nat, at: nat, len: nat, ghost names: Texts, ghost tails: Texts)
    returns (newLen: nat)
    requires |names| == |tails| == qdcount + count && AllNames(names) && len <= a.Length
    requires forall k :: 0 <= k < |names| ==> |names[k]| <= 255
    requires forall k :: qdcount <= k < |names| ==> IsRecordTail(tails[k])
    requires Inv(a[..len], names, tails, qdcount) && AllShared(a[..len], names, tails, qdcount)
    requires at == EndOf(a[..len], tails, qdcount)
    modifies a
    ensures newLen <= len && a[..newLen] == Packed(old(a[..len]), names, tails, qdcount)
  {
    hide Inv, EndOf, Step, CanStep, AllNames, Count;
    ghost var p := a[..len];
    newLen := len;
    var it := at;
    for i := 0 to count
      invariant newLen <= len && it == EndOf(a[..newLen], tails, qdcount + i)
      invariant Inv(a[..newLen], names, tails, qdcount + i) && AllShared(a[..newLen], names, tails, qdcount + i)
      invariant Packed(a[..newLen], names, tails, qdcount + i) == Packed(p, names, tails, qdcount)
    {
      var e;
      newLen, e := DoName(a, it, newLen, qdcount == 0 && i == 0, names, tails, qdcount + i);
      SliceAt(a[..newLen], e, e + |tails[qdcount + i]|, 8);
      SliceAt(a[..newLen], e, e + |tails[qdcount + i]|, 9);
      it := e + RECORD_SUFFIX + Count(a[e + 8], a[e + 9]);
    }
  }

  lemma EndOfNone(p: seq<octet>, tails: Texts)
    ensures EndOf(p, tails, 0) == HEADER
  {}

  /** The loop over the questions. */
  method CompressQuestions(a: array<octet>, qdcount: nat, len: nat, ghost names: Texts, ghost tails: Texts)
    returns (newLen: nat, it: nat)
    requires |names| == |tails| >= qdcount && AllNames(names) && len <= a.Length
    requires forall k :: 0 <= k < |names| ==> |names[k]| <= 255
    requires forall k :: 0 <= k < qdcount ==> |tails[k]| == QUESTION_SUFFIX
    requires Inv(a[..len], names, tails, 0) && AllShared(a[..len], names, tails, 0)
    modifies a
    ensures newLen <= len && it == EndOf(a[..newLen], tails, qdcount)
    ensures Inv(a[..newLen], names, tails, qdcount) && AllShared(a[..newLen], names, tails, qdcount)
    ensures Packed(a[..newLen], names, tails, qdcount) == Packed(old(a[..len]), names, tails, 0)
  {
    hide Inv, EndOf, Step, CanStep, AllNames;
    ghost var p := a[..len];
    newLen, it := len, HEADER;
    EndOfNone(p, tails);
    for i := 0 to qdcount
      invariant newLen <= len && it == EndOf(a[..newLen], tails, i)
      invariant Inv(a[..newLen], names, tails, i) && AllShared(a[..newLen], names, tails, i)
      invariant Packed(a[..newLen], names, tails, i) == Packed(p, names, tails, 0)
    {
      var e;
      newLen, e := DoName(a, it, newLen, i == 0, names, tails, i);
      it := e + QUESTION_SUFFIX;
    }
  }

  lemma Start(p: seq<octet>, names: Texts, tails: Texts)
    requires HEADER <= |p| <= 16384 && |names| == |tails| && p[HEADER..] == Flat(names, tails, 0)
    ensures Inv(p, names, tails, 0)
  {}

  /** `pico_dns_packet_compress`. */
  method CompressPacket(a: array<octet>, len: nat, ghost names: Texts, ghost tails: Texts) returns (newLen: nat)
    requires len <= a.Length && len <= 16384 && Layout(a[..len], names, tails)
    requires a[..len][HEADER..] == Flat(names, tails, 0) && AllShared(a[..len], names, tails, 0)
    modifies a
    ensures newLen <= len && a[..newLen] == Packed(old(a[..len]), names, tails, 0)
    ensures HEADER <= newLen && a[..newLen][..HEADER] == old(a[..len][..HEADER])
    ensures Means(a[..newLen], names, tails, |names|) && EndOf(a[..newLen], tails, |names|) == newLen
  {
    hide Inv, Means, Flat, AllShared, Packed, EndOf, AllNames, Count;
    ghost var p := a[..len];
    Start(p, names, tails);
    PackedMeans(p, names, tails, 0);
    var qdcount := Count(a[4], a[5]);
    var rcount := (Count(a[6], a[7]) + Count(a[8], a[9]) + Count(a[10], a[11])) % 65536;
    var it;
    newLen, it := CompressQuestions(a, qdcount, len, names, tails);
    newLen := CompressRecords(a, qdcount, rcount, it, newLen, names, tails);
  }

  // ----- Reading a compressed name -----

  lemma FollowsStep(p: seq<octet>, pos: nat, name: seq<octet>, steps: nat)
    requires Follows(p, pos, name, steps)
    ensures pos < |p|
    ensures p[pos] == 0 ==> name == [0]
    ensures p[pos] != 0 ==> steps > 0
    ensures p[pos] >= 64 ==> pos + 1 < |p| && Follows(p, Target(p, pos), name, steps - 1)
    ensures 0 < p[pos] < 64 ==> pos + 1 + p[pos] <= |p| && p[pos] + 1 < |name| && name[..p[pos] + 1] == p[pos..pos + 1 + p[pos]]
                                && Follows(p, pos + 1 + p[pos], name[p[pos] + 1..], steps - 1)
  {}

  lemma InPacket(p: seq<octet>, pos: nat, name: seq<octet>, steps: nat)
    requires Follows(p, pos, name, steps)
    ensures pos < |p|
  {}

  /** Copies the next label, or the final zero byte, into the buffer. */
  method TakeLabel(buf: array<octet>, dest: nat, s: seq<octet>, ghost rest: seq<octet>, ghost name: seq<octet>)
    requires buf.Length == 256 && dest <= 256 && buf[..dest] + rest == name && |name| <= 256
    requires |s| <= |rest| && rest[..|s|] == s
    modifies buf
    ensures dest + |s| <= 256 && buf[..dest + |s|] + rest[|s|..] == name
  {
    Copy(buf, dest, s);
    assert rest == s + rest[|s|..];
  }

  /** `strlen` of a text at the start of a buffer. */
  method TextLength(buf: array<octet>, ghost name: seq<octet>) returns (n: nat)
    requires 0 < |name| <= buf.Length && buf[..|name|] == name && name[|name| - 1] == 0
    ensures n < |name| && name[..n + 1] == UpToZero(name)
  {
    hide UpToZero;
    n := 0;
    while buf[n] != 0
      invariant n < |name| && forall i :: 0 <= i < n ==> name[i] != 0
      decreases |name| - n
    {
      assert buf[n] == buf[..|name|][n];
      n := n + 1;
    }
    assert buf[n] == buf[..|name|][n];
    UpToZeroIs(name, n);
  }

  /** One step of the reading: to where the pointer leads, or over a label that is copied. */
  method ReadStep(p: seq<octet>, it: nat, buf: array<octet>, dest: nat, ghost name: seq<octet>, ghost rest: seq<octet>, ghost left: nat)
    returns (it': nat, dest': nat, ghost rest': seq<octet>)
    requires it < |p| && p[it] != 0 && Follows(p, it, rest, left)
    requires |name| <= 256 == buf.Length && dest <= 256 && buf[..dest] + rest == name
    modifies buf
    ensures left > 0 && it' < |p| && Follows(p, it', rest', left - 1)
    ensures dest' <= 256 && buf[..dest'] + rest' == name
  {
    hide Follows, Target;
    FollowsStep(p, it, rest, left);
    if p[it] >= 64 {
      it', dest', rest' := Target(p, it), dest, rest;
    } else {
      var n := p[it] + 1;
      TakeLabel(buf, dest, p[it..it + n], rest, name);
      dest', it', rest' := dest + n, it + n, rest[n..];
    }
    InPacket(p, it', rest', left - 1);
  }

  /** The labels of a compressed name, copied one by one. */
  method CopyLabels(p: seq<octet>, at: nat, buf: array<octet>, ghost name: seq<octet>, ghost steps: nat)
    requires Follows(p, at, name, steps) && |name| <= 256 == buf.Length
    modifies buf
    ensures buf[..|name|] == name && |name| > 0 && name[|name| - 1] == 0
  {
    hide Follows;
    var it: nat, dest: nat := at, 0;
    ghost var rest, left: nat := name, steps;
    InPacket(p, it, rest, left);
    assert buf[..0] + rest == name;
    while p[it] != 0
      invariant it < |p| && Follows(p, it, rest, left)
      invariant dest <= 256 && buf[..dest] + rest == name
      decreases left
    {
      it, dest, rest := ReadStep(p, it, buf, dest, name, rest, left);
      left := left - 1;
    }
    FollowsStep(p, it, rest, left);
    TakeLabel(buf, dest, [0], rest, name);
    assert rest[1..] == [];
  }

  /** `pico_dns_decompress_name`, wherever its pointers lead as long as it ends: the name up to its first zero
      byte. */
  method DecompressName(p: seq<octet>, at: nat, ghost name: seq<octet>, ghost steps: nat) returns (r: seq<octet>)
    requires Follows(p, at, name, steps) && |name| <= 256
    ensures r == UpToZero(name)
  {
    hide Follows, UpToZero;
    var buf := new octet[256](_ => 0);
    CopyLabels(p, at, buf, name, steps);
    var n := TextLength(buf, name);
    assert buf[..n + 1] == buf[..|name|][..n + 1];
    r := buf[..n + 1];
  }

  /** Reads the name of entry `k` of a compressed packet. */
  method NameOfEntry(p: seq<octet>, at: nat, ghost names: Texts, ghost tails: Texts, ghost k: nat) returns (r: seq<octet>)
    requires |names| == |tails| && k < |names| && AllNames(names) && |names[k]| <= 255
    requires Means(p, names, tails, |names|) && at == EndOf(p, tails, k)
    ensures r == names[k]
  {
    MeansEntry(p, names, tails, |names|, k);
    hide Reads, Means, IsName, NameEnd, Follows, UpToZero;
    ghost var steps := ReadsFollows(p, at, NameEnd(p, at), names[k]);
    NameUpToZero(names[k]);
    r := DecompressName(p, at, names[k], steps);
  }

  // ----- When every name has something to share -----

  /** `last` is what remains of `name` after some of its labels. */
  predicate EndsIn(name: seq<octet>, last: seq<octet>)
    requires IsName(name)
    decreases |name|
  {
    name == last || (name[0] != 0 && EndsIn(name[name[0] + 1..], last))
  }

  lemma {:induction false} SharesIfEndsIn(p: seq<octet>, lbl: nat, name: seq<octet>, last: seq<octet>, m: nat)
    requires IsName(name) && EndsIn(name, last) && |last| > 1 && Written(p, lbl, name)
    requires HEADER <= m < lbl && Written(p, m, last)
    ensures lbl + |name| <= |p| && Shared(p, lbl, name)
    decreases |name|
  {
    NameParts(name);
    WrittenBounds(p, lbl, name);
    if name == last {
      assert Occurs(p, m, lbl, |name|);
    } else {
      WrittenFrom(p, lbl, name, name[0] + 1);
      SharesIfEndsIn(p, lbl + name[0] + 1, name[name[0] + 1..], last, m);
    }
    hide Written, Occurs;
  }

  ghost predicate AllEndIn(names: Texts, last: seq<octet>)
    requires AllNames(names)
  {
    forall k :: 0 <= k < |names| ==> EndsIn(names[k], last)
  }

  /** If all names end in the same label, there is always something to share: the end of the first name,
      which stays where it is. */
  lemma {:induction false} AllSharedIfCommonEnd(p: seq<octet>, names: Texts, tails: Texts, last: seq<octet>, m: nat, k: nat)
    requires |names| == |tails| && 1 <= k <= |names| && AllNames(names) && |last| > 1 && AllEndIn(names, last)
    requires Inv(p, names, tails, k) && HEADER <= m && m + |last| <= EndOf(p, tails, k) && Written(p, m, last)
    ensures AllShared(p, names, tails, k)
    decreases |names| - k
  {
    hide Inv, EndOf, Shared, IsName, EndsIn, NameEnd, Written, Step, CanStep, AllShared;
    if k < |names| {
      var at := EndOf(p, tails, k);
      NameWritten(p, names, tails, k);
      SharesIfEndsIn(p, at, names[k], last, m);
      CanStepIntro(p, names[k], at);
      StepKeeps(p, names, tails, k);
      StepPrefix(p, names, tails, k);
      var q := Step(p, names, tails, k);
      StillWritten(p, q, at, m, last);
      EntryThere(q, names, tails, k);
      AllSharedIfCommonEnd(q, names, tails, last, m, k + 1);
    }
    AllSharedIntro(p, names, tails, k);
  }

  lemma CanStepIntro(p: seq<octet>, name: seq<octet>, at: nat)
    requires IsName(name) && at + |name| <= |p| <= 16384 && Shared(p, at, name)
    ensures CanStep(p, name, at)
  {}

  lemma AllSharedIntro(p: seq<octet>, names: Texts, tails: Texts, k: nat)
    requires |names| == |tails| && k <= |names|
    requires k < |names| ==> (k > 0 ==> CanStep(p, names[k], EndOf(p, tails, k))) && AllShared(Step(p, names, tails, k), names, tails, k + 1)
    ensures AllShared(p, names, tails, k)
  {
    hide EndOf, Step, CanStep;
  }

  lemma StillWritten(p: seq<octet>, q: seq<octet>, lim: nat, m: nat, s: seq<octet>)
    requires Written(p, m, s) && m + |s| <= lim <= |p| && lim <= |q| && q[..lim] == p[..lim]
    ensures Written(q, m, s)
  {
    SameSlice(p, q, lim, m, m + |s|);
  }

  lemma StepPrefix(p: seq<octet>, names: Texts, tails: Texts, k: nat)
    requires |names| == |tails| && 1 <= k < |names| && Inv(p, names, tails, k) && CanStep(p, names[k], EndOf(p, tails, k))
    ensures var q, at := Step(p, names, tails, k), EndOf(p, tails, k); at <= |q| && at <= |p| && q[..at] == p[..at]
  {
    var at := EndOf(p, tails, k);
    NameWritten(p, names, tails, k);
    CompressedMeans(p, at, names[k]);
    hide Inv, EndOf, Shared, IsName, NameEnd, Reads, Compressed;
  }

  lemma {:induction false} EndWritten(p: seq<octet>, lbl: nat, name: seq<octet>, last: seq<octet>)
    requires IsName(name) && EndsIn(name, last) && Written(p, lbl, name)
    ensures |last| <= |name| && Written(p, lbl + |name| - |last|, last)
    decreases |name|
  {
    hide Written;
    NameParts(name);
    if name != last {
      WrittenFrom(p, lbl, name, name[0] + 1);
      EndWritten(p, lbl + name[0] + 1, name[name[0] + 1..], last);
    }
  }

  /** A packet whose names all end in one label can be compressed. */
  lemma CommonEndCompresses(p: seq<octet>, names: Texts, tails: Texts, last: seq<octet>)
    requires |names| == |tails| && AllNames(names) && |last| > 1 && AllEndIn(names, last) && Inv(p, names, tails, 0)
    ensures AllShared(p, names, tails, 0)
  {
    hide Inv, EndsIn, NameEnd, Written, CanStep, AllShared, IsName;
    if |names| > 0 {
      assert Step(p, names, tails, 0) == p;
      hide Step;
      EndOfNone(p, tails);
      hide EndOf;
      NameWritten(p, names, tails, 0);
      EndWritten(p, HEADER, names[0], last);
      WrittenEnd(p, HEADER, names[0]);
      StepKeeps(p, names, tails, 0);
      EntryThere(p, names, tails, 0);
      AllSharedIfCommonEnd(p, names, tails, last, HEADER + |names[0]| - |last|, 1);
    }
    AllSharedIntro(p, names, tails, 0);
  }
}
