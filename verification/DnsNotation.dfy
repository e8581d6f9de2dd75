/** Names in URL notation ("www.example.org") and in DNS notation, where lengths take the place of the
    dots (section 3.1 of RFC 1035), and the in-place loops that go from one to the other. */
module DnsNotation {
  import opened Bytes
  import opened DnsWire

  const DOT: octet := 46

  /** A text of C: no zero byte in it. */
  predicate IsText(u: seq<octet>) { forall i :: 0 <= i < |u| ==> u[i] != 0 }

  /** Where the label that begins at `i` ends. */
  function LabelEnd(u: seq<octet>, i: nat): (r: nat)
    requires i <= |u|
    ensures i <= r <= |u| && (r < |u| ==> u[r] == DOT)
    ensures forall j :: i <= j < r ==> u[j] != DOT
    decreases |u| - i
  {
    if i == |u| || u[i] == DOT then i else LabelEnd(u, i + 1)
  }

  /** A length byte stands at `p`: before the first label, or in place of a dot. */
  predicate LengthAt(u: seq<octet>, p: nat)
    requires p <= |u|
  {
    p == 0 || u[p - 1] == DOT
  }

  /** The name in DNS notation. */
  function Encoded(u: seq<octet>): (q: seq<octet>)
    requires |u| <= 253
    ensures |q| == |u| + 2 && q[|u| + 1] == 0
    ensures forall p :: 0 <= p <= |u| ==> q[p] == if LengthAt(u, p) then LabelEnd(u, p) - p else u[p - 1]
  {
    seq(|u| + 2, p requires 0 <= p < |u| + 2 =>
      if p == |u| + 1 then 0 else if LengthAt(u, p) then LabelEnd(u, p) - p else u[p - 1])
  }

  lemma EndIs(u: seq<octet>, from: nat, i: nat)
    requires from <= i <= |u| && (forall j :: from <= j < i ==> u[j] != DOT) && (i < |u| ==> u[i] == DOT)
    ensures LabelEnd(u, from) == i
  {}

  /** `pico_dns_name_to_dns_notation` on a buffer that holds a byte to spare, the name and a zero. */
  method NameToDns(a: array<octet>, ghost u: seq<octet>)
    requires IsText(u) && 1 <= |u| <= 253 && a.Length == |u| + 2 && a[1..|u| + 1] == u && a[|u| + 1] == 0
    modifies a
    ensures a[..] == Encoded(u)
  {
    hide LabelEnd;
    assert forall p :: 1 <= p <= |u| ==> a[p] == a[1..|u| + 1][p - 1];
    ghost var q := Encoded(u);
    var lbl, i := 0, 1;
    while a[i] != 0
      invariant 0 <= lbl < i <= |u| + 1 && LengthAt(u, lbl)
      invariant forall p :: 0 <= p < lbl ==> a[p] == q[p]
      invariant forall p :: lbl < p <= |u| ==> a[p] == u[p - 1]
      invariant a[|u| + 1] == 0
      invariant forall j :: lbl <= j < i - 1 ==> u[j] != DOT
      decreases |u| + 1 - i
    {
      if a[i] == DOT {
        EndIs(u, lbl, i - 1);
        a[lbl] := i - lbl - 1;
        lbl := i;
      }
      i := i + 1;
    }
    EndIs(u, lbl, i - 1);
    a[lbl] := i - lbl - 1;
  }

  /** `pico_dns_url_to_qname`. */
  method UrlToQname(u: seq<octet>) returns (r: Option<seq<octet>>)
    requires IsText(u) && |u| < 65534
    ensures r == if 1 <= |u| <= 253 then Some(Encoded(u)) else None
  {
    var namelen := |u| + 2;
    if !(2 < namelen < 256) { return None; }
    var a := new octet[namelen](_ => 0);
    forall j | 0 <= j < |u| { a[j + 1] := u[j]; }
    assert a[1..|u| + 1] == u;
    NameToDns(a, u);
    r := Some(a[..]);
  }

  // ----- Back -----

  /** The first zero byte. */
  function ZeroAt(q: seq<octet>, i: nat): (z: nat)
    requires i < |q| && exists j :: i <= j < |q| && q[j] == 0
    ensures i <= z < |q| && q[z] == 0 && forall j :: i <= j < z ==> q[j] != 0
    decreases |q| - i
  {
    if q[i] == 0 then i else ZeroAt(q, i + 1)
  }

  /** Steps of one label lead from `pos` to `end` or beyond, without leaving `q`. */
  predicate Walks(q: seq<octet>, pos: nat, end: nat)
    decreases end - pos
  {
    pos < |q| && (pos >= end || Walks(q, pos + q[pos] + 1, end))
  }

  /** One of those steps starts at `p`. */
  predicate OnWalk(q: seq<octet>, pos: nat, end: nat, p: nat)
    decreases end - pos
  {
    pos <= p < end <= |q| && (p == pos || OnWalk(q, pos + q[pos] + 1, end, p))
  }

  /** The lengths replaced by dots. */
  function Dotted(q: seq<octet>, end: nat): (r: seq<octet>)
    requires end <= |q|
    ensures |r| == end && forall p :: 0 <= p < end ==> r[p] == if OnWalk(q, 0, end, p) then DOT else q[p]
  {
    seq(end, p requires 0 <= p < end => if OnWalk(q, 0, end, p) then DOT else q[p])
  }

  lemma WalkStep(q: seq<octet>, pos: nat, end: nat)
    requires Walks(q, pos, end) && pos < end <= |q|
    ensures pos + q[pos] + 1 < |q| && Walks(q, pos + q[pos] + 1, end) && OnWalk(q, pos, end, pos)
    ensures forall p :: pos < p < pos + q[pos] + 1 ==> !OnWalk(q, pos, end, p)
    ensures forall p :: pos + q[pos] + 1 <= p ==> (OnWalk(q, pos, end, p) <==> OnWalk(q, pos + q[pos] + 1, end, p))
  {}

  lemma WalkInside(q: seq<octet>, pos: nat, end: nat)
    requires Walks(q, pos, end)
    ensures pos < |q|
  {}

  /** `pico_dns_notation_to_name`. */
  method DnsToName(a: array<octet>, end: nat)
    requires end < a.Length && Walks(a[..], 0, end)
    requires (forall j :: 0 <= j < end ==> a[j] != 0) && a[end] == 0
    modifies a
    ensures a[..end] == Dotted(old(a[..]), end)
  {
    hide Walks, OnWalk;
    ghost var q := a[..];
    var lbl := 0;
    var next := lbl + a[lbl] + 1;
    while a[lbl] != 0 && lbl < end
      invariant 0 <= lbl < a.Length && Walks(q, lbl, end) && next == lbl + q[lbl] + 1
      invariant forall p :: lbl <= p < end ==> (OnWalk(q, 0, end, p) <==> OnWalk(q, lbl, end, p))
      invariant forall p :: 0 <= p < lbl && p < end ==> a[p] == if OnWalk(q, 0, end, p) then DOT else q[p]
      invariant forall p :: lbl <= p < a.Length ==> a[p] == q[p]
      decreases end - lbl
    {
      WalkStep(q, lbl, end);
      WalkInside(q, next, end);
      a[lbl] := DOT;
      lbl := next;
      next := next + a[next] + 1;
    }
  }

  /** What `pico_dns_qname_to_url` makes of the bytes before the first zero. */
  function Url(q: seq<octet>, z: nat): Option<seq<octet>>
    requires z <= |q|
  {
    if 2 < z < 256 then Some(Dotted(q, z)[1..]) else None
  }

  /** The copy that `pico_dns_qname_to_url` works on: 256 bytes, zero behind the name. */
  function Temp(q: seq<octet>, z: nat): (r: seq<octet>)
    requires z <= |q| && z < 256
    ensures |r| == 256 && r[..z] == q[..z] && forall j :: z <= j < 256 ==> r[j] == 0
  {
    q[..z] + seq(256 - z, _ => 0)
  }

  /** `pico_dns_qname_to_url`. */
  method QnameToUrl(q: seq<octet>) returns (r: Option<seq<octet>>)
    requires exists j :: 0 <= j < |q| && q[j] == 0
    requires var z := ZeroAt(q, 0); 2 < z < 256 ==> Walks(Temp(q, z), 0, z)
    ensures r == Url(q, ZeroAt(q, 0))
  {
    hide Walks, OnWalk;
    var namelen := 0;
    ghost var z := ZeroAt(q, 0);
    while q[namelen] != 0
      invariant namelen <= z
      decreases z - namelen
    {
      namelen := namelen + 1;
    }
    if !(2 < namelen < 256) { return None; }
    var temp := new octet[256](_ => 0);
    forall j | 0 <= j < namelen { temp[j] := q[j]; }
    assert temp[..] == Temp(q, z);
    DottedFrame(q, Temp(q, z), z);
    assert forall j :: 0 <= j < z ==> temp[j] == q[j];
    DnsToName(temp, namelen);
    assert temp[..z][1..] == temp[1..z];
    r := Some(temp[1..namelen]);
  }

  lemma {:induction false} WalksFrame(q: seq<octet>, s: seq<octet>, pos: nat, z: nat)
    requires Walks(q, pos, z) && z <= |q| <= |s| && s[..z] == q[..z]
    ensures Walks(s, pos, z)
    decreases z - pos
  {
    if pos < z {
      assert s[pos] == s[..z][pos] == q[..z][pos];
      WalksFrame(q, s, pos + q[pos] + 1, z);
    }
  }

  lemma {:induction false} OnWalkFrame(q: seq<octet>, s: seq<octet>, pos: nat, z: nat, p: nat)
    requires z <= |s| && z <= |q| && s[..z] == q[..z]
    ensures OnWalk(q, pos, z, p) == OnWalk(s, pos, z, p)
    decreases z - pos
  {
    if pos <= p < z {
      assert s[pos] == s[..z][pos] == q[..z][pos];
      OnWalkFrame(q, s, pos + q[pos] + 1, z, p);
    }
  }

  lemma DottedFrame(q: seq<octet>, s: seq<octet>, z: nat)
    requires z <= |s| && z <= |q| && s[..z] == q[..z]
    ensures Dotted(q, z) == Dotted(s, z)
  {
    forall p | 0 <= p < z ensures Dotted(q, z)[p] == Dotted(s, z)[p] {
      OnWalkFrame(q, s, 0, z, p);
      assert s[p] == s[..z][p] == q[..z][p];
    }
  }

  // ----- Round trip -----

  /** No label of the name is empty. */
  predicate NoEmptyLabel(u: seq<octet>) {
    forall p :: 0 <= p <= |u| && LengthAt(u, p) ==> p < |u| && u[p] != DOT
  }

  /** The lengths that `Encoded` writes lead from one length to the next. */
  lemma {:induction false} EncodedWalks(u: seq<octet>, pos: nat, z: nat)
    requires |u| <= 253 && pos <= z <= |u| + 1
    requires pos <= |u| ==> LengthAt(u, pos)
    requires z <= |u| ==> LengthAt(u, z)
    ensures Walks(Encoded(u), pos, z)
    ensures forall p :: pos <= p < z ==> (OnWalk(Encoded(u), pos, z, p) <==> LengthAt(u, p))
    decreases z - pos
  {
    if pos < z {
      var q, end := Encoded(u), LabelEnd(u, pos);
      hide Encoded, LabelEnd;
      assert pos + q[pos] + 1 == end + 1;
      EncodedWalks(u, end + 1, z);
    }
  }

  /** MAIN RESULT.  A name survives the way to DNS notation and back exactly when it is 2 to 253 bytes
      long and has no empty label. */
  lemma NotationRoundTrip(u: seq<octet>)
    requires IsText(u) && |u| <= 253
    ensures var q := Encoded(u);
      && q[|u| + 1] == 0 && ZeroAt(q, 0) < 256 && Walks(Temp(q, ZeroAt(q, 0)), 0, ZeroAt(q, 0))
      && (Url(q, ZeroAt(q, 0)) == Some(u) <==> |u| >= 2 && NoEmptyLabel(u))
  {
    var q := Encoded(u);
    var z := ZeroAt(q, 0);
    hide Encoded, LabelEnd, ZeroAt;
    assert z <= |u| ==> LengthAt(u, z);
    EncodedWalks(u, 0, z);
    WalksFrame(q, Temp(q, z), 0, z);
    hide Walks, OnWalk, Temp;
    if NoEmptyLabel(u) {
      assert z == |u| + 1;
      forall p | 1 <= p < z ensures Dotted(q, z)[p] == u[p - 1] {}
      assert |u| >= 2 ==> Dotted(q, z)[1..] == u;
    } else {
      assert z <= |u|;
    }
  }

  // ----- What the notation is for -----

  predicate LabelFits(u: seq<octet>, p: nat)
    requires p <= |u|
  {
    0 < LabelEnd(u, p) - p < 64
  }

  ghost predicate LabelsFit(u: seq<octet>, from: nat) {
    forall p :: from <= p <= |u| && LengthAt(u, p) ==> LabelFits(u, p)
  }

  /** From any length on, the encoded name is a name exactly if no label is empty or longer than 63 bytes. */
  lemma {:induction false} EncodedFrom(u: seq<octet>, p: nat)
    requires IsText(u) && |u| <= 253 && p <= |u| && LengthAt(u, p)
    ensures IsName(Encoded(u)[p..]) <==> LabelsFit(u, p)
    decreases |u| - p
  {
    var q, end := Encoded(u), LabelEnd(u, p);
    hide Encoded, LabelEnd;
    var s := q[p..];
    assert s[0] == q[p] == end - p;
    if LabelFits(u, p) {
      assert s[s[0] + 1..] == q[end + 1..];
      forall i | 1 <= i <= s[0] ensures s[i] != 0 {
        assert s[i] == q[p + i] == u[p + i - 1];
      }
      if end == |u| {
        assert q[end + 1..] == [0];
        assert LabelsFit(u, p);
      } else {
        EncodedFrom(u, end + 1);
        assert LabelsFit(u, p) <==> LabelsFit(u, end + 1);
      }
    }
  }

  /** The encoded name is a name that packets can carry exactly if no label is empty or longer than 63 bytes,
      which the conversion does not look at. */
  lemma EncodedIsName(u: seq<octet>)
    requires IsText(u) && |u| <= 253
    ensures IsName(Encoded(u)) <==> LabelsFit(u, 0)
  {
    EncodedFrom(u, 0);
    assert Encoded(u)[0..] == Encoded(u);
  }
}
