/**
 Reassembly in any order: whatever the order in which the fragments of one datagram arrive and
 whatever other fragments arrive between them, the datagram is handed up exactly when its last
 fragment arrives, and is the one that was cut up.  Fragments that arrive more than once are
 harmless exactly as long as the bytes that have arrived, repetitions included, are fewer than
 the datagram has.
 */
module LowpanReassembly {
  import opened Bytes
  import opened LowpanFrag
  import opened LowpanDefrag

  // ----- Runs -----

  ghost predicate AllSound(evs: seq<Event>) {
    forall i :: 0 <= i < |evs| ==> Sound(evs[i])
  }

  /** The table after the first `n` events. */
  ghost function After(t: Table, evs: seq<Event>, n: nat): (r: Table)
    requires Valid(t) && AllSound(evs) && n <= |evs|
    ensures Valid(r)
  {
    if n == 0 then t
    else
      NextValid(After(t, evs, n - 1), evs[n - 1]);
      Next(After(t, evs, n - 1), evs[n - 1])
  }

  /** What the first `n` events hand up for key `k`. */
  ghost function Out(t: Table, evs: seq<Event>, k: Key, n: nat): seq<seq<byte>>
    requires Valid(t) && AllSound(evs) && n <= |evs|
  {
    if n == 0 then []
    else if evs[n - 1].Fragment? && evs[n - 1].key == k then
      Out(t, evs, k, n - 1) + Handed(After(t, evs, n - 1), evs[n - 1])
    else Out(t, evs, k, n - 1)
  }

  // ----- The fragments of one datagram among the events -----

  /** Cuts of a datagram into two or more non-empty pieces. */
  predicate Split(cuts: seq<nat>, size: nat) {
    |cuts| >= 3 && cuts[0] == 0 && cuts[|cuts| - 1] == size && Increasing(cuts)
  }

  /** The event is fragment `j` of the datagram, or for negative `j` not one of its fragments. */
  predicate Labelled(e: Event, k: Key, orig: seq<byte>, cuts: seq<nat>, j: int) {
    if j < 0 then e.Fragment? ==> e.key != k
    else j + 1 < |cuts| && e.Fragment? && e.key == k && e.off == cuts[j] && e.data == Chunk(orig, cuts, j)
  }

  ghost predicate Labels(evs: seq<Event>, k: Key, orig: seq<byte>, cuts: seq<nat>, which: seq<int>) {
    |which| == |evs| && forall i :: 0 <= i < |evs| ==> Labelled(evs[i], k, orig, cuts, which[i])
  }

  /** No fragment arrives twice. */
  ghost predicate Once(which: seq<int>) {
    forall i, l :: 0 <= i < l < |which| ==> which[i] != which[l] || which[i] < 0
  }

  function Got(which: seq<int>, n: nat): set<int>
    requires n <= |which|
  {
    if n == 0 then {} else Got(which, n - 1) + {which[n - 1]}
  }

  ghost predicate None(got: set<int>, m: nat) {
    forall j :: 0 <= j < m ==> j !in got
  }

  ghost predicate All(got: set<int>, m: nat) {
    forall j :: 0 <= j < m ==> j in got
  }

  /** While the datagram is incomplete, the timer sees none of its fragments five seconds old. */
  ghost predicate InTime(evs: seq<Event>, which: seq<int>, m: nat)
    requires |which| == |evs|
  {
    forall i, j :: 0 <= j < i < |evs| && which[j] >= 0 && evs[i].Timer? && !All(Got(which, i), m)
      ==> 0 <= evs[i].at - evs[j].at < TIMEOUT
  }

  // ----- Counting what has been copied -----

  function Width(cuts: seq<nat>, j: nat): int
    requires j + 1 < |cuts|
  {
    cuts[j + 1] as int - cuts[j]
  }

  /** Bytes in the received pieces among the first `m`. */
  function Covered(cuts: seq<nat>, got: set<int>, m: nat): int
    requires m < |cuts|
  {
    if m == 0 then 0 else Covered(cuts, got, m - 1) + if m - 1 in got then Width(cuts, m - 1) else 0
  }

  lemma {:induction false} CoveredAdd(cuts: seq<nat>, got: set<int>, j: int, m: nat)
    requires m < |cuts| && j !in got
    ensures Covered(cuts, got + {j}, m) == Covered(cuts, got, m) + if 0 <= j < m then Width(cuts, j) else 0
  {
    if m > 0 { CoveredAdd(cuts, got, j, m - 1); }
  }

  lemma {:induction false} CoveredNone(cuts: seq<nat>, got: set<int>, m: nat)
    requires m < |cuts| && None(got, m)
    ensures Covered(cuts, got, m) == 0
  {
    if m > 0 { CoveredNone(cuts, got, m - 1); }
  }

  /** Everything is copied exactly when every piece has been received. */
  lemma {:induction false} CoveredAll(cuts: seq<nat>, got: set<int>, m: nat)
    requires m < |cuts| && Increasing(cuts)
    ensures cuts[0] + Covered(cuts, got, m) <= cuts[m]
    ensures cuts[0] + Covered(cuts, got, m) == cuts[m] <==> All(got, m)
  {
    if m > 0 {
      CoveredAll(cuts, got, m - 1);
      assert cuts[m - 1] < cuts[m - 1 + 1];
      assert All(got, m) <==> All(got, m - 1) && m - 1 in got;
    }
  }

  /** Bytes of the datagram that the first `n` events bring, repetitions included. */
  function Counted(cuts: seq<nat>, which: seq<int>, n: nat): int
    requires n <= |which|
  {
    if n == 0 then 0
    else if 0 <= which[n - 1] < |cuts| - 1 then Counted(cuts, which, n - 1) + Width(cuts, which[n - 1])
    else Counted(cuts, which, n - 1)
  }

  /** What arrives more than once is counted more than once. */
  lemma {:induction false} CountedCovers(cuts: seq<nat>, which: seq<int>, n: nat)
    requires n <= |which| && |cuts| >= 1 && Increasing(cuts)
    ensures Counted(cuts, which, n) >= Covered(cuts, Got(which, n), |cuts| - 1)
    ensures Once(which) ==> Counted(cuts, which, n) == Covered(cuts, Got(which, n), |cuts| - 1)
    ensures None(Got(which, n), |cuts| - 1) ==> Counted(cuts, which, n) == 0
  {
    var m := |cuts| - 1;
    if n == 0 {
      CoveredNone(cuts, Got(which, 0), m);
    } else {
      var got, j := Got(which, n - 1), which[n - 1];
      CountedCovers(cuts, which, n - 1);
      assert Got(which, n) == got + {j};
      if Once(which) && j >= 0 { NotYet(which, n - 1); }
      if j !in got { CoveredAdd(cuts, got, j, m); } else { assert got + {j} == got; }
      hide Got, Covered, Once;
    }
  }

  // ----- The invariant -----

  /** The received pieces are in place. */
  ghost predicate Agrees(buf: seq<byte>, orig: seq<byte>, cuts: seq<nat>, got: set<int>) {
    && |buf| == |orig|
    && forall j, p :: 0 <= j < |cuts| - 1 && j in got && cuts[j] <= p < cuts[j + 1] && p < |orig| ==> buf[p] == orig[p]
  }

  /** The reassembly under way holds the received pieces and has counted `count` bytes. */
  ghost predicate Holds(t: Table, k: Key, orig: seq<byte>, cuts: seq<nat>, got: set<int>, count: int)
    requires |cuts| >= 1
  {
    && Valid(t)
    && (k in t <==> !None(got, |cuts| - 1))
    && (k in t ==> t[k].copied == count && Agrees(t[k].buf, orig, cuts, got))
  }

  lemma ChunkOf(orig: seq<byte>, cuts: seq<nat>, j: nat)
    requires Split(cuts, |orig|) && j + 1 < |cuts|
    ensures cuts[j] < cuts[j + 1] <= |orig| && Chunk(orig, cuts, j) == orig[cuts[j]..cuts[j + 1]]
  {
    if j + 1 < |cuts| - 1 { Ordered(cuts, j + 1, |cuts| - 1); }
  }

  /** Distinct pieces do not overlap, so a new one leaves those in place alone. */
  lemma AgreesAdd(buf: seq<byte>, orig: seq<byte>, cuts: seq<nat>, got: set<int>, j: nat)
    requires Split(cuts, |orig|) && j + 1 < |cuts| && Agrees(buf, orig, cuts, got)
    requires cuts[j] < cuts[j + 1] <= |orig|
    ensures Agrees(Overlay(buf, cuts[j], orig[cuts[j]..cuts[j + 1]]), orig, cuts, got + {j})
  {}

  lemma AgreesNone(buf: seq<byte>, orig: seq<byte>, cuts: seq<nat>, got: set<int>)
    requires |buf| == |orig| && |cuts| >= 1 && None(got, |cuts| - 1)
    ensures Agrees(buf, orig, cuts, got)
  {}

  /** Some piece holds any given byte. */
  lemma {:induction false} PieceAt(cuts: seq<nat>, m: nat, p: nat) returns (j: nat)
    requires m < |cuts| && Increasing(cuts) && cuts[0] <= p < cuts[m]
    ensures j < m && cuts[j] <= p < cuts[j + 1]
  {
    if cuts[m - 1] <= p { j := m - 1; } else { j := PieceAt(cuts, m - 1, p); }
  }

  lemma AgreesAll(buf: seq<byte>, orig: seq<byte>, cuts: seq<nat>, got: set<int>)
    requires Split(cuts, |orig|) && Agrees(buf, orig, cuts, got) && All(got, |cuts| - 1)
    ensures buf == orig
  {
    forall p | 0 <= p < |orig| ensures buf[p] == orig[p] {
      var j := PieceAt(cuts, |cuts| - 1, p);
    }
  }

  // ----- One event -----

  /** Events of other datagrams leave this one alone, and so does the timer while it is young. */
  lemma OtherEvent(t: Table, e: Event, k: Key)
    requires Valid(t) && Sound(e) && (e.Fragment? ==> e.key != k)
    requires e.Timer? && k in t ==> 0 <= e.at - t[k].stamp < TIMEOUT
    ensures k in Next(t, e) <==> k in t
    ensures k in t ==> Next(t, e)[k] == t[k]
  {
    hide Overlay, U16, Zeros;
  }

  lemma HoldsOther(k: Key, orig: seq<byte>, cuts: seq<nat>, t: Table, t': Table, got: set<int>, count: int, j: int)
    requires |cuts| >= 1 && Holds(t, k, orig, cuts, got, count) && Valid(t') && j < 0
    requires (k in t' <==> k in t) && (k in t ==> t'[k] == t[k])
    ensures Holds(t', k, orig, cuts, got + {j}, count)
  {
    assert forall i :: 0 <= i < |cuts| - 1 ==> (i in got + {j} <==> i in got);
    assert None(got + {j}, |cuts| - 1) <==> None(got, |cuts| - 1);
  }

  /** The first fragment to arrive starts the reassembly. */
  lemma FirstArrival(t: Table, e: Event, k: Key, orig: seq<byte>, cuts: seq<nat>, got: set<int>, j: nat)
    requires Split(cuts, |orig|) && k.size == |orig| && Sound(e) && Labelled(e, k, orig, cuts, j)
    requires Holds(t, k, orig, cuts, got, 0) && None(got, |cuts| - 1)
    ensures Width(cuts, j) < |orig| && Handed(t, e) == []
    ensures Holds(Next(t, e), k, orig, cuts, got + {j}, Width(cuts, j))
    ensures k in Next(t, e) && Next(t, e)[k].stamp == e.at
  {
    ChunkOf(orig, cuts, j);
    if j == 0 { Ordered(cuts, 1, |cuts| - 1); } else { Ordered(cuts, 0, j); }
    NextValid(t, e);
    AgreesNone(Zeros(k.size), orig, cuts, got);
    AgreesAdd(Zeros(k.size), orig, cuts, got, j);
    assert j in got + {j};
    hide Overlay, U16, Zeros, Agrees, Increasing;
  }

  /** Every further fragment, new or repeated, adds its length to the count; the datagram is handed up
      when the count reaches its size. */
  lemma LaterArrival(t: Table, e: Event, k: Key, orig: seq<byte>, cuts: seq<nat>, got: set<int>, count: int, j: nat)
    requires Split(cuts, |orig|) && k.size == |orig| && Sound(e) && Labelled(e, k, orig, cuts, j)
    requires Holds(t, k, orig, cuts, got, count) && !None(got, |cuts| - 1)
    ensures k in t
    ensures count + Width(cuts, j) < |orig| ==>
      && Holds(Next(t, e), k, orig, cuts, got + {j}, count + Width(cuts, j)) && Handed(t, e) == []
      && k in Next(t, e) && Next(t, e)[k].stamp == t[k].stamp
    ensures count + Width(cuts, j) >= |orig| ==> |Handed(t, e)| == 1 && (All(got + {j}, |cuts| - 1) ==> Handed(t, e) == [Finalize(orig)])
  {
    var m := |cuts| - 1;
    ChunkOf(orig, cuts, j);
    NextValid(t, e);
    AgreesAdd(t[k].buf, orig, cuts, got, j);
    Fits16(t[k].copied + |e.data|);
    assert !None(got + {j}, m) by {
      var i :| 0 <= i < m && i in got;
      assert i in got + {j};
    }
    if All(got + {j}, m) { AgreesAll(Overlay(t[k].buf, e.off, e.data), orig, cuts, got + {j}); }
    hide Overlay, U16, Agrees, Finalize;
  }

  // ----- All runs -----

  /** The reassembly under way was started by one of the fragments received. */
  ghost predicate Dated(t: Table, k: Key, evs: seq<Event>, which: seq<int>, n: nat)
    requires n <= |which| == |evs|
  {
    k in t ==> exists i :: 0 <= i < n && which[i] >= 0 && evs[i].at == t[k].stamp
  }

  lemma {:induction false} GotIs(which: seq<int>, n: nat, j: int)
    requires n <= |which|
    ensures j in Got(which, n) <==> exists i :: 0 <= i < n && which[i] == j
  {
    if n > 0 { GotIs(which, n - 1, j); }
  }

  lemma NotYet(which: seq<int>, n: nat)
    requires n < |which| && Once(which) && which[n] >= 0
    ensures which[n] !in Got(which, n)
  {
    GotIs(which, n, which[n]);
  }

  lemma AfterNext(t: Table, evs: seq<Event>, k: Key, n: nat)
    requires Valid(t) && AllSound(evs) && n < |evs|
    ensures After(t, evs, n + 1) == Next(After(t, evs, n), evs[n])
    ensures evs[n].Fragment? && evs[n].key == k ==> Out(t, evs, k, n + 1) == Out(t, evs, k, n) + Handed(After(t, evs, n), evs[n])
    ensures !(evs[n].Fragment? && evs[n].key == k) ==> Out(t, evs, k, n + 1) == Out(t, evs, k, n)
  {}

  /** What the theorems ask of a run: events that fit, those of one datagram labelled, and no time-out
      while it is incomplete. */
  ghost predicate RunOf(t: Table, evs: seq<Event>, k: Key, orig: seq<byte>, cuts: seq<nat>, which: seq<int>) {
    && Valid(t) && k !in t && AllSound(evs)
    && Split(cuts, |orig|) && k.size == |orig| >= IP6_HEADER
    && Labels(evs, k, orig, cuts, which) && InTime(evs, which, |cuts| - 1)
  }

  /** As long as some piece is missing, fewer bytes have arrived than the datagram has. */
  ghost predicate CountStaysBelow(cuts: seq<nat>, which: seq<int>, size: nat, n: nat)
    requires n <= |which| && |cuts| >= 1
  {
    forall i :: 0 <= i <= n && !All(Got(which, i), |cuts| - 1) ==> Counted(cuts, which, i) < size
  }

  lemma BelowAt(cuts: seq<nat>, which: seq<int>, size: nat, n: nat)
    requires 0 < n <= |which| && |cuts| >= 1 && CountStaysBelow(cuts, which, size, n)
    ensures CountStaysBelow(cuts, which, size, n - 1)
    ensures !All(Got(which, n), |cuts| - 1) ==> Counted(cuts, which, n) < size
  {
    hide All, Got, Counted;
  }

  lemma StillMissing(which: seq<int>, n: nat, m: nat)
    requires n < |which| && !All(Got(which, n + 1), m)
    ensures !All(Got(which, n), m)
  {}

  lemma RunIntro(t: Table, evs: seq<Event>, k: Key, orig: seq<byte>, cuts: seq<nat>, which: seq<int>)
    requires Valid(t) && k !in t && AllSound(evs) && Split(cuts, |orig|) && k.size == |orig| >= IP6_HEADER
    requires Labels(evs, k, orig, cuts, which) && |which| == |evs| && InTime(evs, which, |cuts| - 1)
    ensures RunOf(t, evs, k, orig, cuts, which)
  {}

  lemma RunFacts(t: Table, evs: seq<Event>, k: Key, orig: seq<byte>, cuts: seq<nat>, which: seq<int>)
    requires RunOf(t, evs, k, orig, cuts, which)
    ensures Valid(t) && AllSound(evs) && |cuts| >= 3 && Split(cuts, |orig|) && |which| == |evs|
  {
    hide Valid, AllSound, InTime;
  }

  lemma LabelAt(t: Table, evs: seq<Event>, k: Key, orig: seq<byte>, cuts: seq<nat>, which: seq<int>, n: nat)
    requires RunOf(t, evs, k, orig, cuts, which) && n < |evs|
    ensures |which| == |evs| && |cuts| >= 3 && Labelled(evs[n], k, orig, cuts, which[n]) && Sound(evs[n])
    ensures Got(which, n + 1) == Got(which, n) + {which[n]}
    ensures which[n] >= 0 ==> Counted(cuts, which, n + 1) == Counted(cuts, which, n) + Width(cuts, which[n])
    ensures which[n] < 0 ==> Counted(cuts, which, n + 1) == Counted(cuts, which, n)
  {}

  /** Before completion the reassembly holds what has arrived and has counted it, and nothing is handed up. */
  lemma {:induction false} BeforeCompletion(t: Table, evs: seq<Event>, k: Key, orig: seq<byte>, cuts: seq<nat>, which: seq<int>, n: nat)
    requires RunOf(t, evs, k, orig, cuts, which) && n <= |evs| == |which|
    requires CountStaysBelow(cuts, which, |orig|, n) && !All(Got(which, n), |cuts| - 1)
    ensures Holds(After(t, evs, n), k, orig, cuts, Got(which, n), Counted(cuts, which, n))
    ensures Dated(After(t, evs, n), k, evs, which, n) && Out(t, evs, k, n) == []
  {
    hide *;
    RunFacts(t, evs, k, orig, cuts, which);
    if n == 0 {
      AtStart(t, evs, k, orig, cuts, which);
    } else {
      BelowAt(cuts, which, |orig|, n);
      LabelAt(t, evs, k, orig, cuts, which, n - 1);
      StillMissing(which, n - 1, |cuts| - 1);
      BeforeCompletion(t, evs, k, orig, cuts, which, n - 1);
      StepBefore(t, evs, k, orig, cuts, which, n - 1);
    }
  }

  lemma AtStart(t: Table, evs: seq<Event>, k: Key, orig: seq<byte>, cuts: seq<nat>, which: seq<int>)
    requires RunOf(t, evs, k, orig, cuts, which) && |evs| == |which|
    ensures Holds(After(t, evs, 0), k, orig, cuts, Got(which, 0), Counted(cuts, which, 0))
    ensures Dated(After(t, evs, 0), k, evs, which, 0) && Out(t, evs, k, 0) == []
    ensures !All(Got(which, 0), |cuts| - 1)
  {
    assert 0 !in Got(which, 0);
    assert None(Got(which, 0), |cuts| - 1);
    hide Agrees, InTime, Labels;
  }

  lemma StepBefore(t: Table, evs: seq<Event>, k: Key, orig: seq<byte>, cuts: seq<nat>, which: seq<int>, n: nat)
    requires RunOf(t, evs, k, orig, cuts, which) && n < |evs| == |which|
    requires Counted(cuts, which, n + 1) < |orig| && !All(Got(which, n), |cuts| - 1)
    requires Holds(After(t, evs, n), k, orig, cuts, Got(which, n), Counted(cuts, which, n))
    requires Dated(After(t, evs, n), k, evs, which, n) && Out(t, evs, k, n) == []
    ensures Holds(After(t, evs, n + 1), k, orig, cuts, Got(which, n + 1), Counted(cuts, which, n + 1))
    ensures Dated(After(t, evs, n + 1), k, evs, which, n + 1) && Out(t, evs, k, n + 1) == []
  {
    var now, e, j, got := After(t, evs, n), evs[n], which[n], Got(which, n);
    LabelAt(t, evs, k, orig, cuts, which, n);
    AfterNext(t, evs, k, n);
    CountedCovers(cuts, which, n);
    hide After, Out, Got, Next, Handed, Finalize, Covered, Counted, Agrees, Labels, Chunk, All;
    if j < 0 {
      OtherEvent(now, e, k);
      NextValid(now, e);
      HoldsOther(k, orig, cuts, now, Next(now, e), got, Counted(cuts, which, n), j);
    } else if None(got, |cuts| - 1) {
      FirstArrival(now, e, k, orig, cuts, got, j);
    } else {
      LaterArrival(now, e, k, orig, cuts, got, Counted(cuts, which, n), j);
    }
  }

  /** The event with which the count reaches the size: something is handed up, and it is the datagram if
      all pieces are there. */
  lemma StepOver(t: Table, evs: seq<Event>, k: Key, orig: seq<byte>, cuts: seq<nat>, which: seq<int>, n: nat)
    requires RunOf(t, evs, k, orig, cuts, which) && n < |evs| == |which|
    requires CountStaysBelow(cuts, which, |orig|, n) && !All(Got(which, n), |cuts| - 1) && Counted(cuts, which, n + 1) >= |orig|
    ensures |Out(t, evs, k, n + 1)| == 1
    ensures All(Got(which, n + 1), |cuts| - 1) ==> Out(t, evs, k, n + 1) == [Finalize(orig)]
  {
    var now, e, j, got := After(t, evs, n), evs[n], which[n], Got(which, n);
    BeforeCompletion(t, evs, k, orig, cuts, which, n);
    LabelAt(t, evs, k, orig, cuts, which, n);
    AfterNext(t, evs, k, n);
    CountedCovers(cuts, which, n);
    assert Counted(cuts, which, n) < |orig|;
    hide After, Out, Got, Next, Handed, Finalize, Covered, Counted, Agrees, Labels, Chunk, All, CountStaysBelow;
    if None(got, |cuts| - 1) {
      FirstArrival(now, e, k, orig, cuts, got, j);
    } else {
      LaterArrival(now, e, k, orig, cuts, got, Counted(cuts, which, n), j);
    }
  }

  /** Nothing is handed up for the datagram while a piece of it is missing. */
  ghost predicate NothingEarly(t: Table, evs: seq<Event>, k: Key, cuts: seq<nat>, which: seq<int>, n: nat)
    requires Valid(t) && AllSound(evs) && n <= |evs| == |which| && |cuts| >= 1
  {
    forall i :: 0 <= i <= n && !All(Got(which, i), |cuts| - 1) ==> Out(t, evs, k, i) == []
  }

  /** MAIN RESULT with repetitions.  Nothing is handed up early exactly when, at every point at which a piece
      is missing, the bytes that have arrived are fewer than the datagram has. */
  lemma EarlyExactly(t: Table, evs: seq<Event>, k: Key, orig: seq<byte>, cuts: seq<nat>, which: seq<int>, n: nat)
    requires RunOf(t, evs, k, orig, cuts, which) && n <= |evs| == |which|
    ensures NothingEarly(t, evs, k, cuts, which, n) <==> CountStaysBelow(cuts, which, |orig|, n)
  {
    if CountStaysBelow(cuts, which, |orig|, n) {
      forall i | 0 <= i <= n && !All(Got(which, i), |cuts| - 1) ensures Out(t, evs, k, i) == [] {
        BeforeCompletion(t, evs, k, orig, cuts, which, i);
      }
    } else {
      var i := FirstOver(cuts, which, |orig|, n);
      StillMissing(which, i, |cuts| - 1);
      StepOver(t, evs, k, orig, cuts, which, i);
    }
  }

  /** The first event that brings the count to the size while a piece is missing. */
  lemma {:induction false} FirstOver(cuts: seq<nat>, which: seq<int>, size: nat, n: nat) returns (i: nat)
    requires n <= |which| && |cuts| >= 1 && size > 0 && !CountStaysBelow(cuts, which, size, n)
    ensures i < n && CountStaysBelow(cuts, which, size, i)
    ensures !All(Got(which, i + 1), |cuts| - 1) && Counted(cuts, which, i + 1) >= size
  {
    assert CountStaysBelow(cuts, which, size, 0);
    if CountStaysBelow(cuts, which, size, n - 1) {
      i := n - 1;
    } else {
      i := FirstOver(cuts, which, size, n - 1);
    }
  }

  /** In such a run the datagram itself is handed up with the last missing piece. */
  lemma CompletesDespiteRepeats(t: Table, evs: seq<Event>, k: Key, orig: seq<byte>, cuts: seq<nat>, which: seq<int>, n: nat)
    requires RunOf(t, evs, k, orig, cuts, which) && n < |evs| == |which| && CountStaysBelow(cuts, which, |orig|, n)
    requires !All(Got(which, n), |cuts| - 1) && All(Got(which, n + 1), |cuts| - 1)
    ensures Out(t, evs, k, n + 1) == [Finalize(orig)]
  {
    CountedCovers(cuts, which, n + 1);
    CoveredAll(cuts, Got(which, n + 1), |cuts| - 1);
    StepOver(t, evs, k, orig, cuts, which, n);
  }

  /** Repetitions are harmless as long as together they are shorter than some piece that is missing. */
  lemma FewRepeatsHarmless(cuts: seq<nat>, which: seq<int>, size: nat, n: nat)
    requires n <= |which| && Split(cuts, size)
    requires forall i :: 0 <= i <= n && !All(Got(which, i), |cuts| - 1) ==>
      exists j :: 0 <= j < |cuts| - 1 && j !in Got(which, i) &&
        Counted(cuts, which, i) - Covered(cuts, Got(which, i), |cuts| - 1) < Width(cuts, j)
    ensures CountStaysBelow(cuts, which, size, n)
  {
    forall i | 0 <= i <= n && !All(Got(which, i), |cuts| - 1) ensures Counted(cuts, which, i) < size {
      var got := Got(which, i);
      var j :| 0 <= j < |cuts| - 1 && j !in got && Counted(cuts, which, i) - Covered(cuts, got, |cuts| - 1) < Width(cuts, j);
      CoveredAdd(cuts, got, j, |cuts| - 1);
      CoveredAll(cuts, got + {j}, |cuts| - 1);
    }
  }

  /** Repetitions need not be half of the datagram: of 48, 48 and 24 bytes, the second piece twice. */
  lemma ThreeArrivalsOfFour()
    ensures !All(Got([0, 1, 1], 3), 3) && !CountStaysBelow([0, 48, 96, 120], [0, 1, 1], 120, 3)
  {
    var which, cuts := [0, 1, 1], [0, 48, 96, 120];
    assert Got(which, 1) == {0} && Got(which, 2) == {0, 1} && Got(which, 3) == {0, 1};
    assert 2 !in Got(which, 3);
    assert Counted(cuts, which, 1) == 48 && Counted(cuts, which, 2) == 96 && Counted(cuts, which, 3) == 144;
  }

  // ----- Each fragment once -----

  lemma OnceStaysBelow(cuts: seq<nat>, which: seq<int>, size: nat, n: nat)
    requires n <= |which| && Split(cuts, size) && Once(which)
    ensures CountStaysBelow(cuts, which, size, n)
  {
    forall i | 0 <= i <= n && !All(Got(which, i), |cuts| - 1) ensures Counted(cuts, which, i) < size {
      CountedCovers(cuts, which, i);
      CoveredAll(cuts, Got(which, i), |cuts| - 1);
    }
  }

  /** MAIN RESULT.  If no fragment arrives twice then, at every point of every run, the datagram has been
      handed up if all its fragments have arrived, and otherwise nothing has been handed up for its key. */
  lemma {:induction false} ReassemblesInAnyOrder(t: Table, evs: seq<Event>, k: Key, orig: seq<byte>, cuts: seq<nat>,
                                                which: seq<int>, n: nat)
    requires RunOf(t, evs, k, orig, cuts, which) && n <= |evs| == |which| && Once(which)
    ensures Out(t, evs, k, n) == if All(Got(which, n), |cuts| - 1) then [Finalize(orig)] else []
  {
    hide *;
    RunFacts(t, evs, k, orig, cuts, which);
    OnceStaysBelow(cuts, which, |orig|, n);
    if !All(Got(which, n), |cuts| - 1) {
      BeforeCompletion(t, evs, k, orig, cuts, which, n);
    } else if n == 0 {
      AtStart(t, evs, k, orig, cuts, which);
    } else if All(Got(which, n - 1), |cuts| - 1) {
      NoMore(t, evs, k, orig, cuts, which, n - 1);
      ReassemblesInAnyOrder(t, evs, k, orig, cuts, which, n - 1);
    } else {
      OnceStaysBelow(cuts, which, |orig|, n - 1);
      CompletesDespiteRepeats(t, evs, k, orig, cuts, which, n - 1);
    }
  }

  /** Once all pieces have arrived, none of them arrives again. */
  lemma NoMore(t: Table, evs: seq<Event>, k: Key, orig: seq<byte>, cuts: seq<nat>, which: seq<int>, n: nat)
    requires RunOf(t, evs, k, orig, cuts, which) && n < |evs| == |which| && Once(which) && All(Got(which, n), |cuts| - 1)
    ensures Out(t, evs, k, n + 1) == Out(t, evs, k, n)
  {
    LabelAt(t, evs, k, orig, cuts, which, n);
    AfterNext(t, evs, k, n);
    if which[n] >= 0 { NotYet(which, n); }
    hide After, Out, Got, Handed, Chunk, Once;
  }

  /** The smallest early hand-up: a fragment that is at least half of the datagram, twice. */
  lemma RepeatedFragmentCountsTwice(t: Table, e: Event)
    requires Valid(t) && Sound(e) && e.Fragment? && e.key !in t && Valid(Next(t, e))
    ensures Handed(t, e) == []
    ensures |Handed(Next(t, e), e)| == 1 <==> 2 * |e.data| >= e.key.size
  {
    assert Next(t, e)[e.key].copied == |e.data|;
    Fits16(2 * |e.data|);
    hide U16, Overlay, Zeros, Finalize;
  }
}
