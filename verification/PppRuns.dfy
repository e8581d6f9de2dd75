/**
 Safety and timing of the PPP device over whole runs.
 */
module PppRuns {
  import opened PppTables
  import opened PppDevice
  import opened PppLayering

  // ----- The restart timer -----

  /** What the restart timer retransmits in a state: terminate requests while closing,
      configure requests while opening. */
  function Retransmitted(st: LcpState): Action {
    if st == LcpState.Closing || st == LcpState.Stopping then TermReq else ConfReq
  }

  lemma ToPosRow(st: LcpState)
    requires HasTimeout(st)
    ensures var row := LcpTable(st, ToPos);
      && row.run == Do(Retransmitted(st))
      && HasTimeout(row.next) && Retransmitted(row.next) == Retransmitted(st)
  {}

  /** A positive timeout sends one request again and rearms the timer. */
  lemma ToPosEffect(s: State)
    requires HasTimeout(s.lcp) && s.timerVal == 0 && s.timerCount > 0
    ensures var r := Dispatch(s, ForLcp(ToPos));
      && r.lcp == LcpTable(s.lcp, ToPos).next && r.modem == s.modem && r.auth == s.auth
      && HasTimeout(r.lcp) && Retransmitted(r.lcp) == Retransmitted(s.lcp)
      && r.timerVal == DEFAULT_TIMER && r.timerCount == s.timerCount
      && r.line == Sent(s.line, Retransmitted(s.lcp))
      && r.autoreconnect == s.autoreconnect && Armed(r)
  {
    ToPosRow(s.lcp);
    hide Dispatch, Handle, LcpTable, HasTimeout;
    var ev := ForLcp(ToPos);
    OnlyAction(s, ev);
    HandleDef(Enter(s, ev), Retransmitted(s.lcp));
  }

  lemma ToPosKeepsInv(s: State)
    requires Inv(s) && HasTimeout(s.lcp) && s.timerVal == 0 && s.timerCount > 0
    ensures var r := Dispatch(s, ForLcp(ToPos)); Inv(r.(timerCount := (r.timerCount - 1) % 256))
    ensures var r := Dispatch(s, ForLcp(ToPos)); Layered(s) ==> Layered(r)
  {
    hide Dispatch, Handle;
    DispatchKeepsInv(s, ForLcp(ToPos));
    ToPosEffect(s);
  }

  lemma CheckLcpKeepsInv(s: State)
    requires Inv(s)
    ensures Inv(CheckLcp(s))
    ensures Layered(s) ==> Layered(CheckLcp(s))
  {
    hide Dispatch, Handle;
    if Armed(s) && s.timerVal == 0 {
      if s.timerCount == 0 {
        DispatchKeepsInv(s, ForLcp(ToNeg));
      } else {
        ToPosKeepsInv(s);
      }
    }
  }

  lemma CheckModemKeepsInv(s: State)
    requires Inv(s)
    ensures Inv(CheckModem(s))
    ensures Layered(s) ==> Layered(CheckModem(s))
  {
    hide Dispatch, Handle;
    DispatchKeepsInv(s.(timers := s.timers.(modem := false)), ForModem(Timeout));
  }

  lemma CheckUpperKeepsInv(s: State)
    requires Inv(s)
    ensures Inv(CheckAuth(s)) && Inv(CheckIpcp(s)) && Inv(Reconnect(s))
    ensures Layered(s) ==> Layered(CheckAuth(s)) && Layered(CheckIpcp(s)) && Layered(Reconnect(s))
  {
    hide Dispatch, Handle;
    DispatchKeepsInv(s.(timers := s.timers.(auth := false)), ForAuth(AuthEvent.To));
    DispatchKeepsInv(s.(timers := s.timers.(ipcp := false)), ForIpcp(IpcpEvent.To));
    DispatchKeepsInv(s, ForLcp(Open));
  }

  lemma TickKeepsInv(s: State)
    requires Inv(s)
    ensures Inv(Tick(s))
    ensures Layered(s) ==> Layered(Tick(s))
  {
    hide CheckModem, CheckLcp, CheckAuth, CheckIpcp, Reconnect;
    var s1 := CountDown(s);
    CheckModemKeepsInv(s1);
    CheckLcpKeepsInv(CheckModem(s1));
    var s2 := CheckLcp(CheckModem(s1));
    CheckUpperKeepsInv(s2);
    CheckUpperKeepsInv(CheckAuth(s2));
    CheckUpperKeepsInv(CheckIpcp(CheckAuth(s2)));
  }

  // ----- Runs -----

  /** The device delivers a CHAP challenge to an authenticated authentication layer. */
  predicate Rechallenged(s: State, x: Stimulus) {
    x == ChapPacket(1) && s.modem == Connected && s.authProto == AUTH_CHAP && s.auth == Authenticated
  }

  lemma StepKeepsInv(s: State, x: Stimulus)
    requires Inv(s)
    ensures Inv(Step(s, x))
    ensures Layered(s) && !Rechallenged(s, x) ==> Layered(Step(s, x))
  {
    hide Dispatch, Handle;
    match x
    case ModemLine(e) => DispatchKeepsInv(s, ForModem(e));
    case ClockTick => TickKeepsInv(s);
    case AppConnect =>
    case AppDisconnect => DispatchKeepsInv(s.(autoreconnect := false), ForLcp(Close));
    case _ =>
      var s1 := Adjust(s, x);
      var call := PacketEvent(s1.authProto, x);
      if s.modem == Connected && call.Call? {
        DispatchKeepsInv(s1, call.ev);
      }
  }

  /** The state after the stimuli of `xs`, from a freshly created device. */
  function Run(xs: seq<Stimulus>): State {
    if xs == [] then Created else Step(Run(xs[..|xs| - 1]), xs[|xs| - 1])
  }

  lemma {:induction false} RunKeepsInv(xs: seq<Stimulus>)
    ensures Inv(Run(xs))
  {
    if xs != [] {
      RunKeepsInv(xs[..|xs| - 1]);
      StepKeepsInv(Run(xs[..|xs| - 1]), xs[|xs| - 1]);
    }
  }

  predicate NeverRechallenged(xs: seq<Stimulus>) {
    forall k :: 0 <= k < |xs| ==> !Rechallenged(Run(xs[..k]), xs[k])
  }

  predicate AlwaysLayered(xs: seq<Stimulus>) {
    forall k :: 0 <= k <= |xs| ==> Layered(Run(xs[..k]))
  }

  lemma RunExtends(xs: seq<Stimulus>, k: nat)
    requires k < |xs|
    ensures Run(xs[..k + 1]) == Step(Run(xs[..k]), xs[k])
  {
    assert xs[..k + 1][..k] == xs[..k];
  }

  lemma {:induction false} CleanRunIsLayered(xs: seq<Stimulus>, k: nat)
    requires NeverRechallenged(xs) && k <= |xs|
    ensures Layered(Run(xs[..k]))
  {
    if k > 0 {
      hide Step;
      CleanRunIsLayered(xs, k - 1);
      RunExtends(xs, k - 1);
      RunKeepsInv(xs[..k - 1]);
      StepKeepsInv(Run(xs[..k - 1]), xs[k - 1]);
    }
  }

  lemma RechallengeBreaksLayering(s: State, x: Stimulus)
    requires Inv(s) && Rechallenged(s, x)
    ensures !Layered(Step(s, x))
  {
    hide Dispatch, Handle;
    AuthEffect(s, Rac);
  }

  /** IPCP is up only over an authenticated, opened link, at every quiescent point of a run,
      exactly when the run delivers no CHAP challenge to an authenticated device. */
  lemma LayeringExactly(xs: seq<Stimulus>)
    ensures AlwaysLayered(xs) <==> NeverRechallenged(xs)
  {
    hide Step;
    if NeverRechallenged(xs) {
      forall k | 0 <= k <= |xs| ensures Layered(Run(xs[..k])) {
        CleanRunIsLayered(xs, k);
      }
    } else {
      var k :| 0 <= k < |xs| && Rechallenged(Run(xs[..k]), xs[k]);
      RunKeepsInv(xs[..k]);
      RechallengeBreaksLayering(Run(xs[..k]), xs[k]);
      RunExtends(xs, k);
      assert !Layered(Run(xs[..k + 1]));
    }
  }

  /** A data frame goes out only with every layer up. */
  lemma TransmitsOnlyOverFullStack(xs: seq<Stimulus>)
    requires NeverRechallenged(xs) && Transmits(Run(xs))
    ensures Run(xs).modem == Connected && Run(xs).lcp == LcpState.Opened && Run(xs).auth == Authenticated
  {
    hide Step;
    CleanRunIsLayered(xs, |xs|);
    assert xs[..|xs|] == xs;
    RunKeepsInv(xs);
  }

  /** The device object, from its creation on, through any stimuli: it is always in the state of the run, keeps
      the invariant, and transmits only with every layer up unless it is challenged again. */
  method Drive(xs: seq<Stimulus>) returns (p: Ppp)
    ensures fresh(p) && p.View() == Run(xs) && Inv(p.View())
    ensures NeverRechallenged(xs) && Transmits(p.View()) ==>
      p.modem == Connected && p.lcp == LcpState.Opened && p.auth == Authenticated && p.ipcp == IpcpState.Opened
  {
    hide Step, Inv, NeverRechallenged;
    p := new Ppp();
    assert xs[..0] == [];
    for i := 0 to |xs|
      invariant fresh(p) && p.View() == Run(xs[..i])
    {
      RunExtends(xs, i);
      p.Receive(xs[i]);
    }
    assert xs[..|xs|] == xs;
    RunKeepsInv(xs);
    if NeverRechallenged(xs) && Transmits(Run(xs)) { TransmitsOnlyOverFullStack(xs); }
  }

  // ----- A silent peer -----

  function Ticks(s: State, n: nat): State
    decreases n
  {
    if n == 0 then s else Ticks(Tick(s), n - 1)
  }

  lemma TicksShift(s: State, n: nat)
    requires n > 0
    ensures Ticks(s, n) == Ticks(Tick(s), n - 1)
  {}

  /** Seconds until the restart timer gives up on a silent peer. */
  function GiveUpAfter(s: State): nat {
    (if s.timerVal == 0 then 1 else s.timerVal) + DEFAULT_TIMER * s.timerCount
  }

  /** A tick that fires no timer only counts down. */
  lemma QuietTick(s: State)
    requires s.timerVal > 1
    requires s.lcp != LcpState.Initial
    ensures Tick(s) == s.(timerVal := s.timerVal - 1)
  {}

  /** The tick on which the restart timer fires with retries left. */
  lemma RetryTick(s: State)
    requires Inv(s) && HasTimeout(s.lcp) && s.timerVal <= 1 && s.timerCount > 0
    ensures var r := Tick(s);
      && HasTimeout(r.lcp) && Retransmitted(r.lcp) == Retransmitted(s.lcp)
      && r.timerVal == DEFAULT_TIMER && r.timerCount == s.timerCount - 1
      && r.line == Sent(s.line, Retransmitted(s.lcp))
  {
    hide Dispatch, Handle;
    TimeoutStates(s.lcp);
    hide HasTimeout, CheckModem;
    ConnectedIgnoresTimeout(CountDown(s));
    ToPosEffect(CheckModem(CountDown(s)));
  }

  /** While connected the modem ignores its own stale timer. */
  lemma ConnectedIgnoresTimeout(s: State)
    requires s.modem == Connected
    ensures CheckModem(s) == s || CheckModem(s) == s.(timers := s.timers.(modem := false))
  {
    hide Dispatch, Handle;
    var s1 := s.(timers := s.timers.(modem := false));
    OnlyAction(s1, ForModem(Timeout));
    NothingToDo(s1);
  }

  // ----- Events that send no LCP request -----

  predicate SameRequests(s: State, r: State) {
    Count(r.line, ConfReq) == Count(s.line, ConfReq) && Count(r.line, TermReq) == Count(s.line, TermReq)
  }

  predicate QuietEvent(ev: Event) {
    match ev
    case ForIpcp(_) => true
    case ForModem(e) => e != Connect
    case ForAuth(e) => e != Ran
    case ForLcp(e) => e == LcpEvent.Down
  }

  predicate QuietAction(a: Action) {
    a != ConfReq && a != TermReq && a != ModemConnected && a != AuthAbort
  }

  lemma QuietRow(s: State, ev: Event)
    requires QuietEvent(ev)
    ensures var run := HandlersFor(s, ev); QuietAction(run.h0) && QuietAction(run.h1) && QuietAction(run.h2)
  {}

  lemma {:induction false} QuietDispatch(s: State, ev: Event)
    requires QuietEvent(ev)
    ensures SameRequests(s, Dispatch(s, ev))
    decreases Rank(ev), 0
  {
    QuietRow(s, ev);
    TableRanks(s, ev);
    DispatchDef(s, ev);
    assert Enter(s, ev).line == s.line;
    hide Dispatch, Handle, HandlersFor, Enter, QuietAction;
    var run, s0 := HandlersFor(s, ev), Enter(s, ev);
    QuietHandle(s0, run.h0);
    var s1 := Handle(s0, run.h0);
    QuietHandle(s1, run.h1);
    QuietHandle(Handle(s1, run.h1), run.h2);
  }

  lemma {:induction false} QuietHandle(s: State, a: Action)
    requires QuietAction(a)
    ensures SameRequests(s, Handle(s, a))
    decreases ActionRank(a), 1
  {
    HandleDef(s, a);
    CallRank(s, a);
    assert SameRequests(s, Prepare(s, a));
    assert CallOf(s, a).Call? ==> QuietEvent(CallOf(s, a).ev);
    hide Dispatch, Handle, Prepare, CallOf;
    if CallOf(s, a).Call? {
      QuietDispatch(Prepare(s, a), CallOf(s, a).ev);
    }
  }

  // ----- Giving up -----

  predicate HungUp(s: State) {
    BelowLcp(s.lcp) && s.modem != Connected && s.auth == AuthState.Initial
  }

  lemma ToNegRow(st: LcpState)
    requires HasTimeout(st)
    ensures LcpTable(st, ToNeg).run == Do(LayerFinished) && !BelowLcp(LcpTable(st, ToNeg).next)
    ensures LcpTable(st, ToNeg).next != LcpState.Opened
  {}

  /** A negative timeout: the link is given up and the modem hung up. */
  lemma ToNegEffect(s: State)
    requires Inv(s) && HasTimeout(s.lcp)
    ensures var r := Dispatch(s, ForLcp(ToNeg)); HungUp(r) && SameRequests(s, r)
  {
    ToNegRow(s.lcp);
    TimeoutStates(s.lcp);
    hide Dispatch, Handle, LcpTable, HasTimeout;
    var ev := ForLcp(ToNeg);
    var s1 := Enter(s, ev);
    OnlyAction(s, ev);
    QuietHandle(s1, LayerFinished);
    LayerFinishedDef(s1);
    ModemStopEffect(s1);
    LcpDownEffect(Emit(s1.(modem := ModemState.Initial), ModemDisconnected));
  }

  lemma UpperChecksStayDown(s: State)
    requires HungUp(s)
    ensures HungUp(CheckAuth(s)) && SameRequests(s, CheckAuth(s))
    ensures HungUp(CheckIpcp(s)) && SameRequests(s, CheckIpcp(s))
  {
    hide Dispatch, Handle;
    var s1 := s.(timers := s.timers.(auth := false));
    AuthEffect(s1, AuthEvent.To);
    QuietDispatch(s1, ForAuth(AuthEvent.To));
    var s2 := s.(timers := s.timers.(ipcp := false));
    IpcpEffect(s2, IpcpEvent.To);
    QuietDispatch(s2, ForIpcp(IpcpEvent.To));
  }

  lemma ReconnectStaysDown(s: State)
    requires HungUp(s)
    ensures HungUp(Reconnect(s)) && SameRequests(s, Reconnect(s))
  {
    hide Dispatch, Handle;
    if s.lcp == LcpState.Initial {
      var s1 := Enter(s, ForLcp(Open));
      OnlyAction(s, ForLcp(Open));
      QuietHandle(s1, LayerStarted);
      LayerStartedDef(s1);
      ModemStartRow(s1.modem);
      ModemLocalEffect(s1, Start);
    }
  }

  lemma GiveUpTick(s: State)
    requires Inv(s) && HasTimeout(s.lcp) && s.timerVal <= 1 && s.timerCount == 0
    ensures var r := Tick(s);
      HungUp(r) && SameRequests(s, r)
  {
    hide Dispatch, Handle, CheckAuth, CheckIpcp, Reconnect;
    ConnectedIgnoresTimeout(CountDown(s));
    var s1 := CheckModem(CountDown(s));
    ToNegEffect(s1);
    var s2 := CheckLcp(s1);
    UpperChecksStayDown(s2);
    UpperChecksStayDown(CheckAuth(s2));
    ReconnectStaysDown(CheckIpcp(CheckAuth(s2)));
  }

  /** One second of silence: the time left goes down by one, and a request sent now is a
      retry less. */
  lemma SilentSecond(s: State)
    requires Inv(s) && HasTimeout(s.lcp)
    ensures var r, a := Tick(s), Retransmitted(s.lcp);
      if GiveUpAfter(s) > 1 then
        && Inv(r) && HasTimeout(r.lcp) && Retransmitted(r.lcp) == a
        && GiveUpAfter(r) == GiveUpAfter(s) - 1
        && Count(r.line, a) + r.timerCount == Count(s.line, a) + s.timerCount
        && Count(r.line, OtherRequest(a)) == Count(s.line, OtherRequest(a))
      else
        HungUp(r) && s.timerCount == 0 && SameRequests(s, r)
  {
    TimeoutStates(s.lcp);
    TickKeepsInv(s);
    hide Tick, Inv, HasTimeout, HungUp;
    if s.timerVal > 1 {
      QuietTick(s);
    } else if s.timerCount > 0 {
      RetryTick(s);
    } else {
      GiveUpTick(s);
    }
  }

  function OtherRequest(a: Action): Action {
    if a == ConfReq then TermReq else ConfReq
  }

  /** With nothing from the peer the device stays in its negotiating or terminating phase for
      exactly `GiveUpAfter` seconds, repeats the request of that phase exactly `timerCount`
      (at most `MAX_CONFIGURE`) times and sends none of the other kind, and then hangs up. */
  lemma {:induction false} SilentPeer(s: State)
    requires Inv(s) && HasTimeout(s.lcp)
    ensures var n := GiveUpAfter(s);
      && (forall k :: 0 <= k < n ==> HasTimeout(Ticks(s, k).lcp))
      && HungUp(Ticks(s, n))
    ensures var r, a := Ticks(s, GiveUpAfter(s)), Retransmitted(s.lcp);
      && Count(r.line, a) == Count(s.line, a) + s.timerCount
      && Count(r.line, OtherRequest(a)) == Count(s.line, OtherRequest(a))
    decreases GiveUpAfter(s)
  {
    hide Tick, Inv, HasTimeout, HungUp, Count;
    var n, r := GiveUpAfter(s), Tick(s);
    SilentSecond(s);
    if n > 1 {
      SilentPeer(r);
    }
    TicksShift(s, n);
    forall k | 0 <= k < n ensures HasTimeout(Ticks(s, k).lcp) {
      if k > 0 { TicksShift(s, k); }
    }
  }

  /** The device object with a silent peer: after `GiveUpAfter` ticks it has repeated its request exactly
      `timerCount` times and has hung up. */
  method WaitForPeer(p: Ppp)
    requires Inv(p.View()) && HasTimeout(p.lcp)
    modifies p
    ensures HungUp(p.View())
    ensures var a := Retransmitted(old(p.lcp)); Count(p.line, a) == old(Count(p.line, Retransmitted(p.lcp)) + p.timerCount)
  {
    hide Tick, Inv, HasTimeout, HungUp, Count;
    ghost var s := p.View();
    SilentPeer(s);
    var n := (if p.timerVal == 0 then 1 else p.timerVal) + DEFAULT_TIMER * p.timerCount;
    for i := 0 to n
      invariant Ticks(p.View(), n - i) == Ticks(s, n)
    {
      TicksShift(p.View(), n - i);
      p.OnTick();
    }
  }
}
