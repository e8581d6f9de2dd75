/**
 What holds of the four layers whenever the PPP device is quiescent, that is, between two
 stimuli: after the whole cascade of nested transitions of an event has finished.
 */
module PppLayering {
  import opened PppTables
  import opened PppDevice

  // ----- The invariants -----

  predicate Armed(s: State) {
    s.timers.lcpReq || s.timers.lcpTerm
  }

  /** The LCP restart timer runs exactly in the states that react to it, and its counters stay small. */
  predicate TimerInv(s: State) {
    && (Armed(s) <==> HasTimeout(s.lcp))
    && s.timerCount <= MAX_CONFIGURE
    && s.timerVal <= MAX_DIALTIME
  }

  /** LCP states in which the lower layer is not up. */
  predicate BelowLcp(st: LcpState) {
    st == LcpState.Initial || st == LcpState.Starting
  }

  /** Holds at every quiescent point of every run. */
  predicate Inv(s: State) {
    && (s.modem == Connected <==> !BelowLcp(s.lcp))
    && (s.lcp != LcpState.Opened ==> s.auth == AuthState.Initial)
    && (s.auth == Authenticated ==> s.ipcp != IpcpState.Initial)
    && TimerInv(s)
  }

  /** IPCP is up only over an authenticated, opened link. */
  predicate Layered(s: State) {
    s.ipcp != IpcpState.Initial ==> s.auth == Authenticated && s.lcp == LcpState.Opened
  }

  /** Events that come from outside; the others are produced by the layers for each other. */
  predicate External(ev: Event) {
    match ev
    case ForModem(_) => true
    case ForLcp(e) => e != LcpEvent.Up && e != LcpEvent.Down
    case ForAuth(e) => e == Rac || e == Raa || e == Ran || e == AuthEvent.To
    case ForIpcp(e) => e != IpcpEvent.Up && e != IpcpEvent.Down
  }

  // ----- Effects of one dispatch -----

  predicate SameLayers(s: State, r: State) {
    r.modem == s.modem && r.lcp == s.lcp && r.auth == s.auth && r.ipcp == s.ipcp
  }

  predicate StartsLcpTimer(a: Action) {
    a == ConfReq || a == TermReq || a == InitRestart || a == ZeroRestart
  }

  /** Timers after running handlers of which some (`start`) may start the LCP restart timer. */
  predicate TimersKept(s: State, r: State, start: bool) {
    && Armed(r) == (Armed(s) || start)
    && (if start then s.timerCount <= MAX_CONFIGURE ==> r.timerCount <= MAX_CONFIGURE
        else r.timerCount == s.timerCount)
    && r.authProto == s.authProto && r.autoreconnect == s.autoreconnect
    && (s.timerVal <= MAX_DIALTIME ==> r.timerVal <= MAX_DIALTIME)
  }

  lemma LocalAction(s: State, a: Action)
    requires ActionRank(a) == 0
    ensures SameLayers(s, Handle(s, a))
    ensures TimersKept(s, Handle(s, a), StartsLcpTimer(a))
  {
    hide Dispatch, Handle;
    HandleDef(s, a);
    assert Handle(s, a) == RunLocal(s, a);
  }

  lemma KeptTwice(s: State, s1: State, r: State, start: bool, start': bool)
    requires TimersKept(s, s1, start) && TimersKept(s1, r, start')
    ensures TimersKept(s, r, start || start')
  {}

  lemma DispatchDef(s: State, ev: Event)
    ensures var run := HandlersFor(s, ev);
      Dispatch(s, ev) == Handle(Handle(Handle(Enter(s, ev), run.h0), run.h1), run.h2)
  {}

  // The handlers that re-enter another layer's dispatcher.

  lemma ModemConnectedDef(s: State)
    ensures Handle(s, ModemConnected) == Dispatch(s, ForLcp(LcpEvent.Up))
  {
    hide Dispatch, Handle, RunLocal;
    HandleDef(s, ModemConnected);
  }

  lemma ModemDisconnectedDef(s: State)
    ensures Handle(s, ModemDisconnected) == Dispatch(Emit(s, ModemDisconnected), ForLcp(LcpEvent.Down))
  {
    hide Dispatch, Handle, RunLocal;
    HandleDef(s, ModemDisconnected);
  }

  lemma LayerDownDef(s: State)
    ensures Handle(s, LayerDown) == Dispatch(s, ForAuth(AuthEvent.Down))
  {
    hide Dispatch, Handle, RunLocal;
    HandleDef(s, LayerDown);
  }

  lemma LayerStartedDef(s: State)
    ensures Handle(s, LayerStarted) == Dispatch(s, ForModem(Start))
  {
    hide Dispatch, Handle, RunLocal;
    HandleDef(s, LayerStarted);
  }

  lemma LayerFinishedDef(s: State)
    ensures Handle(s, LayerFinished) == Dispatch(s, ForModem(Stop))
  {
    hide Dispatch, Handle, RunLocal;
    HandleDef(s, LayerFinished);
  }

  lemma AuthDoneDef(s: State)
    ensures Handle(s, AuthDone) == Dispatch(s, ForIpcp(IpcpEvent.Up))
  {
    hide Dispatch, Handle, RunLocal;
    HandleDef(s, AuthDone);
  }

  lemma DeauthDef(s: State)
    ensures Handle(s, Deauth) == Dispatch(s, ForIpcp(IpcpEvent.Down))
  {
    hide Dispatch, Handle, RunLocal;
    HandleDef(s, Deauth);
  }

  lemma AuthAbortDef(s: State)
    ensures Handle(s, AuthAbort) == Dispatch(s.(timers := s.timers.(auth := false)), ForLcp(Close))
  {
    hide Dispatch, Handle, RunLocal;
    HandleDef(s, AuthAbort);
  }

  lemma NothingToDo(s: State)
    ensures Handle(s, NoAction) == s
  {}

  /** A dispatch that runs at most one handler. */
  lemma OnlyAction(s: State, ev: Event)
    requires HandlersFor(s, ev).h1 == HandlersFor(s, ev).h2 == NoAction
    ensures Dispatch(s, ev) == Handle(Enter(s, ev), HandlersFor(s, ev).h0)
  {
    hide Dispatch, Handle;
    DispatchDef(s, ev);
    NothingToDo(Handle(Enter(s, ev), HandlersFor(s, ev).h0));
  }

  predicate Local(run: Handlers) {
    ActionRank(run.h0) == 0 && ActionRank(run.h1) == 0 && ActionRank(run.h2) == 0
  }

  predicate Starts(run: Handlers) {
    StartsLcpTimer(run.h0) || StartsLcpTimer(run.h1) || StartsLcpTimer(run.h2)
  }

  /** A dispatch none of whose handlers re-enters another layer. */
  lemma LocalDispatch(s: State, ev: Event)
    requires Local(HandlersFor(s, ev))
    ensures SameLayers(Enter(s, ev), Dispatch(s, ev))
    ensures TimersKept(Enter(s, ev), Dispatch(s, ev), Starts(HandlersFor(s, ev)))
  {
    hide Dispatch, Handle, TimersKept, ActionRank, StartsLcpTimer, HandlersFor, Enter;
    var run := HandlersFor(s, ev);
    var s0 := Enter(s, ev);
    DispatchDef(s, ev);
    LocalAction(s0, run.h0);
    var s1 := Handle(s0, run.h0);
    LocalAction(s1, run.h1);
    var s2 := Handle(s1, run.h1);
    LocalAction(s2, run.h2);
    KeptTwice(s0, s1, s2, StartsLcpTimer(run.h0), StartsLcpTimer(run.h1));
    KeptTwice(s0, s2, Handle(s2, run.h2), StartsLcpTimer(run.h0) || StartsLcpTimer(run.h1), StartsLcpTimer(run.h2));
  }

  lemma IpcpRow(st: IpcpState, e: IpcpEvent)
    ensures Local(IpcpTable(st, e).run) && !Starts(IpcpTable(st, e).run)
  {}

  lemma IpcpEffect(s: State, e: IpcpEvent)
    ensures var r := Dispatch(s, ForIpcp(e));
      r.modem == s.modem && r.lcp == s.lcp && r.auth == s.auth
      && r.ipcp == IpcpTable(s.ipcp, e).next && TimersKept(s, r, false)
  {
    IpcpRow(s.ipcp, e);
    hide Dispatch, Handle, IpcpTable, Local, Starts;
    LocalDispatch(s, ForIpcp(e));
  }

  lemma ModemLocalEffect(s: State, e: ModemEvent)
    requires Local(ModemTable(s.modem, e).run) && !Starts(ModemTable(s.modem, e).run)
    ensures var r := Dispatch(s, ForModem(e));
      r.modem == ModemTable(s.modem, e).next && r.lcp == s.lcp && r.auth == s.auth
      && r.ipcp == s.ipcp && TimersKept(s, r, false)
  {
    hide Dispatch, Handle, ModemTable, Local, Starts;
    LocalDispatch(s, ForModem(e));
  }

  /** `auth` brings IPCP up and `deauth` takes it down; no other handler of the table reaches it. */
  lemma AuthRow(st: AuthState, e: AuthEvent)
    requires e != Ran
    ensures var run := AuthTable(st, e).run;
      run == Do(AuthDone) || run == Do(Deauth) || (Local(run) && !Starts(run))
  {}

  lemma AuthEffect(s: State, e: AuthEvent)
    requires e != Ran
    ensures var r := Dispatch(s, ForAuth(e));
      r.modem == s.modem && r.lcp == s.lcp && r.auth == AuthTable(s.auth, e).next
      && r.ipcp == (if AuthTable(s.auth, e).run == Do(AuthDone) then IpcpTable(s.ipcp, IpcpEvent.Up).next
                    else if AuthTable(s.auth, e).run == Do(Deauth) then IpcpTable(s.ipcp, IpcpEvent.Down).next
                    else s.ipcp)
      && TimersKept(s, r, false)
  {
    AuthRow(s.auth, e);
    hide Dispatch, Handle, AuthTable, IpcpTable, Local, Starts, RunLocal;
    var ev := ForAuth(e);
    var s1 := Enter(s, ev);
    var run := HandlersFor(s, ev);
    if run == Do(AuthDone) {
      OnlyAction(s, ev);
      AuthDoneDef(s1);
      IpcpEffect(s1, IpcpEvent.Up);
    } else if run == Do(Deauth) {
      OnlyAction(s, ev);
      DeauthDef(s1);
      IpcpEffect(s1, IpcpEvent.Down);
    } else {
      LocalDispatch(s, ev);
    }
  }

  /** Taking authentication down takes IPCP down with it. */
  lemma AuthDownEffect(s: State)
    ensures var r := Dispatch(s, ForAuth(AuthEvent.Down));
      r.modem == s.modem && r.lcp == s.lcp && r.auth == AuthState.Initial
      && r.ipcp == (if s.auth == AuthState.Initial then s.ipcp else IpcpState.Initial)
      && TimersKept(s, r, false)
  {
    hide Dispatch, Handle;
    AuthEffect(s, AuthEvent.Down);
  }

  lemma LcpUpEffect(s: State)
    requires BelowLcp(s.lcp)
    ensures var r := Dispatch(s, ForLcp(LcpEvent.Up));
      r.lcp == LcpTable(s.lcp, LcpEvent.Up).next && r.modem == s.modem && r.auth == s.auth && r.ipcp == s.ipcp
      && TimersKept(Enter(s, ForLcp(LcpEvent.Up)), r, s.lcp == LcpState.Starting)
  {
    hide Dispatch, Handle;
    LocalDispatch(s, ForLcp(LcpEvent.Up));
  }

  lemma LcpDownRow(st: LcpState)
    ensures var row := LcpTable(st, LcpEvent.Down);
      && BelowLcp(row.next) && !HasTimeout(row.next)
      && row.run == (if st == LcpState.Stopped then Do(LayerStarted)
                     else if st == LcpState.Opened then Do(LayerDown)
                     else Do())
  {}

  lemma ModemStartRow(st: ModemState)
    ensures var row := ModemTable(st, Start);
      && Local(row.run) && !Starts(row.run)
      && (row.next == Connected <==> st == Connected)
  {}

  /** Losing the modem takes LCP to INITIAL or STARTING and everything above it down. */
  lemma LcpDownEffect(s: State)
    ensures var r := Dispatch(s, ForLcp(LcpEvent.Down));
      && BelowLcp(r.lcp) && !Armed(r)
      && (r.modem == Connected <==> s.modem == Connected)
      && r.auth == (if s.lcp == LcpState.Opened then AuthState.Initial else s.auth)
      && r.ipcp == (if s.lcp == LcpState.Opened && s.auth != AuthState.Initial then IpcpState.Initial else s.ipcp)
      && r.timerCount == s.timerCount && r.authProto == s.authProto && r.autoreconnect == s.autoreconnect
      && (s.timerVal <= MAX_DIALTIME ==> r.timerVal <= MAX_DIALTIME)
  {
    LcpDownRow(s.lcp);
    ModemStartRow(s.modem);
    hide Dispatch, Handle, LcpTable, ModemTable, Local, Starts, RunLocal, HasTimeout;
    var ev := ForLcp(LcpEvent.Down);
    var s1 := Enter(s, ev);
    OnlyAction(s, ev);
    if s.lcp == LcpState.Stopped {
      LayerStartedDef(s1);
      ModemLocalEffect(s1, Start);
    } else if s.lcp == LcpState.Opened {
      LayerDownDef(s1);
      AuthDownEffect(s1);
    } else {
      NothingToDo(s1);
    }
  }

  lemma ModemStopEffect(s: State)
    ensures var r := Dispatch(s, ForModem(Stop));
      if s.modem != Connected then
        r == s.(modem := ModemState.Initial)
      else
        var s1 := Emit(s.(modem := ModemState.Initial), ModemDisconnected);
        r == Dispatch(s1, ForLcp(LcpEvent.Down))
  {
    hide Dispatch, Handle;
    var ev := ForModem(Stop);
    if s.modem == Connected {
      OnlyAction(s, ev);
      ModemDisconnectedDef(Enter(s, ev));
    } else {
      OnlyAction(s, ev);
      NothingToDo(Enter(s, ev));
    }
  }

  // ----- The invariant is kept -----

  lemma ModemRow(st: ModemState, e: ModemEvent)
    requires e != Stop && !(e == Connect && st == Dial)
    ensures var row := ModemTable(st, e);
      && Local(row.run) && !Starts(row.run)
      && (row.next == Connected <==> st == Connected)
  {}

  lemma ModemStopKeepsInv(s: State)
    requires Inv(s)
    ensures Inv(Dispatch(s, ForModem(Stop)))
    ensures Layered(s) ==> Layered(Dispatch(s, ForModem(Stop)))
  {
    BelowHasNoTimer();
    hide Dispatch, Handle, HasTimeout;
    ModemStopEffect(s);
    LcpDownEffect(Emit(s.(modem := ModemState.Initial), ModemDisconnected));
  }

  lemma ModemConnectKeepsInv(s: State)
    requires Inv(s) && s.modem == Dial
    ensures Inv(Dispatch(s, ForModem(Connect)))
    ensures Layered(s) ==> Layered(Dispatch(s, ForModem(Connect)))
  {
    hide Dispatch, Handle;
    var s1 := Enter(s, ForModem(Connect));
    OnlyAction(s, ForModem(Connect));
    ModemConnectedDef(s1);
    LcpUpEffect(s1);
  }

  lemma ModemKeepsInv(s: State, e: ModemEvent)
    requires Inv(s)
    ensures Inv(Dispatch(s, ForModem(e)))
    ensures Layered(s) ==> Layered(Dispatch(s, ForModem(e)))
  {
    if e == Stop {
      ModemStopKeepsInv(s);
    } else if e == Connect && s.modem == Dial {
      ModemConnectKeepsInv(s);
    } else {
      ModemRow(s.modem, e);
      hide Dispatch, Handle, ModemTable, Local, Starts;
      ModemLocalEffect(s, e);
    }
  }

  predicate Opens(st: LcpState, e: LcpEvent) {
    (st == LcpState.AckRcvd && e == LcpEvent.RcrPos) || (st == LcpState.AckSent && e == LcpEvent.Rca)
  }

  /** The five kinds of LCP table rows for external events. */
  lemma LcpRowKinds(st: LcpState, e: LcpEvent)
    requires External(ForLcp(e))
    ensures var row := LcpTable(st, e);
      || (st == LcpState.Initial && e == Open)
      || row.run == Do(LayerFinished)
      || (st == LcpState.Opened && row.next != LcpState.Opened)
      || Opens(st, e)
      || Local(row.run)
  {}

  lemma LcpKeepsInv(s: State, e: LcpEvent)
    requires Inv(s) && External(ForLcp(e))
    ensures Inv(Dispatch(s, ForLcp(e)))
    ensures Layered(s) ==> Layered(Dispatch(s, ForLcp(e)))
  {
    hide Dispatch, Handle, Inv, LcpTable;
    LcpRowKinds(s.lcp, e);
    if s.lcp == LcpState.Initial && e == Open {
      LcpStarts(s);
    } else if LcpTable(s.lcp, e).run == Do(LayerFinished) {
      LcpFinishes(s, e);
    } else if s.lcp == LcpState.Opened && LcpTable(s.lcp, e).next != LcpState.Opened {
      LcpLeavesOpened(s, e);
    } else if Opens(s.lcp, e) {
      LcpOpens(s, e);
    } else {
      LcpLocal(s, e);
    }
  }

  lemma LcpStarts(s: State)
    requires Inv(s) && s.lcp == LcpState.Initial
    ensures Inv(Dispatch(s, ForLcp(Open)))
    ensures Layered(s) ==> Layered(Dispatch(s, ForLcp(Open)))
  {
    hide Dispatch, Handle;
    var s1 := Enter(s, ForLcp(Open));
    OnlyAction(s, ForLcp(Open));
    LayerStartedDef(s1);
    ModemStartRow(s1.modem);
    ModemLocalEffect(s1, Start);
  }

  lemma TimeoutStates(st: LcpState)
    ensures HasTimeout(st) <==> st.Closing? || st.Stopping? || st.ReqSent? || st.AckRcvd? || st.AckSent?
  {}

  lemma LcpFinishRow(st: LcpState, e: LcpEvent)
    requires External(ForLcp(e)) && LcpTable(st, e).run == Do(LayerFinished)
    ensures var next := LcpTable(st, e).next;
      && st != LcpState.Opened && next != LcpState.Opened
      && (if BelowLcp(st) then next == LcpState.Initial else !BelowLcp(next))
      && !HasTimeout(next)
  {}

  lemma LcpFinishes(s: State, e: LcpEvent)
    requires Inv(s) && External(ForLcp(e)) && LcpTable(s.lcp, e).run == Do(LayerFinished)
    ensures Inv(Dispatch(s, ForLcp(e)))
    ensures Layered(s) ==> Layered(Dispatch(s, ForLcp(e)))
  {
    LcpFinishRow(s.lcp, e);
    BelowHasNoTimer();
    hide Dispatch, Handle, LcpTable, HasTimeout, RunLocal;
    var ev := ForLcp(e);
    var s1 := Enter(s, ev);
    OnlyAction(s, ev);
    LayerFinishedDef(s1);
    ModemStopEffect(s1);
    if !BelowLcp(s.lcp) {
      LcpDownEffect(Emit(s1.(modem := ModemState.Initial), ModemDisconnected));
    }
  }

  lemma BelowHasNoTimer()
    ensures forall st :: BelowLcp(st) ==> !HasTimeout(st)
  {}

  lemma LcpLocalRow(st: LcpState, e: LcpEvent)
    requires External(ForLcp(e)) && Local(LcpTable(st, e).run)
    ensures var row := LcpTable(st, e);
      && BelowLcp(row.next) == BelowLcp(st)
      && (row.next == LcpState.Opened <==> st == LcpState.Opened)
      && (HasTimeout(row.next) ==> HasTimeout(st) || Starts(row.run))
      && (Starts(row.run) ==> HasTimeout(row.next))
  {
    TimeoutStates(st);
    TimeoutStates(LcpTable(st, e).next);
    hide HasTimeout;
  }

  lemma LcpLocal(s: State, e: LcpEvent)
    requires Inv(s) && External(ForLcp(e)) && Local(LcpTable(s.lcp, e).run)
    ensures Inv(Dispatch(s, ForLcp(e)))
    ensures Layered(s) ==> Layered(Dispatch(s, ForLcp(e)))
  {
    LcpLocalRow(s.lcp, e);
    hide Dispatch, Handle, LcpTable, HasTimeout, Local, Starts;
    LocalDispatch(s, ForLcp(e));
  }

  lemma LcpLeaveRow(e: LcpEvent)
    requires External(ForLcp(e)) && LcpTable(LcpState.Opened, e).next != LcpState.Opened
    ensures var row := LcpTable(LcpState.Opened, e);
      && row.run.h0 == LayerDown && ActionRank(row.run.h1) == 0 && ActionRank(row.run.h2) == 0
      && HasTimeout(row.next) && !BelowLcp(row.next)
      && (StartsLcpTimer(row.run.h1) || StartsLcpTimer(row.run.h2))
  {}

  lemma LcpLeavesOpened(s: State, e: LcpEvent)
    requires Inv(s) && External(ForLcp(e)) && s.lcp == LcpState.Opened
    requires LcpTable(s.lcp, e).next != LcpState.Opened
    ensures Inv(Dispatch(s, ForLcp(e)))
    ensures Layered(s) ==> Layered(Dispatch(s, ForLcp(e)))
  {
    LcpLeaveRow(e);
    hide Dispatch, Handle, LcpTable, HasTimeout, ActionRank, StartsLcpTimer, RunLocal;
    var ev := ForLcp(e);
    var run := HandlersFor(s, ev);
    DispatchDef(s, ev);
    LayerDownDef(Enter(s, ev));
    AuthDownEffect(Enter(s, ev));
    var s1 := Handle(Enter(s, ev), LayerDown);
    LocalAction(s1, run.h1);
    LocalAction(Handle(s1, run.h1), run.h2);
    KeptTwice(s1, Handle(s1, run.h1), Handle(Handle(s1, run.h1), run.h2), StartsLcpTimer(run.h1), StartsLcpTimer(run.h2));
  }

  lemma LcpOpens(s: State, e: LcpEvent)
    requires Inv(s) && Opens(s.lcp, e)
    ensures Inv(Dispatch(s, ForLcp(e)))
    ensures Layered(s) ==> Layered(Dispatch(s, ForLcp(e)))
  {
    hide Dispatch, Handle;
    var ev := ForLcp(e);
    var s1 := Enter(s, ev);
    DispatchDef(s, ev);
    if s.lcp == LcpState.AckRcvd {
      LocalAction(s1, ConfAck);
      s1 := Handle(s1, ConfAck);
    }
    LayerUpEffect(s1);
    NothingToDo(Handle(s1, LayerUp));
  }

  lemma LayerUpEffect(s: State)
    requires s.auth == AuthState.Initial
    ensures var r := Handle(s, LayerUp);
      && r.modem == s.modem && r.lcp == s.lcp && TimersKept(s, r, false)
      && (if r.auth == Authenticated then r.ipcp == IpcpTable(s.ipcp, IpcpEvent.Up).next else r.ipcp == s.ipcp)
  {
    hide Dispatch, Handle;
    HandleDef(s, LayerUp);
    if CallOf(s, LayerUp).Call? {
      AuthEffect(s, CallOf(s, LayerUp).ev.a);
    }
  }

  lemma AuthKeepsInv(s: State, e: AuthEvent)
    requires Inv(s) && External(ForAuth(e))
    ensures Inv(Dispatch(s, ForAuth(e)))
    ensures Layered(s) && !(e == Rac && s.auth == Authenticated) ==> Layered(Dispatch(s, ForAuth(e)))
  {
    hide Dispatch, Handle, RunLocal;
    if e == Ran && s.auth != Authenticated {
      var s1 := Enter(s, ForAuth(e));
      OnlyAction(s, ForAuth(e));
      AuthAbortDef(s1);
      LcpKeepsInv(s1.(timers := s1.timers.(auth := false)), Close);
    } else if e == Ran {
      LocalDispatch(s, ForAuth(e));
    } else {
      AuthEffect(s, e);
    }
  }

  /** Whatever an external event sets off, the invariant holds again when it is over; the
      layering is kept too, except by a CHAP challenge received while authenticated. */
  lemma DispatchKeepsInv(s: State, ev: Event)
    requires Inv(s) && External(ev)
    ensures Inv(Dispatch(s, ev))
    ensures Layered(s) && !(ev == ForAuth(Rac) && s.auth == Authenticated) ==> Layered(Dispatch(s, ev))
  {
    hide Dispatch, Handle;
    match ev
    case ForModem(e) => ModemKeepsInv(s, e);
    case ForLcp(e) => LcpKeepsInv(s, e);
    case ForAuth(e) => AuthKeepsInv(s, e);
    case ForIpcp(e) => IpcpEffect(s, e);
  }
}
