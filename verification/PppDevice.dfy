/**
 The PPP device: dispatch of events through the four tables of `PppTables`.  Handlers re-enter
 the dispatchers of the other layers, so one event can run a nested cascade of transitions
 before the device is quiescent again.

 The value semantics (`Dispatch`, `Tick`, `Step`) is the specification of the class `Ppp`
 at the end of this module, whose methods update the device field by field.
 */
module PppDevice {
  import opened PppTables

  const DEFAULT_TIMER := 3
  const MAX_TERMINATE := 2
  const MAX_CONFIGURE := 10
  const MAX_FAILURE := 5
  const MAX_DIALTIME := 20
  const AUTH_NONE := 0x0000
  const AUTH_PAP := 0xc023
  const AUTH_CHAP := 0xc223

  /** The bits of `timer_on`. */
  datatype Timers = Timers(modem: bool, lcpReq: bool, lcpTerm: bool, auth: bool, ipcp: bool)

  datatype Event =
    | ForModem(m: ModemEvent)
    | ForLcp(l: LcpEvent)
    | ForAuth(a: AuthEvent)
    | ForIpcp(i: IpcpEvent)

  /** What went out on the serial line, newest last. */
  datatype Line = Silent | Sent(before: Line, last: Action)

  function Count(line: Line, a: Action): nat {
    match line
    case Silent => 0
    case Sent(before, last) => Count(before, a) + if last == a then 1 else 0
  }

  datatype State = State(
    modem: ModemState, lcp: LcpState, auth: AuthState, ipcp: IpcpState,
    authProto: nat, timers: Timers, timerVal: nat, timerCount: nat,
    autoreconnect: bool, line: Line)

  const Created := State(ModemState.Initial, LcpState.Initial, AuthState.Initial, IpcpState.Initial,
                         AUTH_NONE, Timers(false, false, false, false, false), 0, 0, false, Silent)

  // ----- Handlers that do not dispatch further events -----

  /** `lcp_timer_start` for the terminate (`term`) or the configure request. */
  function LcpTimerStart(s: State, term: bool): State {
    s.(timers := if term then s.timers.(lcpTerm := true) else s.timers.(lcpReq := true),
       timerVal := if s.timerVal == 0 then DEFAULT_TIMER else s.timerVal,
       timerCount := if s.timerCount != 0 then s.timerCount else if term then MAX_TERMINATE else MAX_CONFIGURE)
  }

  function LcpZeroRestartCount(s: State): State {
    s.(timers := s.timers.(lcpReq := true),
       timerVal := if s.timerVal == 0 then DEFAULT_TIMER else s.timerVal,
       timerCount := 0)
  }

  function Emit(s: State, a: Action): State {
    s.(line := Sent(s.line, a))
  }

  /** Handlers that put something on the serial line. */
  predicate Sends(a: Action) {
    || a.ModemSend? || a.ConfReq? || a.TermReq? || a.ConfAck? || a.ConfNack? || a.TermAck? || a.EchoReply?
    || a.PapReq? || a.ChapRsp? || a.IpcpReq? || a.IpcpAck?
  }

  /** Effect of a handler on the timers. */
  function Rearm(s: State, a: Action): State {
    match a
    case ModemSend(c) =>
      s.(timers := s.timers.(modem := true),
         timerVal := if c == AtDial then MAX_DIALTIME else DEFAULT_TIMER)
    case ConfReq => LcpTimerStart(s.(timerVal := DEFAULT_TIMER), false)
    case TermReq => LcpTimerStart(s, true)
    case InitRestart => LcpTimerStart(s, false)
    case ZeroRestart => LcpZeroRestartCount(s)
    case AuthTimer => s.(timers := s.timers.(auth := true), timerVal := DEFAULT_TIMER)
    case IpcpTimer => s.(timers := s.timers.(ipcp := true), timerVal := DEFAULT_TIMER * MAX_FAILURE)
    case _ => s
  }

  /** Effect of every handler that stays within its own layer. */
  function RunLocal(s: State, a: Action): State {
    Rearm(if Sends(a) then Emit(s, a) else s, a)
  }

  // ----- Dispatch -----

  /** LCP states in which the restart timer runs: those with a handler for a positive timeout. */
  predicate HasTimeout(st: LcpState) {
    LcpTable(st, ToPos).run.h0 != NoAction
  }

  function HandlersFor(s: State, ev: Event): Handlers
  {
    match ev
    case ForModem(e) => ModemTable(s.modem, e).run
    case ForLcp(e) => LcpTable(s.lcp, e).run
    case ForAuth(e) => AuthTable(s.auth, e).run
    case ForIpcp(e) => IpcpTable(s.ipcp, e).run
  }

  /** Stores the next state; LCP also stops its restart timer on entering a state without one. */
  function Enter(s: State, ev: Event): State {
    match ev
    case ForModem(e) => s.(modem := ModemTable(s.modem, e).next)
    case ForLcp(e) =>
      var next := LcpTable(s.lcp, e).next;
      s.(lcp := next, timers := if HasTimeout(next) then s.timers else s.timers.(lcpReq := false, lcpTerm := false))
    case ForAuth(e) => s.(auth := AuthTable(s.auth, e).next)
    case ForIpcp(e) => s.(ipcp := IpcpTable(s.ipcp, e).next)
  }

  /** The well-founded measure of re-entrant dispatch: every handler an event may run
      re-enters a dispatcher only with events of a smaller rank. */
  function Rank(ev: Event): nat {
    match ev
    case ForIpcp(_) => 1
    case ForModem(Stop) | ForModem(Connect) => 4
    case ForModem(_) => 1
    case ForAuth(Ran) => 6
    case ForAuth(_) => 2
    case ForLcp(Up) => 2
    case ForLcp(Down) | ForLcp(Open) => 3
    case ForLcp(_) => 5
  }

  /** The event a handler re-dispatches, if any. */
  datatype Call = NoCall | Call(ev: Event)

  function CallOf(s: State, a: Action): Call {
    match a
    case ModemConnected => Call(ForLcp(LcpEvent.Up))
    case ModemDisconnected => Call(ForLcp(LcpEvent.Down))
    case LayerUp =>
      if s.authProto == AUTH_NONE then Call(ForAuth(UpNone))
      else if s.authProto == AUTH_PAP then Call(ForAuth(UpPap))
      else if s.authProto == AUTH_CHAP then Call(ForAuth(UpChap))
      else NoCall
    case LayerDown => Call(ForAuth(AuthEvent.Down))
    case LayerStarted => Call(ForModem(Start))
    case LayerFinished => Call(ForModem(Stop))
    case AuthDone => Call(ForIpcp(IpcpEvent.Up))
    case Deauth => Call(ForIpcp(IpcpEvent.Down))
    case AuthAbort => Call(ForLcp(Close))
    case _ => NoCall
  }

  /** What a handler does before it re-dispatches. */
  function Prepare(s: State, a: Action): State {
    match a
    case ModemDisconnected => Emit(s, a)
    case AuthAbort => s.(timers := s.timers.(auth := false))
    case _ => if CallOf(s, a).Call? || a == LayerUp then s else RunLocal(s, a)
  }

  function ActionRank(a: Action): nat {
    match a
    case LayerStarted | AuthDone | Deauth => 1
    case LayerUp | LayerDown | ModemConnected => 2
    case ModemDisconnected => 3
    case LayerFinished => 4
    case AuthAbort => 5
    case _ => 0
  }

  lemma CallRank(s: State, a: Action)
    ensures CallOf(s, a).Call? ==> Rank(CallOf(s, a).ev) == ActionRank(a)
  {}

  lemma TableRanks(s: State, ev: Event)
    ensures var run := HandlersFor(s, ev);
      ActionRank(run.h0) < Rank(ev) && ActionRank(run.h1) < Rank(ev) && ActionRank(run.h2) < Rank(ev)
  {}

  /** One table transition with everything it re-enters.  The `decreases` clause is the
      termination argument: it holds from every combined state, reachable or not. */
  function Dispatch(s: State, ev: Event): State
    decreases Rank(ev), 0
  {
    TableRanks(s, ev);
    var run := HandlersFor(s, ev);
    Handle(Handle(Handle(Enter(s, ev), run.h0), run.h1), run.h2)
  }

  function Handle(s: State, a: Action): State
    decreases ActionRank(a), 1
  {
    CallRank(s, a);
    var s1 := Prepare(s, a);
    match CallOf(s, a)
    case NoCall => s1
    case Call(ev) => Dispatch(s1, ev)
  }

  lemma HandleDef(s: State, a: Action)
    ensures Handle(s, a) == match CallOf(s, a)
                            case NoCall => Prepare(s, a)
                            case Call(ev) => Dispatch(Prepare(s, a), ev)
  {}

  // ----- The one-second tick -----

  function CheckModem(s: State): State {
    if s.timers.modem && s.timerVal == 0
    then Dispatch(s.(timers := s.timers.(modem := false)), ForModem(Timeout)) else s
  }

  /** The retry counter is an unsigned byte and wraps. */
  function CheckLcp(s: State): State {
    if (s.timers.lcpReq || s.timers.lcpTerm) && s.timerVal == 0 then
      if s.timerCount == 0 then Dispatch(s, ForLcp(ToNeg))
      else var r := Dispatch(s, ForLcp(ToPos)); r.(timerCount := (r.timerCount - 1) % 256)
    else s
  }

  function CheckAuth(s: State): State {
    if s.timers.auth && s.timerVal == 0
    then Dispatch(s.(timers := s.timers.(auth := false)), ForAuth(AuthEvent.To)) else s
  }

  function CheckIpcp(s: State): State {
    if s.timers.ipcp && s.timerVal == 0
    then Dispatch(s.(timers := s.timers.(ipcp := false)), ForIpcp(IpcpEvent.To)) else s
  }

  function Reconnect(s: State): State {
    if s.autoreconnect && s.lcp == LcpState.Initial then Dispatch(s, ForLcp(Open)) else s
  }

  function CountDown(s: State): State {
    if s.timerVal > 0 then s.(timerVal := s.timerVal - 1) else s
  }

  function Tick(s: State): State {
    Reconnect(CheckIpcp(CheckAuth(CheckLcp(CheckModem(CountDown(s))))))
  }

  // ----- Everything that can happen to the device -----

  datatype AuthOption = NoAuthOption | AuthOption(proto: nat)

  /** A line from the modem, a packet from the peer (already past the FCS check), a tick of the
      clock, or a call from the application.  `rejected` says whether a configure request
      carries an option the device does not support, `vj` whether an IPCP packet asks for
      header compression. */
  datatype Stimulus =
    | ModemLine(line: ModemEvent)
    | LcpPacket(code: nat, auth: AuthOption, rejected: bool)
    | PapPacket(code: nat)
    | ChapPacket(code: nat)
    | IpcpPacket(code: nat, vj: bool)
    | ClockTick
    | AppConnect
    | AppDisconnect

  function AdoptAuth(s: State, auth: AuthOption): State {
    if auth.AuthOption? then s.(authProto := auth.proto) else s
  }

  /** The event a packet stands for, if any. */
  function PacketEvent(authProto: nat, p: Stimulus): Call {
    match p
    case LcpPacket(code, _, rejected) =>
      if code == 1 then Call(ForLcp(if rejected then LcpEvent.RcrNeg else LcpEvent.RcrPos))
      else if code == 2 then Call(ForLcp(LcpEvent.Rca))
      else if code == 3 || code == 4 then Call(ForLcp(LcpEvent.Rcn))
      else if code == 9 then Call(ForLcp(Rxr))
      else NoCall
    case PapPacket(code) =>
      if authProto != AUTH_PAP then NoCall
      else if code == 2 then Call(ForAuth(Raa))
      else if code == 3 then Call(ForAuth(Ran))
      else NoCall
    case ChapPacket(code) =>
      if authProto != AUTH_CHAP then NoCall
      else if code == 1 then Call(ForAuth(Rac))
      else if code == 3 then Call(ForAuth(Raa))
      else if code == 4 then Call(ForAuth(Ran))
      else NoCall
    case IpcpPacket(code, vj) =>
      if vj then NoCall
      else if code == 2 then Call(ForIpcp(IpcpEvent.Rca))
      else if code == 1 then Call(ForIpcp(IpcpEvent.RcrPos))
      else if code == 3 || code == 4 then Call(ForIpcp(IpcpEvent.Rcn))
      else NoCall
    case _ => NoCall
  }

  /** Configure requests and configure NAKs adjust the authentication protocol before dispatch. */
  function Adjust(s: State, p: Stimulus): State {
    if p.LcpPacket? && (p.code == 1 || p.code == 3) then AdoptAuth(s, p.auth) else s
  }

  /** Bytes go to the frame decoder only while the modem is connected, to the line decoder otherwise. */
  function Step(s: State, x: Stimulus): State {
    match x
    case ModemLine(e) =>
      if s.modem != Connected && (e == Ok || e == Stop || e == Connect) then Dispatch(s, ForModem(e)) else s
    case ClockTick => Tick(s)
    case AppConnect => s.(autoreconnect := true)
    case AppDisconnect => Dispatch(s.(autoreconnect := false), ForLcp(Close))
    case _ =>
      if s.modem != Connected then s else
      var s1 := Adjust(s, x);
      match PacketEvent(s1.authProto, x)
      case NoCall => s1
      case Call(ev) => Dispatch(s1, ev)
  }

  /** Whether `pico_ppp_send` puts a data frame on the line. */
  predicate Transmits(s: State) {
    s.ipcp == IpcpState.Opened
  }

  // ----- The device object -----

  class Ppp {
    var modem: ModemState
    var lcp: LcpState
    var auth: AuthState
    var ipcp: IpcpState
    var authProto: nat
    var timers: Timers
    var timerVal: nat
    var timerCount: nat
    var autoreconnect: bool
    var line: Line

    ghost function View(): State
      reads this
    {
      State(modem, lcp, auth, ipcp, authProto, timers, timerVal, timerCount, autoreconnect, line)
    }

    constructor ()
      ensures View() == Created
    {
      modem, lcp, auth, ipcp := ModemState.Initial, LcpState.Initial, AuthState.Initial, IpcpState.Initial;
      authProto, timers, timerVal, timerCount := AUTH_NONE, Timers(false, false, false, false, false), 0, 0;
      autoreconnect, line := false, Silent;
    }

    method Evaluate(ev: Event)
      modifies this
      ensures View() == Dispatch(old(View()), ev)
      decreases Rank(ev), 0
    {
      TableRanks(View(), ev);
      var run: Handlers;
      match ev {
        case ForModem(e) =>
          var fsm := ModemTable(modem, e);
          modem, run := fsm.next, fsm.run;
        case ForLcp(e) =>
          var fsm := LcpTable(lcp, e);
          lcp, run := fsm.next, fsm.run;
          if LcpTable(lcp, ToPos).run.h0 == NoAction {
            timers := timers.(lcpReq := false, lcpTerm := false);
          }
        case ForAuth(e) =>
          var fsm := AuthTable(auth, e);
          auth, run := fsm.next, fsm.run;
        case ForIpcp(e) =>
          var fsm := IpcpTable(ipcp, e);
          ipcp, run := fsm.next, fsm.run;
      }
      assert run == HandlersFor(old(View()), ev) && View() == Enter(old(View()), ev);
      Execute(run.h0);
      Execute(run.h1);
      Execute(run.h2);
    }

    method Execute(a: Action)
      modifies this
      ensures View() == Handle(old(View()), a)
      decreases ActionRank(a), 1
    {
      CallRank(View(), a);
      HandleDef(View(), a);
      hide Dispatch, Handle, RunLocal;
      if a.ModemConnected? {
        Evaluate(ForLcp(LcpEvent.Up));
      } else if a.ModemDisconnected? {
        line := Sent(line, a);
        Evaluate(ForLcp(LcpEvent.Down));
      } else if a.LayerUp? {
        if authProto == AUTH_NONE { Evaluate(ForAuth(UpNone)); }
        else if authProto == AUTH_PAP { Evaluate(ForAuth(UpPap)); }
        else if authProto == AUTH_CHAP { Evaluate(ForAuth(UpChap)); }
      } else if a.LayerDown? {
        Evaluate(ForAuth(AuthEvent.Down));
      } else if a.LayerStarted? {
        Evaluate(ForModem(Start));
      } else if a.LayerFinished? {
        Evaluate(ForModem(Stop));
      } else if a.AuthDone? {
        Evaluate(ForIpcp(IpcpEvent.Up));
      } else if a.Deauth? {
        Evaluate(ForIpcp(IpcpEvent.Down));
      } else if a.AuthAbort? {
        timers := timers.(auth := false);
        Evaluate(ForLcp(Close));
      } else {
        ExecuteLocal(a);
      }
    }

    method ExecuteLocal(a: Action)
      modifies this
      ensures View() == RunLocal(old(View()), a)
    {
      if Sends(a) { line := Sent(line, a); }
      SetTimers(a);
    }

    method SetTimers(a: Action)
      modifies this
      ensures View() == Rearm(old(View()), a)
    {
      if a.ModemSend? {
        timers, timerVal := timers.(modem := true), DEFAULT_TIMER;
        if a.command == AtDial { timerVal := MAX_DIALTIME; }
      } else if a.ConfReq? {
        timerVal := DEFAULT_TIMER;
        TimerStart(false);
      } else if a.TermReq? {
        TimerStart(true);
      } else if a.InitRestart? {
        TimerStart(false);
      } else if a.ZeroRestart? {
        timers := timers.(lcpReq := true);
        if timerVal == 0 { timerVal := DEFAULT_TIMER; }
        timerCount := 0;
      } else if a.AuthTimer? {
        timers, timerVal := timers.(auth := true), DEFAULT_TIMER;
      } else if a.IpcpTimer? {
        timers, timerVal := timers.(ipcp := true), DEFAULT_TIMER * MAX_FAILURE;
      }
    }

    method TimerStart(term: bool)
      modifies this
      ensures View() == LcpTimerStart(old(View()), term)
    {
      if term {
        timers := timers.(lcpTerm := true);
      } else {
        timers := timers.(lcpReq := true);
      }
      if timerVal == 0 { timerVal := DEFAULT_TIMER; }
      if timerCount == 0 {
        timerCount := if term then MAX_TERMINATE else MAX_CONFIGURE;
      }
    }

    method CheckToModem()
      modifies this
      ensures View() == CheckModem(old(View()))
    {
      hide Dispatch, Handle;
      if timers.modem && timerVal == 0 {
        timers := timers.(modem := false);
        Evaluate(ForModem(Timeout));
      }
    }

    method CheckToLcp()
      modifies this
      ensures View() == CheckLcp(old(View()))
    {
      hide Dispatch, Handle;
      if (timers.lcpReq || timers.lcpTerm) && timerVal == 0 {
        if timerCount == 0 {
          Evaluate(ForLcp(ToNeg));
        } else {
          Evaluate(ForLcp(ToPos));
          timerCount := (timerCount - 1) % 256;
        }
      }
    }

    method CheckToAuth()
      modifies this
      ensures View() == CheckAuth(old(View()))
    {
      hide Dispatch, Handle;
      if timers.auth && timerVal == 0 {
        timers := timers.(auth := false);
        Evaluate(ForAuth(AuthEvent.To));
      }
    }

    method CheckToIpcp()
      modifies this
      ensures View() == CheckIpcp(old(View()))
    {
      hide Dispatch, Handle;
      if timers.ipcp && timerVal == 0 {
        timers := timers.(ipcp := false);
        Evaluate(ForIpcp(IpcpEvent.To));
      }
    }

    method OnTick()
      modifies this
      ensures View() == Tick(old(View()))
    {
      hide Dispatch, Handle;
      if timerVal > 0 { timerVal := timerVal - 1; }
      CheckToModem();
      CheckToLcp();
      CheckToAuth();
      CheckToIpcp();
      if autoreconnect && lcp == LcpState.Initial {
        Evaluate(ForLcp(Open));
      }
    }

    method Receive(x: Stimulus)
      modifies this
      ensures View() == Step(old(View()), x)
    {
      hide Dispatch, Handle;
      if x.ClockTick? {
        OnTick();
      } else if x.AppConnect? {
        autoreconnect := true;
      } else if x.AppDisconnect? {
        autoreconnect := false;
        Evaluate(ForLcp(Close));
      } else if x.ModemLine? {
        if modem != Connected && (x.line == Ok || x.line == Stop || x.line == Connect) { Evaluate(ForModem(x.line)); }
      } else if modem == Connected {
        if x.LcpPacket? && (x.code == 1 || x.code == 3) && x.auth.AuthOption? {
          authProto := x.auth.proto;
        }
        var call := PacketEvent(authProto, x);
        if call.Call? { Evaluate(call.ev); }
      }
    }
  }
}
