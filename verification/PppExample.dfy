/**
 The layering of the PPP device really can be lost: a run in which the device transmits data
 frames although the peer's second CHAP challenge has taken authentication down.
 */
module PppExample {
  import opened PppTables
  import opened PppDevice
  import opened PppLayering
  import opened PppRuns

  predicate At(s: State, modem: ModemState, lcp: LcpState, auth: AuthState, ipcp: IpcpState) {
    s.modem == modem && s.lcp == lcp && s.auth == auth && s.ipcp == ipcp
  }

  /** LCP is open with CHAP negotiated. */
  predicate InChap(s: State, auth: AuthState, ipcp: IpcpState) {
    At(s, Connected, LcpState.Opened, auth, ipcp) && s.authProto == AUTH_CHAP
  }

  lemma Then(xs: seq<Stimulus>, x: Stimulus)
    ensures Run(xs + [x]) == Step(Run(xs), x)
  {
    assert (xs + [x])[..|xs|] == xs;
  }

  lemma IdleTick(s: State)
    requires s == Created.(autoreconnect := true)
    ensures Tick(s) == Dispatch(s, ForLcp(Open))
  {
    hide Dispatch;
  }

  lemma StartsDialling()
    ensures At(Run([AppConnect] + [ClockTick]), Reset, LcpState.Starting, AuthState.Initial, IpcpState.Initial)
  {
    Then([], AppConnect);
    Then([AppConnect], ClockTick);
    assert [] + [AppConnect] == [AppConnect] && Run([]) == Created;
    hide Dispatch, Handle, Run, Tick;
    var s := Created.(autoreconnect := true);
    var s1 := Enter(s, ForLcp(Open));
    IdleTick(s);
    OnlyAction(s, ForLcp(Open));
    LayerStartedDef(s1);
    ModemLocalEffect(s1, Start);
  }

  function Dialling(n: nat): ModemState {
    match n
    case 0 => Reset
    case 1 => Echo
    case 2 => Creg
    case 3 => Cgreg
    case 4 => Cgdcont
    case 5 => Cgatt
    case _ => Dial
  }

  lemma {:induction false} Dialled(n: nat) returns (xs: seq<Stimulus>)
    requires n <= 6
    ensures At(Run(xs), Dialling(n), LcpState.Starting, AuthState.Initial, IpcpState.Initial)
  {
    hide Dispatch, Handle, Run;
    if n == 0 {
      StartsDialling();
      xs := [AppConnect] + [ClockTick];
    } else {
      xs := Dialled(n - 1);
      ModemLocalEffect(Run(xs), Ok);
      Then(xs, ModemLine(Ok));
      xs := xs + [ModemLine(Ok)];
    }
  }

  lemma Connects() returns (xs: seq<Stimulus>)
    ensures At(Run(xs), Connected, LcpState.ReqSent, AuthState.Initial, IpcpState.Initial)
  {
    hide Dispatch, Handle, Run;
    xs := Dialled(6);
    var s := Run(xs);
    OnlyAction(s, ForModem(Connect));
    ModemConnectedDef(Enter(s, ForModem(Connect)));
    LcpUpEffect(Enter(s, ForModem(Connect)));
    Then(xs, ModemLine(Connect));
    xs := xs + [ModemLine(Connect)];
  }

  lemma Negotiates() returns (xs: seq<Stimulus>)
    ensures At(Run(xs), Connected, LcpState.AckSent, AuthState.Initial, IpcpState.Initial)
    ensures Run(xs).authProto == AUTH_CHAP
  {
    hide Dispatch, Handle, Run;
    xs := Connects();
    var request := LcpPacket(1, AuthOption(AUTH_CHAP), false);
    LocalDispatch(Adjust(Run(xs), request), ForLcp(LcpEvent.RcrPos));
    Then(xs, request);
    xs := xs + [request];
  }

  lemma Opens() returns (xs: seq<Stimulus>)
    ensures InChap(Run(xs), AuthState.Starting, IpcpState.Initial)
  {
    hide Dispatch, Handle, Run;
    xs := Negotiates();
    var s1 := Enter(Run(xs), ForLcp(LcpEvent.Rca));
    OnlyAction(Run(xs), ForLcp(LcpEvent.Rca));
    HandleDef(s1, LayerUp);
    AuthEffect(s1, UpChap);
    Then(xs, LcpPacket(2, NoAuthOption, false));
    xs := xs + [LcpPacket(2, NoAuthOption, false)];
  }

  lemma Authenticates() returns (xs: seq<Stimulus>)
    ensures InChap(Run(xs), Authenticated, IpcpState.ReqSent)
  {
    hide Dispatch, Handle, Run;
    xs := Opens();
    AuthEffect(Run(xs), Rac);
    Then(xs, ChapPacket(1));
    xs := xs + [ChapPacket(1)];
    AuthEffect(Run(xs), Raa);
    Then(xs, ChapPacket(3));
    xs := xs + [ChapPacket(3)];
  }

  lemma Configures() returns (xs: seq<Stimulus>)
    ensures InChap(Run(xs), Authenticated, IpcpState.Opened)
  {
    hide Dispatch, Handle, Run;
    xs := Authenticates();
    IpcpEffect(Run(xs), IpcpEvent.RcrPos);
    Then(xs, IpcpPacket(1, false));
    xs := xs + [IpcpPacket(1, false)];
    IpcpEffect(Run(xs), IpcpEvent.Rca);
    Then(xs, IpcpPacket(2, false));
    xs := xs + [IpcpPacket(2, false)];
  }

  lemma TransmitsUnauthenticated() returns (xs: seq<Stimulus>)
    ensures Transmits(Run(xs)) && Run(xs).auth != Authenticated
    ensures !NeverRechallenged(xs)
  {
    hide Dispatch, Handle, Run;
    var ys := Configures();
    AuthEffect(Run(ys), Rac);
    Then(ys, ChapPacket(1));
    xs := ys + [ChapPacket(1)];
    assert xs[..|ys|] == ys && Rechallenged(Run(xs[..|ys|]), xs[|ys|]);
  }
}
