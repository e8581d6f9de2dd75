/**
 The four state tables of the PPP device: modem, link control (LCP), authentication and
 IP configuration (IPCP).  An entry names the next state and the handlers to run, in order,
 after the state has been stored.  Rows that stay in their state and run nothing are the
 default case of each table.
 */
module PppTables {

  datatype ModemState = Initial | Reset | Echo | Creg | Cgreg | Cgdcont | Cgatt | Dial | Connected
  datatype ModemEvent = Start | Stop | Ok | Connect | Timeout

  datatype LcpState =
    | Initial | Starting | Closed | Stopped | Closing | Stopping
    | ReqSent | AckRcvd | AckSent | Opened
  datatype LcpEvent =
    | Up | Down | Open | Close | ToPos | ToNeg | RcrPos | RcrNeg
    | Rca | Rcn | Rtr | Rta | Ruc | RxjPos | RxjNeg | Rxr

  datatype AuthState = Initial | Starting | RspSent | ReqSent | Authenticated
  datatype AuthEvent = UpNone | UpPap | UpChap | Down | Rac | Raa | Ran | To

  datatype IpcpState = Initial | ReqSent | AckRcvd | AckSent | Opened
  datatype IpcpEvent = Up | Down | RcrPos | RcrNeg | Rca | Rcn | To

  datatype ModemCommand = Atz | Ate0 | AtCreg | AtCgreg | AtCgdcont | AtCgatt | AtDial

  /** The handlers that table entries refer to. */
  datatype Action =
    | NoAction
    | ModemSend(command: ModemCommand) | ModemConnected | ModemDisconnected
    | ConfReq | ConfAck | ConfNack | TermReq | TermAck | CodeReject | EchoReply
    | LayerUp | LayerDown | LayerStarted | LayerFinished | InitRestart | ZeroRestart
    | AuthDone | Deauth | AuthAbort | PapReq | ChapRsp | AuthTimer
    | IpcpReq | IpcpAck | IpcpNack | IpcpTimer | IpcpBringUp | IpcpBringDown

  /** At most three handlers, run in order. */
  datatype Handlers = Do(h0: Action := NoAction, h1: Action := NoAction, h2: Action := NoAction)

  datatype Entry<S> = Entry(next: S, run: Handlers)

  function ModemTable(st: ModemState, e: ModemEvent): Entry<ModemState> {
    match (st, e)
    case (Initial, Start) => Entry(ModemState.Reset, Do(ModemSend(Atz)))
    case (Initial, Timeout) => Entry(ModemState.Initial, Do(ModemSend(Atz)))
    case (Reset, Stop) => Entry(ModemState.Initial, Do())
    case (Reset, Ok) => Entry(ModemState.Echo, Do(ModemSend(Ate0)))
    case (Reset, Timeout) => Entry(ModemState.Reset, Do(ModemSend(Atz)))
    case (Echo, Stop) => Entry(ModemState.Initial, Do())
    case (Echo, Ok) => Entry(ModemState.Creg, Do(ModemSend(AtCreg)))
    case (Echo, Timeout) => Entry(ModemState.Reset, Do(ModemSend(Atz)))
    case (Creg, Stop) => Entry(ModemState.Initial, Do())
    case (Creg, Ok) => Entry(ModemState.Cgreg, Do(ModemSend(AtCgreg)))
    case (Creg, Timeout) => Entry(ModemState.Reset, Do(ModemSend(Atz)))
    case (Cgreg, Stop) => Entry(ModemState.Initial, Do())
    case (Cgreg, Ok) => Entry(ModemState.Cgdcont, Do(ModemSend(AtCgdcont)))
    case (Cgreg, Timeout) => Entry(ModemState.Reset, Do(ModemSend(Atz)))
    case (Cgdcont, Stop) => Entry(ModemState.Initial, Do())
    case (Cgdcont, Ok) => Entry(ModemState.Cgatt, Do(ModemSend(AtCgatt)))
    case (Cgdcont, Timeout) => Entry(ModemState.Reset, Do(ModemSend(Atz)))
    case (Cgatt, Stop) => Entry(ModemState.Initial, Do())
    case (Cgatt, Ok) => Entry(ModemState.Dial, Do(ModemSend(AtDial)))
    case (Cgatt, Timeout) => Entry(ModemState.Reset, Do(ModemSend(Atz)))
    case (Dial, Stop) => Entry(ModemState.Initial, Do())
    case (Dial, Connect) => Entry(ModemState.Connected, Do(ModemConnected))
    case (Dial, Timeout) => Entry(ModemState.Reset, Do(ModemSend(Atz)))
    case (Connected, Stop) => Entry(ModemState.Initial, Do(ModemDisconnected))
    case _ => Entry(st, Do())
  }

  function LcpTable(st: LcpState, e: LcpEvent): Entry<LcpState> {
    match (st, e)
    case (Initial, Up) => Entry(LcpState.Closed, Do())
    case (Initial, Open) => Entry(LcpState.Starting, Do(LayerStarted))
    case (Starting, Up) => Entry(LcpState.ReqSent, Do(ConfReq))
    case (Starting, Close) => Entry(LcpState.Initial, Do(LayerFinished))
    case (Closed, Down) => Entry(LcpState.Initial, Do())
    case (Closed, Open) => Entry(LcpState.ReqSent, Do(ConfReq))
    case (Closed, RcrPos) => Entry(LcpState.Closed, Do(TermAck))
    case (Closed, RcrNeg) => Entry(LcpState.Closed, Do(TermAck))
    case (Closed, Rca) => Entry(LcpState.Closed, Do(TermAck))
    case (Closed, Rcn) => Entry(LcpState.Closed, Do(TermAck))
    case (Closed, Rtr) => Entry(LcpState.Closed, Do(TermAck))
    case (Closed, Ruc) => Entry(LcpState.Closed, Do(CodeReject))
    case (Closed, RxjNeg) => Entry(LcpState.Closed, Do(LayerFinished))
    case (Stopped, Down) => Entry(LcpState.Starting, Do(LayerStarted))
    case (Stopped, Close) => Entry(LcpState.Closed, Do())
    case (Stopped, RcrPos) => Entry(LcpState.AckSent, Do(ConfReq, ConfAck))
    case (Stopped, RcrNeg) => Entry(LcpState.ReqSent, Do(ConfReq, ConfNack))
    case (Stopped, Rca) => Entry(LcpState.Stopped, Do(TermAck))
    case (Stopped, Rcn) => Entry(LcpState.Stopped, Do(TermAck))
    case (Stopped, Rtr) => Entry(LcpState.Stopped, Do(TermAck))
    case (Stopped, Ruc) => Entry(LcpState.Stopped, Do(CodeReject))
    case (Stopped, RxjNeg) => Entry(LcpState.Stopped, Do(LayerFinished))
    case (Closing, Down) => Entry(LcpState.Initial, Do())
    case (Closing, Open) => Entry(LcpState.Stopping, Do())
    case (Closing, ToPos) => Entry(LcpState.Closing, Do(TermReq))
    case (Closing, ToNeg) => Entry(LcpState.Closed, Do(LayerFinished))
    case (Closing, Rtr) => Entry(LcpState.Closing, Do(TermAck))
    case (Closing, Rta) => Entry(LcpState.Closed, Do(LayerFinished))
    case (Closing, Ruc) => Entry(LcpState.Closing, Do(CodeReject))
    case (Closing, RxjNeg) => Entry(LcpState.Closed, Do(LayerFinished))
    case (Stopping, Down) => Entry(LcpState.Starting, Do())
    case (Stopping, Close) => Entry(LcpState.Closing, Do())
    case (Stopping, ToPos) => Entry(LcpState.Stopping, Do(TermReq))
    case (Stopping, ToNeg) => Entry(LcpState.Stopped, Do(LayerFinished))
    case (Stopping, Rtr) => Entry(LcpState.Stopping, Do(TermAck))
    case (Stopping, Rta) => Entry(LcpState.Stopped, Do(LayerFinished))
    case (Stopping, Ruc) => Entry(LcpState.Stopping, Do(CodeReject))
    case (Stopping, RxjNeg) => Entry(LcpState.Stopped, Do(LayerFinished))
    case (ReqSent, Down) => Entry(LcpState.Starting, Do())
    case (ReqSent, Close) => Entry(LcpState.Closing, Do(TermReq))
    case (ReqSent, ToPos) => Entry(LcpState.ReqSent, Do(ConfReq))
    case (ReqSent, ToNeg) => Entry(LcpState.Stopped, Do(LayerFinished))
    case (ReqSent, RcrPos) => Entry(LcpState.AckSent, Do(ConfAck))
    case (ReqSent, RcrNeg) => Entry(LcpState.ReqSent, Do(ConfNack))
    case (ReqSent, Rca) => Entry(LcpState.AckRcvd, Do(InitRestart))
    case (ReqSent, Rcn) => Entry(LcpState.ReqSent, Do(ConfReq))
    case (ReqSent, Rtr) => Entry(LcpState.ReqSent, Do(TermAck))
    case (ReqSent, Ruc) => Entry(LcpState.ReqSent, Do(CodeReject))
    case (ReqSent, RxjNeg) => Entry(LcpState.Stopped, Do(LayerFinished))
    case (AckRcvd, Down) => Entry(LcpState.Starting, Do())
    case (AckRcvd, Close) => Entry(LcpState.Closing, Do(TermReq))
    case (AckRcvd, ToPos) => Entry(LcpState.ReqSent, Do(ConfReq))
    case (AckRcvd, ToNeg) => Entry(LcpState.Stopped, Do(LayerFinished))
    case (AckRcvd, RcrPos) => Entry(LcpState.Opened, Do(ConfAck, LayerUp))
    case (AckRcvd, RcrNeg) => Entry(LcpState.AckRcvd, Do(ConfNack))
    case (AckRcvd, Rca) => Entry(LcpState.ReqSent, Do(ConfReq))
    case (AckRcvd, Rcn) => Entry(LcpState.ReqSent, Do(ConfReq))
    case (AckRcvd, Rtr) => Entry(LcpState.ReqSent, Do(TermAck))
    case (AckRcvd, Rta) => Entry(LcpState.ReqSent, Do())
    case (AckRcvd, Ruc) => Entry(LcpState.AckRcvd, Do(CodeReject))
    case (AckRcvd, RxjPos) => Entry(LcpState.ReqSent, Do())
    case (AckRcvd, RxjNeg) => Entry(LcpState.Stopped, Do(LayerFinished))
    case (AckSent, Down) => Entry(LcpState.Starting, Do())
    case (AckSent, Close) => Entry(LcpState.Closing, Do(TermReq))
    case (AckSent, ToPos) => Entry(LcpState.AckSent, Do(ConfReq))
    case (AckSent, ToNeg) => Entry(LcpState.Stopped, Do(LayerFinished))
    case (AckSent, RcrPos) => Entry(LcpState.AckSent, Do(ConfAck))
    case (AckSent, RcrNeg) => Entry(LcpState.ReqSent, Do(ConfNack))
    case (AckSent, Rca) => Entry(LcpState.Opened, Do(LayerUp))
    case (AckSent, Rcn) => Entry(LcpState.AckSent, Do(ConfReq))
    case (AckSent, Rtr) => Entry(LcpState.ReqSent, Do(TermAck))
    case (AckSent, Ruc) => Entry(LcpState.AckSent, Do(CodeReject))
    case (AckSent, RxjNeg) => Entry(LcpState.Stopped, Do(LayerFinished))
    case (Opened, Down) => Entry(LcpState.Starting, Do(LayerDown))
    case (Opened, Close) => Entry(LcpState.Closing, Do(LayerDown, TermReq))
    case (Opened, RcrPos) => Entry(LcpState.AckSent, Do(LayerDown, TermReq, ConfAck))
    case (Opened, RcrNeg) => Entry(LcpState.ReqSent, Do(LayerDown, ConfReq, ConfNack))
    case (Opened, Rca) => Entry(LcpState.ReqSent, Do(LayerDown, TermReq))
    case (Opened, Rcn) => Entry(LcpState.ReqSent, Do(LayerDown, TermReq))
    case (Opened, Rtr) => Entry(LcpState.Stopping, Do(LayerDown, ZeroRestart, TermAck))
    case (Opened, Rta) => Entry(LcpState.ReqSent, Do(LayerDown, TermReq))
    case (Opened, Ruc) => Entry(LcpState.Opened, Do(CodeReject))
    case (Opened, RxjNeg) => Entry(LcpState.Stopping, Do(LayerDown, TermReq))
    case (Opened, Rxr) => Entry(LcpState.Opened, Do(EchoReply))
    case _ => Entry(st, Do())
  }

  function AuthTable(st: AuthState, e: AuthEvent): Entry<AuthState> {
    match (st, e)
    case (Initial, UpNone) => Entry(AuthState.Authenticated, Do(AuthDone))
    case (Initial, UpPap) => Entry(AuthState.ReqSent, Do(PapReq, AuthTimer))
    case (Initial, UpChap) => Entry(AuthState.Starting, Do())
    case (Initial, Ran) => Entry(AuthState.Initial, Do(AuthAbort))
    case (Starting, Down) => Entry(AuthState.Initial, Do(Deauth))
    case (Starting, Rac) => Entry(AuthState.RspSent, Do(ChapRsp, AuthTimer))
    case (Starting, Raa) => Entry(AuthState.Starting, Do(AuthTimer))
    case (Starting, Ran) => Entry(AuthState.Starting, Do(AuthAbort))
    case (Starting, To) => Entry(AuthState.Initial, Do(PapReq, AuthTimer))
    case (RspSent, Down) => Entry(AuthState.Initial, Do(Deauth))
    case (RspSent, Rac) => Entry(AuthState.RspSent, Do(ChapRsp, AuthTimer))
    case (RspSent, Raa) => Entry(AuthState.Authenticated, Do(AuthDone))
    case (RspSent, Ran) => Entry(AuthState.Starting, Do(AuthAbort))
    case (RspSent, To) => Entry(AuthState.Starting, Do(AuthTimer))
    case (ReqSent, Down) => Entry(AuthState.Initial, Do(Deauth))
    case (ReqSent, Raa) => Entry(AuthState.Authenticated, Do(AuthDone))
    case (ReqSent, Ran) => Entry(AuthState.ReqSent, Do(AuthAbort))
    case (ReqSent, To) => Entry(AuthState.ReqSent, Do(PapReq, AuthTimer))
    case (Authenticated, Down) => Entry(AuthState.Initial, Do(Deauth))
    case (Authenticated, Rac) => Entry(AuthState.RspSent, Do(ChapRsp))
    case _ => Entry(st, Do())
  }

  function IpcpTable(st: IpcpState, e: IpcpEvent): Entry<IpcpState> {
    match (st, e)
    case (Initial, Up) => Entry(IpcpState.ReqSent, Do(IpcpReq, IpcpTimer))
    case (ReqSent, Down) => Entry(IpcpState.Initial, Do())
    case (ReqSent, RcrPos) => Entry(IpcpState.AckSent, Do(IpcpAck))
    case (ReqSent, RcrNeg) => Entry(IpcpState.ReqSent, Do(IpcpNack))
    case (ReqSent, Rca) => Entry(IpcpState.AckRcvd, Do())
    case (ReqSent, Rcn) => Entry(IpcpState.ReqSent, Do(IpcpReq, IpcpTimer))
    case (ReqSent, To) => Entry(IpcpState.ReqSent, Do(IpcpReq, IpcpTimer))
    case (AckRcvd, Down) => Entry(IpcpState.Initial, Do())
    case (AckRcvd, RcrPos) => Entry(IpcpState.Opened, Do(IpcpAck, IpcpBringUp))
    case (AckRcvd, RcrNeg) => Entry(IpcpState.AckRcvd, Do(IpcpNack))
    case (AckRcvd, Rca) => Entry(IpcpState.ReqSent, Do(IpcpReq, IpcpTimer))
    case (AckRcvd, Rcn) => Entry(IpcpState.ReqSent, Do(IpcpReq, IpcpTimer))
    case (AckRcvd, To) => Entry(IpcpState.AckRcvd, Do(IpcpReq, IpcpTimer))
    case (AckSent, Down) => Entry(IpcpState.Initial, Do())
    case (AckSent, RcrPos) => Entry(IpcpState.AckSent, Do(IpcpAck))
    case (AckSent, RcrNeg) => Entry(IpcpState.ReqSent, Do(IpcpNack))
    case (AckSent, Rca) => Entry(IpcpState.Opened, Do(IpcpBringUp))
    case (AckSent, Rcn) => Entry(IpcpState.AckSent, Do(IpcpReq, IpcpTimer))
    case (AckSent, To) => Entry(IpcpState.AckSent, Do(IpcpReq, IpcpTimer))
    case (Opened, Down) => Entry(IpcpState.Initial, Do(IpcpBringDown))
    case (Opened, RcrPos) => Entry(IpcpState.AckSent, Do(IpcpBringDown, IpcpReq, IpcpAck))
    case (Opened, RcrNeg) => Entry(IpcpState.ReqSent, Do(IpcpBringDown, IpcpReq, IpcpNack))
    case (Opened, Rca) => Entry(IpcpState.ReqSent, Do(IpcpReq))
    case (Opened, Rcn) => Entry(IpcpState.ReqSent, Do(IpcpReq))
    case _ => Entry(st, Do())
  }
}
