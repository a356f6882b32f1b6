/** The connection of a CAN interface as a state machine over the outcomes of system calls. */
module CanConnection {

  datatype ConnectionState = DisconnectedState | ConnectionPendingState | ConnectedState | DisconnectPendingState

  datatype BusError =
    | NoError | RxError | TxError | ConnectionError | ConfigurationError | UnknownError | OperationError | TimeoutError

  /** The results of socket, ioctl and bind, and of the epoll_ctl behind the registration of the
      read handler; socket returns -1 or a descriptor. */
  datatype Syscalls = Syscalls(socket: int, ioctlOk: bool, bindOk: bool, epollOk: bool)

  ghost predicate Possible(sys: Syscalls) {
    sys.socket >= -1
  }

  /** What a client can see of the connection, with every state signal emitted so far. */
  datatype Link = Link(state: ConnectionState, socket: int, lastError: BusError, emitted: seq<ConnectionState>)

  const INITIAL := Link(DisconnectedState, -1, NoError, [])

  function Moved(l: Link, s: ConnectionState): Link {
    if s == l.state then l else l.(state := s, emitted := l.emitted + [s])
  }

  function Opened(l: Link, sys: Syscalls): Link {
    if l.socket != -1 then l
    else if sys.socket < 0 then l.(socket := sys.socket, lastError := ConnectionError)
    else if !sys.ioctlOk || !sys.bindOk then l.(socket := sys.socket, lastError := ConnectionError)
    else Moved(l.(socket := sys.socket), ConnectedState)
  }

  predicate OpenOk(l: Link, sys: Syscalls) {
    l.socket == -1 && sys.socket >= 0 && sys.ioctlOk && sys.bindOk
  }

  function Connected(l: Link, sys: Syscalls): Link {
    if l.state != DisconnectedState then l.(lastError := ConnectionError)
    else
      var pending := Moved(l, ConnectionPendingState);
      if OpenOk(pending, sys) then Opened(pending, sys).(lastError := NoError)
      else Moved(Opened(pending, sys), DisconnectedState)
  }

  predicate ConnectOk(l: Link, sys: Syscalls) {
    l.state == DisconnectedState && OpenOk(l, sys)
  }

  function Closed(l: Link): Link {
    Moved(l.(socket := -1), DisconnectedState)
  }

  function Disconnected(l: Link): Link {
    if l.state == DisconnectedState || l.state == DisconnectPendingState then l
    else Closed(Moved(l, DisconnectPendingState))
  }

  /** The calls that change the connection: connect and disconnect of the interface, and the
      open and close they are made of, which the backend leaves public. */
  datatype Op = Connect(sys: Syscalls) | Disconnect | Open(sys: Syscalls) | Close

  function Step(l: Link, op: Op): Link {
    match op
    case Connect(sys) => Connected(l, sys)
    case Disconnect => Disconnected(l)
    case Open(sys) => Opened(l, sys)
    case Close => Closed(l)
  }

  function Run(l: Link, ops: seq<Op>): Link {
    if ops == [] then l else Step(Run(l, ops[..|ops| - 1]), ops[|ops| - 1])
  }

  ghost predicate PossibleOp(op: Op) {
    op.Connect? || op.Open? ==> Possible(op.sys)
  }

  ghost predicate AllPossible(ops: seq<Op>) {
    forall op :: op in ops ==> PossibleOp(op)
  }

  /** Calls through the interface class, which has no open and close of its own to call. */
  ghost predicate ThroughInterface(ops: seq<Op>) {
    forall op :: op in ops ==> op.Connect? || op.Disconnect?
  }

  /** Open and close emit one state instead of two, so called directly they must change none. */
  predicate Orderly(l: Link, op: Op) {
    (op.Open? ==> !OpenOk(l, op.sys)) && (op.Close? ==> l.state != ConnectedState)
  }

  ghost predicate AllOrderly(l: Link, ops: seq<Op>) {
    ops == [] || (AllOrderly(l, ops[..|ops| - 1]) && Orderly(Run(l, ops[..|ops| - 1]), ops[|ops| - 1]))
  }

  /** The transitions a client may observe. */
  predicate Edge(a: ConnectionState, b: ConnectionState) {
    match a
    case DisconnectedState => b == ConnectionPendingState
    case ConnectionPendingState => b == ConnectedState || b == DisconnectedState
    case ConnectedState => b == DisconnectPendingState
    case DisconnectPendingState => b == DisconnectedState
  }

  /** The emitted signals form a path from a to b: every one a legal move, so never a repeat. */
  ghost predicate Path(a: ConnectionState, signals: seq<ConnectionState>, b: ConnectionState)
    decreases signals
  {
    if signals == [] then a == b
    else Edge(a, signals[0]) && Path(signals[0], signals[1..], b)
  }

  function LastOf(a: ConnectionState, signals: seq<ConnectionState>): ConnectionState {
    if signals == [] then a else signals[|signals| - 1]
  }

  ghost predicate OnPath(l: Link) {
    Path(DisconnectedState, l.emitted, l.state)
  }

  /** The state is the last one emitted, and a connected interface has an open socket. */
  ghost predicate Sound(l: Link) {
    && l.state == LastOf(DisconnectedState, l.emitted)
    && (l.state == DisconnectedState || l.state == ConnectedState)
    && (l.state == ConnectedState ==> l.socket >= 0)
    && l.socket >= -1
  }

  /** What holds between calls. */
  ghost predicate Settled(l: Link) {
    Sound(l) && OnPath(l)
  }

  lemma {:induction false} PathSnoc(
      a: ConnectionState, signals: seq<ConnectionState>, b: ConnectionState, c: ConnectionState)
    requires b == LastOf(a, signals)
    ensures Path(a, signals + [c], c) <==> Path(a, signals, b) && Edge(b, c)
    decreases signals
  {
    if signals == [] {
      assert [c][1..] == [] && [] + [c] == [c];
    } else {
      PathSnoc(signals[0], signals[1..], b, c);
      assert (signals + [c])[1..] == signals[1..] + [c];
    }
  }

  /** One more signal keeps the path exactly when it is a legal move. */
  lemma MovedPath(l: Link, s: ConnectionState)
    requires l.state == LastOf(DisconnectedState, l.emitted) && s != l.state
    ensures OnPath(Moved(l, s)) <==> OnPath(l) && Edge(l.state, s)
    ensures Moved(l, s).state == s == LastOf(DisconnectedState, Moved(l, s).emitted)
  {
    PathSnoc(DisconnectedState, l.emitted, l.state, s);
  }

  lemma ConnectStep(l: Link, sys: Syscalls)
    requires Sound(l) && Possible(sys)
    ensures Sound(Connected(l, sys)) && (OnPath(Connected(l, sys)) <==> OnPath(l))
  {
    hide Path;
    if l.state == DisconnectedState {
      var pending := Moved(l, ConnectionPendingState);
      MovedPath(l, ConnectionPendingState);
      if OpenOk(pending, sys) {
        MovedPath(pending.(socket := sys.socket), ConnectedState);
      } else {
        MovedPath(Opened(pending, sys), DisconnectedState);
      }
    }
  }

  lemma DisconnectStep(l: Link)
    requires Sound(l)
    ensures Sound(Disconnected(l)) && (OnPath(Disconnected(l)) <==> OnPath(l))
  {
    hide Path;
    if l.state == ConnectedState {
      MovedPath(l, DisconnectPendingState);
      MovedPath(Moved(l, DisconnectPendingState).(socket := -1), DisconnectedState);
    }
  }

  lemma OpenCloseStep(l: Link, op: Op)
    requires Sound(l) && PossibleOp(op) && (op.Open? || op.Close?)
    ensures Sound(Step(l, op)) && (OnPath(Step(l, op)) <==> OnPath(l) && Orderly(l, op))
  {
    hide Path;
    if op.Open? && OpenOk(l, op.sys) {
      MovedPath(l.(socket := op.sys.socket), ConnectedState);
    }
    if op.Close? && l.state == ConnectedState {
      MovedPath(l.(socket := -1), DisconnectedState);
    }
  }

  lemma StepSettled(l: Link, op: Op)
    requires Sound(l) && PossibleOp(op)
    ensures Sound(Step(l, op)) && (OnPath(Step(l, op)) <==> OnPath(l) && Orderly(l, op))
  {
    hide Sound;
    hide OnPath;
    match op
    case Connect(sys) => ConnectStep(l, sys);
    case Disconnect => DisconnectStep(l);
    case Open(_) => OpenCloseStep(l, op);
    case Close => OpenCloseStep(l, op);
  }

  /** Over every run, whatever the system calls return: a connected interface has an open
      socket, and the signals are a legal path to the current state exactly when open and
      close were never called directly to change it. */
  lemma {:induction false} RunSettled(l: Link, ops: seq<Op>)
    requires Settled(l) && AllPossible(ops)
    ensures Sound(Run(l, ops)) && (OnPath(Run(l, ops)) <==> AllOrderly(l, ops))
    ensures ThroughInterface(ops) ==> Settled(Run(l, ops))
  {
    hide Sound;
    hide OnPath;
    hide PossibleOp;
    if ops != [] {
      assert ops[|ops| - 1] in ops;
      RunSettled(l, ops[..|ops| - 1]);
      StepSettled(Run(l, ops[..|ops| - 1]), ops[|ops| - 1]);
    }
  }

  /** connect succeeds exactly from a disconnected interface without a leftover socket when
      all three calls do; it then ends connected with the error cleared. A failed attempt ends
      disconnected, with an error unless it was the leftover socket that stopped it; a call on
      a connected interface changes nothing but the error. */
  lemma ConnectResult(l: Link, sys: Syscalls)
    requires Settled(l) && Possible(sys)
    ensures var m := Connected(l, sys);
      if ConnectOk(l, sys) then
        && l.state == DisconnectedState && l.socket == -1 && sys.socket >= 0 && sys.ioctlOk && sys.bindOk
        && m == Link(ConnectedState, sys.socket, NoError, l.emitted + [ConnectionPendingState, ConnectedState])
      else if l.state == DisconnectedState then
        && (l.socket != -1 || sys.socket == -1 || !sys.ioctlOk || !sys.bindOk)
        && m == Link(DisconnectedState, if l.socket != -1 then l.socket else sys.socket,
                     if l.socket != -1 then l.lastError else ConnectionError,
                     l.emitted + [ConnectionPendingState, DisconnectedState])
      else m == l.(lastError := ConnectionError)
  {
  }

  /** disconnect closes a connected interface in two steps and does nothing otherwise. */
  lemma DisconnectResult(l: Link)
    requires Settled(l)
    ensures Disconnected(l) ==
      if l.state == ConnectedState then
        Link(DisconnectedState, -1, l.lastError, l.emitted + [DisconnectPendingState, DisconnectedState])
      else l
  {
  }

  // ---- A failed ioctl or bind leaves the socket open ----

  /** Disconnected with a socket that open refuses to replace. */
  ghost predicate Wedged(l: Link) {
    l.state == DisconnectedState && l.socket != -1
  }

  /** Only a direct close gets out of there: until then open refuses in every run. */
  lemma {:induction false} WedgedForever(l: Link, ops: seq<Op>)
    requires Wedged(l) && Close !in ops
    ensures Wedged(Run(l, ops)) && Run(l, ops).lastError == l.lastError
  {
    if ops != [] {
      assert ops[|ops| - 1] in ops;
      WedgedForever(l, ops[..|ops| - 1]);
    }
  }

  /** After a direct close, connect works whenever its system calls do. */
  lemma CloseRecovers(l: Link, sys: Syscalls)
    requires Wedged(l)
    ensures Connected(Closed(l), sys).state == ConnectedState <==> sys.socket >= 0 && sys.ioctlOk && sys.bindOk
  {
  }

  /** After a failed attempt the interface can still be connected by some later calls, without
      a direct close, exactly when it was the socket call that failed. */
  lemma RetryAfterFailure(l: Link, sys: Syscalls)
    requires Settled(l) && Possible(sys) && l.state == DisconnectedState && l.socket == -1 && !ConnectOk(l, sys)
    ensures (exists ops :: Close !in ops && Run(Connected(l, sys), ops).state == ConnectedState) <==> sys.socket == -1
  {
    var m := Connected(l, sys);
    if sys.socket == -1 {
      var ops := [Connect(Syscalls(0, true, true, true))];
      assert ops[..0] == [];
      assert Run(m, ops) == Step(Run(m, []), ops[0]);
      assert Close !in ops && Run(m, ops).state == ConnectedState;
    } else {
      forall ops | Close !in ops
        ensures Run(m, ops).state != ConnectedState
      {
        WedgedForever(m, ops);
      }
    }
  }
}
