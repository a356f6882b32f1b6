/** Whether the dispatcher tells a connected interface that messages have arrived. All
    interfaces of a process, and the rest of its program, share the dispatcher's one table. */
module ReadNotification {
  import opened CanConnection
  import opened FileTable

  predicate Opens(l: Link, op: Op) {
    (op.Connect? && ConnectOk(l, op.sys)) || (op.Open? && OpenOk(l, op.sys))
  }

  predicate Closes(l: Link, op: Op) {
    (op.Disconnect? && l.state == ConnectedState) || op.Close?
  }

  /** Opening registers the read handler of the new socket, and nobody looks at the result;
      closing does not remove it. */
  function FilesAfter(l: Link, f: Files, op: Op): Files {
    if Opens(l, op) then Added(f, op.sys.socket, Read, op.sys.epollOk)
    else if Closes(l, op) then ClosedFd(f, l.socket)
    else f
  }

  /** All interfaces of the process, and the table they share. */
  datatype World = World(links: seq<Link>, files: Files)

  /** A call on interface who, or something the rest of the program does with the table. */
  datatype Event = Call(who: nat, op: Op) | Other(call: FileCall)

  function After(w: World, e: Event): World {
    match e
    case Call(who, op) =>
      if who < |w.links| then
        World(w.links[who := Step(w.links[who], op)], FilesAfter(w.links[who], w.files, op))
      else w
    case Other(call) => w.(files := AfterCall(w.files, call))
  }

  function AfterEvents(w: World, events: seq<Event>): World {
    if events == [] then w else After(AfterEvents(w, events[..|events| - 1]), events[|events| - 1])
  }

  predicate IsOpening(w: World, e: Event) {
    e.Call? && e.who < |w.links| && Opens(w.links[e.who], e.op)
  }

  /** The call gets as far as socket, and that returns a descriptor. */
  predicate TakesSocket(l: Link, op: Op) {
    (op.Connect? || op.Open?) && (op.Connect? ==> l.state == DisconnectedState) && l.socket == -1 && op.sys.socket >= 0
  }

  /** What the kernel guarantees of a new descriptor: no interface holds it, and it is not
      watched, because whoever had it before has closed it. */
  ghost predicate NewSocket(w: World, e: Event) {
    e.Call? && e.who < |w.links| && TakesSocket(w.links[e.who], e.op) ==>
      e.op.sys.socket !in w.files.watched && forall i :: 0 <= i < |w.links| ==> w.links[i].socket != e.op.sys.socket
  }

  ghost predicate NewSockets(w: World, events: seq<Event>) {
    events == [] ||
    (NewSockets(w, events[..|events| - 1]) && NewSocket(AfterEvents(w, events[..|events| - 1]), events[|events| - 1]))
  }

  // ---- The table, over every run ----

  /** The call registers a handler for reading: an interface opens, or the program adds one. */
  predicate Registers(w: World, e: Event, fd: int) {
    || (IsOpening(w, e) && e.op.sys.socket == fd && e.op.sys.epollOk)
    || (e.Other? && e.call.Add? && e.call.fd == fd && e.call.op == Read && AddOk(w.files, fd, Read, e.call.epollOk))
  }

  /** Some event of the run registered a handler for the descriptor. */
  ghost predicate Registered(w: World, events: seq<Event>, fd: int) {
    events != [] &&
    var init := events[..|events| - 1];
    Registered(w, init, fd) || Registers(AfterEvents(w, init), events[|events| - 1], fd)
  }

  predicate RemovesReader(e: Event) {
    e.Other? && e.call.Remove? && e.call.op == Read
  }

  lemma OpensTakes(l: Link, op: Op)
    requires Opens(l, op)
    ensures TakesSocket(l, op)
  {
  }

  lemma HandlerAfter(w: World, e: Event, fd: int)
    requires NewSocket(w, e) && !RemovesReader(e)
    ensures (fd, Read) in After(w, e).files.table <==> (fd, Read) in w.files.table || Registers(w, e, fd)
  {
    if IsOpening(w, e) {
      OpensTakes(w.links[e.who], e.op);
    }
  }

  /** The handlers for reading are those of the start and every one registered since, by any
      interface or by the program, as long as the program removes none itself. */
  lemma {:induction false} HandlersStay(w: World, events: seq<Event>, fd: int)
    requires NewSockets(w, events) && forall e :: e in events ==> !RemovesReader(e)
    ensures (fd, Read) in AfterEvents(w, events).files.table <==>
            (fd, Read) in w.files.table || Registered(w, events, fd)
  {
    hide After;
    hide NewSocket;
    hide Registers;
    if events != [] {
      var init, e := events[..|events| - 1], events[|events| - 1];
      assert e in events && forall o :: o in init ==> o in events;
      HandlersStay(w, init, fd);
      HandlerAfter(AfterEvents(w, init), e, fd);
    }
  }

  // ---- One connection ----

  /** The connection of interface who on descriptor fd goes on: it is neither disconnected nor
      closed, and the rest of the program leaves the descriptor alone. */
  predicate GoesOn(e: Event, who: nat, fd: int) {
    match e
    case Call(i, op) => i == who ==> op.Connect? || op.Open?
    case Other(call) => call.fd != fd
  }

  ghost predicate Holds(w: World, who: nat, fd: int) {
    && who < |w.links| && fd >= 0
    && w.links[who].state == ConnectedState && w.links[who].socket == fd
    && forall i :: 0 <= i < |w.links| && i != who ==> w.links[i].socket != fd
  }

  lemma HoldsAfter(w: World, e: Event, who: nat, fd: int)
    requires Holds(w, who, fd) && GoesOn(e, who, fd) && NewSocket(w, e)
    ensures Holds(After(w, e), who, fd)
    ensures fd in After(w, e).files.watched <==> fd in w.files.watched
  {
    if e.Call? && e.who < |w.links| && e.who != who && Opens(w.links[e.who], e.op) {
      OpensTakes(w.links[e.who], e.op);
    }
  }

  lemma {:induction false} StaysAsItIs(w: World, before: seq<Event>, after: seq<Event>, who: nat, fd: int)
    requires NewSockets(w, before + after) && Holds(AfterEvents(w, before), who, fd)
    requires forall e :: e in after ==> GoesOn(e, who, fd)
    ensures Holds(AfterEvents(w, before + after), who, fd)
    ensures fd in AfterEvents(w, before + after).files.watched <==> fd in AfterEvents(w, before).files.watched
    decreases |after|
  {
    hide After;
    hide Holds;
    hide NewSocket;
    hide GoesOn;
    if after == [] {
      assert before + after == before;
    } else {
      var init, e := after[..|after| - 1], after[|after| - 1];
      assert (before + after)[..|before + after| - 1] == before + init;
      assert e in after && forall o :: o in init ==> o in after;
      StaysAsItIs(w, before, init, who, fd);
      HoldsAfter(AfterEvents(w, before + init), e, who, fd);
    }
  }

  lemma Opening(w: World, e: Event)
    requires IsOpening(w, e) && NewSocket(w, e)
    ensures var v, fd := After(w, e), e.op.sys.socket;
      && Holds(v, e.who, fd)
      && (fd in v.files.watched <==> e.op.sys.epollOk && (fd, Read) !in w.files.table)
  {
    OpensTakes(w.links[e.who], e.op);
  }

  /** In every run of any number of interfaces beside the rest of the program: from the call that
      opens its socket until its connection ends, an interface is notified of messages exactly
      when the registration met no other refusal and no handler for reading that number stood in
      the table. As long as the program removes no handlers itself, that means that none stood
      there at the start and nobody, no interface either, has registered that number since. */
  lemma NotifiedIff(w: World, before: seq<Event>, opening: Event, after: seq<Event>)
    requires NewSockets(w, before + [opening] + after) && IsOpening(AfterEvents(w, before), opening)
    requires forall e :: e in after ==> GoesOn(e, opening.who, opening.op.sys.socket)
    ensures var fd, was := opening.op.sys.socket, AfterEvents(w, before);
      var end := AfterEvents(w, before + [opening] + after);
      && Holds(end, opening.who, fd)
      && (fd in end.files.watched <==> opening.op.sys.epollOk && (fd, Read) !in was.files.table)
      && ((forall e :: e in before ==> !RemovesReader(e)) ==>
          ((fd, Read) in was.files.table <==> (fd, Read) in w.files.table || Registered(w, before, fd)))
  {
    hide After;
    hide Holds;
    hide NewSocket;
    hide GoesOn;
    var fd := opening.op.sys.socket;
    NewSocketsPrefix(w, before + [opening], after);
    assert (before + [opening])[..|before|] == before;
    Opening(AfterEvents(w, before), opening);
    StaysAsItIs(w, before + [opening], after, opening.who, fd);
    if forall e :: e in before ==> !RemovesReader(e) {
      HandlersStay(w, before, fd);
    }
  }

  lemma {:induction false} NewSocketsPrefix(w: World, a: seq<Event>, b: seq<Event>)
    requires NewSockets(w, a + b)
    ensures NewSockets(w, a)
    decreases |b|
  {
    if b == [] {
      assert a + b == a;
    } else {
      assert (a + b)[..|a + b| - 1] == a + b[..|b| - 1];
      NewSocketsPrefix(w, a, b[..|b| - 1]);
    }
  }

  /** Connecting with a number that was used before, which is what the kernel hands out when no
      lower one is free, gives a connected interface that is never told of a message: whether
      it is the same interface again (j == 0) or another one that never connected before. */
  lemma ReconnectCounterexample(fd: nat, j: nat)
    requires j < 2
    ensures var ok := Connect(Syscalls(fd, true, true, true));
      var w, events := World([INITIAL, INITIAL], NO_FILES), [Call(0, ok), Call(0, Disconnect), Call(j, ok)];
      && NewSockets(w, events) && Holds(AfterEvents(w, events), j, fd)
      && fd !in AfterEvents(w, events).files.watched
  {
    var ok := Connect(Syscalls(fd, true, true, true));
    var w, e0, e1, e2 := World([INITIAL, INITIAL], NO_FILES), Call(0, ok), Call(0, Disconnect), Call(j, ok);
    var one, two, three := [e0], [e0, e1], [e0, e1, e2];
    assert three[..2] == two && two[..1] == one && one[..0] == [];
    var w1, w2 := After(w, e0), After(After(w, e0), e1);
    assert AfterEvents(w, []) == w && AfterEvents(w, one) == w1 && AfterEvents(w, two) == w2;
    assert w1.links[0].state == ConnectedState && w1.links[0].socket == fd && w1.links[1] == INITIAL;
    assert w1.files == Added(NO_FILES, fd, Read, true);
    assert w2.files == ClosedFd(w1.files, fd) && w2.links[1] == INITIAL;
    assert w2.links[0].state == DisconnectedState && w2.links[0].socket == -1;
    assert NewSockets(w, []) && NewSockets(w, one) && NewSockets(w, two);
    Opening(w2, e2);
  }
}
