/** The SocketCAN interface: connecting, the receive path and the send path. */
module SocketCanBackend {
  import opened Bits
  import opened CanFrame
  import opened SocketCanCodec
  import opened CanConnection
  import opened FileTable
  import opened ReadNotification

  /** One successful recvmsg: the message, the kernel's local-echo mark, and whether the
      time stamp could be read. */
  datatype Received = Received(message: Message, echo: bool, stamped: bool)

  ghost predicate Queue(messages: seq<Received>) {
    forall r :: r in messages ==> OnWire(r.message)
  }

  /** The frames of the accepted messages, in order. */
  function Accepts(messages: seq<Received>): seq<Frame> {
    if messages == [] then []
    else
      var r := messages[|messages| - 1];
      Accepts(messages[..|messages| - 1]) + if Accepted(r.message) then [Decoded(r.message, r.echo)] else []
  }

  /** Some message was dropped, or its time stamp could not be read. */
  predicate Troubled(messages: seq<Received>) {
    exists r :: r in messages && (!Accepted(r.message) || !r.stamped)
  }

  lemma NothingRead(messages: seq<Received>)
    requires messages == []
    ensures Accepts(messages) == [] && !Troubled(messages)
  {
  }

  lemma TroubledSnoc(messages: seq<Received>, r: Received)
    ensures Troubled(messages + [r]) <==> Troubled(messages) || !Accepted(r.message) || !r.stamped
  {
    assert r in messages + [r];
    if Troubled(messages) {
      var q :| q in messages && (!Accepted(q.message) || !q.stamped);
      assert q in messages + [r];
    }
  }

  // One more message of the queue.
  lemma ReadOne(kernel: seq<Received>, i: nat)
    requires i < |kernel|
    ensures var r := kernel[i];
      && Accepts(kernel[..i + 1])
         == Accepts(kernel[..i]) + (if Accepted(r.message) then [Decoded(r.message, r.echo)] else [])
      && (Troubled(kernel[..i + 1]) <==> Troubled(kernel[..i]) || !Accepted(r.message) || !r.stamped)
  {
    hide Decoded;
    TroubledSnoc(kernel[..i], kernel[i]);
    assert kernel[..i + 1] == kernel[..i] + [kernel[i]];
    assert kernel[..i + 1][..i] == kernel[..i];
  }

  // A payload beyond eight bytes comes from an FD frame.
  lemma PayloadFits(m: Message)
    requires OnWire(m) && Accepted(m)
    ensures |m.data[..m.len]| > 8 ==> m.Fd?
  {
  }

  datatype Removal = Delivered(frames: seq<Frame>) | Flushed(frames: seq<Frame>)

  function TakenOut(removals: seq<Removal>): seq<Frame> {
    if removals == [] then [] else TakenOut(removals[..|removals| - 1]) + removals[|removals| - 1].frames
  }

  /** A call of send: the frame, whether the interface is connected, and what write reports. */
  datatype SendCall = SendCall(frame: Frame, connected: bool, writeOk: bool)

  predicate Succeeds(call: SendCall, fdEnabled: bool) {
    call.connected && call.frame.IsValid() && (call.frame.fd ==> fdEnabled) && call.writeOk
  }

  /** What the call writes. */
  function Sent(call: SendCall, fdEnabled: bool): seq<Message> {
    if Succeeds(call, fdEnabled) then [Encoded(call.frame)] else []
  }

  class SocketCanBackend {
    var state: ConnectionState
    var lastError: BusError
    var socket: int
    const fdEnabled: bool
    const files: FileTable
    var rxFrames: seq<Frame>

    // Everything the interface ever signalled, read, gave up and wrote.
    ghost var emitted: seq<ConnectionState>
    ghost var everReceived: seq<Frame>
    ghost var removals: seq<Removal>
    ghost var written: seq<Message>

    ghost function View(): Link
      reads this
    {
      Link(state, socket, lastError, emitted)
    }

    /** Between calls the connection is settled and no received frame is lost, duplicated or
        reordered: all that ever arrived is what was handed out or flushed, then the queue. */
    ghost predicate Valid()
      reads this
    {
      Settled(View()) && everReceived == TakenOut(removals) + rxFrames
    }

    /** files is the table of the application's dispatcher. */
    constructor (fdEnabled: bool, files: FileTable)
      ensures Valid() && View() == INITIAL && rxFrames == [] && this.fdEnabled == fdEnabled && this.files == files
      ensures state == DisconnectedState && lastError == NoError && socket == -1
      ensures everReceived == [] && removals == [] && written == []
    {
      this.fdEnabled := fdEnabled;
      this.files := files;
      state, lastError, socket, rxFrames := DisconnectedState, NoError, -1, [];
      emitted, everReceived, removals, written := [], [], [], [];
    }

    // ---- Connection ----

    method SetState(newState: ConnectionState)
      modifies this`state, this`emitted
      ensures View() == Moved(old(View()), newState)
    {
      if newState == state {
        return;
      }
      state := newState;
      emitted := emitted + [newState];
    }

    method Open(sys: Syscalls) returns (ok: bool)
      requires Possible(sys)
      modifies this`state, this`socket, this`lastError, this`emitted, files
      ensures View() == Opened(old(View()), sys)
      ensures ok == OpenOk(old(View()), sys)
      ensures files.View() == if ok then Added(old(files.View()), socket, Read, sys.epollOk) else old(files.View())
    {
      if socket != -1 {
        return false;
      }
      socket := sys.socket;
      if socket < 0 {
        lastError := ConnectionError;
        return false;
      }
      if !sys.ioctlOk {
        lastError := ConnectionError;
        return false;
      }
      if !sys.bindOk {
        lastError := ConnectionError;
        return false;
      }
      SetState(ConnectedState);
      var added := files.AddFile(socket, Read, sys.epollOk);
      return true;
    }

    /** The result is always false: right only when the descriptor was not open any more. */
    method Close() returns (ok: bool)
      modifies this`state, this`socket, this`emitted, files
      ensures View() == Closed(old(View()))
      ensures files.View() == ClosedFd(old(files.View()), old(socket))
      ensures !ok && (ok == (old(socket) >= 0) <==> old(socket) < 0)
    {
      files.CloseDescriptor(socket);
      socket := -1;
      SetState(DisconnectedState);
      return false;
    }

    method Connect(sys: Syscalls) returns (ok: bool)
      requires Valid() && Possible(sys)
      modifies this`state, this`socket, this`lastError, this`emitted, files
      ensures Valid() && View() == Connected(old(View()), sys)
      ensures ok == ConnectOk(old(View()), sys)
      ensures files.View() == FilesAfter(old(View()), old(files.View()), CanConnection.Connect(sys))
    {
      StepSettled(View(), CanConnection.Connect(sys));
      if state != DisconnectedState {
        lastError := ConnectionError;
        return false;
      }
      SetState(ConnectionPendingState);
      var isOpen := Open(sys);
      if !isOpen {
        SetState(DisconnectedState);
        return false;
      }
      lastError := NoError;
      return true;
    }

    method Disconnect()
      requires Valid()
      modifies this`state, this`socket, this`emitted, files
      ensures Valid() && View() == Disconnected(old(View()))
      ensures files.View() == FilesAfter(old(View()), old(files.View()), CanConnection.Disconnect)
    {
      StepSettled(View(), CanConnection.Disconnect);
      if state == DisconnectedState || state == DisconnectPendingState {
        return;
      }
      SetState(DisconnectPendingState);
      var closed := Close();
    }

    // ---- Receiving ----

    method EnqueueRxFrames(frames: seq<Frame>)
      requires Valid()
      modifies this`rxFrames, this`everReceived
      ensures Valid() && rxFrames == old(rxFrames) + frames && everReceived == old(everReceived) + frames
    {
      rxFrames := rxFrames + frames;
      everReceived := everReceived + frames;
    }

    /** Build the frame for one accepted message, setter by setter. */
    method BuildFrame(m: Message, echo: bool) returns (frame: CanFrame)
      requires OnWire(m) && Accepted(m)
      ensures frame.Value() == Decoded(m, echo) && fresh(frame)
    {
      hide Has;
      hide Masked;
      hide NeedsExtended;
      hide DecodedKind;
      frame := new CanFrame(DataFrame);
      SetHeader(frame, m);
      SetFlags(frame, m.flags, echo);
      ghost var f := frame.Value();
      frame.SetId(Masked(m.canId));
      f := f.(id := Masked(m.canId), extended := f.extended || NeedsExtended(Masked(m.canId)));
      assert frame.Value() == f;
      PayloadFits(m);
      frame.SetPayload(m.data[..m.len]);
    }

    method SetHeader(frame: CanFrame, m: Message)
      requires !m.Incomplete? && !frame.brs && !frame.errorState
      modifies frame
      ensures frame.Value() == old(frame.Value()).(
        fd := m.Fd?, extended := Has(m.canId, EFF_FLAG), kind := DecodedKind(m.canId))
    {
      hide Has;
      hide DecodedKind;
      frame.SetFD(m.Fd?);
      frame.SetExtendedId(Has(m.canId, EFF_FLAG));
      SetKind(frame, m.canId);
    }

    method SetKind(frame: CanFrame, canId: U32)
      modifies frame
      ensures frame.Value() == old(frame.Value()).(kind := DecodedKind(canId))
    {
      if Has(canId, RTR_FLAG) {
        frame.SetFrameType(RemoteRequestFrame);
      } else if Has(canId, ERR_FLAG) {
        frame.SetFrameType(ErrorFrame);
      } else {
        frame.SetFrameType(DataFrame);
      }
    }

    method SetFlags(frame: CanFrame, flags: U8, echo: bool)
      modifies frame
      ensures var f := old(frame.Value()); frame.Value() == f.(
        fd := f.fd || Has(flags, BRS_FLAG), brs := f.brs || Has(flags, BRS_FLAG),
        errorState := f.errorState || Has(flags, ESI_FLAG), echo := f.echo || echo)
    {
      hide Has;
      SetFdFlags(frame, Has(flags, BRS_FLAG), Has(flags, ESI_FLAG));
      if echo {
        frame.SetLocalEcho(true);
      }
    }

    method SetFdFlags(frame: CanFrame, brs: bool, esi: bool)
      modifies frame
      ensures var f := old(frame.Value()); frame.Value() == f.(
        fd := f.fd || brs, brs := f.brs || brs, errorState := f.errorState || esi)
    {
      if brs {
        frame.SetBitrateSwitch(true);
      }
      if esi {
        frame.SetErrorState(true);
      }
    }

    /** Drain the socket; kernel is what recvmsg returns before it reports that nothing is left. */
    method ReadSocket(kernel: seq<Received>)
      requires Valid() && Queue(kernel)
      modifies this`rxFrames, this`everReceived, this`lastError
      ensures Valid()
      ensures rxFrames == old(rxFrames) + Accepts(kernel)
      ensures everReceived == old(everReceived) + Accepts(kernel)
      ensures lastError == if Troubled(kernel) then RxError else old(lastError)
    {
      hide Decoded;
      hide Troubled;
      hide Path;
      var frames := [];
      var next := 0;
      assert Accepts(kernel[..0]) == [] && !Troubled(kernel[..0]) by {
        NothingRead(kernel[..0]);
      }
      hide Accepts;
      while true
        invariant next <= |kernel|
        invariant Valid() && rxFrames == old(rxFrames) && everReceived == old(everReceived)
        invariant frames == Accepts(kernel[..next])
        invariant lastError == if Troubled(kernel[..next]) then RxError else old(lastError)
        decreases |kernel| - next
      {
        if next == |kernel| {
          break;
        }
        var r := kernel[next];
        assert r in kernel;
        ReadOne(kernel, next);
        next := next + 1;
        if r.message.Incomplete? {
          lastError := RxError;
          continue;
        } else if r.message.len > |r.message.data| {
          lastError := RxError;
          continue;
        }
        if !r.stamped {
          lastError := RxError;
        }
        var frame := BuildFrame(r.message, r.echo);
        frames := frames + [frame.Value()];
      }
      assert kernel[..|kernel|] == kernel;
      EnqueueRxFrames(frames);
    }

    /** Returns the oldest frame and leaves it in the queue. */
    method Recv() returns (frame: Frame)
      requires Valid()
      modifies this`lastError
      ensures Valid()
      ensures state != ConnectedState ==> frame == Blank(InvalidFrame) && lastError == OperationError
      ensures state == ConnectedState ==>
        lastError == NoError && frame == if rxFrames == [] then Blank(InvalidFrame) else rxFrames[0]
      ensures state == ConnectedState && rxFrames != [] ==>
        (frame == rxFrames[|rxFrames| - 1] <==> rxFrames[0] == rxFrames[|rxFrames| - 1])
    {
      if state != ConnectedState {
        lastError := OperationError;
        var invalid := new CanFrame(InvalidFrame);
        return invalid.Value();
      }
      lastError := NoError;
      if rxFrames == [] {
        var invalid := new CanFrame(InvalidFrame);
        return invalid.Value();
      }
      return rxFrames[0];
    }

    method RecvAll() returns (frames: seq<Frame>)
      requires Valid()
      modifies this`lastError, this`rxFrames, this`removals
      ensures Valid()
      ensures state != ConnectedState ==>
        frames == [] && lastError == OperationError && rxFrames == old(rxFrames) && removals == old(removals)
      ensures state == ConnectedState ==>
        frames == old(rxFrames) && lastError == NoError && rxFrames == []
        && removals == old(removals) + [Delivered(frames)]
    {
      if state != ConnectedState {
        lastError := OperationError;
        return [];
      }
      lastError := NoError;
      frames := [];
      frames, rxFrames := rxFrames, frames;
      removals := removals + [Delivered(frames)];
    }

    method FlushRx()
      requires Valid()
      modifies this`rxFrames, this`removals
      ensures Valid() && rxFrames == [] && removals == old(removals) + [Flushed(old(rxFrames))]
    {
      removals := removals + [Flushed(rxFrames)];
      rxFrames := [];
    }

    // ---- Sending ----

    /** writeOk is what the write call reports. */
    method Send(frame: CanFrame, writeOk: bool) returns (ok: bool)
      requires Valid()
      modifies this`lastError, this`written
      ensures Valid()
      ensures var call := SendCall(frame.Value(), state == ConnectedState, writeOk);
        && ok == Succeeds(call, fdEnabled)
        && (ok <==> state == ConnectedState && frame.Value().IsValid() && (frame.fd ==> fdEnabled) && writeOk)
        && lastError == (if state == ConnectedState && !ok then TxError else old(lastError))
        && written == old(written) + Sent(call, fdEnabled)
    {
      hide Path;
      if state != ConnectedState {
        return false;
      }
      if !frame.Value().IsValid() {
        lastError := TxError;
        return false;
      }
      var id: U32 := frame.Value().Identifier();
      if frame.extended {
        id := id + EFF_FLAG;
      }
      if frame.kind == RemoteRequestFrame {
        id := id + RTR_FLAG;
      } else if frame.kind == ErrorFrame {
        id := frame.Value().Error();
        id := id + ERR_FLAG;
      }
      if frame.fd && !fdEnabled {
        lastError := TxError;
        return false;
      }
      var tx: Message;
      if frame.fd {
        var flags: U8 := if frame.brs then BRS_FLAG else 0;
        flags := flags + if frame.errorState then ESI_FLAG else 0;
        tx := Fd(id, |frame.payload|, flags, Padded(frame.payload, 64));
      } else {
        tx := Classic(id, |frame.payload|, 0, Padded(frame.payload, 8));
      }
      if !writeOk {
        lastError := TxError;
        return false;
      }
      written := written + [tx];
      return true;
    }
  }

  // ---- From one host to another ----

  /** What another host's socket holds after a sequence of such calls. */
  function OnTheBus(calls: seq<SendCall>, fdEnabled: bool): seq<Received> {
    if calls == [] then []
    else
      var written := Sent(calls[|calls| - 1], fdEnabled);
      OnTheBus(calls[..|calls| - 1], fdEnabled) + if written == [] then [] else [Received(written[0], false, true)]
  }

  /** The frames of the calls that succeed, as they look after encoding and decoding. */
  ghost function Transferred(calls: seq<SendCall>, fdEnabled: bool): seq<Frame> {
    if calls == [] then []
    else
      var last := calls[|calls| - 1];
      Transferred(calls[..|calls| - 1], fdEnabled)
      + if Succeeds(last, fdEnabled) then [Decoded(Encoded(last.frame), false)] else []
  }

  ghost function FramesOf(calls: seq<SendCall>): seq<Frame> {
    if calls == [] then [] else FramesOf(calls[..|calls| - 1]) + [calls[|calls| - 1].frame]
  }

  // Every message that was sent is accepted, so successful calls and frames correspond.
  lemma {:induction false} SentIsAccepted(calls: seq<SendCall>, fdEnabled: bool)
    ensures Queue(OnTheBus(calls, fdEnabled)) && !Troubled(OnTheBus(calls, fdEnabled))
    ensures Accepts(OnTheBus(calls, fdEnabled)) == Transferred(calls, fdEnabled)
  {
    hide Decoded;
    hide Encoded;
    hide Troubled;
    if calls == [] {
      NothingRead([]);
    } else {
      var init, last := calls[..|calls| - 1], calls[|calls| - 1];
      SentIsAccepted(init, fdEnabled);
      if Succeeds(last, fdEnabled) {
        var before, r := OnTheBus(init, fdEnabled), Received(Encoded(last.frame), false, true);
        TroubledSnoc(before, r);
        assert (before + [r])[..|before|] == before;
        assert OnTheBus(calls, fdEnabled) == before + [r];
      } else {
        assert OnTheBus(calls, fdEnabled) == OnTheBus(init, fdEnabled);
        assert Transferred(calls, fdEnabled) == Transferred(init, fdEnabled);
      }
    }
  }

  lemma {:induction false} TransferredUnchanged(calls: seq<SendCall>, fdEnabled: bool)
    requires forall call :: call in calls ==> Reachable(call.frame)
    ensures |Transferred(calls, fdEnabled)| <= |FramesOf(calls)| == |calls|
    ensures Transferred(calls, fdEnabled) == FramesOf(calls) <==>
            forall call :: call in calls ==> Succeeds(call, fdEnabled) && Carriable(call.frame)
  {
    hide Encoded;
    hide Decoded;
    hide Carriable;
    hide Reachable;
    if calls != [] {
      var init, last := calls[..|calls| - 1], calls[|calls| - 1];
      assert calls == init + [last];
      TransferredUnchanged(init, fdEnabled);
      var s, t := Transferred(init, fdEnabled), FramesOf(init);
      if Succeeds(last, fdEnabled) {
        FrameRoundTrip(last.frame);
        var g := Decoded(Encoded(last.frame), false);
        assert |s| == |t| ==> (s + [g])[..|s|] == s && (t + [last.frame])[..|s|] == t;
        assert s + [g] == t + [last.frame] <==> s == t && g == last.frame;
      }
    }
  }

  /** Whatever frames are handed to send on one interface, connected or not, another interface
      receives exactly those of the calls that succeed, in order, each as its encoding decodes;
      it receives all of them unchanged exactly when every call succeeds, which for an FD frame
      needs FD enabled, and the format can carry each frame. */
  lemma BusTransfer(calls: seq<SendCall>, fdEnabled: bool)
    requires forall call :: call in calls ==> Reachable(call.frame)
    ensures var queue := OnTheBus(calls, fdEnabled);
      && Queue(queue) && !Troubled(queue) && Accepts(queue) == Transferred(calls, fdEnabled)
      && (Accepts(queue) == FramesOf(calls) <==>
          forall call :: call in calls ==> Succeeds(call, fdEnabled) && Carriable(call.frame))
  {
    hide *;
    SentIsAccepted(calls, fdEnabled);
    TransferredUnchanged(calls, fdEnabled);
  }

  ghost function ClassicOnly(queue: seq<Received>): seq<Received> {
    if queue == [] then []
    else
      var r := queue[|queue| - 1];
      ClassicOnly(queue[..|queue| - 1]) + if r.message.Classic? then [r] else []
  }

  /** Without FD enabled, the same calls put exactly the classic messages on the bus that they
      put there with it. */
  lemma {:induction false} FdGuard(calls: seq<SendCall>)
    ensures OnTheBus(calls, false) == ClassicOnly(OnTheBus(calls, true))
  {
    if calls != [] {
      var init, last := calls[..|calls| - 1], calls[|calls| - 1];
      FdGuard(init);
      var q, sent := OnTheBus(init, true), Sent(last, true);
      if sent != [] {
        var r := Received(sent[0], false, true);
        assert (q + [r])[..|q|] == q;
      } else {
        assert OnTheBus(calls, true) == q;
      }
      assert OnTheBus(calls, false) == OnTheBus(init, false) +
        if Sent(last, false) == [] then [] else [Received(Sent(last, false)[0], false, true)];
    }
  }

  /** A call writes exactly one message when the interface is connected, the frame valid, FD
      enabled if needed and the write succeeds, and otherwise none. */
  lemma OneCall(call: SendCall, fdEnabled: bool)
    ensures |Sent(call, fdEnabled)| == 1 <==>
            call.connected && call.frame.IsValid() && (call.frame.fd ==> fdEnabled) && call.writeOk
    ensures |Sent(call, fdEnabled)| <= 1
  {
  }
}
