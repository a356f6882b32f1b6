/** CAN frames: an object changed by setters, and the value it holds. */
module CanFrame {
  import opened Bits

  type U32 = n: nat | n < 0x1_0000_0000
  type U64 = n: nat | n < 0x1_0000_0000_0000_0000

  const EFF_MASK: U32 := 0x1FFF_FFFF
  const SFF_MASK: U32 := 0x7FF

  type Id = n: nat | n <= EFF_MASK

  /** n & EFF_MASK */
  function Masked(n: nat): Id {
    n % 0x2000_0000
  }

  /** id & EFF_UPPER_MASK != 0: the identifier does not fit in eleven bits. */
  predicate NeedsExtended(id: Id) {
    id > SFF_MASK
  }

  datatype FrameType = UnknownFrame | DataFrame | ErrorFrame | RemoteRequestFrame | InvalidFrame

  datatype Frame = Frame(
    kind: FrameType, id: Id, extended: bool, errorState: bool, fd: bool, brs: bool, echo: bool,
    validId: bool, payload: seq<U8>)
  {
    predicate IsValid() {
      && kind != InvalidFrame
      && (!extended ==> !NeedsExtended(id))
      && validId
      && if fd then kind != RemoteRequestFrame && FdLength(|payload|) else |payload| <= 8
    }

    function Identifier(): Id {
      if kind == ErrorFrame then 0 else id
    }

    function Error(): Id {
      if kind == ErrorFrame then id else 0
    }
  }

  /** The payload sizes of flexible data rate frames. */
  predicate FdLength(n: nat) {
    n <= 8 || n == 12 || n == 16 || n == 20 || n == 24 || n == 32 || n == 48 || n == 64
  }

  /** A frame from the constructor that takes a type, and from the one that takes contents. */
  function Blank(kind: FrameType): Frame {
    Frame(kind, 0, false, false, false, false, false, true, [])
  }

  function Filled(id: U64, data: seq<U8>): Frame {
    Frame(DataFrame, 0, false, false, |data| > 8, false, false, false, data).(
      id := if id <= EFF_MASK then id else 0,
      extended := id <= EFF_MASK && NeedsExtended(id),
      validId := id <= EFF_MASK)
  }

  datatype Call =
    | SetFrameType(kind: FrameType)
    | SetExtendedId(on: bool)
    | SetId(id: U64)
    | SetPayload(data: seq<U8>)
    | SetError(error: U32)
    | SetFD(on: bool)
    | SetBitrateSwitch(on: bool)
    | SetErrorState(on: bool)
    | SetLocalEcho(on: bool)

  /** What each setter does to the frame. */
  function After(f: Frame, call: Call): Frame {
    match call
    case SetFrameType(kind) => f.(kind := kind)
    case SetExtendedId(on) => f.(extended := on)
    case SetId(id) =>
      if id <= EFF_MASK then f.(validId := true, id := id, extended := f.extended || NeedsExtended(id))
      else f.(validId := false, id := 0)
    case SetPayload(data) => f.(payload := data, fd := f.fd || |data| > 8)
    case SetError(error) => if f.kind == ErrorFrame then f.(id := Masked(error)) else f
    case SetFD(on) => if on then f.(fd := true) else f.(fd := false, brs := false, errorState := false)
    case SetBitrateSwitch(on) => f.(brs := on, fd := f.fd || on)
    case SetErrorState(on) => f.(errorState := on)
    case SetLocalEcho(on) => f.(echo := on)
  }

  function AfterAll(f: Frame, calls: seq<Call>): Frame {
    if calls == [] then f else After(AfterAll(f, calls[..|calls| - 1]), calls[|calls| - 1])
  }

  /** Frames that constructors and setters can produce. */
  ghost predicate Reachable(f: Frame) {
    exists start: Frame, calls: seq<Call> :: Constructed(start) && f == AfterAll(start, calls)
  }

  ghost predicate Constructed(f: Frame) {
    (exists kind :: f == Blank(kind)) || (exists id: U64, data :: f == Filled(id, data))
  }

  class CanFrame {
    var kind: FrameType
    var id: Id
    var extended: bool
    var errorState: bool
    var fd: bool
    var brs: bool
    var echo: bool
    var validId: bool
    var payload: seq<U8>

    function Value(): Frame
      reads this
    {
      Frame(kind, id, extended, errorState, fd, brs, echo, validId, payload)
    }

    constructor (kind: FrameType)
      ensures Value() == Blank(kind)
      ensures Value() == Frame(kind, 0, false, false, false, false, false, true, [])
    {
      extended, errorState, fd, brs, echo := false, false, false, false, false;
      payload := [];
      id, validId := 0, true;
      new;
      SetId(0);
      SetFrameType(kind);
    }

    constructor WithData(newId: U64, data: seq<U8>)
      ensures Value() == Filled(newId, data)
      ensures Value() == Frame(DataFrame, if newId <= 0x1FFF_FFFF then newId else 0, 0x7FF < newId <= 0x1FFF_FFFF,
                               false, |data| > 8, false, false, newId <= 0x1FFF_FFFF, data)
    {
      kind := DataFrame;
      extended, errorState, brs, echo := false, false, false, false;
      fd := |data| > 8;
      payload := data;
      id, validId := 0, false;
      new;
      SetId(newId);
    }

    method SetFrameType(newType: FrameType)
      modifies this
      ensures Value() == After(old(Value()), Call.SetFrameType(newType))
      ensures Value() == old(Value()).(kind := newType)
    {
      kind := newType;
    }

    method SetExtendedId(isExtended: bool)
      modifies this
      ensures Value() == After(old(Value()), Call.SetExtendedId(isExtended))
      ensures Value() == old(Value()).(extended := isExtended)
    {
      extended := isExtended;
    }

    method SetId(newId: U64)
      modifies this
      ensures Value() == After(old(Value()), Call.SetId(newId))
      ensures Value() == old(Value()).(
        id := if newId <= 0x1FFF_FFFF then newId else 0, validId := newId <= 0x1FFF_FFFF,
        extended := old(extended) || 0x7FF < newId <= 0x1FFF_FFFF)
    {
      if newId <= EFF_MASK {
        validId := true;
        id := newId;
        SetExtendedId(extended || NeedsExtended(newId));
      } else {
        validId := false;
        id := 0;
      }
    }

    method SetPayload(data: seq<U8>)
      modifies this
      ensures Value() == After(old(Value()), Call.SetPayload(data))
      ensures Value() == old(Value()).(payload := data, fd := old(fd) || |data| > 8)
    {
      payload := data;
      if |data| > 8 {
        fd := true;
      }
    }

    method SetError(err: U32)
      modifies this
      ensures Value() == After(old(Value()), Call.SetError(err))
      ensures Value() == old(Value()).(id := if old(kind) == ErrorFrame then err % 0x2000_0000 else old(id))
    {
      if kind != ErrorFrame {
        return;
      }
      id := Masked(err);
    }

    method SetFD(isFD: bool)
      modifies this
      ensures Value() == After(old(Value()), Call.SetFD(isFD))
      ensures Value() == old(Value()).(fd := isFD, brs := old(brs) && isFD, errorState := old(errorState) && isFD)
    {
      fd := isFD;
      if !isFD {
        brs := false;
        errorState := false;
      }
    }

    method SetBitrateSwitch(newBrs: bool)
      modifies this
      ensures Value() == After(old(Value()), Call.SetBitrateSwitch(newBrs))
      ensures Value() == old(Value()).(brs := newBrs, fd := old(fd) || newBrs)
    {
      brs := newBrs;
      if newBrs {
        fd := true;
      }
    }

    method SetErrorState(es: bool)
      modifies this
      ensures Value() == After(old(Value()), Call.SetErrorState(es))
      ensures Value() == old(Value()).(errorState := es)
    {
      errorState := es;
    }

    method SetLocalEcho(newEcho: bool)
      modifies this
      ensures Value() == After(old(Value()), Call.SetLocalEcho(newEcho))
      ensures Value() == old(Value()).(echo := newEcho)
    {
      echo := newEcho;
    }
  }

  lemma SetterKeepsFD(f: Frame, call: Call)
    requires f.brs ==> f.fd
    ensures After(f, call).brs ==> After(f, call).fd
  {
  }

  lemma {:induction false} BitrateSwitchNeedsFD(f: Frame, calls: seq<Call>)
    requires f.brs ==> f.fd
    ensures AfterAll(f, calls).brs ==> AfterAll(f, calls).fd
  {
    hide After;
    if calls != [] {
      BitrateSwitchNeedsFD(f, calls[..|calls| - 1]);
      SetterKeepsFD(AfterAll(f, calls[..|calls| - 1]), calls[|calls| - 1]);
    }
  }

  // One more setter call.
  lemma Then(f: Frame, calls: seq<Call>, done: Frame, call: Call) returns (more: seq<Call>)
    requires AfterAll(f, calls) == done
    ensures AfterAll(f, more) == After(done, call)
  {
    more := calls + [call];
    assert more[..|calls|] == calls;
  }

  // The calls that give a blank frame the identifier and type of f, ...
  lemma BuildHeader(f: Frame) returns (calls: seq<Call>)
    ensures AfterAll(Blank(ErrorFrame), calls)
         == Blank(ErrorFrame).(validId := f.validId, id := f.id, kind := f.kind, extended := f.extended)
  {
    var g := Blank(ErrorFrame);
    assert AfterAll(g, []) == g;
    hide AfterAll;
    hide NeedsExtended;
    var id: U64 := if f.validId then 0 else EFF_MASK + 1;
    calls := Then(g, [], g, SetId(id));
    var g1 := After(g, SetId(id));
    calls := Then(g, calls, g1, SetError(f.id));
    calls := Then(g, calls, g1.(id := f.id), SetFrameType(f.kind));
    calls := Then(g, calls, g1.(id := f.id, kind := f.kind), SetExtendedId(f.extended));
  }

  // ... then the contents, ...
  lemma BuildContents(start: Frame, before: seq<Call>, g: Frame, f: Frame) returns (calls: seq<Call>)
    requires AfterAll(start, before) == g && !g.brs && !g.errorState && (f.brs ==> f.fd)
    ensures AfterAll(start, calls) == g.(payload := f.payload, fd := f.fd, brs := f.brs)
  {
    hide AfterAll;
    calls := Then(start, before, g, SetPayload(f.payload));
    calls := Then(start, calls, After(g, SetPayload(f.payload)), SetFD(f.fd));
    calls := Then(start, calls, g.(payload := f.payload, fd := f.fd), SetBitrateSwitch(f.brs));
  }

  // ... and the remaining flags.
  lemma BuildFrame(f: Frame) returns (calls: seq<Call>)
    requires f.brs ==> f.fd
    ensures AfterAll(Blank(ErrorFrame), calls) == f
  {
    hide AfterAll;
    calls := BuildHeader(f);
    var g := Blank(ErrorFrame).(validId := f.validId, id := f.id, kind := f.kind, extended := f.extended);
    calls := BuildContents(Blank(ErrorFrame), calls, g, f);
    g := g.(payload := f.payload, fd := f.fd, brs := f.brs);
    calls := Then(Blank(ErrorFrame), calls, g, SetErrorState(f.errorState));
    calls := Then(Blank(ErrorFrame), calls, g.(errorState := f.errorState), SetLocalEcho(f.echo));
  }

  /** The only thing the setters keep is that a bit rate switch implies an FD frame: every
      other combination of fields can be produced. */
  lemma ReachableFrames(f: Frame)
    ensures Reachable(f) <==> (f.brs ==> f.fd)
  {
    if Reachable(f) {
      var start: Frame, calls: seq<Call> :| Constructed(start) && f == AfterAll(start, calls);
      BitrateSwitchNeedsFD(start, calls);
    }
    if f.brs ==> f.fd {
      var calls := BuildFrame(f);
      assert Constructed(Blank(ErrorFrame));
    }
  }

  /** The documented rules other than the size of the contents. */
  predicate KeepsOtherRules(f: Frame) {
    && f.kind != InvalidFrame
    && (f.id > 0x7FF ==> f.extended)
    && f.validId
    && !(f.fd && f.kind == RemoteRequestFrame)
  }

  /** All rules of the documentation, as listed there. */
  predicate DocumentedValid(f: Frame) {
    KeepsOtherRules(f) && if f.fd then |f.payload| in {8, 12, 16, 20, 24, 32, 48, 64} else |f.payload| <= 8
  }

  /** The code accepts exactly those frames, and FD frames of less than eight bytes that keep the
      other rules. */
  lemma DocumentedSizes(f: Frame)
    ensures f.IsValid() <==> DocumentedValid(f) || (KeepsOtherRules(f) && f.fd && |f.payload| < 8)
    ensures DocumentedValid(f) <==> f.IsValid() && (f.fd ==> |f.payload| >= 8)
  {
  }

  /** An FD frame without contents: valid, and not by the documentation. */
  lemma ShortFdFrame()
    ensures var f := Blank(DataFrame).(fd := true);
      Reachable(f) && f.IsValid() && !DocumentedValid(f)
  {
    ReachableFrames(Blank(DataFrame).(fd := true));
  }

  // ---- What the setters do to a valid frame ----

  /** A payload leaves a valid frame valid exactly when a frame can have its size: at most eight
      bytes, or, unless the frame is a remote request, one of the larger FD sizes; a frame
      becomes an FD frame when it needs to. */
  lemma PayloadSet(f: Frame, data: seq<U8>)
    requires f.IsValid()
    ensures var g := After(f, SetPayload(data));
      && g.payload == data && (g.fd <==> f.fd || |data| > 8)
      && (g.IsValid() <==>
          |data| <= 8 || (f.kind != RemoteRequestFrame && |data| in {12, 16, 20, 24, 32, 48, 64}))
  {
  }

  /** An identifier leaves a valid frame valid exactly when it has at most 29 bits; outside error
      frames it is then read back. The extended flag is turned on, never off. */
  lemma IdSet(f: Frame, id: U64)
    requires f.IsValid()
    ensures var g := After(f, SetId(id));
      && (g.IsValid() <==> id < 0x2000_0000)
      && (id < 0x2000_0000 && f.kind != ErrorFrame ==> g.Identifier() == id && g.Error() == 0)
      && (g.extended <==> f.extended || 0x7FF < id < 0x2000_0000)
  {
  }

  /** Error bits are read back from error frames, 29 of them, and from no others; there they
      leave the identifier alone. */
  lemma ErrorSet(f: Frame, error: U32)
    ensures var g := After(f, SetError(error));
      && (f.kind == ErrorFrame ==> g.Error() == error % 0x2000_0000 && g.Identifier() == 0)
      && (f.kind != ErrorFrame ==> g == f && g.Error() == 0 && g.Identifier() == f.id)
  {
  }

  /** Leaving FD keeps a valid frame valid exactly when its contents fit a classic frame, and
      nothing of FD remains; entering it, exactly when it is no remote request. */
  lemma FdSet(f: Frame)
    requires f.IsValid()
    ensures var g := After(f, SetFD(false));
      !g.fd && !g.brs && !g.errorState && g.payload == f.payload && (g.IsValid() <==> |f.payload| <= 8)
    ensures var g := After(f, SetFD(true));
      && g.fd && g.brs == f.brs && g.errorState == f.errorState && g.payload == f.payload
      && (g.IsValid() <==> f.kind != RemoteRequestFrame)
  {
  }

  /** A bit rate switch can be asked for in any valid frame but a remote request, which makes an
      FD frame; taking it back leaves an FD frame. */
  lemma BitrateSwitchSet(f: Frame)
    requires f.IsValid()
    ensures var g := After(f, SetBitrateSwitch(true));
      g.brs && g.fd && (g.IsValid() <==> f.kind != RemoteRequestFrame)
    ensures var g := After(f, SetBitrateSwitch(false));
      !g.brs && g.fd == f.fd && g.IsValid()
  {
  }
}
