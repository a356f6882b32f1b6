/** Frames on the wire: what send writes to a CAN_RAW socket and what readSocket makes of it. */
module SocketCanCodec {
  import opened Bits
  import opened CanFrame

  // Flag bits of the 32-bit identifier word, and of the flags byte of an FD frame.
  const EFF_FLAG: U32 := 0x8000_0000
  const RTR_FLAG: U32 := 0x4000_0000
  const ERR_FLAG: U32 := 0x2000_0000
  const BRS_FLAG: U8 := 0x01
  const ESI_FLAG: U8 := 0x02

  /** word & flag, for a flag of one bit. */
  predicate Has(word: nat, flag: nat)
    requires flag > 0
  {
    word / flag % 2 == 1
  }

  /** A message as recvmsg leaves it in the receive buffer: its size tells a classic frame
      (16 bytes, 8 of data) from an FD frame (72 bytes, 64 of data). In a classic frame the
      flags byte is padding. */
  datatype Message =
    | Classic(canId: U32, len: U8, flags: U8, data: seq<U8>)
    | Fd(canId: U32, len: U8, flags: U8, data: seq<U8>)
    | Incomplete

  ghost predicate OnWire(m: Message) {
    (m.Classic? ==> |m.data| == 8) && (m.Fd? ==> |m.data| == 64)
  }

  /** readSocket drops incomplete messages and lengths beyond the data. */
  predicate Accepted(m: Message) {
    !m.Incomplete? && m.len <= |m.data|
  }

  function Padded(payload: seq<U8>, size: nat): (data: seq<U8>)
    requires |payload| <= size
    ensures |data| == size
  {
    payload + seq<U8>(size - |payload|, _ => 0)
  }

  function EncodedId(f: Frame): U32 {
    if f.kind == ErrorFrame then f.Error() + ERR_FLAG
    else f.Identifier() + (if f.extended then EFF_FLAG else 0) + (if f.kind == RemoteRequestFrame then RTR_FLAG else 0)
  }

  /** What send writes for a valid frame. */
  function Encoded(f: Frame): (m: Message)
    requires f.IsValid()
    ensures OnWire(m) && Accepted(m)
  {
    if f.fd then
      Fd(EncodedId(f), |f.payload|, (if f.brs then BRS_FLAG else 0) + (if f.errorState then ESI_FLAG else 0),
         Padded(f.payload, 64))
    else
      Classic(EncodedId(f), |f.payload|, 0, Padded(f.payload, 8))
  }

  function DecodedKind(canId: U32): FrameType {
    if Has(canId, RTR_FLAG) then RemoteRequestFrame else if Has(canId, ERR_FLAG) then ErrorFrame else DataFrame
  }

  /** The frame readSocket builds; echo is the kernel's mark on frames sent from this host. */
  function Decoded(m: Message, echo: bool): Frame
    requires Accepted(m)
  {
    var fd := m.Fd? || Has(m.flags, BRS_FLAG);
    Frame(DecodedKind(m.canId), Masked(m.canId), Has(m.canId, EFF_FLAG) || NeedsExtended(Masked(m.canId)),
          Has(m.flags, ESI_FLAG), fd, Has(m.flags, BRS_FLAG), echo, true, m.data[..m.len])
  }

  // ---- The layout, in the numbers of the kernel's interface ----

  /** readSocket takes lengths up to the room in the message, and no others. */
  lemma AcceptedLengths(m: Message)
    requires OnWire(m)
    ensures Accepted(m) <==> (m.Classic? && m.len <= 8) || (m.Fd? && m.len <= 64)
  {
  }

  /** What a valid frame looks like on the wire: identifier or error bits in the low 29 bits,
      then the bits for error, remote request and extended frames; the flags of FD frames; the
      payload in front, padded with zeros. */
  lemma EncodedLayout(f: Frame)
    requires f.IsValid()
    ensures var m := Encoded(f);
      && m.canId % 0x2000_0000 == f.id
      && (m.canId / 0x2000_0000 % 2 == 1 <==> f.kind == ErrorFrame)
      && (m.canId / 0x4000_0000 % 2 == 1 <==> f.kind == RemoteRequestFrame)
      && (m.canId / 0x8000_0000 == 1 <==> f.extended && f.kind != ErrorFrame)
      && (if f.fd then m.Fd? && |m.data| == 64 else m.Classic? && |m.data| == 8)
      && m.len == |f.payload| && m.data[..m.len] == f.payload
      && (forall i :: m.len as int <= i < |m.data| ==> m.data[i] == 0)
      && m.flags == if f.fd then (if f.brs then 1 else 0) + (if f.errorState then 2 else 0) else 0
  {
    EncodedIdParts(f);
    assert Encoded(f).data[..|f.payload|] == f.payload;
  }

  /** What readSocket makes of an accepted message, in the same numbers. */
  lemma DecodedLayout(m: Message, echo: bool)
    requires OnWire(m) && Accepted(m)
    ensures var f := Decoded(m, echo);
      && f.id == m.canId % 0x2000_0000
      && (f.kind == RemoteRequestFrame <==> m.canId / 0x4000_0000 % 2 == 1)
      && (f.kind == ErrorFrame <==> m.canId / 0x4000_0000 % 2 == 0 && m.canId / 0x2000_0000 % 2 == 1)
      && (f.kind == DataFrame <==> m.canId / 0x4000_0000 % 2 == 0 && m.canId / 0x2000_0000 % 2 == 0)
      && (f.extended <==> m.canId / 0x8000_0000 == 1 || m.canId % 0x2000_0000 > 0x7FF)
      && (f.fd <==> m.Fd? || m.flags % 2 == 1)
      && (f.brs <==> m.flags % 2 == 1) && (f.errorState <==> m.flags / 2 % 2 == 1)
      && f.validId && f.echo == echo && f.payload == m.data[..m.len]
  {
  }

  // ---- Frame to wire to frame ----

  lemma EncodedIdParts(f: Frame)
    ensures Masked(EncodedId(f)) == f.id
    ensures Has(EncodedId(f), EFF_FLAG) == (f.extended && f.kind != ErrorFrame)
    ensures Has(EncodedId(f), RTR_FLAG) == (f.kind == RemoteRequestFrame)
    ensures Has(EncodedId(f), ERR_FLAG) == (f.kind == ErrorFrame)
  {
  }

  /** Everything survives that the wire format has room for. */
  lemma SurvivesTheWire(f: Frame)
    requires Reachable(f) && f.IsValid()
    ensures var g := Decoded(Encoded(f), false);
      && g.kind == (if f.kind == UnknownFrame then DataFrame else f.kind)
      && g.Identifier() == f.Identifier() && g.Error() == f.Error() && g.id == f.id
      && g.payload == f.payload && g.fd == f.fd && g.brs == f.brs
      && g.errorState == (f.errorState && f.fd)
      && g.extended == (if f.kind == ErrorFrame then NeedsExtended(f.id) else f.extended)
      && g.validId && !g.echo && g.IsValid()
  {
    ReachableFrames(f);
    EncodedIdParts(f);
    var m := Encoded(f);
    assert m.data[..m.len] == f.payload;
  }

  /** The frame uses nothing the wire format cannot express. */
  predicate Carriable(f: Frame) {
    && f.kind != UnknownFrame
    && !f.echo
    && (f.errorState ==> f.fd)
    && (f.kind == ErrorFrame && f.extended ==> NeedsExtended(f.id))
  }

  /** The frame comes back unchanged exactly when the format can carry it. */
  lemma FrameRoundTrip(f: Frame)
    requires Reachable(f) && f.IsValid()
    ensures Decoded(Encoded(f), false) == f <==> Carriable(f)
  {
    SurvivesTheWire(f);
  }

  // ---- Wire to frame to wire ----

  predicate HasAllowedSize(m: Message) {
    !m.Incomplete? && ((m.Classic? && !Has(m.flags, BRS_FLAG)) || (!Has(m.canId, RTR_FLAG) && FdLength(m.len)))
  }

  /** A message is decoded to a valid frame exactly when it ends up classic, or is no remote
      request and has one of the allowed sizes. */
  lemma DecodedValid(m: Message, echo: bool)
    requires OnWire(m) && Accepted(m)
    ensures Decoded(m, echo).IsValid() <==> HasAllowedSize(m)
    ensures HasAllowedSize(m) <==>
            || (m.Classic? && m.flags % 2 == 0)
            || (m.canId / 0x4000_0000 % 2 == 0 && (m.len <= 8 || m.len in {12, 16, 20, 24, 32, 48, 64}))
  {
  }

  /** The padding byte of a classic message makes no difference exactly when it has neither flag
      bit of an FD frame set; with a bit rate switch it even makes an FD frame. */
  lemma PaddingIgnored(m: Message, echo: bool)
    requires OnWire(m) && Accepted(m) && m.Classic?
    ensures Decoded(m, echo) == Decoded(Classic(m.canId, m.len, 0, m.data), echo) <==>
            !Has(m.flags, BRS_FLAG) && !Has(m.flags, ESI_FLAG)
    ensures Decoded(m, echo).fd <==> Has(m.flags, BRS_FLAG)
  {
  }

  /** A classic message with a one in its padding byte becomes an FD frame. */
  lemma PaddingCounterexample()
    ensures var m := Classic(0, 0, 1, Padded([], 8));
      OnWire(m) && Accepted(m) && Decoded(m, false).fd && Decoded(m, false).brs
  {
  }

  /** Nothing in the message but what send itself would write there. */
  ghost predicate Canonical(m: Message)
    requires OnWire(m) && Accepted(m)
  {
    && !(Has(m.canId, RTR_FLAG) && Has(m.canId, ERR_FLAG))
    && !(Has(m.canId, EFF_FLAG) && Has(m.canId, ERR_FLAG))
    && (NeedsExtended(Masked(m.canId)) ==> Has(m.canId, EFF_FLAG) || Has(m.canId, ERR_FLAG))
    && m.flags <= (if m.Fd? then BRS_FLAG + ESI_FLAG else 0)
    && forall i :: m.len as int <= i < |m.data| ==> m.data[i] == 0
  }

  lemma ReencodedId(f: Frame, canId: U32)
    requires f.kind == DecodedKind(canId) && f.id == Masked(canId)
    requires f.extended == (Has(canId, EFF_FLAG) || NeedsExtended(f.id))
    ensures EncodedId(f) == canId <==>
      && !(Has(canId, RTR_FLAG) && Has(canId, ERR_FLAG))
      && !(Has(canId, EFF_FLAG) && Has(canId, ERR_FLAG))
      && (NeedsExtended(Masked(canId)) ==> Has(canId, EFF_FLAG) || Has(canId, ERR_FLAG))
  {
    var e, r, x := canId / EFF_FLAG, canId / RTR_FLAG % 2, canId / ERR_FLAG % 2;
    assert canId == e * EFF_FLAG + r * RTR_FLAG + x * ERR_FLAG + f.id;
  }

  lemma ReencodedData(data: seq<U8>, len: U8)
    requires len <= |data|
    ensures Padded(data[..len], |data|) == data <==> forall i :: len as int <= i < |data| ==> data[i] == 0
  {
    var padded := Padded(data[..len], |data|);
    assert forall i :: 0 <= i < len ==> padded[i] == data[i];
    assert forall i :: len as int <= i < |data| ==> padded[i] == 0;
  }

  /** Sending a received message on reproduces it bit for bit exactly when it is canonical. */
  lemma WireRoundTrip(m: Message, echo: bool)
    requires OnWire(m) && Accepted(m) && Decoded(m, echo).IsValid()
    ensures Encoded(Decoded(m, echo)) == m <==> Canonical(m)
  {
    var f := Decoded(m, echo);
    ReencodedId(f, m.canId);
    ReencodedData(m.data, m.len);
    assert m.flags <= BRS_FLAG + ESI_FLAG ==>
      m.flags == (if Has(m.flags, BRS_FLAG) then BRS_FLAG else 0) + (if Has(m.flags, ESI_FLAG) then ESI_FLAG else 0);
  }

  lemma EncodedCanonical(f: Frame)
    requires Reachable(f) && f.IsValid()
    ensures Canonical(Encoded(f)) && HasAllowedSize(Encoded(f))
  {
    EncodedIdParts(f);
    SurvivesTheWire(f);
    DecodedValid(Encoded(f), false);
  }

  /** The messages that send writes are exactly the canonical ones of an allowed size. */
  lemma EncodedImage(m: Message)
    requires OnWire(m) && Accepted(m)
    ensures (exists f :: Reachable(f) && f.IsValid() && Encoded(f) == m) <==> Canonical(m) && HasAllowedSize(m)
  {
    hide Encoded;
    hide Canonical;
    hide HasAllowedSize;
    if f :| Reachable(f) && f.IsValid() && Encoded(f) == m {
      EncodedCanonical(f);
    }
    if Canonical(m) && HasAllowedSize(m) {
      DecodedValid(m, false);
      WireRoundTrip(m, false);
      ReachableFrames(Decoded(m, false));
    }
  }
}
