/** The streaming Intel HEX parser: one character at a time, one callback per record. */
module IntelHex {
  import opened Bits
  import opened IntelHexGrammar

  datatype ReadState =
    | ReadWait
    | ReadCountHigh | ReadCountLow
    | ReadAddressMsbHigh | ReadAddressMsbLow
    | ReadAddressLsbHigh | ReadAddressLsbLow
    | ReadRecordTypeHigh | ReadRecordTypeLow
    | ReadDataHigh | ReadDataLow
    | ReadChecksumHigh | ReadChecksumLow

  predicate IsHigh(s: ReadState) {
    s in {ReadCountHigh, ReadAddressMsbHigh, ReadAddressLsbHigh, ReadRecordTypeHigh, ReadDataHigh, ReadChecksumHigh}
  }

  /** The state that waits for the second digit of the same byte. */
  function LowStateOf(s: ReadState): ReadState {
    match s
    case ReadCountHigh => ReadCountLow
    case ReadAddressMsbHigh => ReadAddressMsbLow
    case ReadAddressLsbHigh => ReadAddressLsbLow
    case ReadRecordTypeHigh => ReadRecordTypeLow
    case ReadDataHigh => ReadDataLow
    case ReadChecksumHigh => ReadChecksumLow
    case _ => s
  }

  /** The record type before one has been read. */
  const INVALID: U8 := 0xFF

  class Record {
    var kind: U8
    var address: U16
    var length: U8
    var data: seq<U8>
    var checksum: U8

    constructor ()
      ensures Value() == RecordValue(INVALID, 0, 0, [], 0)
    {
      kind, address, length, data, checksum := INVALID, 0, 0, [], 0;
    }

    function Value(): RecordValue
      reads this
    {
      RecordValue(kind, address, length, data, checksum)
    }

    method Clear()
      modifies this
      ensures Value() == RecordValue(0xFF, 0, 0, [], 0)
    {
      data := [];
      length := 0;
      kind := INVALID;
      address := 0x0000;
      checksum := 0x00;
    }

    /** The checksum the parser computes: every sum is truncated to eight bits. */
    method ComputeChecksum() returns (sum: U8)
      requires length <= |data|
      ensures sum == ComputedSum(Value())
    {
      var s := (length + address / 0x100 + address % 0x100 + kind) % 0x100;
      for i := 0 to length
        invariant s == (length + address / 0x100 + address % 0x100 + kind + Sum(data[..i])) % 0x100
      {
        TruncatedSum(length + address / 0x100 + address % 0x100 + kind + Sum(data[..i]), data[i]);
        s := (s + data[i]) % 0x100;
        assert data[..i + 1][..i] == data[..i];
      }
      s := (0xFF - s + 1) % 0x100;
      return s;
    }
  }

  lemma TruncatedSum(s: nat, b: U8)
    ensures (s % 0x100 + b) % 0x100 == (s + b) % 0x100
  {
  }

  /** The fields of the parser that its switch reads and writes. */
  datatype Machine = Machine(state: ReadState, pos: U8, pending: U8, rec: RecordValue)

  /** The fields of a new parser. */
  const START := Machine(ReadWait, 0, 0, RecordValue(INVALID, 0, 0, [], 0))

  /** The fields after a start code. */
  const RECORD_START := START.(state := ReadCountHigh)

  /** The switch: what one digit does to the fields, with all arithmetic in eight or sixteen bits. */
  function AfterDigit(m: Machine, b: Nibble, strict: bool): Machine {
    var byte: U8 := (m.pending + b) % 0x100;
    match m.state
    case ReadWait => m
    case ReadCountLow => m.(state := ReadAddressMsbHigh, rec := m.rec.(length := byte))
    case ReadAddressMsbLow => m.(state := ReadAddressLsbHigh, rec := m.rec.(address := byte * 0x100))
    case ReadAddressLsbLow =>
      m.(state := ReadRecordTypeHigh, rec := m.rec.(address := (m.rec.address + byte) % 0x1_0000))
    case ReadRecordTypeLow =>
      m.(state := if m.rec.length > 0 then ReadDataHigh else ReadChecksumHigh, pos := 0, rec := m.rec.(kind := byte))
    case ReadDataLow =>
      var pos := (m.pos + 1) % 0x100;
      m.(state := if pos >= m.rec.length then ReadChecksumHigh else ReadDataHigh, pos := pos,
         rec := m.rec.(data := m.rec.data + [byte]))
    case ReadChecksumLow =>
      m.(state := if strict then ReadWait else ReadCountHigh, rec := m.rec.(checksum := byte))
    case _ => m.(state := LowStateOf(m.state), pending := ByteOf(b, 0))
  }

  function AfterCharacter(m: Machine, c: U8, strict: bool): Machine {
    if IsHexDigit(c) then AfterDigit(m, HexValue(c), strict)
    else if c == COLON then RECORD_START
    else m
  }

  /** All fields after a whole input. */
  function MachineAfter(input: seq<U8>, strict: bool): Machine {
    if input == [] then START
    else AfterCharacter(MachineAfter(input[..|input| - 1], strict), input[|input| - 1], strict)
  }

  /** The state after n bytes of an unfinished record and, if half, one more digit; count
      is its count byte. */
  ghost function StateAt(n: nat, half: bool, count: U8): ReadState {
    if n == 0 then (if half then ReadCountLow else ReadCountHigh)
    else if n == 1 then (if half then ReadAddressMsbLow else ReadAddressMsbHigh)
    else if n == 2 then (if half then ReadAddressLsbLow else ReadAddressLsbHigh)
    else if n == 3 then (if half then ReadRecordTypeLow else ReadRecordTypeHigh)
    else if n < 4 + count then (if half then ReadDataLow else ReadDataHigh)
    else if half then ReadChecksumLow else ReadChecksumHigh
  }

  /** The fields hold what the bytes of the unfinished record say, after carry; half is its
      last digit when that one has no partner yet. */
  ghost predicate ReadsBytes(m: Machine, carry: seq<U8>, bytes: seq<U8>, half: seq<Nibble>)
    requires |half| <= 1
  {
    var n := |bytes|;
    && !CompleteBytes(bytes)
    && m.state == StateAt(n, half != [], if n > 0 then bytes[0] else 0)
    && (half != [] ==> m.pending == ByteOf(half[0], 0))
    && (n >= 1 ==> m.rec.length == bytes[0])
    && (n == 2 ==> m.rec.address == bytes[1] as int * 0x100)
    && (n >= 3 ==> m.rec.address == bytes[1] as int * 0x100 + bytes[2] as int)
    && (n >= 4 ==> m.rec.kind == bytes[3] && m.pos == n - 4)
    && m.rec.data == carry + if n >= 4 then bytes[4..] else []
  }

  ghost predicate Reads(m: Machine, carry: seq<U8>, digits: seq<Nibble>) {
    ReadsBytes(m, carry, Pairs(digits), digits[2 * (|digits| / 2)..])
  }

  lemma NotWaiting(m: Machine, carry: seq<U8>, digits: seq<Nibble>)
    requires Reads(m, carry, digits)
    ensures m.state != ReadWait
  {
  }

  // Between records nothing but the state and the data left behind matters.
  lemma ReadsNothing(m: Machine)
    requires m.state == ReadCountHigh
    ensures Reads(m, m.rec.data, [])
  {
    assert m.rec.data + [] == m.rec.data;
  }

  // The high digit of a byte only becomes pending.
  lemma HighDigit(m: Machine, carry: seq<U8>, digits: seq<Nibble>, b: Nibble, strict: bool)
    requires Reads(m, carry, digits) && IsHigh(m.state)
    ensures !Complete(digits + [b]) && Reads(AfterDigit(m, b, strict), carry, digits + [b])
  {
    hide AfterDigit;
    hide ReadsBytes;
    hide IsHigh;
    var bytes, half := Pairs(digits), digits[2 * (|digits| / 2)..];
    EvenDigits(m, carry, bytes, half);
    Unfinished(m, carry, bytes, half);
    PairsSnoc(digits, b);
    assert (digits + [b])[2 * (|digits + [b]| / 2)..] == [b];
    HalfByte(m, carry, bytes, b, strict);
  }

  lemma EvenDigits(m: Machine, carry: seq<U8>, bytes: seq<U8>, half: seq<Nibble>)
    requires |half| <= 1 && ReadsBytes(m, carry, bytes, half)
    ensures IsHigh(m.state) <==> half == []
  {
  }

  lemma HalfByte(m: Machine, carry: seq<U8>, bytes: seq<U8>, b: Nibble, strict: bool)
    requires ReadsBytes(m, carry, bytes, []) && IsHigh(m.state)
    ensures ReadsBytes(AfterDigit(m, b, strict), carry, bytes, [b])
  {
  }

  // The low digit of a byte completes it.
  lemma LowDigit(m: Machine, carry: seq<U8>, digits: seq<Nibble>, b: Nibble) returns (bytes: seq<U8>, half: seq<Nibble>)
    requires Reads(m, carry, digits) && !IsHigh(m.state)
    ensures bytes == Pairs(digits) && |half| == 1 && ReadsBytes(m, carry, bytes, half)
    ensures Pairs(digits + [b]) == bytes + [(m.pending + b) % 0x100]
    ensures (digits + [b])[2 * (|digits + [b]| / 2)..] == []
  {
    hide ReadsBytes;
    hide IsHigh;
    bytes, half := Pairs(digits), digits[2 * (|digits| / 2)..];
    EvenDigits(m, carry, bytes, half);
    hide Pairs;
    OddDigit(digits, b);
    PendingByte(m, carry, bytes, half, b);
  }

  lemma OddDigit(digits: seq<Nibble>, b: Nibble)
    requires |digits| % 2 == 1
    ensures var half := digits[2 * (|digits| / 2)..];
      |half| == 1 && Pairs(digits + [b]) == Pairs(digits) + [ByteOf(half[0], b)]
    ensures (digits + [b])[2 * (|digits + [b]| / 2)..] == []
  {
    PairsSnoc(digits, b);
  }

  lemma PendingByte(m: Machine, carry: seq<U8>, bytes: seq<U8>, half: seq<Nibble>, b: Nibble)
    requires |half| == 1 && ReadsBytes(m, carry, bytes, half)
    ensures (m.pending + b) % 0x100 == ByteOf(half[0], b)
  {
  }

  // It is a byte of the header ...
  predicate IsHeaderLow(s: ReadState) {
    s in {ReadCountLow, ReadAddressMsbLow, ReadAddressLsbLow, ReadRecordTypeLow}
  }

  lemma HeaderByte(m: Machine, carry: seq<U8>, bytes: seq<U8>, half: seq<Nibble>, b: Nibble, strict: bool)
    requires |half| == 1 && ReadsBytes(m, carry, bytes, half) && IsHeaderLow(m.state)
    ensures ReadsBytes(AfterDigit(m, b, strict), carry, bytes + [(m.pending + b) % 0x100], [])
  {
  }

  lemma HeaderDigit(m: Machine, carry: seq<U8>, digits: seq<Nibble>, b: Nibble, strict: bool)
    requires Reads(m, carry, digits) && IsHeaderLow(m.state)
    ensures !Complete(digits + [b]) && Reads(AfterDigit(m, b, strict), carry, digits + [b])
  {
    hide AfterDigit;
    hide ReadsBytes;
    var bytes, half := LowDigit(m, carry, digits, b);
    HeaderByte(m, carry, bytes, half, b, strict);
    Unfinished(AfterDigit(m, b, strict), carry, bytes + [(m.pending + b) % 0x100], []);
  }

  lemma Unfinished(m: Machine, carry: seq<U8>, bytes: seq<U8>, half: seq<Nibble>)
    requires |half| <= 1 && ReadsBytes(m, carry, bytes, half)
    ensures !CompleteBytes(bytes)
  {
  }

  // ... or of the data ...
  lemma DataByte(m: Machine, carry: seq<U8>, bytes: seq<U8>, half: seq<Nibble>, b: Nibble, strict: bool)
    requires |half| == 1 && ReadsBytes(m, carry, bytes, half) && m.state == ReadDataLow
    ensures ReadsBytes(AfterDigit(m, b, strict), carry, bytes + [(m.pending + b) % 0x100], [])
  {
    var byte: U8, m' := (m.pending + b) % 0x100, AfterDigit(m, b, strict);
    assert m.pos + 1 == |bytes| - 3 <= m.rec.length;
    assert m'.pos == m.pos + 1 && m'.rec == m.rec.(data := m.rec.data + [byte]);
    assert m'.state == if m'.pos >= m.rec.length then ReadChecksumHigh else ReadDataHigh;
    hide AfterDigit;
    assert (carry + bytes[4..]) + [byte] == carry + (bytes + [byte])[4..];
  }

  lemma DataDigit(m: Machine, carry: seq<U8>, digits: seq<Nibble>, b: Nibble, strict: bool)
    requires Reads(m, carry, digits) && m.state == ReadDataLow
    ensures !Complete(digits + [b]) && Reads(AfterDigit(m, b, strict), carry, digits + [b])
  {
    hide AfterDigit;
    hide ReadsBytes;
    var bytes, half := LowDigit(m, carry, digits, b);
    DataByte(m, carry, bytes, half, b, strict);
    Unfinished(AfterDigit(m, b, strict), carry, bytes + [(m.pending + b) % 0x100], []);
  }

  // ... or the checksum, which completes the record.
  lemma ChecksumByte(m: Machine, carry: seq<U8>, bytes: seq<U8>, half: seq<Nibble>, byte: U8)
    requires |half| == 1 && ReadsBytes(m, carry, bytes, half) && m.state == ReadChecksumLow
    ensures m.rec.length <= |m.rec.data|
    ensures CompleteBytes(bytes + [byte])
    ensures m.rec.(checksum := byte) == DecodedBytes(carry, bytes + [byte])
  {
    assert (bytes + [byte])[4..4 + bytes[0]] == bytes[4..];
  }

  lemma ChecksumDigit(m: Machine, carry: seq<U8>, digits: seq<Nibble>, b: Nibble)
    requires Reads(m, carry, digits) && m.state == ReadChecksumLow
    ensures m.rec.length <= |m.rec.data|
    ensures Complete(digits + [b])
    ensures m.rec.(checksum := (m.pending + b) % 0x100) == Decoded(carry, digits + [b])
  {
    hide ReadsBytes;
    hide CompleteBytes;
    hide DecodedBytes;
    var bytes, half := LowDigit(m, carry, digits, b);
    ChecksumByte(m, carry, bytes, half, (m.pending + b) % 0x100);
  }

  /** One more digit either extends the unfinished record or, in the last state only,
      completes it; then the record's fields are what its digits decode to. */
  lemma DigitReads(m: Machine, carry: seq<U8>, digits: seq<Nibble>, b: Nibble, strict: bool)
    requires Reads(m, carry, digits)
    ensures var m' := AfterDigit(m, b, strict);
      if m.state != ReadChecksumLow then
        !Complete(digits + [b]) && Reads(m', carry, digits + [b])
      else
        && Complete(digits + [b]) && m.rec.length <= |m.rec.data|
        && m'.rec == Decoded(carry, digits + [b])
        && if strict then m'.state == ReadWait else Reads(m', m'.rec.data, [])
  {
    hide Reads;
    hide Complete;
    hide Decoded;
    NotWaiting(m, carry, digits);
    if IsHigh(m.state) {
      HighDigit(m, carry, digits, b, strict);
    } else if IsHeaderLow(m.state) {
      HeaderDigit(m, carry, digits, b, strict);
    } else if m.state == ReadDataLow {
      DataDigit(m, carry, digits, b, strict);
    } else {
      ChecksumDigit(m, carry, digits, b);
      if !strict {
        ReadsNothing(AfterDigit(m, b, strict));
      }
    }
  }

  /** The fields stand where the grammar says: waiting, or within a record. */
  ghost predicate Follows(m: Machine, scan: Scan) {
    && m.pending % 16 == 0
    && if scan.ignoring then m.state == ReadWait else Reads(m, scan.carry, scan.rest)
  }

  lemma DigitFollows(m: Machine, scan: Scan, b: Nibble, strict: bool, next: Scan,
                     before: seq<Report>, after: seq<Report>)
    requires Follows(m, scan) && DigitMoves(scan, b, strict, next, before, after)
    ensures m.state == ReadChecksumLow ==> m.rec.length <= |m.rec.data|
    ensures var m' := AfterDigit(m, b, strict);
      Follows(m', next) &&
      after == before +
        if m.state == ReadChecksumLow && m'.rec.length <= |m'.rec.data| then [ReportOf(m'.rec)] else []
  {
    hide Reads;
    hide Complete;
    hide Decoded;
    hide ReportOf;
    if !scan.ignoring {
      DigitReads(m, scan.carry, scan.rest, b, strict);
    }
  }

  lemma NextCharacter(input: seq<U8>, c: U8, strict: bool)
    ensures MachineAfter(input + [c], strict) == AfterCharacter(MachineAfter(input, strict), c, strict)
  {
    assert (input + [c])[..|input|] == input;
  }

  /** For every input, in both modes, the machine stands where the grammar says. */
  lemma {:induction false} Refinement(input: seq<U8>, strict: bool)
    ensures Follows(MachineAfter(input, strict), ScanOf(input, strict))
  {
    hide Follows;
    hide AfterDigit;
    hide ScanOf;
    hide Log;
    hide DigitMoves;
    if input == [] {
      StartFollows(strict);
    } else {
      var init, c := input[..|input| - 1], input[|input| - 1];
      assert input == init + [c];
      Refinement(init, strict);
      CharFollows(init, c, strict);
    }
  }

  lemma StartFollows(strict: bool)
    ensures Follows(START, ScanOf([], strict))
  {
  }

  lemma CharFollows(input: seq<U8>, c: U8, strict: bool)
    requires Follows(MachineAfter(input, strict), ScanOf(input, strict))
    ensures Follows(AfterCharacter(MachineAfter(input, strict), c, strict), ScanOf(input + [c], strict))
  {
    hide AfterDigit;
    hide ScanOf;
    hide Log;
    hide DigitMoves;
    hide Reads;
    hide MachineAfter;
    if IsHexDigit(c) {
      StreamDigit(input, c, strict);
      DigitFollows(MachineAfter(input, strict), ScanOf(input, strict), HexValue(c), strict,
                   ScanOf(input + [c], strict), Log(input, strict), Log(input + [c], strict));
    } else if c == COLON {
      StreamColon(input, strict);
      ReadsNothing(RECORD_START);
    } else {
      StreamNoise(input, c, strict);
    }
  }

  /** In every reachable state, in both modes: the pending digit leaves room for the next one,
      the data index is in range and does not wrap, and the checksum loop stays inside the data. */
  lemma InRange(input: seq<U8>, strict: bool, b: Nibble)
    ensures var m, carry := MachineAfter(input, strict), ScanOf(input, strict).carry;
      && m.pending % 16 == 0 && m.pending + b < 0x100
      && (m.state in {ReadDataHigh, ReadDataLow} ==> m.pos < m.rec.length && |m.rec.data| == |carry| + m.pos)
      && (m.state in {ReadChecksumHigh, ReadChecksumLow} ==>
          m.pos == m.rec.length && |m.rec.data| == |carry| + m.rec.length)
  {
    hide MachineAfter;
    hide ScanOf;
    Refinement(input, strict);
  }

  class Parser {
    var state: ReadState
    const rec: Record
    var pos: U8
    var pending: U8
    const strict: bool

    // The calls of the callback so far.
    var log: seq<Report>

    // Every character fed in so far.
    ghost var input: seq<U8>

    ghost function State(): Machine
      reads this, rec
    {
      Machine(state, pos, pending, rec.Value())
    }

    /** All fields, and all calls of the callback, are functions of the characters read: the
        log is what the grammar says, and Refinement ties the fields to the grammar. */
    ghost predicate Valid()
      reads this, rec
    {
      State() == MachineAfter(input, strict) && log == Log(input, strict)
    }

    constructor (strict: bool)
      ensures Valid() && input == [] && log == [] && this.strict == strict && fresh(rec)
    {
      this.strict := strict;
      state, pos, pending := ReadWait, 0, 0;
      rec := new Record();
      log, input := [], [];
    }

    /** Feed a whole buffer; the string overload is the same loop over the character codes. */
    method ParseAll(data: seq<U8>)
      requires Valid()
      modifies this, rec
      ensures Valid() && input == old(input) + data
    {
      hide *;
      for i := 0 to |data|
        invariant Valid() && input == old(input) + data[..i]
      {
        Parse(data[i]);
        assert data[..i + 1] == data[..i] + [data[i]];
      }
      assert data[..|data|] == data;
    }

    /** Feed one character. */
    method Parse(data: U8)
      requires Valid()
      modifies this, rec
      ensures Valid() && input == old(input) + [data]
    {
      hide Follows;
      hide DigitMoves;
      hide AfterDigit;
      hide ScanOf;
      hide Log;
      hide MachineAfter;
      Refinement(input, strict);
      NextCharacter(input, data, strict);
      if IsHexDigit(data) {
        StreamDigit(input, data, strict);
        DigitFollows(State(), ScanOf(input, strict), HexValue(data), strict,
                     ScanOf(input + [data], strict), log, Log(input + [data], strict));
        Consume(HexValue(data));
      } else if data == COLON {
        StreamColon(input, strict);
        pos := 0;
        state := ReadCountHigh;
        rec.Clear();
        pending := 0;
      } else {
        StreamNoise(input, data, strict);
      }
      ghost var m := State();
      input := input + [data];
      assert State() == m;
    }

    /** The switch over the reader's states. */
    method Consume(b: Nibble)
      requires state == ReadChecksumLow ==> rec.length <= |rec.data|
      modifies this`state, this`pos, this`pending, this`log, rec
      ensures State() == AfterDigit(old(State()), b, strict)
      ensures old(state) != ReadChecksumLow ==> log == old(log)
      ensures old(state) == ReadChecksumLow ==>
        rec.length <= |rec.data| && log == old(log) + [ReportOf(rec.Value())]
    {
      var b2: U8 := (pending + b) % 0x100;
      match state
      case ReadWait =>
      case ReadCountHigh | ReadAddressMsbHigh | ReadAddressLsbHigh
         | ReadRecordTypeHigh | ReadDataHigh | ReadChecksumHigh =>
        state, pending := LowStateOf(state), b * 16;
      case ReadCountLow =>
        rec.length := b2;
        state := ReadAddressMsbHigh;
      case ReadAddressMsbLow =>
        rec.address := b2 * 0x100;
        state := ReadAddressLsbHigh;
      case ReadAddressLsbLow =>
        rec.address := (rec.address + b2) % 0x1_0000;
        state := ReadRecordTypeHigh;
      case ReadRecordTypeLow =>
        rec.kind := b2;
        state := if rec.length > 0 then ReadDataHigh else ReadChecksumHigh;
        pos := 0;
      case ReadDataLow =>
        rec.data := rec.data + [b2];
        pos := (pos + 1) % 0x100;
        state := if pos >= rec.length then ReadChecksumHigh else ReadDataHigh;
      case ReadChecksumLow =>
        rec.checksum := b2;
        state := if strict then ReadWait else ReadCountHigh;
        var calculated := rec.ComputeChecksum();
        log := log + [Report(rec.Value(), calculated)];
    }
  }
}
