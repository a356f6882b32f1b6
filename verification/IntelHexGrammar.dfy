/** What a stream of Intel HEX text means: a whole-stream grammar, independent of any parser state. */
module IntelHexGrammar {
  import opened Bits

  type Nibble = n: nat | n < 16

  // Character codes.
  const COLON: U8 := 58
  const DIGIT_0: U8 := 48
  const DIGIT_9: U8 := 57
  const UPPER_A: U8 := 65
  const UPPER_F: U8 := 70
  const LOWER_A: U8 := 97
  const LOWER_F: U8 := 102

  predicate IsDecimal(c: U8) {
    DIGIT_0 <= c <= DIGIT_9
  }

  predicate IsHexDigit(c: U8) {
    IsDecimal(c) || UPPER_A <= c <= UPPER_F || LOWER_A <= c <= LOWER_F
  }

  function HexValue(c: U8): Nibble
    requires IsHexDigit(c)
  {
    if IsDecimal(c) then c - DIGIT_0
    else if c <= UPPER_F then c - UPPER_A + 10
    else c - LOWER_A + 10
  }

  // The digits in the order of their values.
  const UPPER_DIGITS := "0123456789ABCDEF"
  const LOWER_DIGITS := "0123456789abcdef"

  lemma DigitAt(i: nat)
    requires i < 16
    ensures UPPER_DIGITS[i] as int < 0x100 && IsHexDigit(UPPER_DIGITS[i] as int) && HexValue(UPPER_DIGITS[i] as int) == i
    ensures LOWER_DIGITS[i] as int < 0x100 && IsHexDigit(LOWER_DIGITS[i] as int) && HexValue(LOWER_DIGITS[i] as int) == i
  {
  }

  lemma DigitListed(c: U8) returns (i: nat)
    requires IsHexDigit(c)
    ensures i < 16 && (UPPER_DIGITS[i] as int == c || LOWER_DIGITS[i] as int == c)
  {
    i := if c <= 57 then c - 48 else if c <= 70 then c - 55 else c - 87;
  }

  /** A digit's value is its place in either list, and no other character is a digit. */
  lemma DigitValues(c: U8)
    ensures IsHexDigit(c) <==> exists i :: 0 <= i < 16 && (UPPER_DIGITS[i] as int == c || LOWER_DIGITS[i] as int == c)
    ensures forall i :: 0 <= i < 16 && (UPPER_DIGITS[i] as int == c || LOWER_DIGITS[i] as int == c) ==>
              IsHexDigit(c) && HexValue(c) == i
  {
    forall i | 0 <= i < 16 && (UPPER_DIGITS[i] as int == c || LOWER_DIGITS[i] as int == c)
      ensures IsHexDigit(c) && HexValue(c) == i
    {
      DigitAt(i);
    }
    if IsHexDigit(c) {
      var i := DigitListed(c);
    }
    hide IsHexDigit;
    hide HexValue;
  }

  /** The upper-case form of a letter a to f. */
  function Upper(c: U8): U8 {
    if 97 <= c <= 102 then c - 32 else c
  }

  predicate IsNoise(c: U8) {
    c != COLON && !IsHexDigit(c)
  }

  // Appending to the digits of the last segment.
  function WithDigits(segments: seq<seq<Nibble>>, digits: seq<Nibble>): (result: seq<seq<Nibble>>)
    requires segments != []
    ensures |result| == |segments|
  {
    segments[..|segments| - 1] + [segments[|segments| - 1] + digits]
  }

  function AfterChar(segments: seq<seq<Nibble>>, c: U8): (result: seq<seq<Nibble>>)
    requires segments != []
    ensures result != []
  {
    if c == COLON then segments + [[]]
    else if IsHexDigit(c) then WithDigits(segments, [HexValue(c)])
    else segments
  }

  function AfterText(segments: seq<seq<Nibble>>, text: seq<U8>): (result: seq<seq<Nibble>>)
    requires segments != []
    ensures result != []
  {
    if text == [] then segments
    else AfterChar(AfterText(segments, text[..|text| - 1]), text[|text| - 1])
  }

  /** The digits after each start code; the first entry holds those before any start code. */
  function Segments(input: seq<U8>): (segments: seq<seq<Nibble>>)
    ensures segments != []
  {
    AfterText([[]], input)
  }

  lemma AfterSnoc(segments: seq<seq<Nibble>>, text: seq<U8>, c: U8)
    requires segments != []
    ensures AfterText(segments, text + [c]) == AfterChar(AfterText(segments, text), c)
  {
    assert (text + [c])[..|text|] == text;
  }

  lemma {:induction false} AfterConcat(segments: seq<seq<Nibble>>, a: seq<U8>, b: seq<U8>)
    requires segments != []
    ensures AfterText(segments, a + b) == AfterText(AfterText(segments, a), b)
    decreases b
  {
    if b == [] {
      assert a + b == a;
    } else {
      var init, c := b[..|b| - 1], b[|b| - 1];
      assert a + b == (a + init) + [c];
      AfterConcat(segments, a, init);
      AfterSnoc(segments, a + init, c);
    }
  }

  function ByteOf(high: Nibble, low: Nibble): U8 {
    high as int * 16 + low as int
  }

  /** Digits are read in pairs; an odd one at the end is not a byte yet. */
  function Pairs(digits: seq<Nibble>): (bytes: seq<U8>)
    ensures |bytes| == |digits| / 2
  {
    seq<U8>(|digits| / 2, i requires 0 <= i < |digits| / 2 => ByteOf(digits[2 * i], digits[2 * i + 1]))
  }

  /** The number of bytes of a record: count, address, type and checksum, and the data. */
  function RecordBytes(count: U8): nat {
    5 + count as int
  }

  predicate CompleteBytes(bytes: seq<U8>) {
    |bytes| >= 1 && |bytes| >= RecordBytes(bytes[0])
  }

  predicate Complete(digits: seq<Nibble>) {
    CompleteBytes(Pairs(digits))
  }

  datatype RecordValue = RecordValue(kind: U8, address: U16, length: U8, data: seq<U8>, checksum: U8)

  /** One call of the callback: the record, and the checksum computed for it. */
  datatype Report = Report(record: RecordValue, sum: U8)

  function Sum(bytes: seq<U8>): nat {
    if bytes == [] then 0 else Sum(bytes[..|bytes| - 1]) + bytes[|bytes| - 1]
  }

  /** The two's complement of the low byte of the sum over count, address, type and data. */
  function ComputedSum(r: RecordValue): U8
    requires r.length <= |r.data|
  {
    (0x100 - (r.length + r.address / 0x100 + r.address % 0x100 + r.kind + Sum(r.data[..r.length])) % 0x100) % 0x100
  }

  /** The record at the front of the digits. Its data is appended to what the parser still
      holds from earlier records of the same segment. */
  function DecodedBytes(carry: seq<U8>, bytes: seq<U8>): (r: RecordValue)
    requires CompleteBytes(bytes)
    ensures r.length <= |r.data|
  {
    var n := bytes[0];
    RecordValue(bytes[3], bytes[1] as int * 0x100 + bytes[2] as int, n, carry + bytes[4..4 + n], bytes[4 + n])
  }

  function Decoded(carry: seq<U8>, digits: seq<Nibble>): (r: RecordValue)
    requires Complete(digits)
    ensures r.length <= |r.data|
  {
    DecodedBytes(carry, Pairs(digits))
  }

  function ReportOf(r: RecordValue): Report
    requires r.length <= |r.data|
  {
    Report(r, ComputedSum(r))
  }

  /** How far a segment has been read: what it reported, the data still held, the digits of
      the unfinished record, and whether the rest of the segment is ignored. */
  datatype Scan = Scan(reports: seq<Report>, carry: seq<U8>, rest: seq<Nibble>, ignoring: bool)

  /** Strict: one record per start code. Otherwise records follow each other back to back. */
  function ScanSegment(carry: seq<U8>, digits: seq<Nibble>, strict: bool): Scan
    decreases |digits|
  {
    if !Complete(digits) then Scan([], carry, digits, false)
    else
      var r := Decoded(carry, digits);
      if strict then Scan([ReportOf(r)], r.data, [], true)
      else
        var s := ScanSegment(r.data, digits[2 * RecordBytes(r.length)..], strict);
        s.(reports := [ReportOf(r)] + s.reports)
  }

  function SegmentReports(strict: bool): seq<Nibble> -> seq<Report> {
    digits => ScanSegment([], digits, strict).reports
  }

  function Collected(segments: seq<seq<Nibble>>, f: seq<Nibble> -> seq<Report>): seq<Report>
    decreases |segments|
  {
    if |segments| <= 1 then []
    else Collected(segments[..|segments| - 1], f) + f(segments[|segments| - 1])
  }

  function ReportsOf(segments: seq<seq<Nibble>>, strict: bool): seq<Report> {
    Collected(segments, SegmentReports(strict))
  }

  /** Every callback the stream causes, in order. */
  function Log(input: seq<U8>, strict: bool): seq<Report> {
    ReportsOf(Segments(input), strict)
  }

  // ---- One more digit in a segment ----

  lemma {:induction false} ScanSnoc(carry: seq<U8>, digits: seq<Nibble>, b: Nibble, strict: bool)
    ensures var s, t := ScanSegment(carry, digits, strict), ScanSegment(carry, digits + [b], strict);
      if s.ignoring then t == s
      else if !Complete(s.rest + [b]) then t == s.(rest := s.rest + [b])
      else var r := Decoded(s.carry, s.rest + [b]);
        && |s.rest| + 1 == 2 * RecordBytes(r.length)
        && t == Scan(s.reports + [ReportOf(r)], r.data, [], strict)
    ensures !ScanSegment(carry, digits, strict).ignoring ==> !Complete(ScanSegment(carry, digits, strict).rest)
    decreases |digits|
  {
    hide Complete;
    hide Decoded;
    if !Complete(digits) {
      if Complete(digits + [b]) {
        CompletesExactly(carry, digits, b);
        assert (digits + [b])[|digits| + 1..] == [];
        PairsEmpty();
      }
    } else {
      DecodedPrefix(carry, digits, [b]);
      var r := Decoded(carry, digits);
      var n := 2 * RecordBytes(r.length);
      assert (digits + [b])[n..] == digits[n..] + [b];
      if !strict {
        ScanSnoc(r.data, digits[n..], b, strict);
      }
    }
  }

  lemma CompletesExactly(carry: seq<U8>, digits: seq<Nibble>, b: Nibble)
    requires !Complete(digits) && Complete(digits + [b])
    ensures |digits| + 1 == 2 * RecordBytes(Decoded(carry, digits + [b]).length)
  {
    PairsSnoc(digits, b);
  }

  lemma PairsEmpty()
    ensures !Complete([])
  {
  }

  /** The low digit of a pair adds a byte, the high digit does not. */
  lemma PairsSnoc(digits: seq<Nibble>, b: Nibble)
    ensures Pairs(digits + [b])
         == if |digits| % 2 == 0 then Pairs(digits) else Pairs(digits) + [ByteOf(digits[|digits| - 1], b)]
  {
  }

  lemma PairsPrefix(digits: seq<Nibble>, more: seq<Nibble>)
    ensures Pairs(digits) <= Pairs(digits + more)
  {
  }

  lemma DecodedPrefix(carry: seq<U8>, digits: seq<Nibble>, more: seq<Nibble>)
    requires Complete(digits)
    ensures 2 * RecordBytes(Decoded(carry, digits).length) <= |digits|
    ensures Complete(digits + more) && Decoded(carry, digits + more) == Decoded(carry, digits)
  {
    PairsPrefix(digits, more);
    var p, q := Pairs(digits), Pairs(digits + more);
    assert forall i :: 0 <= i < |p| ==> q[i] == p[i];
    assert q[4..4 + p[0]] == p[4..4 + p[0]];
  }

  // ---- One more character in the stream ----

  /** Where the last segment stands; before the first start code everything is ignored. */
  function ScanLast(segments: seq<seq<Nibble>>, strict: bool): Scan
    requires segments != []
  {
    if |segments| == 1 then Scan([], [], [], true)
    else ScanSegment([], segments[|segments| - 1], strict)
  }

  function ScanOf(input: seq<U8>, strict: bool): Scan {
    ScanLast(Segments(input), strict)
  }

  // A digit either is ignored, or extends the unfinished record, or completes it.
  ghost predicate DigitMoves(s: Scan, v: Nibble, strict: bool, t: Scan, before: seq<Report>, after: seq<Report>) {
    if s.ignoring then t.ignoring && after == before
    else if !Complete(s.rest + [v]) then
      !t.ignoring && t.carry == s.carry && t.rest == s.rest + [v] && after == before
    else
      var r := Decoded(s.carry, s.rest + [v]);
      t.carry == r.data && t.rest == [] && t.ignoring == strict && after == before + [ReportOf(r)]
  }

  lemma StreamDigit(input: seq<U8>, c: U8, strict: bool)
    requires IsHexDigit(c)
    ensures DigitMoves(ScanOf(input, strict), HexValue(c), strict, ScanOf(input + [c], strict),
                       Log(input, strict), Log(input + [c], strict))
  {
    AfterSnoc([[]], input, c);
    SegmentDigit(Segments(input), HexValue(c), strict);
  }

  lemma SegmentDigit(segments: seq<seq<Nibble>>, v: Nibble, strict: bool)
    requires segments != []
    ensures var after := WithDigits(segments, [v]);
      DigitMoves(ScanLast(segments, strict), v, strict, ScanLast(after, strict),
                 ReportsOf(segments, strict), ReportsOf(after, strict))
  {
    if |segments| > 1 {
      var front, last := segments[..|segments| - 1], segments[|segments| - 1];
      assert front + [last] == segments;
      LastSegment(front, last, strict);
      LastSegment(front, last + [v], strict);
      ScanDigit(last, v, strict, ReportsOf(front, strict));
    }
  }

  lemma ScanDigit(digits: seq<Nibble>, v: Nibble, strict: bool, before: seq<Report>)
    ensures var s, t := ScanSegment([], digits, strict), ScanSegment([], digits + [v], strict);
      DigitMoves(s, v, strict, t, before + s.reports, before + t.reports)
  {
    hide ScanSegment;
    hide Complete;
    hide Decoded;
    hide ReportOf;
    ScanSnoc([], digits, v, strict);
    var s, t := ScanSegment([], digits, strict), ScanSegment([], digits + [v], strict);
    if !s.ignoring && Complete(s.rest + [v]) {
      var r := [ReportOf(Decoded(s.carry, s.rest + [v]))];
      assert before + (s.reports + r) == (before + s.reports) + r;
    }
  }

  lemma LastSegment(front: seq<seq<Nibble>>, last: seq<Nibble>, strict: bool)
    requires front != []
    ensures ReportsOf(front + [last], strict) == ReportsOf(front, strict) + ScanSegment([], last, strict).reports
  {
    assert (front + [last])[..|front|] == front;
  }

  lemma StreamColon(input: seq<U8>, strict: bool)
    ensures Log(input + [COLON], strict) == Log(input, strict)
    ensures ScanOf(input + [COLON], strict) == Scan([], [], [], false)
  {
    AfterSnoc([[]], input, COLON);
    assert (Segments(input) + [[]])[..|Segments(input)|] == Segments(input);
  }

  lemma StreamNoise(input: seq<U8>, c: U8, strict: bool)
    requires IsNoise(c)
    ensures ScanOf(input + [c], strict) == ScanOf(input, strict) && Log(input + [c], strict) == Log(input, strict)
  {
    AfterSnoc([[]], input, c);
  }
}
