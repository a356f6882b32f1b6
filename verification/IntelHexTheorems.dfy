/** What the Intel HEX parser promises: printed records come back, streams resynchronise at
    every start code, and the checksum catches corruption. */
module IntelHexTheorems {
  import opened Bits
  import opened IntelHexGrammar
  import opened IntelHex
  import opened HexDump

  /** A record that holds exactly as much data as its count says. */
  type PlainRecord = r: RecordValue | |r.data| == r.length witness RecordValue(0, 0, 0, [], 0)

  /** The bytes of a record in the order they are written. */
  function Encoding(r: RecordValue): (bytes: seq<U8>)
    ensures |bytes| == 5 + |r.data|
  {
    [r.length, r.address / 0x100, r.address % 0x100, r.kind] + r.data + [r.checksum]
  }

  // ---- What a segment reports ----

  /** A segment reports something exactly when it holds the digits of a whole record; the first
      report is that record with just its own data, and in strict mode it is the only one. */
  lemma SegmentReport(digits: seq<Nibble>, strict: bool)
    ensures var reports := ScanSegment([], digits, strict).reports;
      && (reports != [] <==> |digits| >= 2 && |digits| >= 10 + 2 * Pairs(digits)[0] as int)
      && (reports != [] ==> reports[0].record == Decoded([], digits) && |reports[0].record.data| == Pairs(digits)[0])
      && (strict ==> |reports| <= 1)
  {
  }

  /** Both modes wait for the first start code: digits before it are never reported. */
  lemma {:induction false} NoStartCode(input: seq<U8>, strict: bool)
    requires COLON !in input
    ensures Log(input, strict) == [] && ScanOf(input, strict).ignoring
  {
    OneSegment(input);
  }

  lemma {:induction false} OneSegment(input: seq<U8>)
    requires COLON !in input
    ensures |Segments(input)| == 1
  {
    if input != [] {
      assert input[|input| - 1] in input;
      OneSegment(input[..|input| - 1]);
    }
  }

  // ---- Print, then parse ----

  lemma EncodingDecodes(r: PlainRecord)
    ensures Complete(Nibbles(Encoding(r))) && |Nibbles(Encoding(r))| == 2 * RecordBytes(r.length)
    ensures forall carry :: Decoded(carry, Nibbles(Encoding(r))) == r.(data := carry + r.data)
  {
    var bytes := Encoding(r);
    PairsOfNibbles(bytes);
    assert bytes[4..4 + r.length] == r.data;
  }

  lemma EncodingScans(r: PlainRecord, strict: bool)
    ensures ScanSegment([], Nibbles(Encoding(r)), strict).reports == [ReportOf(r)]
  {
    EncodingDecodes(r);
    var digits := Nibbles(Encoding(r));
    assert digits[2 * RecordBytes(r.length)..] == [];
    PairsEmpty();
    assert [] + r.data == r.data;
  }

  /** A printed record: its separator between bytes, and the text that follows the line. */
  datatype Line = Line(record: PlainRecord, sep: seq<U8>, after: seq<U8>)

  ghost predicate Printable(line: Line) {
    AllNoise(line.sep) && AllNoise(line.after)
  }

  ghost function PrintedRecord(line: Line): seq<U8> {
    Printed(Encoding(line.record), line.sep) + line.after
  }

  ghost function PrintedLine(line: Line): seq<U8> {
    [COLON] + PrintedRecord(line)
  }

  ghost function PrintedLines(lines: seq<Line>): seq<U8> {
    if lines == [] then [] else PrintedLines(lines[..|lines| - 1]) + PrintedLine(lines[|lines| - 1])
  }

  ghost function ReportsFor(lines: seq<Line>): seq<Report> {
    if lines == [] then []
    else ReportsFor(lines[..|lines| - 1]) + [ReportOf(lines[|lines| - 1].record)]
  }

  lemma PrintedDigits(segments: seq<seq<Nibble>>, line: Line)
    requires segments != [] && Printable(line)
    ensures AfterText(segments, PrintedRecord(line)) == WithDigits(segments, Nibbles(Encoding(line.record)))
  {
    AfterConcat(segments, Printed(Encoding(line.record), line.sep), line.after);
    PrintedReads(segments, Encoding(line.record), line.sep);
    NoiseReads(WithDigits(segments, Nibbles(Encoding(line.record))), line.after);
  }

  lemma LineSegments(segments: seq<seq<Nibble>>, line: Line)
    requires segments != [] && Printable(line)
    ensures AfterText(segments, PrintedLine(line)) == segments + [Nibbles(Encoding(line.record))]
  {
    var digits := Nibbles(Encoding(line.record));
    ColonThen(segments, PrintedRecord(line));
    PrintedDigits([[]], line);
    assert [] + digits == digits;
    assert WithDigits([[]], digits) == [digits];
  }

  /** Whatever records are printed, with whatever separators and surrounding text, the parser
      reports exactly those records in order, in both modes. */
  lemma {:induction false} PrintParseRoundTrip(before: seq<U8>, lines: seq<Line>, strict: bool)
    requires AllNoise(before) && forall line :: line in lines ==> Printable(line)
    ensures Log(before + PrintedLines(lines), strict) == ReportsFor(lines)
    decreases |lines|
  {
    hide Log;
    hide PrintedLine;
    hide ReportOf;
    hide AllNoise;
    hide Printable;
    if lines == [] {
      assert before + [] == before;
      NoiseReported(before, strict);
    } else {
      var init, line := lines[..|lines| - 1], lines[|lines| - 1];
      PrintParseRoundTrip(before, init, strict);
      assert line in lines;
      LineReported(before + PrintedLines(init), line, strict);
      var printed, text := PrintedLines(init), PrintedLine(line);
      assert (before + printed) + text == before + (printed + text);
    }
  }

  lemma NoiseReported(noise: seq<U8>, strict: bool)
    requires AllNoise(noise)
    ensures Log(noise, strict) == []
  {
    NoiseReads([[]], noise);
  }

  lemma LineReported(input: seq<U8>, line: Line, strict: bool)
    requires Printable(line)
    ensures Log(input + PrintedLine(line), strict) == Log(input, strict) + [ReportOf(line.record)]
  {
    AfterConcat([[]], input, PrintedLine(line));
    LineSegments(Segments(input), line);
    LastSegment(Segments(input), Nibbles(Encoding(line.record)), strict);
    EncodingScans(line.record, strict);
  }

  // ---- The checksum ----

  lemma {:induction false} SumConcat(a: seq<U8>, b: seq<U8>)
    ensures Sum(a + b) == Sum(a) + Sum(b)
    decreases b
  {
    if b == [] {
      assert a + b == a;
    } else {
      assert (a + b)[..|a + b| - 1] == a + b[..|b| - 1];
      SumConcat(a, b[..|b| - 1]);
    }
  }

  function HeaderSum(r: RecordValue): nat {
    r.length as int + r.address / 0x100 + r.address % 0x100 + r.kind as int
  }

  lemma SumOfEncoding(r: RecordValue)
    ensures Sum(Encoding(r)) == HeaderSum(r) + Sum(r.data) + r.checksum as int
  {
    var head := [r.length, r.address / 0x100, r.address % 0x100, r.kind];
    SumConcat(head + r.data, [r.checksum]);
    SumConcat(head, r.data);
    assert [r.checksum][..0] == [];
    assert head[..3][..2][..1][..0] == [];
    assert head[..3] == [r.length, r.address / 0x100, r.address % 0x100];
    assert head[..3][..2] == [r.length, r.address / 0x100];
    assert head[..3][..2][..1] == [r.length];
    assert Sum(head[..3][..2]) == r.length as int + r.address / 0x100;
    assert Sum(head[..3]) == r.length as int + r.address / 0x100 + r.address % 0x100;
  }

  lemma ComputedAgrees(r: RecordValue, c: U8)
    requires r.length <= |r.data|
    ensures ComputedSum(r) == c <==> (HeaderSum(r) + Sum(r.data[..r.length]) + c) % 0x100 == 0
  {
    ByteNegation(HeaderSum(r) + Sum(r.data[..r.length]), c);
  }

  lemma ByteNegation(s: nat, c: U8)
    ensures (0x100 - s % 0x100) % 0x100 == c <==> (s + c) % 0x100 == 0
  {
  }

  /** The computed checksum agrees with the received one exactly when all bytes of the record
      add up to zero. */
  lemma ChecksumMeaning(r: PlainRecord)
    ensures ReportOf(r).sum == r.checksum <==> Sum(Encoding(r)) % 0x100 == 0
  {
    SumOfEncoding(r);
    assert r.data[..r.length] == r.data;
    ComputedAgrees(r, r.checksum);
  }

  /** The record whose bytes these are. */
  function RecordFrom(bytes: seq<U8>): (r: PlainRecord)
    requires |bytes| >= 5 && |bytes| == 5 + bytes[0] as int
    ensures Encoding(r) == bytes
  {
    var last := |bytes| - 1;
    var r := RecordValue(bytes[3], bytes[1] as int * 0x100 + bytes[2] as int, bytes[0], bytes[4..last], bytes[last]);
    assert Encoding(r) == bytes;
    r
  }

  lemma {:induction false} SumReplaced(bytes: seq<U8>, i: nat, v: U8)
    requires i < |bytes|
    ensures Sum(bytes[i := v]) == Sum(bytes) - bytes[i] as int + v as int
  {
    var n := |bytes| - 1;
    if i < n {
      assert bytes[i := v][..n] == bytes[..n][i := v];
      SumReplaced(bytes[..n], i, v);
    } else {
      assert bytes[i := v][..n] == bytes[..n];
    }
  }

  lemma ReplacedTerm(s: nat, a: U8, b: U8)
    requires s % 0x100 == 0
    ensures (s - a + b) % 0x100 == 0 <==> a == b
  {
  }

  /** Changing any one byte but the count of a correct record is always noticed. */
  lemma SingleByteErrorDetected(bytes: seq<U8>, i: nat, v: U8)
    requires |bytes| >= 5 && |bytes| == 5 + bytes[0] as int && 1 <= i < |bytes|
    requires ReportOf(RecordFrom(bytes)).sum == RecordFrom(bytes).checksum
    ensures var r := RecordFrom(bytes[i := v]);
      ReportOf(r).sum == r.checksum <==> v == bytes[i]
  {
    hide ComputedSum;
    hide Sum;
    ChecksumMeaning(RecordFrom(bytes));
    ChecksumMeaning(RecordFrom(bytes[i := v]));
    SumReplaced(bytes, i, v);
    ReplacedTerm(Sum(bytes), bytes[i], v);
  }

  // ---- Start codes, noise and letter case ----

  lemma {:induction false} AfterPrefixed(front: seq<seq<Nibble>>, segments: seq<seq<Nibble>>, text: seq<U8>)
    requires segments != []
    ensures AfterText(front + segments, text) == front + AfterText(segments, text)
    decreases text
  {
    if text != [] {
      var init := text[..|text| - 1];
      AfterPrefixed(front, segments, init);
      var s := AfterText(segments, init);
      assert (front + s)[..|front + s| - 1] == front + s[..|s| - 1];
      var c, last := text[|text| - 1], s[|s| - 1];
      if IsHexDigit(c) {
        assert (front + s[..|s| - 1]) + [last + [HexValue(c)]] == front + (s[..|s| - 1] + [last + [HexValue(c)]]);
      } else if c == COLON {
        assert (front + s) + [[]] == front + (s + [[]]);
      }
    }
  }

  lemma {:induction false} CollectedConcat(a: seq<seq<Nibble>>, b: seq<seq<Nibble>>, f: seq<Nibble> -> seq<Report>)
    requires a != []
    ensures Collected(a + b, f) == Collected(a, f) + Collected([[]] + b, f)
    decreases |b|
  {
    if b == [] {
      assert a + b == a && [[]] + b == [[]];
    } else {
      var init, last := b[..|b| - 1], b[|b| - 1];
      CollectedConcat(a, init, f);
      assert (a + b)[..|a + b| - 1] == a + init && ([[]] + b)[..|b|] == [[]] + init;
      var x, y, z := Collected(a, f), Collected([[]] + init, f), f(last);
      assert (x + y) + z == x + (y + z);
    }
  }

  /** A start code resynchronises: what follows is reported as if nothing had come before,
      and nothing before it is lost. */
  lemma Resynchronise(prefix: seq<U8>, text: seq<U8>, strict: bool)
    ensures Log(prefix + ([COLON] + text), strict) == Log(prefix, strict) + Log([COLON] + text, strict)
  {
    var tail := AfterText([[]], text);
    AfterConcat([[]], prefix, [COLON] + text);
    ColonThen(Segments(prefix), text);
    ColonThen([[]], text);
    CollectedConcat(Segments(prefix), tail, SegmentReports(strict));
  }

  lemma ColonThen(segments: seq<seq<Nibble>>, text: seq<U8>)
    requires segments != []
    ensures AfterText(segments, [COLON] + text) == segments + AfterText([[]], text)
  {
    AfterConcat(segments, [COLON], text);
    assert AfterText(segments, []) == segments;
    AfterSnoc(segments, [], COLON);
    assert [] + [COLON] == [COLON];
    AfterPrefixed(segments, [[]], text);
  }

  /** What the comment on the strict flag promises: without it no start code is required, so
      the digits before the first one are records too. */
  function DocumentedLog(input: seq<U8>, strict: bool): seq<Report> {
    (if strict then [] else ScanSegment([], Segments(input)[0], false).reports) + Log(input, strict)
  }

  /** The first segment is what stands before the first start code. */
  lemma LeadingDigits(head: seq<U8>, text: seq<U8>)
    requires COLON !in head
    ensures Segments(head + ([COLON] + text))[0] == Segments(head)[0]
  {
    OneSegment(head);
    AfterConcat([[]], head, [COLON] + text);
    ColonThen(Segments(head), text);
  }

  /** The parser reports what is documented exactly in strict mode, or when fewer digits than a
      whole record needs stand before the first start code. */
  lemma StartCodeRequired(input: seq<U8>, strict: bool)
    ensures var leading := Segments(input)[0];
      Log(input, strict) == DocumentedLog(input, strict) <==>
      strict || |leading| < 2 || |leading| < 10 + 2 * Pairs(leading)[0] as int
  {
    var leading := Segments(input)[0];
    SegmentReport(leading, false);
    var missing := ScanSegment([], leading, false).reports;
    assert |missing + Log(input, strict)| == |missing| + |Log(input, strict)|;
    assert [] + Log(input, strict) == Log(input, strict);
  }

  /** The character codes of a text. */
  function Codes(text: string): (codes: seq<U8>)
    requires forall i :: 0 <= i < |text| ==> text[i] as int < 0x100
    ensures |codes| == |text|
  {
    seq<U8>(|text|, i requires 0 <= i < |text| => text[i] as int)
  }

  /** The text gives two upper-case digits for each byte. */
  predicate Spells(text: string, data: seq<U8>) {
    && |text| == 2 * |data|
    && forall i :: 0 <= i < |data| ==>
        text[2 * i] as int == HexChar(data[i] / 16) && text[2 * i + 1] as int == HexChar(data[i] % 16)
  }

  lemma {:induction false} PrintedAt(data: seq<U8>, i: nat)
    requires i < |data|
    ensures |Printed(data, [])| == 2 * |data|
    ensures Printed(data, [])[2 * i] == HexChar(data[i] / 16) && Printed(data, [])[2 * i + 1] == HexChar(data[i] % 16)
  {
    if |data| > 1 {
      PrintedAt(data[1..], if i > 0 then i - 1 else 0);
    }
  }

  lemma Spelled(text: string, data: seq<U8>)
    requires Spells(text, data)
    ensures (forall i :: 0 <= i < |text| ==> text[i] as int < 0x100) && Codes(text) == Printed(data, [])
    ensures COLON !in Codes(text)
  {
    assert data == [] ==> Printed(data, []) == [];
    hide Printed;
    hide HexChar;
    forall i | 0 <= i < |text|
      ensures |Printed(data, [])| == |text| && text[i] as int == Printed(data, [])[i] && text[i] != ':'
    {
      PrintedAt(data, i / 2);
      assert i == 2 * (i / 2) || i == 2 * (i / 2) + 1;
    }
  }

  /** An end-of-file record. */
  const END: PlainRecord := RecordValue(1, 0, 0, [], 0xFF)

  lemma EndText()
    ensures PrintedRecord(Line(END, [], [])) == Codes("00000001FF") && COLON !in Codes("00000001FF")
  {
    hide IsHexDigit;
    hide HexValue;
    hide Codes;
    hide Printed;
    assert Encoding(END) == [0, 0, 0, 1, 0xFF];
    Spelled("00000001FF", [0, 0, 0, 1, 0xFF]);
  }

  /** An end-of-file record without its start code is not reported, in either mode. */
  lemma StartCodeCounterexample(strict: bool)
    ensures Log(Codes("00000001FF"), strict) == [] && DocumentedLog(Codes("00000001FF"), false) == [Report(END, 0xFF)]
  {
    hide Codes;
    hide PrintedRecord;
    hide Encoding;
    hide Log;
    hide ComputedSum;
    hide ScanSegment;
    EndText();
    var input, line := Codes("00000001FF"), Line(END, [], []);
    NoStartCode(input, strict);
    NoStartCode(input, false);
    PrintedDigits([[]], line);
    var digits := Nibbles(Encoding(END));
    assert [] + digits == digits;
    assert Segments(input) == [digits];
    EncodingScans(END, false);
    ComputedAgrees(END, 0xFF);
    assert END.data[..0] == [];
  }

  /** Nothing of the past remains in the parser either: its fields depend on what follows the
      start code alone, and right after it they are those of an empty record. */
  lemma {:induction false} ForgetsPast(prefix: seq<U8>, text: seq<U8>, strict: bool)
    ensures MachineAfter(prefix + ([COLON] + text), strict) == MachineAfter([COLON] + text, strict)
    ensures text == [] ==>
      MachineAfter([COLON] + text, strict) == Machine(ReadCountHigh, 0, 0, RecordValue(0xFF, 0, 0, [], 0))
    decreases text
  {
    hide AfterDigit;
    if text == [] {
      assert [COLON] + text == [] + [COLON] && prefix + ([COLON] + text) == prefix + [COLON];
      NextCharacter([], COLON, strict);
      NextCharacter(prefix, COLON, strict);
    } else {
      var init, c := text[..|text| - 1], text[|text| - 1];
      ForgetsPast(prefix, init, strict);
      assert [COLON] + text == ([COLON] + init) + [c];
      assert prefix + ([COLON] + text) == (prefix + ([COLON] + init)) + [c];
      NextCharacter([COLON] + init, c, strict);
      NextCharacter(prefix + ([COLON] + init), c, strict);
    }
  }

  /** The characters that matter, letters in upper case. */
  function Significant(text: seq<U8>): seq<U8> {
    if text == [] then []
    else
      var c := text[|text| - 1];
      Significant(text[..|text| - 1]) + if IsNoise(c) then [] else [Upper(c)]
  }

  lemma UpperReads(segments: seq<seq<Nibble>>, c: U8)
    requires segments != []
    ensures AfterChar(segments, Upper(c)) == AfterChar(segments, c)
  {
  }

  lemma NoiseIgnored(segments: seq<seq<Nibble>>, c: U8)
    requires segments != [] && IsNoise(c)
    ensures AfterChar(segments, c) == segments
  {
  }

  lemma {:induction false} OnlySignificant(segments: seq<seq<Nibble>>, text: seq<U8>)
    requires segments != []
    ensures AfterText(segments, Significant(text)) == AfterText(segments, text)
    decreases text
  {
    if text != [] {
      var init, c := text[..|text| - 1], text[|text| - 1];
      OnlySignificant(segments, init);
      hide AfterChar;
      hide Upper;
      if IsNoise(c) {
        NoiseIgnored(AfterText(segments, init), c);
        assert Significant(text) == Significant(init);
      } else {
        AfterSnoc(segments, Significant(init), Upper(c));
        UpperReads(AfterText(segments, init), c);
      }
    }
  }

  lemma {:induction false} SameMachine(text: seq<U8>, strict: bool)
    ensures MachineAfter(Significant(text), strict) == MachineAfter(text, strict)
    decreases text
  {
    hide AfterDigit;
    if text != [] {
      var init, c := text[..|text| - 1], text[|text| - 1];
      SameMachine(init, strict);
      if IsNoise(c) {
        assert Significant(text) == Significant(init);
      } else {
        NextCharacter(Significant(init), Upper(c), strict);
      }
    }
  }

  /** Inserted noise and letter case change neither the log nor any field of the parser. */
  lemma NoiseAndCaseIgnored(a: seq<U8>, b: seq<U8>, strict: bool)
    requires Significant(a) == Significant(b)
    ensures Log(a, strict) == Log(b, strict) && MachineAfter(a, strict) == MachineAfter(b, strict)
  {
    OnlySignificant([[]], a);
    OnlySignificant([[]], b);
    SameMachine(a, strict);
    SameMachine(b, strict);
  }

  function UpperText(text: seq<U8>): (upper: seq<U8>)
    ensures |upper| == |text|
  {
    seq<U8>(|text|, i requires 0 <= i < |text| => Upper(text[i]))
  }

  lemma {:induction false} UpperSignificant(text: seq<U8>)
    ensures Significant(UpperText(text)) == Significant(text)
  {
    if text != [] {
      UpperSignificant(text[..|text| - 1]);
      assert UpperText(text)[..|text| - 1] == UpperText(text[..|text| - 1]);
    }
  }

  /** Letter case does not matter: subtracting 32 from the codes of a to f changes nothing. */
  lemma CaseIgnored(text: seq<U8>, strict: bool)
    ensures Log(UpperText(text), strict) == Log(text, strict)
    ensures MachineAfter(UpperText(text), strict) == MachineAfter(text, strict)
  {
    UpperSignificant(text);
    NoiseAndCaseIgnored(UpperText(text), text, strict);
  }

  /** So two parsers that were fed such inputs, in whatever chunks, are in the same state. */
  lemma SameParserState(p: Parser, q: Parser)
    requires p.Valid() && q.Valid() && p.strict == q.strict && Significant(p.input) == Significant(q.input)
    ensures p.log == q.log && p.State() == q.State()
  {
    NoiseAndCaseIgnored(p.input, q.input, p.strict);
  }

  // ---- Records that follow each other without a start code ----

  ghost function DigitsOf(records: seq<PlainRecord>): seq<Nibble> {
    if records == [] then [] else Nibbles(Encoding(records[0])) + DigitsOf(records[1..])
  }

  // What non-strict mode reports: the parser never clears the data between these records.
  ghost function Accumulated(carry: seq<U8>, records: seq<PlainRecord>): seq<Report>
    decreases records
  {
    if records == [] then []
    else
      var r := records[0].(data := carry + records[0].data);
      [ReportOf(r)] + Accumulated(r.data, records[1..])
  }

  ghost function Intended(records: seq<PlainRecord>): seq<Report> {
    if records == [] then [] else [ReportOf(records[0])] + Intended(records[1..])
  }

  ghost predicate OnlyLastHasData(records: seq<PlainRecord>) {
    |records| > 1 ==> records[0].length == 0 && OnlyLastHasData(records[1..])
  }

  /** Back-to-back records in one segment: each is reported with the data of all before it. */
  lemma {:induction false} BackToBack(carry: seq<U8>, records: seq<PlainRecord>)
    ensures ScanSegment(carry, DigitsOf(records), false).reports == Accumulated(carry, records)
    decreases records
  {
    if records == [] {
      PairsEmpty();
    } else {
      var r, rest := records[0], DigitsOf(records[1..]);
      var digits := Nibbles(Encoding(r));
      EncodingDecodes(r);
      DecodedPrefix(carry, digits, rest);
      assert (digits + rest)[2 * RecordBytes(r.length)..] == rest;
      BackToBack(carry + r.data, records[1..]);
    }
  }

  lemma {:induction false} AccumulatedIntended(carry: seq<U8>, records: seq<PlainRecord>)
    requires records != []
    ensures Accumulated(carry, records) == Intended(records) <==> carry == [] && OnlyLastHasData(records)
    decreases records
  {
    var r := records[0].(data := carry + records[0].data);
    assert ReportOf(r) == ReportOf(records[0]) <==> carry == [] by {
      if carry == [] {
        assert carry + records[0].data == records[0].data;
      } else {
        assert |r.data| != |records[0].data|;
      }
    }
    var a, b := Accumulated(r.data, records[1..]), Intended(records[1..]);
    assert [ReportOf(r)] + a == [ReportOf(records[0])] + b <==> ReportOf(r) == ReportOf(records[0]) && a == b by {
      assert ([ReportOf(r)] + a)[1..] == a && ([ReportOf(records[0])] + b)[1..] == b;
    }
    if |records| > 1 {
      AccumulatedIntended(r.data, records[1..]);
    }
  }

  // The text of such records: one start code, then only the printed bytes and noise.
  ghost function BackToBackText(lines: seq<Line>): seq<U8> {
    if lines == [] then [] else PrintedRecord(lines[0]) + BackToBackText(lines[1..])
  }

  ghost function RecordsIn(lines: seq<Line>): seq<PlainRecord> {
    if lines == [] then [] else [lines[0].record] + RecordsIn(lines[1..])
  }

  lemma {:induction false} BackToBackReads(segments: seq<seq<Nibble>>, lines: seq<Line>)
    requires segments != [] && forall line :: line in lines ==> Printable(line)
    ensures AfterText(segments, BackToBackText(lines)) == WithDigits(segments, DigitsOf(RecordsIn(lines)))
    decreases lines
  {
    hide Printable;
    hide WithDigits;
    if lines == [] {
      NoDigits(segments);
    } else {
      var line, rest := lines[0], lines[1..];
      AfterConcat(segments, PrintedRecord(line), BackToBackText(rest));
      PrintedDigits(segments, line);
      var digits := Nibbles(Encoding(line.record));
      BackToBackReads(WithDigits(segments, digits), rest);
      WithDigitsTwice(segments, digits, DigitsOf(RecordsIn(rest)));
    }
  }

  /** What the parser reports for the whole character stream. */
  lemma BackToBackLog(lines: seq<Line>)
    requires forall line :: line in lines ==> Printable(line)
    ensures Log([COLON] + BackToBackText(lines), false) == Accumulated([], RecordsIn(lines))
  {
    hide Printable;
    hide BackToBackText;
    hide RecordsIn;
    hide ScanSegment;
    var digits := DigitsOf(RecordsIn(lines));
    ColonThen([[]], BackToBackText(lines));
    BackToBackReads([[]], lines);
    assert [] + digits == digits;
    assert Segments([COLON] + BackToBackText(lines)) == [[]] + [digits];
    LastSegment([[]], digits, false);
    BackToBack([], RecordsIn(lines));
  }

  /** They are reported as they were written exactly when only the last one carries data. */
  lemma BackToBackFaithful(lines: seq<Line>)
    requires lines != [] && forall line :: line in lines ==> Printable(line)
    ensures Log([COLON] + BackToBackText(lines), false) == Intended(RecordsIn(lines)) <==>
            OnlyLastHasData(RecordsIn(lines))
  {
    BackToBackLog(lines);
    AccumulatedIntended([], RecordsIn(lines));
  }

  predicate Agrees(report: Report) {
    report.sum == report.record.checksum
  }

  /** The data of all records, one after the other. */
  function Joined(records: seq<PlainRecord>): seq<U8> {
    if records == [] then [] else records[0].data + Joined(records[1..])
  }

  /** The bytes the checksum loop adds up are the first ones of all the data, not the record's own. */
  predicate SameSum(data: seq<U8>, r: PlainRecord) {
    |data| >= r.length && (Sum(data[..r.length]) - Sum(r.data)) % 0x100 == 0
  }

  lemma {:induction false} AccumulatedAgrees(carry: seq<U8>, records: seq<PlainRecord>)
    requires forall r :: r in records ==> Agrees(ReportOf(r))
    ensures |Accumulated(carry, records)| == |records|
    ensures forall k :: 0 <= k < |records| ==>
      (Agrees(Accumulated(carry, records)[k]) <==> SameSum(carry + Joined(records), records[k]))
    decreases records
  {
    hide SameSum;
    hide ReportOf;
    hide Agrees;
    if records != [] {
      var r, rest := records[0], records[1..];
      var data := carry + r.data;
      AccumulatedAgrees(data, rest);
      assert data + Joined(rest) == carry + Joined(records);
      FirstAgrees(carry, r, Joined(rest));
      assert forall k :: 1 <= k < |records| ==> records[k] == rest[k - 1];
    }
  }

  lemma FirstAgrees(carry: seq<U8>, r: PlainRecord, more: seq<U8>)
    requires Agrees(ReportOf(r))
    ensures Agrees(ReportOf(r.(data := carry + r.data))) <==> SameSum(carry + r.data + more, r)
  {
    hide ComputedSum;
    hide Sum;
    var data := carry + r.data;
    assert (data + more)[..r.length] == data[..r.length];
    assert r.data[..r.length] == r.data;
    OtherData(r, data);
  }

  /** Of correct records that follow each other without a start code, a report agrees with its
      checksum exactly when the first bytes of all the data happen to have the sum of the
      record's own; so all of them agree exactly when that holds of every record. */
  lemma BackToBackChecksums(lines: seq<Line>)
    requires forall line :: line in lines ==> Printable(line)
    requires forall r :: r in RecordsIn(lines) ==> Agrees(ReportOf(r))
    ensures var records, log := RecordsIn(lines), Log([COLON] + BackToBackText(lines), false);
      && |log| == |records|
      && (forall k :: 0 <= k < |log| ==> (Agrees(log[k]) <==> SameSum(Joined(records), records[k])))
      && ((forall k :: 0 <= k < |log| ==> Agrees(log[k])) <==> forall r :: r in records ==> SameSum(Joined(records), r))
  {
    hide SameSum;
    hide ReportOf;
    hide Agrees;
    BackToBackLog(lines);
    AccumulatedAgrees([], RecordsIn(lines));
    assert [] + Joined(RecordsIn(lines)) == Joined(RecordsIn(lines));
  }

  lemma OtherData(r: PlainRecord, data: seq<U8>)
    requires ComputedSum(r) == r.checksum && r.length <= |data|
    ensures ComputedSum(r.(data := data)) == r.checksum <==>
            (Sum(data[..r.length]) - Sum(r.data[..r.length])) % 0x100 == 0
  {
    ComputedAgrees(r, r.checksum);
    ComputedAgrees(r.(data := data), r.checksum);
    ShiftedSum(HeaderSum(r), Sum(data[..r.length]), Sum(r.data[..r.length]), r.checksum);
  }

  lemma ShiftedSum(h: nat, a: nat, b: nat, c: U8)
    requires (h + b + c) % 0x100 == 0
    ensures (h + a + c) % 0x100 == 0 <==> (a - b) % 0x100 == 0
  {
  }

  lemma TwoRecords(one: Line, two: Line)
    requires Printable(one) && Printable(two)
    ensures Log([COLON] + BackToBackText([one, two]), false)
         == [ReportOf(one.record), ReportOf(two.record.(data := one.record.data + two.record.data))]
  {
    hide Log;
    hide Printable;
    hide BackToBackText;
    hide ReportOf;
    BackToBackLog([one, two]);
    var r1, r2 := one.record, two.record;
    assert [one, two][1..] == [two] && [two][1..] == [];
    assert RecordsIn([two]) == [r2] + RecordsIn([]);
    assert RecordsIn([one, two]) == [r1, r2];
    assert [r1, r2][1..] == [r2] && [r2][1..] == [];
    assert [] + r1.data == r1.data;
    var second := r2.(data := r1.data + r2.data);
    assert Accumulated(r1.data, [r2]) == [ReportOf(second)] + Accumulated(second.data, []);
  }

  const FIRST: PlainRecord := RecordValue(0, 0, 1, [0xAA], 0x55)
  const SECOND: PlainRecord := RecordValue(0, 1, 1, [0xBB], 0x43)

  lemma FirstText()
    ensures PrintedRecord(Line(FIRST, [], [])) == Codes("01000000AA55")
  {
    hide IsHexDigit;
    hide HexValue;
    hide Codes;
    hide Printed;
    assert Encoding(FIRST) == [1, 0, 0, 0, 0xAA, 0x55];
    Spelled("01000000AA55", [1, 0, 0, 0, 0xAA, 0x55]);
  }

  lemma SecondText()
    ensures PrintedRecord(Line(SECOND, [], [])) == Codes("01000100BB43")
  {
    hide IsHexDigit;
    hide HexValue;
    hide Codes;
    hide Printed;
    assert Encoding(SECOND) == [1, 0, 1, 0, 0xBB, 0x43];
    Spelled("01000100BB43", [1, 0, 1, 0, 0xBB, 0x43]);
  }

  lemma CodesConcat(a: string, b: string)
    requires forall i :: 0 <= i < |a| ==> a[i] as int < 0x100
    requires forall i :: 0 <= i < |b| ==> b[i] as int < 0x100
    ensures (forall i :: 0 <= i < |a + b| ==> (a + b)[i] as int < 0x100) && Codes(a + b) == Codes(a) + Codes(b)
  {
  }

  lemma TwoRecordText()
    ensures Codes(":" + "01000000AA55" + "01000100BB43")
         == [COLON] + BackToBackText([Line(FIRST, [], []), Line(SECOND, [], [])])
  {
    hide PrintedRecord;
    var one, two := Line(FIRST, [], []), Line(SECOND, [], []);
    FirstText();
    SecondText();
    assert Codes(":") == [COLON];
    hide Codes;
    CodesConcat(":", "01000000AA55");
    CodesConcat(":" + "01000000AA55", "01000100BB43");
    assert [one, two][1..] == [two] && [two][1..] == [];
    assert BackToBackText([two]) == PrintedRecord(two) + BackToBackText([]);
  }

  lemma OneByteSum(r: RecordValue, b: U8, c: U8)
    requires r.length == 1 <= |r.data| && r.data[0] == b && (HeaderSum(r) + b + c) % 0x100 == 0
    ensures ComputedSum(r) == c
  {
    assert r.data[..1] == [b] && [b][..0] == [];
    ComputedAgrees(r, c);
  }

  /** A stream of two correct records for which the second report does not agree: the checksum
      0x54 is computed over the data of the first. */
  lemma BackToBackCounterexample()
    ensures Agrees(ReportOf(FIRST)) && Agrees(ReportOf(SECOND))
    ensures Log(Codes(":" + "01000000AA55" + "01000100BB43"), false)
         == [Report(FIRST, 0x55), Report(SECOND.(data := [0xAA, 0xBB]), 0x54)]
  {
    hide Log;
    hide ComputedSum;
    hide Codes;
    hide BackToBackText;
    var second: RecordValue := SECOND.(data := [0xAA, 0xBB]);
    OneByteSum(FIRST, 0xAA, 0x55);
    OneByteSum(SECOND, 0xBB, 0x43);
    OneByteSum(second, 0xAA, 0x54);
    TwoRecordText();
    TwoRecords(Line(FIRST, [], []), Line(SECOND, [], []));
    assert FIRST.data + SECOND.data == second.data;
  }
}
