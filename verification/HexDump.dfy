/** The hex printer: every byte as two upper-case digits, with a separator in between. */
module HexDump {
  import opened Bits
  import opened IntelHexGrammar

  function HexChar(d: Nibble): (c: U8)
    ensures IsHexDigit(c) && HexValue(c) == d && c == UPPER_DIGITS[d] as int
  {
    if d < 10 then DIGIT_0 + d else UPPER_A + (d - 10)
  }

  function HexPair(b: U8): seq<U8> {
    [HexChar(b / 16), HexChar(b % 16)]
  }

  ghost function Printed(data: seq<U8>, sep: seq<U8>): seq<U8> {
    if data == [] then []
    else if |data| == 1 then HexPair(data[0])
    else HexPair(data[0]) + sep + Printed(data[1..], sep)
  }

  /** The separator stands between bytes and nowhere else. */
  lemma {:induction false} PrintedConcat(a: seq<U8>, b: seq<U8>, sep: seq<U8>)
    requires a != [] && b != []
    ensures Printed(a + b, sep) == Printed(a, sep) + sep + Printed(b, sep)
    decreases a
  {
    assert (a + b)[1..] == a[1..] + b;
    if |a| > 1 {
      PrintedConcat(a[1..], b, sep);
    } else {
      assert a[1..] + b == b;
    }
  }

  lemma PrintedFrom(data: seq<U8>, i: nat, sep: seq<U8>)
    requires i < |data|
    ensures Printed(data[i..], sep)
         == HexPair(data[i]) + (if i == |data| - 1 then [] else sep) + Printed(data[i + 1..], sep)
  {
    assert data[i..][1..] == data[i + 1..];
  }

  method HexDump(data: seq<U8>, sep: seq<U8>) returns (out: seq<U8>)
    ensures out == Printed(data, sep)
  {
    hide HexPair;
    out := [];
    assert data[0..] == data && Printed(data[|data|..], sep) == [];
    hide Printed;
    for i := 0 to |data|
      invariant out + Printed(data[i..], sep) == Printed(data, sep)
    {
      var suffix := if i == |data| - 1 then [] else sep;
      PrintedFrom(data, i, sep);
      ghost var before := out;
      out := out + HexPair(data[i]) + suffix;
      assert before + (HexPair(data[i]) + suffix + Printed(data[i + 1..], sep)) == out + Printed(data[i + 1..], sep);
    }
  }

  /** The digits of a byte string, two for each byte. */
  function Nibbles(data: seq<U8>): (digits: seq<Nibble>)
    ensures |digits| == 2 * |data|
  {
    if data == [] then [] else [data[0] / 16, data[0] % 16] + Nibbles(data[1..])
  }

  lemma PairsFirst(high: Nibble, low: Nibble, digits: seq<Nibble>)
    ensures Pairs([high, low] + digits) == [ByteOf(high, low)] + Pairs(digits)
  {
  }

  /** Pairing the digits up gives the data back. */
  lemma {:induction false} PairsOfNibbles(data: seq<U8>)
    ensures Pairs(Nibbles(data)) == data
  {
    if data != [] {
      var rest := data[1..];
      PairsOfNibbles(rest);
      PairsFirst(data[0] / 16, data[0] % 16, Nibbles(rest));
      assert [data[0]] + rest == data;
    }
  }

  ghost predicate AllNoise(text: seq<U8>) {
    forall c :: c in text ==> IsNoise(c)
  }

  lemma NoDigits(segments: seq<seq<Nibble>>)
    requires segments != []
    ensures WithDigits(segments, []) == segments
  {
    var last := segments[|segments| - 1];
    assert last + [] == last;
  }

  lemma WithDigitsTwice(segments: seq<seq<Nibble>>, a: seq<Nibble>, b: seq<Nibble>)
    requires segments != []
    ensures WithDigits(WithDigits(segments, a), b) == WithDigits(segments, a + b)
  {
    var last := segments[|segments| - 1];
    assert (last + a) + b == last + (a + b);
    assert WithDigits(segments, a)[..|segments| - 1] == segments[..|segments| - 1];
  }

  lemma {:induction false} NoiseReads(segments: seq<seq<Nibble>>, noise: seq<U8>)
    requires segments != [] && AllNoise(noise)
    ensures AfterText(segments, noise) == segments
  {
    if noise != [] {
      NoiseReads(segments, noise[..|noise| - 1]);
      assert noise[|noise| - 1] in noise;
    }
  }

  lemma PairReads(segments: seq<seq<Nibble>>, b: U8)
    requires segments != []
    ensures AfterText(segments, HexPair(b)) == WithDigits(segments, [b / 16, b % 16])
  {
    var high, low := HexChar(b / 16), HexChar(b % 16);
    assert AfterText(segments, []) == segments;
    AfterSnoc(segments, [], high);
    AfterSnoc(segments, [high], low);
    assert [] + [high] == [high] && HexPair(b) == [high] + [low];
    assert AfterText(segments, [high]) == WithDigits(segments, [b / 16]);
    WithDigitsTwice(segments, [b / 16], [b % 16]);
    assert [b / 16] + [b % 16] == [b / 16, b % 16];
  }

  /** The printed text reads as exactly the digits of the data, wherever it is appended. */
  lemma {:induction false} PrintedReads(segments: seq<seq<Nibble>>, data: seq<U8>, sep: seq<U8>)
    requires segments != [] && AllNoise(sep)
    ensures AfterText(segments, Printed(data, sep)) == WithDigits(segments, Nibbles(data))
    decreases data
  {
    if data == [] {
      NoDigits(segments);
    } else {
      var pair, digits, rest := HexPair(data[0]), [data[0] / 16, data[0] % 16], data[1..];
      PairReads(segments, data[0]);
      WithDigitsTwice(segments, digits, Nibbles(rest));
      if rest == [] {
        assert Nibbles(data) == digits;
      } else {
        var next := WithDigits(segments, digits);
        AfterConcat(segments, pair, sep);
        NoiseReads(next, sep);
        AfterConcat(segments, pair + sep, Printed(rest, sep));
        PrintedReads(next, rest, sep);
      }
    }
  }
}
