/** The hex line codec of the command loop: `AnswerHex` renders a read result as
    `<` followed by two upper-case hex digits per byte, and `ParseHex` reads the
    payload of a `>` line back into bytes. */
module HexCodec {
  import opened Common

  /** An upper-case hexadecimal digit, the alphabet `ToString("X2")` writes. */
  predicate IsUpperHexDigit(c: char) {
    '0' <= c <= '9' || 'A' <= c <= 'F'
  }

  /** The upper-case digit of a nibble. */
  function HexDigit(n: int): (c: char)
    requires 0 <= n < 16
    ensures IsUpperHexDigit(c)
  {
    if n < 10 then ('0' as int + n) as char else ('A' as int + n - 10) as char
  }

  /** `b.ToString("X2")`: the high nibble's digit, then the low nibble's. */
  function HexPair(b: byte): string {
    [HexDigit(b / 16), HexDigit(b % 16)]
  }

  /** The digits of `data`, two per byte, in byte order. */
  function HexPairs(data: seq<byte>): string {
    if data == [] then "" else HexPairs(data[..|data| - 1]) + HexPair(data[|data| - 1])
  }

  /** The response line for `data`: the marker `<`, then its hex digits. */
  function EncodeHex(data: seq<byte>): string {
    "<" + HexPairs(data)
  }

  /** `AnswerHex`: a `StringBuilder` that starts with `<` and gets each byte's
      pair appended in turn. */
  method AnswerHex(data: seq<byte>) returns (line: string)
    ensures line == EncodeHex(data)
  {
    line := "<";
    for i := 0 to |data|
      invariant line == "<" + HexPairs(data[..i])
    {
      assert data[..i + 1][..i] == data[..i];
      line := line + HexPair(data[i]);
    }
    assert data[..|data|] == data;
  }

  lemma {:induction false} HexPairsAt(data: seq<byte>)
    ensures |HexPairs(data)| == 2 * |data|
    ensures forall i :: 0 <= i < |data| ==>
              HexPairs(data)[2 * i] == HexDigit(data[i] / 16) &&
              HexPairs(data)[2 * i + 1] == HexDigit(data[i] % 16)
  {
    if data != [] {
      var init := data[..|data| - 1];
      HexPairsAt(init);
      forall i | 0 <= i < |data|
        ensures HexPairs(data)[2 * i] == HexDigit(data[i] / 16)
        ensures HexPairs(data)[2 * i + 1] == HexDigit(data[i] % 16)
      {
        if i < |init| {
          assert data[i] == init[i];
        }
      }
    }
  }

  /** The shape of every response line: length `1 + 2n`, the marker first, and
      byte `i` as the two upper-case digits at positions `1 + 2i` and `2 + 2i`. */
  lemma EncodeHexShape(data: seq<byte>)
    ensures |EncodeHex(data)| == 1 + 2 * |data|
    ensures EncodeHex(data)[0] == '<'
    ensures forall i :: 0 <= i < |data| ==>
              EncodeHex(data)[1 + 2 * i] == HexDigit(data[i] / 16) &&
              EncodeHex(data)[2 + 2 * i] == HexDigit(data[i] % 16)
    ensures forall j :: 1 <= j < |EncodeHex(data)| ==> IsUpperHexDigit(EncodeHex(data)[j])
  {
    HexPairsAt(data);
    var e := EncodeHex(data);
    forall j | 1 <= j < |e|
      ensures IsUpperHexDigit(e[j])
    {
      var i := (j - 1) / 2;
      if j == 1 + 2 * i {
        assert e[j] == HexDigit(data[i] / 16);
      } else {
        assert j == 2 + 2 * i;
        assert e[j] == HexDigit(data[i] % 16);
      }
    }
  }

  /** An empty read result is answered by the marker alone. */
  lemma EncodeHexEmpty()
    ensures EncodeHex([]) == "<"
  {
  }

  // ---------------------------------------------------------------- decoding

  /** The value of one hexadecimal digit, in either case. */
  function DigitValue(c: char): (v: Option<int>)
    ensures v.Some? <==> IsUpperHexDigit(UpperAscii(c))
    ensures v.Some? ==> 0 <= v.value < 16
  {
    if '0' <= c <= '9' then Some(c as int - '0' as int)
    else if 'A' <= c <= 'F' then Some(c as int - 'A' as int + 10)
    else if 'a' <= c <= 'f' then Some(c as int - 'a' as int + 10)
    else None
  }

  /** `Convert.ToByte(s, 16)` on the two-character string `[hi, lo]`. The .NET
      parser reads an optional sign and then hex digits, and wants the whole string
      consumed: so two hex digits give a byte, a `+` followed by one digit gives
      that digit's value, and a `-` sign, an `x` or any other character fails. */
  function PairValue(hi: char, lo: char): (r: Option<byte>)
    ensures r.Some? <==> DigitValue(lo).Some? && (DigitValue(hi).Some? || hi == '+')
    ensures r.Some? ==> r.value % 16 == DigitValue(lo).value
    ensures r.Some? ==> if DigitValue(hi).Some? then r.value / 16 == DigitValue(hi).value else r.value < 16
  {
    match (DigitValue(hi), DigitValue(lo))
    case (Some(h), Some(l)) => Some(16 * h + l)
    case (None, Some(l)) => if hi == '+' then Some(l) else None
    case _ => None
  }

  /** ASCII upper-casing of one character: `a`-`z` become `A`-`Z`, anything else
      is kept. */
  function UpperAscii(c: char): (u: char)
    ensures 'a' <= c <= 'z' ==> u as int == c as int - 32
    ensures !('a' <= c <= 'z') ==> u == c
  {
    if 'a' <= c <= 'z' then (c as int - 32) as char else c
  }

  /** ASCII upper-casing of a text, character by character. */
  function UpperText(s: string): (u: string)
    ensures |u| == |s| && forall i :: 0 <= i < |s| ==> u[i] == UpperAscii(s[i])
  {
    seq(|s|, i requires 0 <= i < |s| => UpperAscii(s[i]))
  }

  /** A lower-case digit `a`-`f` has the value of its upper-case form. */
  lemma DigitValueIgnoresCase(c: char)
    ensures DigitValue(UpperAscii(c)) == DigitValue(c)
    ensures 'a' <= c <= 'f' ==> DigitValue(c) == DigitValue((c as int - 32) as char) == Some(c as int - 'a' as int + 10)
  {
  }

  /** A pair converts to the same byte, or fails, whatever the case of its letters. */
  lemma PairValueIgnoresCase(hi: char, lo: char)
    ensures PairValue(UpperAscii(hi), UpperAscii(lo)) == PairValue(hi, lo)
  {
    DigitValueIgnoresCase(hi);
    DigitValueIgnoresCase(lo);
  }

  /** The `i`-th pair of a `>` line: the characters at `1 + 2i` and `2 + 2i`. */
  function PairAt(text: string, i: nat): Option<byte>
    requires 3 + 2 * i <= |text|
  {
    PairValue(text[1 + 2 * i], text[2 + 2 * i])
  }

  /** Puts the bytes `p` in front of a successful decoding. */
  function Prepend(p: seq<byte>, r: Result<seq<byte>>): Result<seq<byte>> {
    if r.Success? then Success(p + r.value) else r
  }

  lemma PrependTwice(p: seq<byte>, q: seq<byte>, r: Result<seq<byte>>)
    ensures Prepend(p, Prepend(q, r)) == Prepend(p + q, r)
  {
    if r.Success? {
      assert p + (q + r.value) == (p + q) + r.value;
    }
  }

  /** The pairs of `text` from pair `i` on, failing at the first pair that does
      not convert. */
  function DecodeFrom(text: string, i: nat): Result<seq<byte>>
    requires |text| % 2 == 1 && 2 * i < |text|
    decreases |text| - 2 * i
  {
    if 2 * i + 1 == |text| then Success([])
    else match PairAt(text, i)
      case None => Failure(InvalidHexPair(text[1 + 2 * i..3 + 2 * i]))
      case Some(b) => Prepend([b], DecodeFrom(text, i + 1))
  }

  /** What `ParseHex` computes for a whole `>` line. */
  function DecodeHex(text: string): Result<seq<byte>> {
    if |text| % 2 != 1 then Failure(OddLengthExpected(|text|, text))
    else DecodeFrom(text, 0)
  }

  /** `ParseHex`: assert the odd length, then fill a byte array pair by pair. */
  method ParseHex(text: string) returns (r: Result<seq<byte>>)
    ensures r == DecodeHex(text)
  {
    if |text| % 2 != 1 {
      return Failure(OddLengthExpected(|text|, text));
    }
    var bytes := new byte[|text| / 2];
    assert Prepend([], DecodeFrom(text, 0)) == DecodeFrom(text, 0) by {
      if DecodeFrom(text, 0).Success? {
        assert [] + DecodeFrom(text, 0).value == DecodeFrom(text, 0).value;
      }
    }
    for i := 0 to bytes.Length
      invariant DecodeHex(text) == Prepend(bytes[..i], DecodeFrom(text, i))
    {
      var b := PairValue(text[1 + i * 2], text[2 + i * 2]);
      assert PairAt(text, i) == b;
      if b.None? {
        return Failure(InvalidHexPair(text[1 + i * 2..3 + i * 2]));
      }
      ghost var done := bytes[..i];
      bytes[i] := b.value;
      assert bytes[..i + 1] == done + [b.value];
      assert DecodeFrom(text, i) == Prepend([b.value], DecodeFrom(text, i + 1));
      PrependTwice(done, [b.value], DecodeFrom(text, i + 1));
    }
    assert DecodeFrom(text, bytes.Length) == Success([]);
    assert bytes[..] == bytes[..bytes.Length];
    assert Prepend(bytes[..], Success([])) == Success(bytes[..]) by {
      assert bytes[..] + [] == bytes[..];
    }
    return Success(bytes[..]);
  }

  lemma {:induction false} DecodeFromSucceeds(text: string, i: nat)
    requires |text| % 2 == 1 && 2 * i < |text|
    ensures DecodeFrom(text, i).Success? <==>
              forall j :: i <= j < |text| / 2 ==> PairAt(text, j).Some?
    decreases |text| - 2 * i
  {
    if 2 * i + 1 != |text| && PairAt(text, i).Some? {
      DecodeFromSucceeds(text, i + 1);
    }
  }

  lemma {:induction false} DecodeFromContents(text: string, i: nat)
    requires |text| % 2 == 1 && 2 * i < |text|
    requires DecodeFrom(text, i).Success?
    ensures |DecodeFrom(text, i).value| == |text| / 2 - i
    ensures forall j :: i <= j < |text| / 2 ==> PairAt(text, j) == Some(DecodeFrom(text, i).value[j - i])
    decreases |text| - 2 * i
  {
    if 2 * i + 1 != |text| {
      DecodeFromContents(text, i + 1);
      var v := DecodeFrom(text, i).value;
      var rest := DecodeFrom(text, i + 1).value;
      assert v == [PairAt(text, i).value] + rest;
      forall j | i <= j < |text| / 2
        ensures PairAt(text, j) == Some(v[j - i])
      {
        if j > i {
          assert v[j - i] == rest[j - (i + 1)];
        }
      }
    }
  }

  lemma {:induction false} DecodeFromFirstFailure(text: string, i: nat)
    requires |text| % 2 == 1 && 2 * i < |text|
    requires DecodeFrom(text, i).Failure?
    ensures exists j :: i <= j < |text| / 2 && PairAt(text, j).None? &&
              (forall k :: i <= k < j ==> PairAt(text, k).Some?) &&
              DecodeFrom(text, i).error == InvalidHexPair(text[1 + 2 * j..3 + 2 * j])
    decreases |text| - 2 * i
  {
    if PairAt(text, i).Some? {
      DecodeFromFirstFailure(text, i + 1);
      var j :| i + 1 <= j < |text| / 2 && PairAt(text, j).None? &&
               (forall k :: i + 1 <= k < j ==> PairAt(text, k).Some?) &&
               DecodeFrom(text, i + 1).error == InvalidHexPair(text[1 + 2 * j..3 + 2 * j]);
      assert forall k :: i <= k < j ==> PairAt(text, k).Some?;
    }
  }

  /** `ParseHex` refuses every text of even length. */
  lemma DecodeRejectsEvenLength(text: string)
    requires |text| % 2 == 0
    ensures DecodeHex(text) == Failure(OddLengthExpected(|text|, text))
  {
  }

  /** For an odd-length text, `ParseHex` succeeds exactly when every pair
      converts; it then returns `len / 2` bytes, byte `i` being the value of the
      characters at `1 + 2i` and `2 + 2i`; otherwise it fails at the first pair
      that does not convert. */
  lemma DecodeHexShape(text: string)
    requires |text| % 2 == 1
    ensures DecodeHex(text).Success? <==> forall i :: 0 <= i < |text| / 2 ==> PairAt(text, i).Some?
    ensures DecodeHex(text).Success? ==>
              |DecodeHex(text).value| == |text| / 2 &&
              forall i :: 0 <= i < |text| / 2 ==> PairAt(text, i) == Some(DecodeHex(text).value[i])
    ensures DecodeHex(text).Failure? ==>
              exists i :: 0 <= i < |text| / 2 && PairAt(text, i).None? &&
                (forall k :: 0 <= k < i ==> PairAt(text, k).Some?) &&
                DecodeHex(text).error == InvalidHexPair(text[1 + 2 * i..3 + 2 * i])
  {
    var r := DecodeFrom(text, 0);
    assert DecodeHex(text) == r;
    assert r.Success? <==> forall i :: 0 <= i < |text| / 2 ==> PairAt(text, i).Some? by {
      DecodeFromSucceeds(text, 0);
    }
    if r.Success? {
      DecodeFromContents(text, 0);
    } else {
      DecodeFromFirstFailure(text, 0);
      var i :| 0 <= i < |text| / 2 && PairAt(text, i).None? &&
               (forall k :: 0 <= k < i ==> PairAt(text, k).Some?) &&
               r.error == InvalidHexPair(text[1 + 2 * i..3 + 2 * i]);
    }
  }

  lemma {:induction false} DecodeFromIgnoresMarker(text: string, other: string, i: nat)
    requires |text| % 2 == 1 && 2 * i < |text|
    requires |other| == |text| && other[1..] == text[1..]
    ensures DecodeFrom(text, i) == DecodeFrom(other, i)
    decreases |text| - 2 * i
  {
    if 2 * i + 1 != |text| {
      assert text[1 + 2 * i] == text[1..][2 * i] == other[1 + 2 * i];
      assert text[2 + 2 * i] == text[1..][2 * i + 1] == other[2 + 2 * i];
      assert text[1 + 2 * i..3 + 2 * i] == text[1..][2 * i..2 * i + 2] == other[1 + 2 * i..3 + 2 * i];
      DecodeFromIgnoresMarker(text, other, i + 1);
    }
  }

  /** The first character of a `>` line is skipped whatever it is. */
  lemma DecodeHexIgnoresMarker(text: string, other: string)
    requires |text| % 2 == 1
    requires |other| == |text| && other[1..] == text[1..]
    ensures DecodeHex(text) == DecodeHex(other)
  {
    DecodeFromIgnoresMarker(text, other, 0);
  }

  /** `ParseHex` does not see the case of the hex letters: a line and its
      upper-cased form both decode to the same bytes, or both fail. */
  lemma DecodeHexIgnoresCase(text: string)
    ensures DecodeHex(UpperText(text)).Success? <==> DecodeHex(text).Success?
    ensures DecodeHex(text).Success? ==> DecodeHex(UpperText(text)) == DecodeHex(text)
  {
    var u := UpperText(text);
    if |text| % 2 == 1 {
      forall i | 0 <= i < |text| / 2
        ensures PairAt(u, i) == PairAt(text, i)
      {
        PairValueIgnoresCase(text[1 + 2 * i], text[2 + 2 * i]);
      }
      DecodeHexShape(text);
      DecodeHexShape(u);
      if DecodeHex(text).Success? {
        var v, w := DecodeHex(text).value, DecodeHex(u).value;
        assert forall i :: 0 <= i < |v| ==> Some(w[i]) == PairAt(u, i) == PairAt(text, i) == Some(v[i]);
        assert v == w;
      }
    }
  }

  lemma DigitValueOfHexDigit(n: int)
    requires 0 <= n < 16
    ensures DigitValue(HexDigit(n)) == Some(n)
  {
  }

  /** Two upper-case digits convert to the byte whose `X2` rendering they are. */
  lemma PairOfUpperDigits(hi: char, lo: char)
    requires IsUpperHexDigit(hi) && IsUpperHexDigit(lo)
    ensures PairValue(hi, lo).Some? && HexPair(PairValue(hi, lo).value) == [hi, lo]
  {
    var h, l := DigitValue(hi).value, DigitValue(lo).value;
    assert (16 * h + l) / 16 == h && (16 * h + l) % 16 == l;
  }

  /** Decoding inverts encoding: every read result comes back from its response
      line. */
  lemma HexRoundTrip(data: seq<byte>)
    ensures DecodeHex(EncodeHex(data)) == Success(data)
  {
    var e := EncodeHex(data);
    EncodeHexShape(data);
    assert |e| % 2 == 1 && |e| / 2 == |data|;
    forall i | 0 <= i < |data|
      ensures PairAt(e, i) == Some(data[i])
    {
      DigitValueOfHexDigit(data[i] / 16);
      DigitValueOfHexDigit(data[i] % 16);
    }
    DecodeHexShape(e);
    assert DecodeHex(e).value == data;
  }

  /** Encoding inverts decoding on the texts `AnswerHex` can produce: a `<`
      marker and upper-case digits. */
  lemma EncodeOfDecode(text: string)
    requires DecodeHex(text).Success?
    requires |text| > 0 && text[0] == '<'
    requires forall j :: 1 <= j < |text| ==> IsUpperHexDigit(text[j])
    ensures EncodeHex(DecodeHex(text).value) == text
  {
    var data := DecodeHex(text).value;
    DecodeHexShape(text);
    EncodeHexShape(data);
    var e := EncodeHex(data);
    forall i | 0 <= i < |data|
      ensures e[1 + 2 * i] == text[1 + 2 * i] && e[2 + 2 * i] == text[2 + 2 * i]
    {
      PairOfUpperDigits(text[1 + 2 * i], text[2 + 2 * i]);
      assert PairAt(text, i) == Some(data[i]);
    }
    forall j | 1 <= j < |text|
      ensures e[j] == text[j]
    {
      var i := (j - 1) / 2;
      assert j == 1 + 2 * i || j == 2 + 2 * i;
    }
  }
}
