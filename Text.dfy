/** The .NET string operations the command loop classifies lines with:
    `string.IsNullOrWhiteSpace`, `StartsWith`/`Contains` on one character,
    `Split(',')` and `int.TryParse`. */
module Text {
  import opened Common

  /** `char.IsWhiteSpace`: the Unicode space, line and paragraph separators and
      the controls U+0009 to U+000D and U+0085. */
  predicate IsWhiteSpace(c: char) {
    || '\U{0009}' <= c <= '\U{000D}'
    || c == '\U{0020}' || c == '\U{0085}' || c == '\U{00A0}' || c == '\U{1680}'
    || '\U{2000}' <= c <= '\U{200A}'
    || c == '\U{2028}' || c == '\U{2029}' || c == '\U{202F}' || c == '\U{205F}' || c == '\U{3000}'
  }

  /** `string.IsNullOrWhiteSpace` on a line that is there: empty, or white space only. */
  predicate IsBlank(s: string)
    ensures IsBlank(s) ==> !StartsWith(s, '$') && !StartsWith(s, '>')
  {
    forall i :: 0 <= i < |s| ==> IsWhiteSpace(s[i])
  }

  /** `s.StartsWith(c)` for a one-character prefix. */
  predicate StartsWith(s: string, c: char) {
    |s| > 0 && s[0] == c
  }

  /** The position of the first `c` in `s`. */
  function IndexOf(s: string, c: char): (i: nat)
    requires c in s
    ensures i < |s| && s[i] == c && c !in s[..i]
  {
    if s[0] == c then 0 else 1 + IndexOf(s[1..], c)
  }

  /** `s.Split(sep)`: the pieces between separators, empty pieces included. */
  function Split(s: string, sep: char): (parts: seq<string>)
    ensures |parts| >= 1
    decreases |s|
  {
    if sep !in s then [s]
    else var i := IndexOf(s, sep); [s[..i]] + Split(s[i + 1..], sep)
  }

  /** The pieces glued back together with the separator. */
  function Join(parts: seq<string>, sep: char): string
    requires |parts| >= 1
  {
    if |parts| == 1 then parts[0] else parts[0] + [sep] + Join(parts[1..], sep)
  }

  /** Splitting loses nothing and leaves no separator inside a piece. */
  lemma {:induction false} SplitJoin(s: string, sep: char)
    ensures Join(Split(s, sep), sep) == s
    ensures forall p :: p in Split(s, sep) ==> sep !in p
    decreases |s|
  {
    if sep in s {
      var i := IndexOf(s, sep);
      SplitJoin(s[i + 1..], sep);
      assert Split(s, sep)[1..] == Split(s[i + 1..], sep);
      assert s == s[..i] + [sep] + s[i + 1..];
    }
  }

  /** The first piece of a split is everything before the first separator. */
  lemma SplitHead(s: string, sep: char)
    ensures sep in s ==> Split(s, sep)[0] == s[..IndexOf(s, sep)]
    ensures sep !in s ==> Split(s, sep) == [s]
  {
  }

  /** The first separator of `a + [sep] + b` is the one after `a` when `a` has none. */
  lemma SplitAfter(a: string, sep: char, b: string)
    requires sep !in a
    ensures Split(a + [sep] + b, sep) == [a] + Split(b, sep)
  {
    var s := a + [sep] + b;
    var i := IndexOf(s, sep);
    assert s[..|a|] == a && s[|a|] == sep;
    assert forall k :: 0 <= k < |a| ==> s[k] == a[k];
    assert i == |a|;
    assert s[..i] == a && s[i + 1..] == b;
  }

  // ------------------------------------------------------------ int.TryParse

  const Int32Min: int := -0x8000_0000
  const Int32Max: int := 0x7FFF_FFFF

  /** The white space `NumberStyles.Integer` allows around a number. */
  predicate IsNumberSpace(c: char) {
    c == ' ' || '\t' <= c <= '\r'
  }

  predicate IsDigit(c: char) {
    '0' <= c <= '9'
  }

  /** The first position at or after `i` that is not number white space. */
  function SkipSpaces(s: string, i: nat): (j: nat)
    requires i <= |s|
    ensures i <= j <= |s|
    ensures forall k :: i <= k < j ==> IsNumberSpace(s[k])
    ensures j < |s| ==> !IsNumberSpace(s[j])
    decreases |s| - i
  {
    if i < |s| && IsNumberSpace(s[i]) then SkipSpaces(s, i + 1) else i
  }

  /** The first position at or after `i` that is not a decimal digit. */
  function SkipDigits(s: string, i: nat): (j: nat)
    requires i <= |s|
    ensures i <= j <= |s|
    ensures forall k :: i <= k < j ==> IsDigit(s[k])
    ensures j < |s| ==> !IsDigit(s[j])
    decreases |s| - i
  {
    if i < |s| && IsDigit(s[i]) then SkipDigits(s, i + 1) else i
  }

  /** The first position at or after `i` that is not a `'\0'`. */
  function SkipNuls(s: string, i: nat): (j: nat)
    requires i <= |s|
    ensures i <= j <= |s|
    ensures forall k :: i <= k < j ==> s[k] == '\0'
    ensures j < |s| ==> s[j] != '\0'
    decreases |s| - i
  {
    if i < |s| && s[i] == '\0' then SkipNuls(s, i + 1) else i
  }

  /** The value of a string of decimal digits. */
  function DigitsValue(s: string): nat
    requires forall k :: 0 <= k < |s| ==> IsDigit(s[k])
  {
    if s == [] then 0
    else
      assert IsDigit(s[|s| - 1]);
      10 * DigitsValue(s[..|s| - 1]) + (s[|s| - 1] as int - '0' as int)
  }

  /** `int.TryParse(s, out v)` with the invariant culture's signs: white space,
      an optional `+` or `-`, at least one decimal digit, white space, trailing
      `'\0'` characters, and a value that fits in 32 bits. */
  function TryParseInt32(s: string): (r: Option<int>)
    ensures r.Some? ==> Int32Min <= r.value <= Int32Max
    ensures (forall k :: 0 <= k < |s| ==> !IsDigit(s[k])) ==> r.None?
  {
    var a := SkipSpaces(s, 0);
    var b := if a < |s| && (s[a] == '-' || s[a] == '+') then a + 1 else a;
    var c := SkipDigits(s, b);
    var e := SkipNuls(s, SkipSpaces(s, c));
    if c == b || e != |s| then None
    else
      var v := SignedValue(s, a, b, c);
      if Int32Min <= v <= Int32Max then Some(v) else None
  }

  /** The value of the digits `s[b..c]`, negated when a sign stands at `a`, just
      before them, and is `-`. */
  function SignedValue(s: string, a: nat, b: nat, c: nat): int
    requires a <= b <= c <= |s|
    requires forall k :: b <= k < c ==> IsDigit(s[k])
  {
    var digits := s[b..c];
    assert forall k :: 0 <= k < |digits| ==> digits[k] == s[b + k];
    var n: int := DigitsValue(digits);
    if b == a + 1 && s[a] == '-' then -n else n
  }

  /** Text in the `NumberStyles.Integer` form: number white space before `a`, an
      optional sign at `a` (then `b == a + 1`), one or more decimal digits from
      `b` to `c`, number white space from `c` to `d`, and nothing but `'\0'` from
      `d` on. */
  predicate IntegerShape(s: string, a: nat, b: nat, c: nat, d: nat) {
    && a <= b < c <= d <= |s| && b <= a + 1
    && (forall k :: 0 <= k < a ==> IsNumberSpace(s[k]))
    && (b == a + 1 ==> s[a] == '+' || s[a] == '-')
    && (forall k :: b <= k < c ==> IsDigit(s[k]))
    && (forall k :: c <= k < d ==> IsNumberSpace(s[k]))
    && (forall k :: d <= k < |s| ==> s[k] == '\0')
  }

  /** Only text in the `NumberStyles.Integer` form parses, to the signed value of
      its digits: any other character anywhere (such as the `x` of `5x`) makes
      `int.TryParse` fail. */
  lemma TryParseInt32Shape(s: string)
    ensures TryParseInt32(s).Some? ==>
              exists a, b, c, d :: IntegerShape(s, a, b, c, d) && TryParseInt32(s).value == SignedValue(s, a, b, c)
  {
    if TryParseInt32(s).Some? {
      var a := SkipSpaces(s, 0);
      var b := if a < |s| && (s[a] == '-' || s[a] == '+') then a + 1 else a;
      var c := SkipDigits(s, b);
      var d := SkipSpaces(s, c);
      assert IntegerShape(s, a, b, c, d);
    }
  }

  /** Every text in that form parses, to the signed value of its digits when it
      fits in 32 bits. */
  lemma TryParseInt32OfShape(s: string, a: nat, b: nat, c: nat, d: nat)
    requires IntegerShape(s, a, b, c, d)
    ensures TryParseInt32(s) ==
              if Int32Min <= SignedValue(s, a, b, c) <= Int32Max then Some(SignedValue(s, a, b, c)) else None
  {
    assert IsDigit(s[b]);
    assert !IsNumberSpace(s[a]);
    assert SkipSpaces(s, 0) == a;
    assert SkipDigits(s, b) == c by {
      if c < |s| {
        assert c < d ==> IsNumberSpace(s[c]);
        assert !IsDigit(s[c]);
      }
    }
    assert SkipSpaces(s, c) == d by {
      if d < |s| {
        assert !IsNumberSpace(s[d]);
      }
    }
  }

  /** The decimal digits of `n`, as `ToString()` writes them. */
  function NatDigits(n: nat): string {
    if n < 10 then [('0' as int + n) as char] else NatDigits(n / 10) + [('0' as int + n % 10) as char]
  }

  /** `n.ToString()` for an integer. */
  function Decimal(n: int): string {
    if n < 0 then "-" + NatDigits(-n) else NatDigits(n)
  }

  lemma {:induction false} NatDigitsValue(n: nat)
    ensures |NatDigits(n)| > 0
    ensures forall k :: 0 <= k < |NatDigits(n)| ==> IsDigit(NatDigits(n)[k])
    ensures DigitsValue(NatDigits(n)) == n
  {
    if n >= 10 {
      NatDigitsValue(n / 10);
      var d := NatDigits(n);
      assert d[..|d| - 1] == NatDigits(n / 10);
    }
  }

  lemma {:induction false} SkipDigitsToEnd(s: string, i: nat)
    requires i <= |s|
    requires forall k :: i <= k < |s| ==> IsDigit(s[k])
    ensures SkipDigits(s, i) == |s|
    decreases |s| - i
  {
    if i < |s| {
      SkipDigitsToEnd(s, i + 1);
    }
  }

  /** `ToString()` of an integer writes digits and at most a minus sign. */
  lemma DecimalChars(n: int)
    ensures forall k :: 0 <= k < |Decimal(n)| ==> IsDigit(Decimal(n)[k]) || Decimal(n)[k] == '-'
  {
    NatDigitsValue(if n < 0 then -n else n);
  }

  /** `int.TryParse` reads back what `ToString()` writes, for every 32-bit value. */
  lemma ParseDecimal(n: int)
    requires Int32Min <= n <= Int32Max
    ensures TryParseInt32(Decimal(n)) == Some(n)
  {
    var s := Decimal(n);
    var m := if n < 0 then -n else n;
    NatDigitsValue(m);
    var b := if n < 0 then 1 else 0;
    assert s[b..|s|] == NatDigits(m);
    assert IsDigit(s[b]);
    assert SkipSpaces(s, 0) == 0;
    assert (s[0] == '-' || s[0] == '+') <==> n < 0;
    SkipDigitsToEnd(s, b);
    assert SkipSpaces(s, |s|) == |s| && SkipNuls(s, |s|) == |s|;
  }
}
