/** The JavaScript string behaviour the chart scripts rely on: the whitespace class `\s`
    (used by `country.replace(/\s+/g, '-')`), the string-to-number conversion behind the
    loose comparison `cell != 0`, decimal numerals for years, and the `<br>` line breaks of
    the tooltip. */
module JsText {

  // ---------------------------------------------------------------------------
  // Whitespace

  /** A character of the ECMAScript WhiteSpace or LineTerminator productions (tab, line feed,
      vertical tab, form feed, carriage return, the space separators of Unicode, the line and
      paragraph separators and the byte order mark): the class `\s` of a regular expression,
      and what `Number(...)` strips around a numeral. */
  predicate IsSpace(c: char) {
    || ('\t' <= c <= '\r') || c == ' ' || c == '\U{00A0}' || c == '\U{1680}'
    || ('\U{2000}' <= c <= '\U{200A}') || c == '\U{2028}' || c == '\U{2029}'
    || c == '\U{202F}' || c == '\U{205F}' || c == '\U{3000}' || c == '\U{FEFF}'
  }

  predicate NoSpace(s: string) {
    forall i :: 0 <= i < |s| ==> !IsSpace(s[i])
  }

  predicate AllSpace(s: string) {
    forall i :: 0 <= i < |s| ==> IsSpace(s[i])
  }

  /** `s` with its leading run of whitespace removed. */
  function SkipSpaces(s: string): (r: string)
    ensures |r| <= |s| && r == s[|s| - |r|..]
    ensures AllSpace(s[..|s| - |r|])
    ensures r == [] || !IsSpace(r[0])
  {
    if s != [] && IsSpace(s[0]) then
      var r := SkipSpaces(s[1..]);
      assert s[1..][|s| - 1 - |r|..] == s[|s| - |r|..];
      assert forall i :: 1 <= i < |s| - |r| ==> s[i] == s[1..][i - 1];
      r
    else s
  }

  /** `s` with its trailing run of whitespace removed. */
  function SkipTrailingSpaces(s: string): (r: string)
    ensures |r| <= |s| && r == s[..|r|]
    ensures AllSpace(s[|r|..])
    ensures r == [] || !IsSpace(r[|r| - 1])
  {
    if s != [] && IsSpace(s[|s| - 1]) then
      var r := SkipTrailingSpaces(s[..|s| - 1]);
      assert s[..|s| - 1][..|r|] == s[..|r|];
      assert forall i :: |r| <= i < |s| - 1 ==> s[i] == s[..|s| - 1][i];
      r
    else s
  }

  /** The whitespace trimming that `Number(s)` applies first. */
  function Trim(s: string): string {
    SkipTrailingSpaces(SkipSpaces(s))
  }

  // ---------------------------------------------------------------------------
  // The data-point class slug

  /** `s.replace(/\s+/g, '-')`: every maximal run of whitespace becomes one '-'
      (written character by character: a whitespace followed by more whitespace
      contributes nothing, the last one of a run contributes the '-'). */
  function Slug(s: string): string
  {
    if s == [] then []
    else if !IsSpace(s[0]) then [s[0]] + Slug(s[1..])
    else if |s| > 1 && IsSpace(s[1]) then Slug(s[1..])
    else "-" + Slug(s[1..])
  }

  lemma {:induction false} SlugCons(c: char, s: string)
    ensures !IsSpace(c) ==> Slug([c] + s) == [c] + Slug(s)
    ensures IsSpace(c) && s != [] && IsSpace(s[0]) ==> Slug([c] + s) == Slug(s)
    ensures IsSpace(c) && (s == [] || !IsSpace(s[0])) ==> Slug([c] + s) == "-" + Slug(s)
  {
    assert ([c] + s)[1..] == s;
  }

  /** A slug has no whitespace left. */
  lemma {:induction false} SlugHasNoSpace(s: string)
    ensures NoSpace(Slug(s))
    decreases |s|
  {
    if s != [] {
      SlugHasNoSpace(s[1..]);
      assert !IsSpace('-');
    }
  }

  /** A name without whitespace is its own slug. */
  lemma {:induction false} SlugOfSpaceFree(s: string)
    requires NoSpace(s)
    ensures Slug(s) == s
    decreases |s|
  {
    if s != [] {
      assert !IsSpace(s[0]);
      SlugOfSpaceFree(s[1..]);
    }
  }

  lemma {:induction false} SlugOfLeadingRun(w: string, b: string)
    requires w != [] && AllSpace(w)
    requires b == [] || !IsSpace(b[0])
    ensures Slug(w + b) == "-" + Slug(b)
    decreases |w|
  {
    assert w + b == [w[0]] + (w[1..] + b);
    SlugCons(w[0], w[1..] + b);
    if |w| > 1 {
      SlugOfLeadingRun(w[1..], b);
    } else {
      assert w[1..] + b == b;
    }
  }

  /** The slug of a name cut where a run of whitespace does not straddle the cut is the two
      slugs joined. */
  lemma {:induction false} SlugConcat(x: string, y: string)
    requires x == [] || y == [] || !IsSpace(x[|x| - 1]) || !IsSpace(y[0])
    ensures Slug(x + y) == Slug(x) + Slug(y)
    decreases |x|
  {
    if x == [] {
      assert x + y == y;
    } else if |x| == 1 {
      SlugConcatOne(x[0], y);
      assert x == [x[0]];
    } else {
      var c, x' := x[0], x[1..];
      assert x == [c] + x';
      assert x + y == [c] + (x' + y);
      SlugConcat(x', y);
      SlugConcatStep(c, x', y);
    }
  }

  lemma {:induction false} SlugConcatOne(c: char, y: string)
    requires y == [] || !IsSpace(c) || !IsSpace(y[0])
    ensures Slug([c] + y) == Slug([c]) + Slug(y)
  {
    SlugCons(c, y);
    SlugCons(c, []);
  }

  lemma {:induction false} SlugConcatStep(c: char, x: string, y: string)
    requires x != [] && Slug(x + y) == Slug(x) + Slug(y)
    ensures Slug([c] + (x + y)) == Slug([c] + x) + Slug(y)
  {
    assert (x + y)[0] == x[0];
    SlugCons(c, x + y);
    SlugCons(c, x);
  }

  /** Each maximal run of whitespace (`w`, framed by non-whitespace or the ends of the name)
      is replaced by exactly one '-', independently of the rest of the name. */
  lemma {:induction false} SlugOfRun(a: string, w: string, b: string)
    requires a == [] || !IsSpace(a[|a| - 1])
    requires w != [] && AllSpace(w)
    requires b == [] || !IsSpace(b[0])
    ensures Slug(a + w + b) == Slug(a) + "-" + Slug(b)
  {
    var tail := w + b;
    assert a + w + b == a + tail;
    SlugConcat(a, tail);
    SlugOfLeadingRun(w, b);
    assert Slug(tail) == "-" + Slug(b);
  }

  // ---------------------------------------------------------------------------
  // Numerals

  predicate IsDigit(c: char) {
    '0' <= c <= '9'
  }

  /** One or more decimal digits. */
  predicate IsDigits(s: string) {
    s != [] && forall i :: 0 <= i < |s| ==> IsDigit(s[i])
  }

  predicate IsZeros(s: string) {
    forall i :: 0 <= i < |s| ==> s[i] == '0'
  }

  /** Position of the first character of `s` that is in `cs`, or |s| when there is none. */
  function IndexOfAny(s: string, cs: set<char>): (k: nat)
    ensures k <= |s|
    ensures forall i :: 0 <= i < k ==> s[i] !in cs
    ensures k < |s| ==> s[k] in cs
  {
    if s == [] || s[0] in cs then 0 else 1 + IndexOfAny(s[1..], cs)
  }

  /** The SignedInteger of an exponent: digits with an optional sign. */
  predicate IsSignedInteger(s: string) {
    IsDigits(s) || (s != [] && (s[0] == '+' || s[0] == '-') && IsDigits(s[1..]))
  }

  /** An empty exponent, or `e`/`E` followed by a signed integer. */
  predicate IsExponentPart(s: string) {
    s == [] || ((s[0] == 'e' || s[0] == 'E') && IsSignedInteger(s[1..]))
  }

  /** `u` is an unsigned StrDecimalLiteral (digits, an optional '.' with more digits, at least
      one digit in all, an optional exponent) whose digits are all '0', so that its value is 0. */
  predicate IsUnsignedDecimalZero(u: string) {
    var e := IndexOfAny(u, {'e', 'E'});
    var mantissa := u[..e];
    var p := IndexOfAny(mantissa, {'.'});
    var whole := mantissa[..p];
    var fraction := if p < |mantissa| then mantissa[p + 1..] else [];
    && IsExponentPart(u[e..])
    && (whole != [] || fraction != [])
    && IsZeros(whole) && IsZeros(fraction)
  }

  /** `0x`, `0o` or `0b` followed by zeros only. */
  predicate IsNonDecimalZero(t: string) {
    && |t| >= 3 && t[0] == '0'
    && t[1] in {'x', 'X', 'o', 'O', 'b', 'B'}
    && IsZeros(t[2..])
  }

  /** A trimmed string that `Number` reads as 0: the empty string, a decimal literal with
      an optional sign and only zero digits, or a binary, octal or hexadecimal zero. */
  predicate IsZeroNumeral(t: string) {
    || t == []
    || IsUnsignedDecimalZero(t)
    || (t != [] && (t[0] == '+' || t[0] == '-') && IsUnsignedDecimalZero(t[1..]))
    || IsNonDecimalZero(t)
  }

  /** `s == 0` for a string `s`: JavaScript converts `s` with `Number(s)`, which trims
      whitespace, reads an empty string as 0 and anything that is not a numeral as NaN. */
  predicate LooselyEqualsZero(s: string) {
    IsZeroNumeral(Trim(s))
  }

  lemma {:induction false} SkipSpacesOverRun(w: string, b: string)
    requires AllSpace(w)
    requires b == [] || !IsSpace(b[0])
    ensures SkipSpaces(w + b) == b
    decreases |w|
  {
    if w == [] {
      assert w + b == b;
    } else {
      assert (w + b)[0] == w[0];
      assert (w + b)[1..] == w[1..] + b;
      SkipSpacesOverRun(w[1..], b);
    }
  }

  lemma {:induction false} SkipSpacesAppend(x: string, y: string)
    requires SkipSpaces(x) != []
    ensures SkipSpaces(x + y) == SkipSpaces(x) + y
    decreases |x|
  {
    assert (x + y)[0] == x[0];
    if IsSpace(x[0]) {
      assert (x + y)[1..] == x[1..] + y;
      SkipSpacesAppend(x[1..], y);
    }
  }

  lemma {:induction false} SkipSpacesAfterRun(w: string, x: string)
    requires AllSpace(w)
    ensures SkipSpaces(w + x) == SkipSpaces(x)
    decreases |w|
  {
    if w == [] {
      assert w + x == x;
    } else {
      assert (w + x)[0] == w[0];
      assert (w + x)[1..] == w[1..] + x;
      SkipSpacesAfterRun(w[1..], x);
    }
  }

  lemma {:induction false} SkipTrailingSpacesBeforeRun(x: string, w: string)
    requires AllSpace(w)
    ensures SkipTrailingSpaces(x + w) == SkipTrailingSpaces(x)
    decreases |w|
  {
    if w == [] {
      assert x + w == x;
    } else {
      assert (x + w)[|x + w| - 1] == w[|w| - 1];
      assert (x + w)[..|x + w| - 1] == x + w[..|w| - 1];
      SkipTrailingSpacesBeforeRun(x, w[..|w| - 1]);
    }
  }

  /** Whitespace around a cell does not change what it trims to. */
  lemma {:induction false} TrimIgnoresPadding(w1: string, s: string, w2: string)
    requires AllSpace(w1) && AllSpace(w2)
    ensures Trim(w1 + s + w2) == Trim(s)
  {
    assert w1 + s + w2 == w1 + (s + w2);
    SkipSpacesAfterRun(w1, s + w2);
    assert Trim(w1 + s + w2) == SkipTrailingSpaces(SkipSpaces(s + w2));
    if SkipSpaces(s) == [] {
      TrimOfBlank(s, w2);
    } else {
      SkipSpacesAppend(s, w2);
      SkipTrailingSpacesBeforeRun(SkipSpaces(s), w2);
    }
  }

  lemma {:induction false} TrimOfBlank(s: string, w2: string)
    requires SkipSpaces(s) == [] && AllSpace(w2)
    ensures SkipSpaces(s + w2) == [] && Trim(s) == []
  {
    assert s[..|s|] == s;
    assert AllSpace(s + w2);
    SkipSpacesOverRun(s + w2, []);
    assert s + w2 + [] == s + w2;
  }

  /** Whitespace around a cell does not change whether it loosely equals 0. */
  lemma {:induction false} LooselyEqualsZeroIgnoresPadding(w1: string, s: string, w2: string)
    requires AllSpace(w1) && AllSpace(w2)
    ensures LooselyEqualsZero(w1 + s + w2) <==> LooselyEqualsZero(s)
  {
    TrimIgnoresPadding(w1, s, w2);
  }

  lemma {:induction false} TrimOfSpaceFree(s: string)
    requires NoSpace(s)
    ensures Trim(s) == s
  {
    assert s == [] || !IsSpace(s[0]);
    assert SkipSpaces(s) == s;
    assert s == [] || !IsSpace(s[|s| - 1]);
  }

  // ---------------------------------------------------------------------------
  // Decimal numerals of years

  function DigitChar(d: nat): (c: char)
    requires d < 10
    ensures IsDigit(c)
  {
    (48 + d) as char
  }

  function DigitValue(c: char): nat
    requires IsDigit(c)
  {
    c as int - 48
  }

  /** The decimal numeral of `n`, most significant digit first, without leading zeros. */
  function NatText(n: nat): (s: string)
    ensures IsDigits(s)
    ensures n > 0 ==> s[0] != '0'
    decreases n
  {
    if n < 10 then [DigitChar(n)] else NatText(n / 10) + [DigitChar(n % 10)]
  }

  /** The number a string of digits denotes. */
  function DecimalValue(s: string): nat
    requires forall i :: 0 <= i < |s| ==> IsDigit(s[i])
    decreases |s|
  {
    if s == [] then 0 else 10 * DecimalValue(s[..|s| - 1]) + DigitValue(s[|s| - 1])
  }

  /** `${n}` for an integer `n`. */
  function IntText(n: int): string {
    if n < 0 then "-" + NatText(-n) else NatText(n)
  }

  /** Reading the numeral back gives the number. */
  lemma {:induction false} NatTextRoundTrip(n: nat)
    ensures DecimalValue(NatText(n)) == n
    decreases n
  {
    if n >= 10 {
      NatTextRoundTrip(n / 10);
      var s := NatText(n);
      assert s[..|s| - 1] == NatText(n / 10);
    }
  }

  /** A numeral without sign, point or exponent is read as 0 exactly when all its digits are 0. */
  lemma {:induction false} DigitsZeroNumeral(d: string)
    requires IsDigits(d)
    ensures IsUnsignedDecimalZero(d) <==> IsZeros(d)
    ensures IsZeroNumeral(d) <==> IsZeros(d)
  {
    assert IndexOfAny(d, {'e', 'E'}) == |d|;
    assert d[..|d|] == d;
    assert IndexOfAny(d, {'.'}) == |d|;
    assert IsDigit(d[0]);
  }

  lemma {:induction false} NegativeZeroNumeral(d: string)
    requires IsDigits(d)
    ensures IsZeroNumeral("-" + d) <==> IsZeros(d)
  {
    var s := "-" + d;
    assert s[1..] == d && s[0] == '-';
    DigitsZeroNumeral(d);
    assert forall i :: 1 <= i < |s| ==> s[i] == d[i - 1];
    var e := IndexOfAny(s, {'e', 'E'});
    assert e == |s|;
    assert s[..|s|] == s;
    var p := IndexOfAny(s, {'.'});
    assert !IsZeros(s[..p]);
  }

  lemma {:induction false} DigitsHaveNoSpace(d: string)
    requires IsDigits(d)
    ensures NoSpace(d) && NoSpace("-" + d)
  {
    forall i | 0 <= i < |d|
      ensures !IsSpace(d[i])
    {
      assert IsDigit(d[i]);
    }
    assert !IsSpace('-');
    var s := "-" + d;
    forall i | 0 <= i < |s|
      ensures !IsSpace(s[i])
    {
      if i > 0 {
        assert s[i] == d[i - 1];
      }
    }
  }

  lemma {:induction false} NatTextZeroNumeral(m: nat)
    ensures IsZeroNumeral(NatText(m)) <==> m == 0
    ensures IsZeroNumeral("-" + NatText(m)) <==> m == 0
  {
    var d := NatText(m);
    DigitsZeroNumeral(d);
    NegativeZeroNumeral(d);
    if m > 0 {
      assert d[0] != '0';
    } else {
      assert d == ['0'];
    }
  }

  /** The text of an integer cell loosely equals 0 exactly when the integer is 0. */
  lemma {:induction false} IntTextLooselyZero(n: int)
    ensures LooselyEqualsZero(IntText(n)) <==> n == 0
  {
    var m: nat := if n < 0 then -n else n;
    DigitsHaveNoSpace(NatText(m));
    TrimOfSpaceFree(IntText(n));
    NatTextZeroNumeral(m);
  }

  // ---------------------------------------------------------------------------
  // Line breaks

  /** `s.split("<br>")`: the pieces of `s` between occurrences of the line-break tag. */
  function SplitLines(s: string): (parts: seq<string>)
    ensures |parts| >= 1
    decreases |s|
  {
    if |s| >= 4 && s[..4] == "<br>" then [[]] + SplitLines(s[4..])
    else if s == [] then [[]]
    else
      var rest := SplitLines(s[1..]);
      [[s[0]] + rest[0]] + rest[1..]
  }

  /** A piece without '<' is one line. */
  lemma {:induction false} SplitLinesOfPlain(a: string)
    requires '<' !in a
    ensures SplitLines(a) == [a]
    decreases |a|
  {
    if a != [] {
      assert a[0] != '<';
      assert |a| >= 4 ==> a[..4][0] == a[0];
      SplitLinesOfPlain(a[1..]);
      assert [a[0]] + a[1..] == a;
    }
  }

  /** Joining a '<'-free line to the rest with `<br>` is undone by splitting. */
  lemma {:induction false} SplitLinesOfJoin(a: string, b: string)
    requires '<' !in a
    ensures SplitLines(a + "<br>" + b) == [a] + SplitLines(b)
    decreases |a|
  {
    var s := a + "<br>" + b;
    if a == [] {
      assert s == "<br>" + b;
      assert s[..4] == "<br>" && s[4..] == b;
    } else {
      assert s[0] == a[0] != '<';
      assert s[..4][0] == s[0];
      assert s[1..] == a[1..] + "<br>" + b;
      SplitLinesOfJoin(a[1..], b);
      assert [a[0]] + a[1..] == a;
    }
  }

  /** Three '<'-free lines joined with `<br>` split back into those three lines. */
  lemma ThreeLines(a: string, b: string, c: string)
    requires '<' !in a && '<' !in b && '<' !in c
    ensures SplitLines(a + "<br>" + b + "<br>" + c) == [a, b, c]
  {
    assert a + "<br>" + b + "<br>" + c == a + "<br>" + (b + "<br>" + c);
    SplitLinesOfJoin(a, b + "<br>" + c);
    SplitLinesOfJoin(b, c);
    SplitLinesOfPlain(c);
  }

  /** A number printed in decimal contains no '<'. */
  lemma IntTextIsPlain(n: int)
    ensures '<' !in IntText(n)
  {
    var m: nat := if n < 0 then -n else n;
    assert IsDigits(NatText(m));
    assert forall i :: 0 <= i < |NatText(m)| ==> NatText(m)[i] != '<';
    assert n < 0 ==> IntText(n) == "-" + NatText(m);
  }
}
