/** Locale-tolerant number input (DimensioningUI/src/lib/numberInput.ts):
    a validator for the regular language  -?\d*[,.]?\d*  and a parser that
    reads a comma as a decimal point and maps everything unparsable to 0. */
module NumberInput {
  import opened Opt

  predicate IsDigit(c: char) { '0' <= c <= '9' }

  predicate IsSeparator(c: char) { c == '.' || c == ',' }

  predicate AllDigits(s: string) {
    forall i | 0 <= i < |s| :: IsDigit(s[i])
  }

  predicate HasDigit(s: string) {
    exists i | 0 <= i < |s| :: IsDigit(s[i])
  }

  /** Index of the first character of `s` in `cs`, or |s| when there is none. */
  function FirstIndexIn(s: string, cs: set<char>): (k: nat)
    ensures k <= |s|
    ensures forall i | 0 <= i < k :: s[i] !in cs
    ensures k < |s| ==> s[k] in cs
    decreases |s|
  {
    if |s| == 0 then 0
    else if s[0] in cs then 0
    else 1 + FirstIndexIn(s[1..], cs)
  }

  /** A numeral cut into its optional sign, the digits before the separator,
      the separator (if any) and the digits after it. */
  datatype Numeral = Numeral(negative: bool, whole: string, separator: Option<char>, fraction: string)

  function Compose(n: Numeral): string {
    (if n.negative then "-" else "")
    + n.whole
    + (match n.separator case Some(c) => [c] case None => "")
    + n.fraction
  }

  /** The grammar of accepted input: optional minus, digits, at most one
      dot or comma, digits. */
  predicate InGrammar(n: Numeral) {
    && AllDigits(n.whole)
    && AllDigits(n.fraction)
    && (n.separator.Some? ==> IsSeparator(n.separator.value))
  }

  /** Cut a string at its first character from `seps`, after an optional
      leading minus. */
  function Decompose(v: string, seps: set<char>): (n: Numeral)
    ensures Compose(n) == v
    ensures n.separator.Some? ==> n.separator.value in seps
    ensures forall i | 0 <= i < |n.whole| :: n.whole[i] !in seps
    ensures n.separator.None? ==> n.fraction == ""
  {
    var negative := |v| > 0 && v[0] == '-';
    assert negative ==> v == "-" + v[1..];
    CutAtSeparator(negative, if negative then v[1..] else v, seps)
  }

  /** The unsigned body cut at its first character from `seps`. */
  function CutAtSeparator(negative: bool, body: string, seps: set<char>): (n: Numeral)
    ensures n.negative == negative
    ensures Compose(n) == (if negative then "-" else "") + body
    ensures n.separator.Some? ==> n.separator.value in seps
    ensures forall i | 0 <= i < |n.whole| :: n.whole[i] !in seps
    ensures n.separator.None? ==> n.fraction == ""
  {
    var k := FirstIndexIn(body, seps);
    if k == |body| then Numeral(negative, body, None, "")
    else
      assert body == body[..k] + [body[k]] + body[k + 1..];
      Numeral(negative, body[..k], Some(body[k]), body[k + 1..])
  }

  const Separators: set<char> := {'.', ','}

  /** isValidNumberInput. */
  predicate IsValidNumberInput(v: string) {
    v == "" ||
    var n := Decompose(v, Separators);
    AllDigits(n.whole) && AllDigits(n.fraction)
  }

  lemma AllDigitsHasNo(s: string, cs: set<char>)
    requires AllDigits(s)
    requires forall c | c in cs :: !IsDigit(c)
    ensures FirstIndexIn(s, cs) == |s|
  {
  }

  lemma {:induction false} FirstIndexInConcat(a: string, b: string, cs: set<char>)
    requires forall i | 0 <= i < |a| :: a[i] !in cs
    ensures FirstIndexIn(a + b, cs) == |a| + FirstIndexIn(b, cs)
    decreases |a|
  {
    if |a| > 0 {
      assert (a + b)[1..] == a[1..] + b;
      FirstIndexInConcat(a[1..], b, cs);
    } else {
      assert a + b == b;
    }
  }

  /** Decompose undoes Compose when the pieces cannot be confused. */
  lemma DecomposeCompose(n: Numeral, seps: set<char>)
    requires '-' !in seps
    requires forall i | 0 <= i < |n.whole| :: n.whole[i] !in seps
    requires n.separator.Some? ==> n.separator.value in seps
    requires n.separator.None? ==> n.fraction == ""
    requires !n.negative && |n.whole| > 0 ==> n.whole[0] != '-'
    ensures Decompose(Compose(n), seps) == n
  {
    var u := n.(negative := false);
    SignOfCompose(n, seps);
    CutCompose(u, seps);
  }

  /** Decompose reads the sign of a composed numeral and cuts the rest. */
  lemma SignOfCompose(n: Numeral, seps: set<char>)
    requires '-' !in seps
    requires n.separator.Some? ==> n.separator.value in seps
    requires n.separator.None? ==> n.fraction == ""
    requires !n.negative && |n.whole| > 0 ==> n.whole[0] != '-'
    ensures Decompose(Compose(n), seps) == CutAtSeparator(n.negative, Compose(n.(negative := false)), seps)
  {
    var v := Compose(n);
    if n.negative {
      ComposeNegative(n);
    } else {
      assert v == Compose(n.(negative := false));
      if |v| > 0 {
        ComposeIndex(n, 0);
      }
    }
  }

  /** Cutting an unsigned composed numeral gives back its pieces. */
  lemma CutCompose(u: Numeral, seps: set<char>)
    requires !u.negative
    requires forall i | 0 <= i < |u.whole| :: u.whole[i] !in seps
    requires u.separator.Some? ==> u.separator.value in seps
    requires u.separator.None? ==> u.fraction == ""
    ensures CutAtSeparator(false, Compose(u), seps) == u
  {
    var sep := match u.separator case Some(c) => [c] case None => "";
    var tail := sep + u.fraction;
    var body := u.whole + tail;
    assert Compose(u) == body;
    FirstIndexInConcat(u.whole, tail, seps);
    var k := FirstIndexIn(body, seps);
    if u.separator.Some? {
      assert tail[0] in seps;
      assert k == |u.whole|;
      assert body[..k] == u.whole;
      assert body[k + 1..] == u.fraction;
    } else {
      assert body == u.whole;
    }
  }

  /** Every string of the grammar is accepted. */
  lemma GrammarAccepted(n: Numeral)
    requires InGrammar(n)
    ensures IsValidNumberInput(Compose(n))
  {
    var m := if n.separator.None? then n.(whole := n.whole + n.fraction, fraction := "") else n;
    assert Compose(m) == Compose(n);
    assert AllDigits(m.whole);
    DecomposeCompose(m, Separators);
  }

  /** Every accepted string belongs to the grammar: its decomposition is a
      grammatical numeral. */
  lemma AcceptedInGrammar(v: string)
    requires IsValidNumberInput(v)
    ensures InGrammar(Decompose(v, Separators))
    ensures Compose(Decompose(v, Separators)) == v
  {
    if v == "" {
      assert Decompose(v, Separators) == Numeral(false, "", None, "");
    }
  }

  function SignWidth(n: Numeral): nat { if n.negative then 1 else 0 }

  function SeparatorWidth(n: Numeral): nat { if n.separator.Some? then 1 else 0 }

  /** What stands at each position of a composed numeral. */
  lemma ComposeIndex(n: Numeral, k: int)
    requires 0 <= k < |Compose(n)|
    ensures |Compose(n)| == SignWidth(n) + |n.whole| + SeparatorWidth(n) + |n.fraction|
    ensures k < SignWidth(n) ==> Compose(n)[k] == '-'
    ensures SignWidth(n) <= k < SignWidth(n) + |n.whole| ==>
              Compose(n)[k] == n.whole[k - SignWidth(n)]
    ensures SignWidth(n) + |n.whole| <= k < SignWidth(n) + |n.whole| + SeparatorWidth(n) ==>
              Compose(n)[k] == n.separator.value
    ensures SignWidth(n) + |n.whole| + SeparatorWidth(n) <= k ==>
              Compose(n)[k] == n.fraction[k - SignWidth(n) - |n.whole| - SeparatorWidth(n)]
  {
    var sign := if n.negative then "-" else "";
    var sep := match n.separator case Some(c) => [c] case None => "";
    assert Compose(n) == sign + n.whole + sep + n.fraction;
  }

  /** A minus sign is accepted only in front. */
  lemma MinusOnlyFirst(v: string, i: int)
    requires IsValidNumberInput(v)
    requires 0 < i < |v|
    ensures v[i] != '-'
  {
    var n := Decompose(v, Separators);
    ComposeIndex(n, i);
  }

  /** In an accepted string at most one position holds a separator. */
  lemma SeparatorUnique(v: string, i: int, j: int)
    requires IsValidNumberInput(v)
    requires 0 <= i < |v| && 0 <= j < |v|
    requires IsSeparator(v[i]) && IsSeparator(v[j])
    ensures i == j
  {
    SeparatorPosition(v, i);
    SeparatorPosition(v, j);
  }

  /** The only separator of an accepted string sits right after the sign
      and the whole digits. */
  lemma SeparatorPosition(v: string, i: int)
    requires IsValidNumberInput(v)
    requires 0 <= i < |v| && IsSeparator(v[i])
    ensures var n := Decompose(v, Separators); i == SignWidth(n) + |n.whole|
  {
    var n := Decompose(v, Separators);
    assert AllDigits(n.whole) && AllDigits(n.fraction);
    ComposeIndex(n, i);
    var w := SignWidth(n) + |n.whole|;
    if i < SignWidth(n) {
      assert false;
    } else if i < w {
      assert false;
    } else if i >= w + SeparatorWidth(n) {
      assert false;
    }
  }

  /** A second separator ("1.2.3", "1,2.3") is always rejected. */
  lemma TwoSeparatorsRejected(v: string, i: int, j: int)
    requires 0 <= i < j < |v|
    requires IsSeparator(v[i]) && IsSeparator(v[j])
    ensures !IsValidNumberInput(v)
  {
    if IsValidNumberInput(v) {
      SeparatorUnique(v, i, j);
    }
  }

  // ---- parseNumber ----

  /** `value.replace(",", ".")`: only the first comma is replaced. */
  function ReplaceFirst(s: string, from: char, to: char): (r: string)
    ensures |r| == |s|
    decreases |s|
  {
    if |s| == 0 then ""
    else if s[0] == from then [to] + s[1..]
    else [s[0]] + ReplaceFirst(s[1..], from, to)
  }

  function DigitValue(c: char): nat
    requires IsDigit(c)
  {
    (c as int - '0' as int) as nat
  }

  /** Value of a string of decimal digits (empty gives 0). */
  function WholeValue(s: string): nat
    requires AllDigits(s)
    decreases |s|
  {
    if |s| == 0 then 0
    else 10 * WholeValue(s[..|s| - 1]) + DigitValue(s[|s| - 1])
  }

  /** Value of the digits after the decimal point. */
  function FractionValue(s: string): real
    requires AllDigits(s)
    decreases |s|
  {
    if |s| == 0 then 0.0
    else (DigitValue(s[0]) as real + FractionValue(s[1..])) / 10.0
  }

  /** The decimal value a numeral denotes. */
  function NumeralValue(n: Numeral): real
    requires InGrammar(n)
  {
    if n.negative then -Magnitude(n) else Magnitude(n)
  }

  /** The value of a numeral's digits, ignoring its sign. */
  function Magnitude(n: Numeral): real
    requires AllDigits(n.whole) && AllDigits(n.fraction)
  {
    WholeValue(n.whole) as real + FractionValue(n.fraction)
  }

  /** JavaScript's `Number(s)` on decimal strings: an optional sign, digits,
      an optional point and digits, with at least one digit; the empty string
      is 0. Anything else is NaN, here None. */
  function JsNumber(s: string): (r: Option<real>)
    ensures s == "" ==> r == Some(0.0)
  {
    if s == "" then Some(0.0)
    else if s[0] == '-' then Negated(UnsignedNumber(s[1..]))
    else if s[0] == '+' then UnsignedNumber(s[1..])
    else UnsignedNumber(s)
  }

  /** `Number` on the text after the sign: digits, an optional point and
      digits, with at least one digit. */
  function UnsignedNumber(body: string): (r: Option<real>) {
    var n := Decompose(body, {'.'});
    if AllDigits(n.whole) && AllDigits(n.fraction) && !n.negative
       && (|n.whole| > 0 || |n.fraction| > 0)
    then Some(Magnitude(n))
    else None
  }

  function Negated(r: Option<real>): Option<real> {
    match r
    case Some(x) => Some(-x)
    case None => None
  }

  /** parseNumber: degenerate input is 0, a comma is read as a point, and
      a result of NaN is replaced by 0. */
  function ParseNumber(value: string): (r: real)
    ensures value in {"", "-", ".", ","} ==> r == 0.0
    ensures JsNumber(ReplaceFirst(value, ',', '.')).None? ==> r == 0.0
  {
    if value == "" || value == "-" || value == "." || value == "," then 0.0
    else
      match JsNumber(ReplaceFirst(value, ',', '.'))
      case Some(x) => x
      case None => 0.0
  }

  lemma {:induction false} ReplaceFirstAbsent(s: string, from: char, to: char)
    requires forall i | 0 <= i < |s| :: s[i] != from
    ensures ReplaceFirst(s, from, to) == s
    decreases |s|
  {
    if |s| > 0 {
      ReplaceFirstAbsent(s[1..], from, to);
    }
  }

  lemma {:induction false} ReplaceFirstAt(s: string, from: char, to: char, k: int)
    requires 0 <= k < |s| && s[k] == from
    requires forall i | 0 <= i < k :: s[i] != from
    ensures ReplaceFirst(s, from, to) == s[k := to]
    decreases |s|
  {
    if k > 0 {
      ReplaceFirstAt(s[1..], from, to, k - 1);
      assert [s[0]] + s[1..][k - 1 := to] == s[k := to];
    }
  }

  /** The string `Number` sees: the numeral with its separator (if any)
      written as a point. */
  function Normalised(n: Numeral): Numeral {
    n.(separator := if n.separator.Some? then Some('.') else None)
  }

  lemma NormalisedText(n: Numeral)
    requires InGrammar(n)
    ensures ReplaceFirst(Compose(n), ',', '.') == Compose(Normalised(n))
  {
    if n.separator == Some(',') {
      NormalisedComma(n);
    } else {
      NormalisedNoComma(n);
    }
  }

  /** In a numeral of the grammar a comma can only be the separator. */
  lemma CommaOnlyAtSeparator(n: Numeral, k: int)
    requires InGrammar(n) && 0 <= k < |Compose(n)| && k != SignWidth(n) + |n.whole|
    ensures Compose(n)[k] != ','
  {
    var p := SignWidth(n) + |n.whole|;
    ComposeIndex(n, k);
    if p < k { assert IsDigit(n.fraction[k - p - SeparatorWidth(n)]); }
    if SignWidth(n) <= k < p { assert IsDigit(n.whole[k - SignWidth(n)]); }
  }

  /** A comma separator is the first comma, and it becomes a point. */
  lemma NormalisedComma(n: Numeral)
    requires InGrammar(n) && n.separator == Some(',')
    ensures ReplaceFirst(Compose(n), ',', '.') == Compose(Normalised(n))
  {
    var v := Compose(n);
    var m := Normalised(n);
    var p := SignWidth(n) + |n.whole|;
    ComposeIndex(n, p);
    ComposeIndex(m, p);
    forall k | 0 <= k < p
      ensures v[k] != ','
    {
      CommaOnlyAtSeparator(n, k);
    }
    ReplaceFirstAt(v, ',', '.', p);
    forall k | 0 <= k < |v|
      ensures Compose(m)[k] == v[p := '.'][k]
    {
      ComposeIndex(n, k);
      ComposeIndex(m, k);
    }
  }

  /** Without a comma separator there is no comma at all to replace. */
  lemma NormalisedNoComma(n: Numeral)
    requires InGrammar(n) && n.separator != Some(',')
    ensures ReplaceFirst(Compose(n), ',', '.') == Compose(Normalised(n))
  {
    var v := Compose(n);
    var p := SignWidth(n) + |n.whole|;
    forall k | 0 <= k < |v|
      ensures v[k] != ','
    {
      if k == p {
        ComposeIndex(n, p);
      } else {
        CommaOnlyAtSeparator(n, k);
      }
    }
    ReplaceFirstAbsent(v, ',', '.');
    assert Normalised(n) == n;
  }

  /** `Number` on an unsigned numeral text. */
  lemma UnsignedNumberOf(u: Numeral)
    requires InGrammar(u) && !u.negative && |u.whole| + |u.fraction| > 0
    requires u.separator.Some? ==> u.separator.value == '.'
    requires u.separator.None? ==> u.fraction == ""
    ensures UnsignedNumber(Compose(u)) == Some(Magnitude(u))
  {
    DecomposeCompose(u, {'.'});
  }

  /** An unsigned numeral text starts with a digit or the point. */
  lemma UnsignedFirst(u: Numeral)
    requires InGrammar(u) && !u.negative && |u.whole| + |u.fraction| > 0
    requires u.separator.None? ==> u.fraction == ""
    ensures |Compose(u)| > 0 && Compose(u)[0] != '+' && Compose(u)[0] != '-'
  {
    ComposeIndex(u, 0);
  }

  /** `Number` reads a text without a sign by its unsigned reading. */
  lemma JsNumberPlain(t: string)
    requires |t| > 0 && t[0] != '+' && t[0] != '-'
    ensures JsNumber(t) == UnsignedNumber(t)
  {
  }

  /** `Number` reads a text starting with a minus sign as the negated
      reading of the rest. */
  lemma JsNumberMinus(s: string)
    requires |s| > 0 && s[0] == '-'
    ensures JsNumber(s) == Negated(UnsignedNumber(s[1..]))
  {
  }

  /** `Number` reads an unsigned numeral text as its value. */
  lemma JsNumberPositive(u: Numeral)
    requires InGrammar(u) && !u.negative && |u.whole| + |u.fraction| > 0
    requires u.separator.Some? ==> u.separator.value == '.'
    requires u.separator.None? ==> u.fraction == ""
    ensures JsNumber(Compose(u)) == Some(Magnitude(u))
  {
    UnsignedFirst(u);
    JsNumberPlain(Compose(u));
    UnsignedNumberOf(u);
  }

  lemma NegatedSome(x: real)
    ensures Negated(Some(x)) == Some(-x)
  {
  }

  /** A negative numeral is written as a minus sign before its unsigned text. */
  lemma ComposeNegative(n: Numeral)
    requires n.negative
    ensures |Compose(n)| > 0 && Compose(n)[0] == '-'
    ensures Compose(n)[1..] == Compose(n.(negative := false))
  {
    var sep: string := match n.separator case Some(c) => [c] case None => "";
    assert Compose(n.(negative := false)) == n.whole + sep + n.fraction by {
      assert "" + n.whole == n.whole;
    }
    assert Compose(n) == "-" + n.whole + sep + n.fraction;
    assert "-" + n.whole + sep + n.fraction == "-" + (n.whole + sep + n.fraction);
  }

  /** `Number` reads a normalised numeral with at least one digit as its
      decimal value. */
  lemma JsNumberOfNumeral(n: Numeral)
    requires InGrammar(n) && |n.whole| + |n.fraction| > 0
    requires n.separator.Some? ==> n.separator.value == '.'
    requires n.separator.None? ==> n.fraction == ""
    ensures JsNumber(Compose(n)) == Some(NumeralValue(n))
  {
    if n.negative {
      JsNumberOfNegative(n);
    } else {
      JsNumberOfNonNegative(n);
    }
  }

  lemma JsNumberOfNegative(n: Numeral)
    requires InGrammar(n) && |n.whole| + |n.fraction| > 0 && n.negative
    requires n.separator.Some? ==> n.separator.value == '.'
    requires n.separator.None? ==> n.fraction == ""
    ensures JsNumber(Compose(n)) == Some(NumeralValue(n))
  {
    ComposeNegative(n);
    JsNumberMinus(Compose(n));
    NegatedMagnitude(n);
  }

  /** The text after the minus reads as the magnitude, negated. */
  lemma NegatedMagnitude(n: Numeral)
    requires InGrammar(n) && |n.whole| + |n.fraction| > 0 && n.negative
    requires n.separator.Some? ==> n.separator.value == '.'
    requires n.separator.None? ==> n.fraction == ""
    ensures Negated(UnsignedNumber(Compose(n.(negative := false)))) == Some(NumeralValue(n))
  {
    var u := n.(negative := false);
    UnsignedShape(n);
    UnsignedNumberOf(u);
    NegatedSome(Magnitude(u));
    NegativeValue(n);
  }

  /** Dropping the sign keeps a numeral's digits and so its magnitude. */
  lemma UnsignedShape(n: Numeral)
    requires InGrammar(n) && |n.whole| + |n.fraction| > 0
    requires n.separator.Some? ==> n.separator.value == '.'
    requires n.separator.None? ==> n.fraction == ""
    ensures var u := n.(negative := false);
            && InGrammar(u) && !u.negative && |u.whole| + |u.fraction| > 0
            && (u.separator.Some? ==> u.separator.value == '.')
            && (u.separator.None? ==> u.fraction == "")
            && Magnitude(u) == Magnitude(n)
  {
  }

  lemma JsNumberOfNonNegative(n: Numeral)
    requires InGrammar(n) && |n.whole| + |n.fraction| > 0 && !n.negative
    requires n.separator.Some? ==> n.separator.value == '.'
    requires n.separator.None? ==> n.fraction == ""
    ensures JsNumber(Compose(n)) == Some(NumeralValue(n))
  {
    JsNumberPositive(n);
  }

  lemma NegativeValue(n: Numeral)
    requires InGrammar(n) && n.negative
    ensures NumeralValue(n) == -Magnitude(n)
  {
  }

  /** A digit of an accepted string sits in the whole or the fraction part. */
  lemma DigitInParts(v: string, i: int)
    requires IsValidNumberInput(v) && 0 <= i < |v| && IsDigit(v[i])
    ensures |Decompose(v, Separators).whole| + |Decompose(v, Separators).fraction| > 0
  {
    ComposeIndex(Decompose(v, Separators), i);
  }

  /** An accepted string with a digit parses to its decimal value, with the
      comma read as a point. */
  lemma ParseAcceptedWithDigit(v: string)
    requires IsValidNumberInput(v) && HasDigit(v)
    ensures InGrammar(Decompose(v, Separators))
    ensures ParseNumber(v) == NumeralValue(Decompose(v, Separators))
  {
    AcceptedInGrammar(v);
    var n := Decompose(v, Separators);
    var i :| 0 <= i < |v| && IsDigit(v[i]);
    DigitInParts(v, i);
    NormalisedReading(n);
    DigitNotDegenerate(v, i);
    ParseOfReading(v, NumeralValue(n));
  }

  /** With the comma read as a point, `Number` reads a numeral of the
      grammar with a digit as its decimal value. */
  lemma NormalisedReading(n: Numeral)
    requires InGrammar(n) && |n.whole| + |n.fraction| > 0
    requires n.separator.None? ==> n.fraction == ""
    ensures JsNumber(ReplaceFirst(Compose(n), ',', '.')) == Some(NumeralValue(n))
  {
    NormalisedText(n);
    NormalisedShape(n);
    JsNumberOfNumeral(Normalised(n));
  }

  /** Normalising keeps a numeral in the grammar, with its digits and so its
      value. */
  lemma NormalisedShape(n: Numeral)
    requires InGrammar(n) && |n.whole| + |n.fraction| > 0
    requires n.separator.None? ==> n.fraction == ""
    ensures var m := Normalised(n);
            && InGrammar(m) && |m.whole| + |m.fraction| > 0
            && (m.separator.Some? ==> m.separator.value == '.')
            && (m.separator.None? ==> m.fraction == "")
            && NumeralValue(m) == NumeralValue(n)
  {
    var m := Normalised(n);
    assert m.whole == n.whole && m.fraction == n.fraction && m.negative == n.negative;
  }

  /** A string with a digit is none of the degenerate inputs. */
  lemma DigitNotDegenerate(v: string, i: int)
    requires 0 <= i < |v| && IsDigit(v[i])
    ensures v !in {"", "-", ".", ","}
  {
    if |v| == 1 { assert v[0] == v[i]; }
  }

  /** Away from the degenerate inputs, parseNumber is `Number`'s reading of
      the text with the comma replaced. */
  lemma ParseOfReading(v: string, x: real)
    requires v !in {"", "-", ".", ","}
    requires JsNumber(ReplaceFirst(v, ',', '.')) == Some(x)
    ensures ParseNumber(v) == x
  {
  }

  /** An accepted string without any digit ("", "-", ".", ",", "-.", "-,")
      parses to 0. */
  lemma ParseAcceptedWithoutDigit(v: string)
    requires IsValidNumberInput(v) && !HasDigit(v)
    ensures ParseNumber(v) == 0.0
  {
    DigitlessForms(v);
    if |v| == 2 {
      MinusSeparatorReadsZero(v);
    }
  }

  /** The accepted strings without a digit. */
  lemma DigitlessForms(v: string)
    requires IsValidNumberInput(v) && !HasDigit(v)
    ensures v in {"", "-", ".", ",", "-.", "-,"}
  {
    AcceptedInGrammar(v);
    var n := Decompose(v, Separators);
    DigitlessParts(v);
    SignAndSeparator(n);
  }

  /** An accepted string without a digit has empty digit parts. */
  lemma DigitlessParts(v: string)
    requires IsValidNumberInput(v) && !HasDigit(v)
    ensures Decompose(v, Separators).whole == "" && Decompose(v, Separators).fraction == ""
  {
    var n := Decompose(v, Separators);
    AcceptedInGrammar(v);
    if |n.whole| > 0 {
      ComposeIndex(n, SignWidth(n));
      assert false;
    }
    if |n.fraction| > 0 {
      ComposeIndex(n, SignWidth(n) + SeparatorWidth(n));
      assert false;
    }
  }

  /** A numeral without digits is its sign and its separator. */
  lemma SignAndSeparator(n: Numeral)
    requires n.whole == "" && n.fraction == ""
    requires n.separator.Some? ==> IsSeparator(n.separator.value)
    ensures Compose(n) in {"", "-", ".", ",", "-.", "-,"}
  {
    var sign: string := if n.negative then "-" else "";
    var sep: string := match n.separator case Some(c) => [c] case None => "";
    assert Compose(n) == sign + sep;
    if n.separator == Some('.') {
      assert Compose(n) == (if n.negative then "-." else ".");
    } else if n.separator == Some(',') {
      assert Compose(n) == (if n.negative then "-," else ",");
    } else {
      assert Compose(n) == sign;
    }
  }

  /** A lone minus sign followed by a separator ("-." or "-,") parses to 0. */
  lemma MinusSeparatorReadsZero(v: string)
    requires |v| == 2 && v[0] == '-' && IsSeparator(v[1])
    ensures ParseNumber(v) == 0.0
  {
    var t := ReplaceFirst(v, ',', '.');
    if v[1] == ',' {
      ReplaceFirstAt(v, ',', '.', 1);
    } else {
      ReplaceFirstAbsent(v, ',', '.');
    }
    assert t[0] == '-' && t[1] == '.';
    PointAloneUnread(t);
  }

  /** `Number("-.")` is NaN. */
  lemma PointAloneUnread(t: string)
    requires |t| == 2 && t[0] == '-' && t[1] == '.'
    ensures JsNumber(t) == None
  {
    JsNumberMinus(t);
    var body := t[1..];
    assert body[0] == '.';
    assert FirstIndexIn(body, {'.'}) == 0;
  }

  // ---- handleNumberInputChange ----

  /** What the change handler does: the value passed to the string setter
      (if it is called) and the number it returns. */
  datatype InputChange = InputChange(stored: Option<string>, parsed: real)

  function HandleNumberInputChange(value: string): (c: InputChange)
    ensures c.stored.Some? <==> IsValidNumberInput(value)
    ensures c.stored.Some? ==> c.stored.value == value
    ensures c.parsed == ParseNumber(value)
  {
    if IsValidNumberInput(value) then InputChange(Some(value), ParseNumber(value))
    else InputChange(None, ParseNumber(value))
  }
}
