/** The numeric scan both core files perform: `re.search(r"[-+]?\d+(?:\.\d+)?", s)`
    followed by `float(match.group(0))`. The matched token is kept as a
    decimal record; its value is the exact rational number it denotes. */
module Numbers {
  import opened Wrappers
  import opened Chars

  /** The text of one match: an optional sign, a run of digits and an optional
      fraction after a `.`. */
  datatype Decimal = Decimal(sign: string, whole: string, fraction: string)

  predicate IsSign(c: char)
  {
    c == '+' || c == '-'
  }

  predicate AllDigits(s: string)
  {
    forall i :: 0 <= i < |s| ==> IsDecimalDigit(s[i])
  }

  predicate WellFormed(d: Decimal)
  {
    && (d.sign == [] || (|d.sign| == 1 && IsSign(d.sign[0])))
    && d.whole != [] && AllDigits(d.whole) && AllDigits(d.fraction)
  }

  /** The matched text. */
  function Text(d: Decimal): string
  {
    d.sign + d.whole + (if d.fraction == [] then "" else "." + d.fraction)
  }

  /** A match of the pattern can start at position `i`. */
  predicate NumberStartsAt(s: string, i: nat)
  {
    || (i < |s| && IsDecimalDigit(s[i]))
    || (i + 1 < |s| && IsSign(s[i]) && IsDecimalDigit(s[i + 1]))
  }

  /** End of the greedy `\d+` (or of an empty run) starting at `i`. */
  function DigitRunEnd(s: string, i: nat): (e: nat)
    requires i <= |s|
    ensures i <= e <= |s| && AllDigits(s[i..e])
    ensures e == |s| || !IsDecimalDigit(s[e])
    decreases |s| - i
  {
    if i < |s| && IsDecimalDigit(s[i]) then DigitRunEnd(s, i + 1) else i
  }

  /** The token the pattern matches at `i`: the sign is taken when a digit
      follows it, the digit run is greedy, and the fraction is taken only when
      a digit follows the `.`. */
  function TokenAt(s: string, i: nat): (d: Decimal)
    requires NumberStartsAt(s, i)
    ensures WellFormed(d)
    ensures exists e :: i < e <= |s| && s[i..e] == Text(d) && (e == |s| || !IsDecimalDigit(s[e]))
              && (d.fraction == [] ==> !(e + 1 < |s| && s[e] == '.' && IsDecimalDigit(s[e + 1])))
  {
    var signed := !IsDecimalDigit(s[i]);
    var start := if signed then i + 1 else i;
    var e := DigitRunEnd(s, start);
    var hasFraction := e + 1 < |s| && s[e] == '.' && IsDecimalDigit(s[e + 1]);
    var f := if hasFraction then DigitRunEnd(s, e + 1) else e;
    var d := Decimal(s[i..start], s[start..e], if hasFraction then s[e + 1..f] else []);
    TokenTextAt(s, i, start, e, f, hasFraction, d);
    d
  }

  lemma TokenTextAt(s: string, i: nat, start: nat, e: nat, f: nat, hasFraction: bool, d: Decimal)
    requires i <= start <= e <= f <= |s|
    requires hasFraction ==> e + 1 < f && s[e] == '.'
    requires !hasFraction ==> f == e
    requires d == Decimal(s[i..start], s[start..e], if hasFraction then s[e + 1..f] else [])
    ensures s[i..f] == Text(d)
  {
    var tail := if d.fraction == [] then "" else "." + d.fraction;
    assert s[e..f] == tail by {
      if hasFraction {
        assert s[e..f] == [s[e]] + s[e + 1..f];
      }
    }
    assert s[i..e] == d.sign + d.whole;
    assert s[i..f] == s[i..e] + s[e..f];
  }

  /** `re.search`: the leftmost position at or after `from` where a match starts. */
  function FindNumberFrom(s: string, from: nat): (r: Option<nat>)
    requires from <= |s|
    ensures r.Some? ==> from <= r.value < |s| && NumberStartsAt(s, r.value)
    ensures r.Some? ==> forall j :: from <= j < r.value ==> !NumberStartsAt(s, j)
    ensures r.None? ==> forall j :: from <= j < |s| ==> !NumberStartsAt(s, j)
    decreases |s| - from
  {
    if from == |s| then None
    else if NumberStartsAt(s, from) then Some(from)
    else FindNumberFrom(s, from + 1)
  }

  /** The first numeric token of `s`, if there is one. */
  function FirstNumber(s: string): (r: Option<Decimal>)
  {
    match FindNumberFrom(s, 0)
    case None => None
    case Some(i) => Some(TokenAt(s, i))
  }

  function Pow10(n: nat): (p: nat)
    ensures p >= 1
  {
    if n == 0 then 1 else 10 * Pow10(n - 1)
  }

  /** The integer a run of decimal digits spells. */
  function DigitsValue(ds: string): nat
    requires AllDigits(ds)
  {
    if ds == [] then 0 else DigitsValue(ds[..|ds| - 1]) * 10 + DigitValue(ds[|ds| - 1])
  }

  /** The number `float()` reads from a token, taken exactly (no rounding). */
  function Value(d: Decimal): real
    requires WellFormed(d)
  {
    var magnitude := DigitsValue(d.whole) as real + DigitsValue(d.fraction) as real / Pow10(|d.fraction|) as real;
    if d.sign == "-" then -magnitude else magnitude
  }

  /** `float(re.search(r"[-+]?\d+(?:\.\d+)?", s).group(0))`, or `None` when
      nothing matches. */
  function ParseFirstNumber(s: string): Option<real>
  {
    match FirstNumber(s)
    case None => None
    case Some(d) => Some(Value(d))
  }

  /** A number is found exactly when the text holds a decimal digit. */
  lemma FirstNumberIffDigit(s: string)
    ensures FirstNumber(s).Some? <==> exists k :: 0 <= k < |s| && IsDecimalDigit(s[k])
  {
    if k :| 0 <= k < |s| && IsDecimalDigit(s[k]) {
      assert NumberStartsAt(s, k);
    }
    match FindNumberFrom(s, 0)
    case Some(i) =>
      if !IsDecimalDigit(s[i]) {
        assert IsDecimalDigit(s[i + 1]);
      }
    case None =>
  }
}
