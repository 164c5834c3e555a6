/** Cell values and their display text (the Cell Formatter). A Go cell is an
    `any`; every renderer shows it through `fmt.Sprintf("%v", cell)`. */
module Values {
  import opened Text

  /** A cell value. Strings, integers and booleans have their `%v` text
      computed here; a floating-point or any other value carries the text Go's
      formatter gives it, since that formatting is not part of this model. */
  datatype Value =
    | Str(s: string)
    | Int(i: int)
    | Bool(b: bool)
    | Float(shown: string)
    | Other(shown: string)

  type Row = seq<Value>

  /** `fmt.Sprintf("%v", v)`. */
  function Format(v: Value): string
  {
    match v
    case Str(s) => s
    case Int(i) => IntToDecimal(i)
    case Bool(b) => if b then "true" else "false"
    case Float(shown) => shown
    case Other(shown) => shown
  }

  /** The digits of a magnitude: at least one, all decimal digits, no
      leading zero unless the magnitude is zero, and denoting it. */
  predicate DenotesMagnitude(digits: string, n: nat)
  {
    && |digits| >= 1
    && (forall k :: 0 <= k < |digits| ==> IsDigit(digits[k]))
    && (digits[0] == '0' ==> n == 0)
    && DecimalValue(digits) == n
  }

  lemma DigitsDenote(n: nat)
    ensures DenotesMagnitude(NatToDecimal(n), n)
  {
    DecimalRoundTrip(n);
  }

  /** The text of an integer cell reads back as the integer: a minus sign
      exactly for negative values, then the digits of the magnitude. */
  lemma FormatIntReadsBack(i: int)
    ensures var s := Format(Int(i));
      && |s| >= 1
      && (s[0] == '-' <==> i < 0)
      && DenotesMagnitude(if i < 0 then s[1..] else s, if i < 0 then -i else i)
  {
    if i < 0 {
      var digits := NatToDecimal(-i);
      assert ("-" + digits)[1..] == digits;
      DigitsDenote(-i);
    } else {
      DigitsDenote(i);
      assert IsDigit(NatToDecimal(i)[0]);
    }
  }
}
