/**
 * `BoolToPrimeConverter`, the WPF value converter between an account's
 * `IsPrime` flag and the text shown in the grid.
 *
 * The converter receives untyped values; `Boxed` names the cases it tells
 * apart (a boxed `bool`, a `string`, anything else including null).
 */
module PrimeConverter {
  import opened TextUtil

  datatype Boxed = BoxedBool(b: bool) | BoxedString(s: string) | Other

  /** `Convert`: a boolean as `"True"` or `"False"`; any other value as `"False"`. */
  function Convert(value: Boxed): (text: string)
    ensures text == "True" || text == "False"
    ensures text == "True" <==> value == BoxedBool(true)
  {
    match value
    case BoxedBool(b) => if b then "True" else "False"
    case _ => "False"
  }

  /** `ConvertBack`: true exactly for a string equal to `"True"` ignoring case.
      For this literal `OrdinalIgnoreCase` only matches ASCII letters, since
      no other character upper-cases to `T`, `R`, `U` or `E`: the accepted
      strings are the sixteen spellings of `true` in any letter case. */
  function ConvertBack(value: Boxed): (b: bool)
    ensures b <==> (value.BoxedString? && |value.s| == 4
                    && value.s[0] in "tT" && value.s[1] in "rR" && value.s[2] in "uU" && value.s[3] in "eE")
  {
    match value
    case BoxedString(s) =>
      assert EqualsIgnoreCaseAscii(s, "True") ==>
        ToLowerAscii(s[0]) == 't' && ToLowerAscii(s[1]) == 'r'
        && ToLowerAscii(s[2]) == 'u' && ToLowerAscii(s[3]) == 'e';
      EqualsIgnoreCaseAscii(s, "True")
    case _ => false
  }

  /** Converting a flag to text and back gives the flag. */
  lemma RoundTrip(b: bool)
    ensures ConvertBack(BoxedString(Convert(BoxedBool(b)))) == b
  {
    if !b {
      assert !EqualsIgnoreCaseAscii("False", "True");
    } else {
      assert ToLowerAscii('T') == 't';
      assert EqualsIgnoreCaseAscii("True", "True");
    }
  }
}
