/**
 * `NumberValidator`, the prompt validator used when the rendition is chosen
 * interactively: it accepts the empty answer and decimal numbers below its
 * maximum, and puts the cursor on the first non-digit otherwise.
 */
module Validator {
  import opened Decimal

  /** The verdict of `validate`: accept, or the `ValidationError` it raises. */
  datatype Verdict = Accept | NonNumeric(cursor: nat) | TooLarge

  /** The answers the validator lets through. */
  predicate Accepts(text: string, maximum: int) {
    text == "" || (AllDigits(text) && Parse(text) < maximum)
  }

  method Validate(text: string, maximum: int) returns (v: Verdict)
    ensures v.Accept? <==> Accepts(text, maximum)
    ensures v.NonNumeric? <==> !AllDigits(text)
    ensures v.NonNumeric? ==> v.cursor < |text| && !IsDigit(text[v.cursor]) && AllDigits(text[..v.cursor])
    ensures v.TooLarge? <==> text != "" && AllDigits(text) && Parse(text) >= maximum
  {
    if text != "" {
      if !AllDigits(text) {
        // the cursor goes to the first character that is not a digit
        var i := 0;
        while i < |text|
          invariant 0 <= i <= |text|
          invariant AllDigits(text[..i])
        {
          if !IsDigit(text[i]) {
            break;
          }
          i := i + 1;
        }
        assert text[..|text|] == text;
        return NonNumeric(i);
      } else if Parse(text) >= maximum {
        return TooLarge;
      }
    }
    return Accept;
  }
}
