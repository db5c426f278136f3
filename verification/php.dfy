/** The two notions of "nothing was submitted" the source relies on: PHP's
    `empty()` (used by the record controller) and the request validator's
    `required` rule, plus a shape for request inputs that may be absent,
    null, well-typed or of the wrong type. */
module Php {
  import opened Results

  /** A request input as the validator sees it. `Malformed` stands for a
      value of the wrong JSON type (a float where an integer is expected, a
      string where an array is expected, and so on). */
  datatype Input<+T> = Absent | Null | Given(v: T) | Malformed

  /** PHP `empty()` on a string-or-null input: null, "" and "0" are empty. */
  predicate EmptyText(v: Option<string>) {
    v.None? || v.value == "" || v.value == "0"
  }

  /** PHP `empty()` on an array-or-null input: null and [] are empty. */
  predicate EmptyList<T>(v: Option<seq<T>>) {
    v.None? || |v.value| == 0
  }

  /** The characters PHP's `trim` strips by default. */
  predicate Trimmed(c: char) {
    c == ' ' || c == '\t' || c == '\n' || c == '\r' || c == '\0' || c == '\U{000B}'
  }

  /** A string the validator's `required` rule treats as missing: it trims to "". */
  predicate Blank(s: string) {
    forall i | 0 <= i < |s| :: Trimmed(s[i])
  }

  /** The validator's `required` rule on a string-or-null input. */
  predicate FilledText(v: Option<string>) {
    v.Some? && !Blank(v.value)
  }

  /** The validator's `required` rule on an array-or-null input. */
  predicate FilledList<T>(v: Option<seq<T>>) {
    v.Some? && |v.value| > 0
  }

  /** `"0"` is a value the validator accepts as present but that PHP's
      `empty()` treats as absent; the record controller therefore stores
      nothing for it. */
  lemma ZeroIsFilledButEmpty()
    ensures FilledText(Some("0")) && EmptyText(Some("0"))
  {
    assert !Trimmed('0');
    assert "0"[0] == '0';
  }

  /** `"0"` is the only string on which the two notions disagree that way:
      every other string the validator accepts is non-empty for PHP. */
  lemma ZeroOnlyFilledButEmpty(v: string)
    ensures FilledText(Some(v)) && EmptyText(Some(v)) <==> v == "0"
  {
    if v == "0" {
      ZeroIsFilledButEmpty();
    }
  }
}
