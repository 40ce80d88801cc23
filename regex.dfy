/** The `Regex` value of PackageUtil: a constant piece of text or a
    wildcard-ending prefix, with the `deleted` flag that reduction sets. */
module Patterns {
  import opened JavaString

  datatype Regex = Regex(text: string, isWildcard: bool, deleted: bool) {

    /** `Regex.exact`: matches `text` only; not deleted. */
    static function Exact(text: string): (r: Regex)
      ensures r.ToString() == text && r.text == text && !r.isWildcard && !r.deleted
    {
      Regex(text, false, false)
    }

    /** `Regex.prefix`: matches everything starting with `text`; not deleted. */
    static function Prefix(text: string): (r: Regex)
      ensures r.ToString() == text + ".*" && r.text == text && !r.deleted
    {
      Regex(text, true, false)
    }

    /** The rendering: a wildcard is its text followed by ".*", an exact
        regex is its text unchanged; `deleted` plays no part. */
    function ToString(): (r: string)
      ensures StartsWith(r, text)
      ensures |r| == |text| + (if isWildcard then 2 else 0)
      ensures isWildcard ==> EndsWith(r, ".*")
    {
      if isWildcard then text + ".*" else text
    }
  }

  /** Two regexes of the same kind render alike only when their texts agree. */
  lemma ToStringInjective(a: Regex, b: Regex)
    requires a.isWildcard == b.isWildcard
    requires a.ToString() == b.ToString()
    ensures a.text == b.text
  {
    assert a.text == a.ToString()[..|a.text|];
  }
}
