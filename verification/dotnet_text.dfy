/** The two .NET string tests the entity services validate with. A C#
    `string?` is an `Option<string>`; `None` is `null`. */
module DotNetText {
  import opened Wrappers

  /** `char.IsWhiteSpace`: the Unicode categories Zs, Zl and Zp plus the
      control characters U+0009..U+000D and U+0085. */
  predicate IsWhiteSpace(c: char) {
    || ('\U{0009}' <= c <= '\U{000D}')
    || c == '\U{0020}' || c == '\U{0085}' || c == '\U{00A0}' || c == '\U{1680}'
    || ('\U{2000}' <= c <= '\U{200A}')
    || c == '\U{2028}' || c == '\U{2029}' || c == '\U{202F}' || c == '\U{205F}'
    || c == '\U{3000}'
  }

  /** `string.IsNullOrEmpty` */
  predicate IsNullOrEmpty(s: Option<string>) {
    s == None || s == Some("")
  }

  /** `string.IsNullOrWhiteSpace`: null, or every character is white space. */
  predicate IsNullOrWhiteSpace(s: Option<string>) {
    match s
    case None => true
    case Some(t) => forall i :: 0 <= i < |t| ==> IsWhiteSpace(t[i])
  }

  /** Every string `IsNullOrEmpty` rejects, `IsNullOrWhiteSpace` rejects too;
      the converse fails on a lone space. */
  lemma EmptyIsWhiteSpace(s: Option<string>)
    ensures IsNullOrEmpty(s) ==> IsNullOrWhiteSpace(s)
    ensures !IsNullOrEmpty(Some(" ")) && IsNullOrWhiteSpace(Some(" "))
  {
  }
}
