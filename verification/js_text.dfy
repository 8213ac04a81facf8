/** String behaviour of the browser client: `String.prototype.trim` and the
    truthiness of strings that may be `null` or `undefined` (both `None`). */
module JsText {
  import opened Wrappers

  /** The characters `trim` strips: ECMAScript WhiteSpace (TAB, VT, FF,
      ZWNBSP U+FEFF and category Zs) and LineTerminator (LF, CR, U+2028,
      U+2029). Unlike .NET, U+0085 is not included and U+FEFF is. */
  predicate IsTrimmable(c: char) {
    || ('\U{0009}' <= c <= '\U{000D}')
    || c == '\U{0020}' || c == '\U{00A0}' || c == '\U{1680}'
    || ('\U{2000}' <= c <= '\U{200A}')
    || c == '\U{2028}' || c == '\U{2029}' || c == '\U{202F}' || c == '\U{205F}'
    || c == '\U{3000}' || c == '\U{FEFF}'
  }

  /** `s.trimStart()` */
  function TrimStart(s: string): (r: string)
    ensures |r| <= |s| && r == s[|s| - |r|..]
    ensures r == [] || !IsTrimmable(r[0])
    ensures forall i :: 0 <= i < |s| - |r| ==> IsTrimmable(s[i])
  {
    if s != [] && IsTrimmable(s[0]) then TrimStart(s[1..]) else s
  }

  /** `s.trimEnd()` */
  function TrimEnd(s: string): (r: string)
    ensures |r| <= |s| && r == s[..|r|]
    ensures r == [] || !IsTrimmable(r[|r| - 1])
    ensures forall i :: |r| <= i < |s| ==> IsTrimmable(s[i])
  {
    if s != [] && IsTrimmable(s[|s| - 1]) then TrimEnd(s[..|s| - 1]) else s
  }

  /** `s.trim()` */
  function Trim(s: string): string {
    TrimEnd(TrimStart(s))
  }

  /** A string is falsy exactly when it is empty. */
  predicate Truthy(s: string) {
    s != ""
  }

  /** A possibly missing string is truthy when present and non-empty. */
  predicate TruthyOpt(s: Option<string>) {
    s.Some? && Truthy(s.value)
  }

  /** `!s.trim()`: the string is blank. */
  predicate Blank(s: string) {
    !Truthy(Trim(s))
  }

  /** `trim` leaves nothing exactly when every character is trimmable. */
  lemma BlankIff(s: string)
    ensures Blank(s) <==> forall i :: 0 <= i < |s| ==> IsTrimmable(s[i])
  {
    var t := TrimStart(s);
    if t != [] {
      // a surviving first character is not trimmable, so `trimEnd` keeps it
      assert TrimEnd(t) != [];
    }
  }
}
