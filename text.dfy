/** The string primitives the core relies on: .NET's `string.IsNullOrWhiteSpace`
    and `ToLowerInvariant`, and JavaScript's `String.prototype.trim`. */
module Text {

  /** .NET `Char.IsWhiteSpace`: the Unicode White_Space characters, that is
      U+0009..U+000D, U+0020, U+0085, U+00A0, U+1680, U+2000..U+200A, U+2028,
      U+2029, U+202F, U+205F and U+3000. */
  predicate IsWhiteSpace(c: char) {
    || ('\t' <= c <= '\r')
    || c == ' '
    || c == '\U{85}'
    || c == '\U{A0}'
    || c == '\U{1680}'
    || ('\U{2000}' <= c <= '\U{200A}')
    || c == '\U{2028}'
    || c == '\U{2029}'
    || c == '\U{202F}'
    || c == '\U{205F}'
    || c == '\U{3000}'
  }

  /** `string.IsNullOrWhiteSpace` on a non-null string: every character is white space
      (so the empty string qualifies). */
  predicate IsNullOrWhiteSpace(s: string) {
    forall i :: 0 <= i < |s| ==> IsWhiteSpace(s[i])
  }

  /** The upper-case letters whose invariant lower-case form the model knows:
      ASCII A..Z and the Latin-1 letters U+00C0..U+00DE other than U+00D7. */
  predicate IsUpper(c: char) {
    ('A' <= c <= 'Z') || ('\U{C0}' <= c <= '\U{DE}' && c != '\U{D7}')
  }

  function ToLowerChar(c: char): (r: char)
    ensures !IsUpper(r)
    ensures IsWhiteSpace(r) <==> IsWhiteSpace(c)
    ensures !IsUpper(c) ==> r == c
  {
    if IsUpper(c) then (c as int + 32) as char else c
  }

  /** `string.ToLowerInvariant`, character by character. */
  function ToLowerInvariant(s: string): string {
    seq(|s|, i requires 0 <= i < |s| => ToLowerChar(s[i]))
  }

  predicate IsLowerCase(s: string) {
    forall i :: 0 <= i < |s| ==> !IsUpper(s[i])
  }

  /** Lower-casing keeps the length, leaves no upper-case letter, changes no
      character that is not an upper-case letter, and keeps a string blank or
      non-blank. */
  lemma ToLowerInvariantProperties(s: string)
    ensures |ToLowerInvariant(s)| == |s|
    ensures IsLowerCase(ToLowerInvariant(s))
    ensures IsLowerCase(s) ==> ToLowerInvariant(s) == s
    ensures IsNullOrWhiteSpace(ToLowerInvariant(s)) <==> IsNullOrWhiteSpace(s)
  {
    var r := ToLowerInvariant(s);
    if IsNullOrWhiteSpace(r) {
      forall i | 0 <= i < |s| ensures IsWhiteSpace(s[i]) {
        assert r[i] == ToLowerChar(s[i]);
      }
    }
  }

  /** Lower-casing twice is lower-casing once, so comparing lower-cased forms is
      insensitive to whether the input was already lower-cased. */
  lemma ToLowerInvariantIdempotent(s: string)
    ensures ToLowerInvariant(ToLowerInvariant(s)) == ToLowerInvariant(s)
  {
    ToLowerInvariantProperties(s);
    ToLowerInvariantProperties(ToLowerInvariant(s));
  }

  /** The white space that JavaScript's `trim` removes: U+0009..U+000D, U+0020,
      U+00A0, U+1680, U+2000..U+200A, U+2028, U+2029, U+202F, U+205F, U+3000 and
      U+FEFF. Unlike .NET it includes U+FEFF and excludes U+0085. */
  predicate IsJsWhiteSpace(c: char) {
    || ('\t' <= c <= '\r')
    || c == ' '
    || c == '\U{A0}'
    || c == '\U{1680}'
    || ('\U{2000}' <= c <= '\U{200A}')
    || c == '\U{2028}'
    || c == '\U{2029}'
    || c == '\U{202F}'
    || c == '\U{205F}'
    || c == '\U{3000}'
    || c == '\U{FEFF}'
  }

  function JsTrimStart(s: string): (r: string)
    ensures |r| <= |s| && r == s[|s| - |r|..]
    ensures r != [] ==> !IsJsWhiteSpace(r[0])
    ensures forall i :: 0 <= i < |s| - |r| ==> IsJsWhiteSpace(s[i])
  {
    if s != [] && IsJsWhiteSpace(s[0]) then JsTrimStart(s[1..]) else s
  }

  function JsTrimEnd(s: string): (r: string)
    ensures |r| <= |s| && r == s[..|r|]
    ensures r != [] ==> !IsJsWhiteSpace(r[|r| - 1])
    ensures forall i :: |r| <= i < |s| ==> IsJsWhiteSpace(s[i])
  {
    if s != [] && IsJsWhiteSpace(s[|s| - 1]) then JsTrimEnd(s[..|s| - 1]) else s
  }

  /** `s.trim()`. */
  function JsTrim(s: string): string {
    JsTrimEnd(JsTrimStart(s))
  }

  /** `!s.trim()` holds exactly when every character of `s` is JavaScript white space. */
  lemma JsTrimEmpty(s: string)
    ensures JsTrim(s) == "" <==> forall i :: 0 <= i < |s| ==> IsJsWhiteSpace(s[i])
  {
    var t := JsTrimStart(s);
    if JsTrim(s) == "" {
      assert t == [];
    } else if forall i :: 0 <= i < |s| ==> IsJsWhiteSpace(s[i]) {
      if t != [] {
        assert t[0] == s[|s| - |t|];
      }
    }
  }

  /** The two white-space sets disagree: the server treats U+0085 as white space
      but the client's `trim` does not, and the client trims U+FEFF, which the
      server keeps. */
  lemma WhiteSpaceSetsDiffer()
    ensures IsNullOrWhiteSpace("\U{85}") && JsTrim("\U{85}") != ""
    ensures !IsNullOrWhiteSpace("\U{FEFF}") && JsTrim("\U{FEFF}") == ""
  {
    JsTrimEmpty("\U{85}");
    JsTrimEmpty("\U{FEFF}");
    assert !IsWhiteSpace("\U{FEFF}"[0]);
  }
}
