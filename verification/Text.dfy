/** Small shared vocabulary: optional values, white space and the two kinds of case folding the client mixes. */
module Text {
  datatype Option<+T> = None | Some(value: T)

  predicate StartsWith(s: string, prefix: string) {
    |prefix| <= |s| && s[..|prefix|] == prefix
  }

  /** White space as Unicode has it. */
  predicate IsSpace(c: char) {
    || '\U{09}' <= c <= '\U{0D}' || c == ' ' || c == '\U{85}' || c == '\U{A0}' || c == '\U{1680}'
    || '\U{2000}' <= c <= '\U{200A}' || c == '\U{2028}' || c == '\U{2029}' || c == '\U{202F}'
    || c == '\U{205F}' || c == '\U{3000}'
  }

  /** ASCII letters and digits. */
  predicate IsAlnum(c: char) {
    '0' <= c <= '9' || 'A' <= c <= 'Z' || 'a' <= c <= 'z'
  }

  /** ASCII-only lower casing of one character, as `eq_ignore_ascii_case` and SQLite's NOCASE use it. */
  function AsciiLowerChar(c: char): char {
    if 'A' <= c <= 'Z' then (c as int + 32) as char else c
  }

  /** By their codes: folding moves the 26 capitals, and letters and digits are three ranges. */
  lemma AsciiCodes(c: char)
    ensures AsciiLowerChar(c) as int == if 65 <= c as int <= 90 then c as int + 32 else c as int
    ensures IsAlnum(c) <==> 48 <= c as int <= 57 || 65 <= c as int <= 90 || 97 <= c as int <= 122
  {
  }

  function AsciiLower(s: string): string {
    seq(|s|, i requires 0 <= i < |s| => AsciiLowerChar(s[i]))
  }

  /** Equality up to ASCII case. */
  predicate EqIgnoreCase(a: string, b: string) {
    AsciiLower(a) == AsciiLower(b)
  }

  /** `to_lowercase` on characters up to U+00FF: it also folds the accented capitals. */
  function LowerChar(c: char): char {
    if 'A' <= c <= 'Z' || ('\U{C0}' <= c <= '\U{DE}' && c != '\U{D7}') then (c as int + 32) as char else c
  }

  function ToLowercase(s: string): string {
    seq(|s|, i requires 0 <= i < |s| => LowerChar(s[i]))
  }

  /** Full lower casing only looks at a name through its ASCII folding: the finer equality refines the coarser. */
  lemma EqIgnoreCaseRefinesLowercase(a: string, b: string)
    requires EqIgnoreCase(a, b)
    ensures ToLowercase(a) == ToLowercase(b)
  {
    assert |a| == |AsciiLower(a)| == |AsciiLower(b)| == |b|;
    forall i | 0 <= i < |a|
      ensures LowerChar(a[i]) == LowerChar(b[i])
    {
      assert AsciiLower(a)[i] == AsciiLower(b)[i];
    }
  }

  /** The converse fails: the capital and small E acute are one name to `to_lowercase` and two to ASCII folding. */
  lemma LowercaseIsCoarser()
    ensures ToLowercase("\U{C9}") == ToLowercase("\U{E9}")
    ensures !EqIgnoreCase("\U{C9}", "\U{E9}")
  {
    assert ToLowercase("\U{C9}") == ['\U{E9}'] == ToLowercase("\U{E9}");
    assert AsciiLower("\U{C9}")[0] != AsciiLower("\U{E9}")[0];
  }
}
