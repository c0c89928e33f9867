/** Character classes and the plain string rewriting that the column-name
    standardizer and the numeric coercer are built from. */
module Chars {

  /** Python's whitespace (`str.isspace`, and `\s` in a `str` pattern). */
  predicate IsSpace(ch: char) {
    ('\t' <= ch <= '\r') || ('\U{1C}' <= ch <= ' ') || ch == '\U{85}' || ch == '\U{A0}'
    || ch == '\U{1680}' || ('\U{2000}' <= ch <= '\U{200A}') || ch == '\U{2028}'
    || ch == '\U{2029}' || ch == '\U{202F}' || ch == '\U{205F}' || ch == '\U{3000}'
  }

  /** The upper-case letters whose lower-case form `str.lower` gives as one
      character 32 code points further on: ASCII and Latin-1. */
  predicate IsUpper(ch: char) {
    ('A' <= ch <= 'Z') || ('\U{C0}' <= ch <= '\U{DE}' && ch != '\U{D7}')
  }

  function ToLower(ch: char): (r: char)
    ensures !IsUpper(r)
    ensures IsSpace(r) <==> IsSpace(ch)
    ensures !IsUpper(ch) ==> r == ch
    ensures (r == '%' || r == '$') <==> (ch == '%' || ch == '$')
  {
    if IsUpper(ch) then (ch as int + 32) as char else ch
  }

  /** `str.lower()`: no upper-case letter is left, and every other
      character is kept in place. */
  function Lower(s: string): (r: string)
    ensures |r| == |s|
    ensures forall i :: 0 <= i < |r| ==> !IsUpper(r[i])
    ensures forall i :: 0 <= i < |s| && !IsUpper(s[i]) ==> r[i] == s[i]
  {
    seq(|s|, i requires 0 <= i < |s| => ToLower(s[i]))
  }

  /** `s.replace(ch, rep)` for a one-character pattern. */
  function Replace(s: string, ch: char, rep: string): string {
    if s == [] then []
    else (if s[0] == ch then rep else [s[0]]) + Replace(s[1..], ch, rep)
  }

  /** Every character of a replacement result is either a character of the
      input other than the replaced one, or a character of the replacement. */
  lemma {:induction false} ReplaceChars(s: string, ch: char, rep: string)
    ensures forall c :: c in Replace(s, ch, rep) ==> (c in s && c != ch) || c in rep
  {
    if s != [] {
      ReplaceChars(s[1..], ch, rep);
      forall c | c in Replace(s, ch, rep)
        ensures (c in s && c != ch) || c in rep
      {
        var head := if s[0] == ch then rep else [s[0]];
        assert Replace(s, ch, rep) == head + Replace(s[1..], ch, rep);
        if c in head {
        } else {
          assert c in Replace(s[1..], ch, rep);
        }
      }
    }
  }

  /** Replacing a character that does not occur changes nothing. */
  lemma {:induction false} ReplaceAbsent(s: string, ch: char, rep: string)
    requires ch !in s
    ensures Replace(s, ch, rep) == s
  {
    if s != [] {
      ReplaceAbsent(s[1..], ch, rep);
      assert [s[0]] + s[1..] == s;
    }
  }

  /** Replacement distributes over concatenation. */
  lemma {:induction false} ReplaceAppend(a: string, b: string, ch: char, rep: string)
    ensures Replace(a + b, ch, rep) == Replace(a, ch, rep) + Replace(b, ch, rep)
  {
    if a == [] {
      assert a + b == b;
    } else {
      assert (a + b)[1..] == a[1..] + b;
      ReplaceAppend(a[1..], b, ch, rep);
    }
  }
}
