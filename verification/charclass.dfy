/** Character classes and case folding used by every search: ECMAScript's
    `\s` (also what `String.prototype.trim` strips), `\w`, and
    `toLowerCase` restricted to a length-keeping per-character map. */
module CharClass {

  /** `/\s/`: the WhiteSpace and LineTerminator code points of ECMAScript. */
  predicate IsSpace(c: char)
  {
    || c == '\t' || c == '\n' || c == '\U{B}' || c == '\U{C}' || c == '\r'
    || c == ' ' || c == '\U{A0}' || c == '\U{1680}'
    || ('\U{2000}' <= c <= '\U{200A}')
    || c == '\U{2028}' || c == '\U{2029}' || c == '\U{202F}' || c == '\U{205F}'
    || c == '\U{3000}' || c == '\U{FEFF}'
  }

  /** `/\w/` without the `u` flag: ASCII letters, digits and underscore. */
  predicate IsWordChar(c: char)
  {
    ('a' <= c <= 'z') || ('A' <= c <= 'Z') || ('0' <= c <= '9') || c == '_'
  }

  /** The string is empty or whitespace only, as a failing `trim` test finds. */
  predicate IsBlank(s: seq<char>)
  {
    forall i :: 0 <= i < |s| ==> IsSpace(s[i])
  }

  /** The string holds no whitespace at all. */
  predicate NoSpace(s: seq<char>)
  {
    forall i :: 0 <= i < |s| ==> !IsSpace(s[i])
  }

  /** Lower-casing of one character (ASCII upper-case letters only). */
  function FoldChar(c: char): (d: char)
    ensures IsSpace(d) <==> IsSpace(c)
    ensures IsWordChar(d) <==> IsWordChar(c)
    ensures !('A' <= d <= 'Z')
    ensures d == c || ('A' <= c <= 'Z' && d as int == c as int + 32)
  {
    if 'A' <= c <= 'Z' then (c as int + 32) as char else c
  }

  /** `toLowerCase` as a per-character map: the length never changes. */
  function Fold(s: seq<char>): (r: seq<char>)
    ensures |r| == |s|
    ensures forall i :: 0 <= i < |s| ==> r[i] == FoldChar(s[i])
  {
    seq(|s|, i requires 0 <= i < |s| => FoldChar(s[i]))
  }

  /** The string as searched: verbatim when case-sensitive, lower-cased
      otherwise. */
  function Cased(caseSensitive: bool, s: seq<char>): (r: seq<char>)
    ensures |r| == |s|
  {
    if caseSensitive then s else Fold(s)
  }

  /** Folding twice is folding once. */
  lemma FoldIdempotent(s: seq<char>)
    ensures Fold(Fold(s)) == Fold(s)
  {
  }

  /** Folding keeps whitespace where it was, so blank and whitespace-free
      strings stay so. */
  lemma FoldKeepsSpace(s: seq<char>)
    ensures forall i :: 0 <= i < |s| ==> (IsSpace(Fold(s)[i]) <==> IsSpace(s[i]))
    ensures IsBlank(Fold(s)) <==> IsBlank(s)
    ensures NoSpace(Fold(s)) <==> NoSpace(s)
  {
  }
}
