/**
 * Character classes and line splitting for the relation language.
 * Identifiers are ASCII: a letter or `_`, then letters, digits and `_`.
 */
module Text {

  predicate IsSpace(c: char) { c == ' ' || c == '\t' || c == '\r' }

  predicate IsDigit(c: char) { '0' <= c <= '9' }

  /** A character that may start an identifier. */
  predicate IsLetter(c: char) { 'a' <= c <= 'z' || 'A' <= c <= 'Z' || c == '_' }

  /** A character that may continue an identifier. */
  predicate IsIdentChar(c: char) { IsLetter(c) || IsDigit(c) }

  /** A character of an operand word: identifier characters and the `.` of `theme.plugin`. */
  predicate IsWordChar(c: char) { IsIdentChar(c) || c == '.' }

  /** Position of the first `c` in `s`, or `|s|` when `s` has none. */
  function IndexOf(s: string, c: char): (i: nat)
    ensures i <= |s|
    ensures c !in s[..i]
    ensures i < |s| ==> s[i] == c
  {
    if s == [] || s[0] == c then 0
    else
      var i := 1 + IndexOf(s[1..], c);
      assert s[..i] == [s[0]] + s[1..][..i - 1];
      i
  }

  /** `IndexOf` finds the separator that follows a prefix free of it. */
  lemma IndexOfAfterPrefix(w: string, c: char, rest: string)
    requires c !in w
    ensures IndexOf(w + [c] + rest, c) == |w|
  {
    var s := w + [c] + rest;
    assert s[..|w|] == w && s[|w|] == c;
  }

  /** The lines of a text joined back with newline characters. */
  function JoinLines(lines: seq<string>): string
  {
    if lines == [] then ""
    else if |lines| == 1 then lines[0]
    else lines[0] + "\n" + JoinLines(lines[1..])
  }

  /** The physical lines of a text: the pieces between newline characters. */
  function SplitLines(s: string): (lines: seq<string>)
    ensures |lines| > 0
    ensures forall k :: 0 <= k < |lines| ==> '\n' !in lines[k]
    ensures JoinLines(lines) == s
    decreases |s|
  {
    var i := IndexOf(s, '\n');
    if i == |s| then
      assert s[..i] == s;
      [s]
    else
      var rest := SplitLines(s[i + 1..]);
      assert s == s[..i] + "\n" + s[i + 1..];
      [s[..i]] + rest
  }

  /** Splitting undoes joining, for lines that hold no newline. */
  lemma {:induction false} SplitJoinLines(lines: seq<string>)
    requires |lines| > 0
    requires forall k :: 0 <= k < |lines| ==> '\n' !in lines[k]
    ensures SplitLines(JoinLines(lines)) == lines
  {
    if |lines| == 1 {
      var s := lines[0];
      assert forall k :: 0 <= k < |s| ==> s[k] != '\n';
    } else {
      var rest := JoinLines(lines[1..]);
      IndexOfAfterPrefix(lines[0], '\n', rest);
      var s := lines[0] + "\n" + rest;
      assert s[|lines[0]| + 1..] == rest;
      assert s[..|lines[0]|] == lines[0];
      SplitJoinLines(lines[1..]);
    }
  }
}
