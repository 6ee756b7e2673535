/**
  The standard-library string operations the .bcf format relies on:
  `str::lines`, `str::split_whitespace` and `char::is_whitespace`, and the
  newline-joined output that repeated `format!("{}\n{}", ...)` produces.
*/
module Text {

  /** char::is_whitespace: the Unicode White_Space property. */
  predicate IsWhitespace(c: char)
  {
    || ('\t' <= c <= '\r') || c == ' ' || c == '\U{0085}' || c == '\U{00A0}' || c == '\U{1680}'
    || ('\U{2000}' <= c <= '\U{200A}') || c == '\U{2028}' || c == '\U{2029}' || c == '\U{202F}'
    || c == '\U{205F}' || c == '\U{3000}'
  }

  /** A non-empty run of non-whitespace characters. */
  predicate IsToken(t: string)
  {
    |t| > 0 && forall k :: 0 <= k < |t| ==> !IsWhitespace(t[k])
  }

  /** Index of the first '\n', or |s| when there is none. */
  function NewlineIndex(s: string): (i: nat)
    ensures i <= |s|
    ensures i < |s| ==> s[i] == '\n'
    ensures forall k :: 0 <= k < i ==> s[k] != '\n'
  {
    if s == [] || s[0] == '\n' then 0 else 1 + NewlineIndex(s[1..])
  }

  /** A line holds no '\n'. */
  predicate NoNewline(s: string)
  {
    forall k :: 0 <= k < |s| ==> s[k] != '\n'
  }

  /** Drops the '\r' of a "\r\n" line ending. */
  function StripCarriageReturn(line: string): string
  {
    if |line| > 0 && line[|line| - 1] == '\r' then line[..|line| - 1] else line
  }

  /**
    str::lines: split at "\n" or "\r\n"; the final line ending is optional, so
    a trailing newline does not produce an empty last line.
  */
  function Lines(s: string): (lines: seq<string>)
    ensures lines == [] <==> s == []
    ensures forall k :: 0 <= k < |lines| ==> NoNewline(lines[k])
    decreases |s|
  {
    if s == [] then []
    else
      var i := NewlineIndex(s);
      if i == |s| then [s] else [StripCarriageReturn(s[..i])] + Lines(s[i + 1..])
  }

  /** Length of the leading run of non-whitespace characters. */
  function TokenEnd(s: string): (i: nat)
    ensures i <= |s|
    ensures |s| > 0 && !IsWhitespace(s[0]) ==> i > 0
    ensures forall k :: 0 <= k < i ==> !IsWhitespace(s[k])
    ensures i < |s| ==> IsWhitespace(s[i])
  {
    if s == [] || IsWhitespace(s[0]) then 0 else 1 + TokenEnd(s[1..])
  }

  /** str::split_whitespace: the maximal non-whitespace runs, in order. */
  function SplitWhitespace(s: string): (tokens: seq<string>)
    ensures forall k :: 0 <= k < |tokens| ==> IsToken(tokens[k])
    decreases |s|
  {
    if s == [] then []
    else if IsWhitespace(s[0]) then SplitWhitespace(s[1..])
    else
      var n := TokenEnd(s);
      [s[..n]] + SplitWhitespace(s[n..])
  }

  /** Lines joined with '\n' between them and no trailing newline. */
  function Join(lines: seq<string>): string
  {
    if lines == [] then ""
    else if |lines| == 1 then lines[0]
    else lines[0] + "\n" + Join(lines[1..])
  }

  /** A line that `lines()` gives back unchanged: non-empty, no '\n', not ending in '\r'. */
  predicate PlainLine(line: string)
  {
    |line| > 0 && (forall k :: 0 <= k < |line| ==> line[k] != '\n') && line[|line| - 1] != '\r'
  }

  lemma {:induction false} JoinSnoc(lines: seq<string>, line: string)
    requires |lines| > 0
    ensures Join(lines + [line]) == Join(lines) + "\n" + line
  {
    if |lines| > 1 {
      assert (lines + [line])[1..] == lines[1..] + [line];
      JoinSnoc(lines[1..], line);
    }
  }

  /** Splitting the joined text at its newlines gives the lines back. */
  lemma {:induction false} LinesOfJoin(lines: seq<string>)
    requires forall k :: 0 <= k < |lines| ==> PlainLine(lines[k])
    ensures Lines(Join(lines)) == lines
  {
    if |lines| == 1 {
      assert NewlineIndex(lines[0]) == |lines[0]|;
    } else if |lines| > 1 {
      var head := lines[0];
      var rest := Join(lines[1..]);
      var s := head + "\n" + rest;
      assert s[..|head|] == head;
      assert s[|head|] == '\n';
      assert forall k :: 0 <= k < |head| ==> s[k] != '\n';
      assert NewlineIndex(s) == |head|;
      assert s[|head| + 1..] == rest;
      LinesOfJoin(lines[1..]);
    }
  }

  lemma {:induction false} TokenEndOf(t: string, rest: string)
    requires IsToken(t)
    requires rest == [] || IsWhitespace(rest[0])
    ensures TokenEnd(t + rest) == |t|
    decreases |t|
  {
    if |t| > 1 {
      assert (t + rest)[1..] == t[1..] + rest;
      TokenEndOf(t[1..], rest);
    } else {
      assert (t + rest)[1..] == rest;
    }
  }

  /** A token followed by a space and more text splits off as the first token. */
  lemma SplitTokenSpace(t: string, rest: string)
    requires IsToken(t)
    ensures SplitWhitespace(t + " " + rest) == [t] + SplitWhitespace(rest)
  {
    var s := t + " " + rest;
    TokenEndOf(t, " " + rest);
    assert s == t + (" " + rest);
    assert s[..|t|] == t;
    assert s[|t|..] == " " + rest;
    assert (" " + rest)[1..] == rest;
  }

  /** A lone token splits to itself. */
  lemma SplitToken(t: string)
    requires IsToken(t)
    ensures SplitWhitespace(t) == [t]
  {
    TokenEndOf(t, []);
    assert t + [] == t;
    assert t[..|t|] == t;
  }
}
