/**
 * The parts of the JavaScript string library the core relies on:
 * `String.prototype.trim`, `String.prototype.split(' ')` and the ordering
 * used to compare sort keys.
 */
module JsString {

  /** ECMAScript WhiteSpace and LineTerminator code points: the characters `trim` removes. */
  predicate IsWhitespace(c: char) {
    c == '\t' || c == '\n' || c == '\U{000B}' || c == '\U{000C}' || c == '\r' || c == ' '
    || c == '\U{00A0}' || c == '\U{1680}' || ('\U{2000}' <= c <= '\U{200A}')
    || c == '\U{2028}' || c == '\U{2029}' || c == '\U{202F}' || c == '\U{205F}'
    || c == '\U{3000}' || c == '\U{FEFF}'
  }

  /** Every character of `s` is whitespace (this includes the empty string). */
  predicate Blank(s: string) {
    forall k :: 0 <= k < |s| ==> IsWhitespace(s[k])
  }

  /** No whitespace at either end. */
  predicate Trimmed(s: string) {
    s == [] || (!IsWhitespace(s[0]) && !IsWhitespace(s[|s| - 1]))
  }

  /** The number of whitespace characters at the start of `s`. */
  function LeadingCount(s: string): (n: nat)
    ensures n <= |s| && Blank(s[..n]) && (n == |s| || !IsWhitespace(s[n]))
    decreases |s|
  {
    if s != [] && IsWhitespace(s[0]) then 1 + LeadingCount(s[1..]) else 0
  }

  /** The number of whitespace characters at the end of `s`. */
  function TrailingCount(s: string): (n: nat)
    ensures n <= |s| && Blank(s[|s| - n..]) && (n == |s| || !IsWhitespace(s[|s| - n - 1]))
    decreases |s|
  {
    if s != [] && IsWhitespace(s[|s| - 1]) then 1 + TrailingCount(s[..|s| - 1]) else 0
  }

  /** Where `trim` cuts: after the leading whitespace, before the trailing whitespace. */
  function TrimStart(s: string): (i: nat)
    ensures i <= |s|
  {
    LeadingCount(s)
  }

  function TrimEnd(s: string): (j: nat)
    ensures TrimStart(s) <= j <= |s|
  {
    |s| - TrailingCount(s[TrimStart(s)..])
  }

  /**
   * `s.trim()`: the slice of `s` left after removing whitespace from both ends.
   * The result is empty exactly when `s` is blank, and otherwise neither starts
   * nor ends with whitespace.
   */
  function Trim(s: string): (r: string)
    ensures Trimmed(r)
    ensures r == [] <==> Blank(s)
  {
    TrimmedMiddle(s);
    TrimEmptyIffBlank(s);
    s[TrimStart(s)..TrimEnd(s)]
  }

  lemma TrimmedMiddle(s: string)
    ensures Trimmed(s[TrimStart(s)..TrimEnd(s)])
  {
    var i, j := TrimStart(s), TrimEnd(s);
    var t := s[i..];
    var n := TrailingCount(t);
    if i < j {
      assert s[i..j][0] == t[0];
      assert s[i..j][j - i - 1] == t[|t| - n - 1];
    }
  }

  lemma TrimEmptyIffBlank(s: string)
    ensures TrimStart(s) == TrimEnd(s) <==> Blank(s)
  {
    var i, j := TrimStart(s), TrimEnd(s);
    if i == j {
      var t := s[i..];
      assert t[|t| - TrailingCount(t)..] == t;
      assert s == s[..i] + t;
    } else {
      assert !IsWhitespace(s[i]);
    }
  }

  /** `trim` removes only whitespace: the result is a slice of `s` with blank text on either side. */
  lemma TrimCutsWhitespace(s: string)
    ensures exists i :: 0 <= i <= |s| - |Trim(s)| && Trim(s) == s[i..i + |Trim(s)|]
                        && Blank(s[..i]) && Blank(s[i + |Trim(s)|..])
  {
    var i, j := TrimStart(s), TrimEnd(s);
    var r, t := Trim(s), s[i..];
    assert Blank(s[j..]) by {
      assert s[j..] == t[|t| - TrailingCount(t)..];
    }
    assert r == s[i..j] && i + |r| == j;
    assert 0 <= i <= |s| - |r| && r == s[i..i + |r|] && Blank(s[..i]) && Blank(s[i + |r|..]);
  }

  /** Trimming a trimmed string changes nothing, so `trim` is idempotent. */
  lemma TrimOfTrimmed(s: string)
    requires Trimmed(s)
    ensures Trim(s) == s
  {
  }

  lemma TrimIdempotent(s: string)
    ensures Trim(Trim(s)) == Trim(s)
  {
    TrimOfTrimmed(Trim(s));
  }

  /** Joins pieces with one separator between consecutive pieces (the inverse of `Split`). */
  function Join(pieces: seq<string>, sep: char): string
    requires |pieces| >= 1
  {
    if |pieces| == 1 then pieces[0] else pieces[0] + [sep] + Join(pieces[1..], sep)
  }

  /**
   * `s.split(sep)` for a one-character separator: the maximal runs between
   * separators, in order. There is always at least one piece (`"".split(' ')`
   * is `[""]`), no piece holds the separator, and joining gives back `s`.
   */
  function Split(s: string, sep: char): (pieces: seq<string>)
    ensures |pieces| >= 1
    ensures forall k :: 0 <= k < |pieces| ==> sep !in pieces[k]
    ensures Join(pieces, sep) == s
    decreases |s|
  {
    if s == [] then [""]
    else
      var rest := Split(s[1..], sep);
      if s[0] == sep then
        assert s == [sep] + s[1..];
        [""] + rest
      else
        var pieces := [[s[0]] + rest[0]] + rest[1..];
        assert pieces[1..] == rest[1..];
        pieces
  }

  /**
   * `t` is the longest suffix of `s` free of the separator: either all of `s`,
   * or what follows the last separator.
   */
  predicate IsLastPiece(s: string, sep: char, t: string) {
    |t| <= |s| && t == s[|s| - |t|..] && sep !in t && (|t| == |s| || s[|s| - |t| - 1] == sep)
  }

  /** There is only one such suffix. */
  lemma LastPieceUnique(s: string, sep: char, t1: string, t2: string)
    requires IsLastPiece(s, sep, t1) && IsLastPiece(s, sep, t2)
    ensures t1 == t2
  {
  }

  /** The last piece of `s.split(sep)` is that suffix. */
  lemma {:induction false} SplitLast(s: string, sep: char)
    ensures IsLastPiece(s, sep, Split(s, sep)[|Split(s, sep)| - 1])
    decreases |s|
  {
    if s != [] {
      var rest := Split(s[1..], sep);
      SplitLast(s[1..], sep);
      if s[0] == sep {
        assert Split(s, sep) == [""] + rest;
        LastPieceOfTail(s, sep, rest[|rest| - 1]);
      } else if |rest| > 1 {
        JoinHasSeparator(rest, sep);
        assert Split(s, sep)[|Split(s, sep)| - 1] == rest[|rest| - 1];
        LastPieceOfTail(s, sep, rest[|rest| - 1]);
      } else {
        assert Join(rest, sep) == rest[0];
      }
    }
  }

  /** A last piece of the tail is one of the whole string unless it spans the tail and follows no separator. */
  lemma LastPieceOfTail(s: string, sep: char, t: string)
    requires s != [] && IsLastPiece(s[1..], sep, t)
    requires s[0] == sep || sep in s[1..]
    ensures IsLastPiece(s, sep, t)
  {
    assert s[|s| - |t|..] == s[1..][|s| - 1 - |t|..];
  }

  /** Joining two or more pieces puts a separator in the result. */
  lemma JoinHasSeparator(pieces: seq<string>, sep: char)
    requires |pieces| >= 2
    ensures sep in Join(pieces, sep)
  {
    assert Join(pieces, sep)[|pieces[0]|] == sep;
  }

  /** Lexicographic order on code points: the order used for sort keys. */
  predicate LexLe(a: string, b: string)
    decreases |a|
  {
    a == [] || (b != [] && (a[0] < b[0] || (a[0] == b[0] && LexLe(a[1..], b[1..]))))
  }

  lemma {:induction false} LexLeTotal(a: string, b: string)
    ensures LexLe(a, b) || LexLe(b, a)
    decreases |a|
  {
    if a != [] && b != [] && a[0] == b[0] {
      LexLeTotal(a[1..], b[1..]);
    }
  }

  lemma {:induction false} LexLeTransitive(a: string, b: string, c: string)
    requires LexLe(a, b) && LexLe(b, c)
    ensures LexLe(a, c)
    decreases |a|
  {
    if a != [] && b != [] && c != [] && a[0] == b[0] == c[0] {
      LexLeTransitive(a[1..], b[1..], c[1..]);
    }
  }

  lemma {:induction false} LexLeAntisymmetric(a: string, b: string)
    requires LexLe(a, b) && LexLe(b, a)
    ensures a == b
    decreases |a|
  {
    if a != [] && b != [] {
      LexLeAntisymmetric(a[1..], b[1..]);
      assert a == [a[0]] + a[1..] && b == [b[0]] + b[1..];
    }
  }
}
