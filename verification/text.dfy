/** String operations the backend relies on: Python's `str.split(sep)`,
    `str.strip()`, ASCII lower-casing and the substring test behind an
    `ILIKE '%q%'` filter. Strings are sequences of Unicode scalar values. */
module Text {

  /** Python's `str.isspace()` for one character: the ASCII whitespace
      characters, the separators 0x1C-0x1F, and the Unicode spaces
      (NEL, NBSP, OGHAM SPACE MARK, EN QUAD .. HAIR SPACE, LINE and
      PARAGRAPH SEPARATOR, NARROW NBSP, MEDIUM MATHEMATICAL SPACE,
      IDEOGRAPHIC SPACE). */
  predicate IsSpace(c: char) {
    var n := c as int;
    (9 <= n <= 13) || (28 <= n <= 32) || n == 0x85 || n == 0xA0 || n == 0x1680
    || (0x2000 <= n <= 0x200A) || n == 0x2028 || n == 0x2029 || n == 0x202F
    || n == 0x205F || n == 0x3000
  }

  predicate AllSpace(s: string) {
    forall k :: 0 <= k < |s| ==> IsSpace(s[k])
  }

  /** Number of whitespace characters at the front of `s`. */
  function LeadingSpaces(s: string): (n: nat)
    ensures n <= |s|
    ensures AllSpace(s[..n])
    ensures n < |s| ==> !IsSpace(s[n])
  {
    if |s| > 0 && IsSpace(s[0]) then 1 + LeadingSpaces(s[1..]) else 0
  }

  /** Number of whitespace characters at the end of `s`. */
  function TrailingSpaces(s: string): (n: nat)
    ensures n <= |s|
    ensures AllSpace(s[|s| - n..])
    ensures n < |s| ==> !IsSpace(s[|s| - 1 - n])
  {
    if |s| > 0 && IsSpace(s[|s| - 1]) then 1 + TrailingSpaces(s[..|s| - 1]) else 0
  }

  /** Python's `s.strip()`: `s` without its surrounding whitespace. The
      result is the one infix of `s` that is framed by whitespace only and
      neither starts nor ends with whitespace. */
  function Strip(s: string): (r: string)
    ensures |r| <= |s|
    ensures exists i :: 0 <= i <= |s| - |r| && r == s[i..i + |r|]
                        && AllSpace(s[..i]) && AllSpace(s[i + |r|..])
    ensures r == [] || (!IsSpace(r[0]) && !IsSpace(r[|r| - 1]))
  {
    var lead := LeadingSpaces(s);
    if lead == |s| then
      assert s[..lead] == s;
      assert s[|s|..] == [];
      []
    else
      var trail := TrailingSpaces(s);
      var r := s[lead..|s| - trail];
      assert s[lead + |r|..] == s[|s| - trail..];
      r
  }

  /** A string that neither starts nor ends with whitespace is its own
      strip. */
  lemma StripTrimmed(s: string)
    requires s == [] || (!IsSpace(s[0]) && !IsSpace(s[|s| - 1]))
    ensures Strip(s) == s
  {
    if s != [] {
      assert LeadingSpaces(s) == 0;
      assert TrailingSpaces(s) == 0;
      assert s[0..|s|] == s;
    }
  }

  /** Whitespace in front of a trimmed string is stripped away. */
  lemma StripLeadingSpace(c: char, t: string)
    requires IsSpace(c) && t != [] && !IsSpace(t[0]) && !IsSpace(t[|t| - 1])
    ensures Strip([c] + t) == t
  {
    var s := [c] + t;
    assert s[1..] == t;
    assert LeadingSpaces(s) == 1;
    assert TrailingSpaces(s) == 0;
    assert s[1..|s|] == t;
  }

  /** A string of whitespace only, the empty one included, strips to the
      empty string. */
  lemma StripAllSpace(s: string)
    requires AllSpace(s)
    ensures Strip(s) == []
  {
  }

  /** Stripping twice strips nothing more. */
  lemma StripIdempotent(s: string)
    ensures Strip(Strip(s)) == Strip(s)
  {
    StripTrimmed(Strip(s));
  }

  /** Python's `s.split(sep)` for a one-character separator: the pieces
      between separators, in order, empty pieces included. There is always
      at least one piece, and no piece contains the separator. */
  function SplitOn(s: string, sep: char): (pieces: seq<string>)
    ensures |pieces| >= 1
    ensures forall k :: 0 <= k < |pieces| ==> sep !in pieces[k]
  {
    if s == [] then [[]]
    else
      var rest := SplitOn(s[1..], sep);
      if s[0] == sep then [[]] + rest
      else [[s[0]] + rest[0]] + rest[1..]
  }

  /** Python's `sep.join(pieces)`, the inverse of `SplitOn`. */
  function Join(pieces: seq<string>, sep: char): string
  {
    if |pieces| == 0 then []
    else if |pieces| == 1 then pieces[0]
    else pieces[0] + [sep] + Join(pieces[1..], sep)
  }

  /** Splitting loses nothing: joining the pieces gives back the string. */
  lemma {:induction false} JoinSplit(s: string, sep: char)
    ensures Join(SplitOn(s, sep), sep) == s
  {
    if s != [] {
      var rest := SplitOn(s[1..], sep);
      JoinSplit(s[1..], sep);
      if s[0] == sep {
        assert SplitOn(s, sep) == [[]] + rest;
        assert ([[]] + rest)[1..] == rest;
        assert Join(SplitOn(s, sep), sep) == [] + [sep] + s[1..];
        assert s == [s[0]] + s[1..];
      } else if |rest| == 1 {
        assert SplitOn(s, sep) == [[s[0]] + rest[0]];
        assert s == [s[0]] + s[1..];
      } else {
        var pieces := SplitOn(s, sep);
        assert pieces == [[s[0]] + rest[0]] + rest[1..];
        assert pieces[1..] == rest[1..];
        assert Join(rest, sep) == rest[0] + [sep] + Join(rest[1..], sep);
        assert s == [s[0]] + s[1..];
      }
    }
  }

  /** A string without the separator is one piece. */
  lemma {:induction false} SplitWithoutSep(s: string, sep: char)
    requires sep !in s
    ensures SplitOn(s, sep) == [s]
  {
    if s != [] {
      SplitWithoutSep(s[1..], sep);
      assert [s[0]] + s[1..] == s;
    }
  }

  /** A separator after a separator-free prefix `p` ends the first piece. */
  lemma {:induction false} SplitAfterPiece(p: string, sep: char, t: string)
    requires sep !in p
    ensures SplitOn(p + [sep] + t, sep) == [p] + SplitOn(t, sep)
  {
    if p == [] {
      assert p + [sep] + t == [sep] + t;
      assert ([sep] + t)[1..] == t;
    } else {
      var s := p + [sep] + t;
      assert s[1..] == p[1..] + [sep] + t;
      SplitAfterPiece(p[1..], sep, t);
      assert [p[0]] + p[1..] == p;
    }
  }

  /** Joining separator-free pieces and splitting again gives the pieces:
      together with JoinSplit, SplitOn is a bijection between strings and
      non-empty sequences of separator-free pieces. */
  lemma {:induction false} SplitJoin(pieces: seq<string>, sep: char)
    requires |pieces| >= 1
    requires forall k :: 0 <= k < |pieces| ==> sep !in pieces[k]
    ensures SplitOn(Join(pieces, sep), sep) == pieces
  {
    if |pieces| == 1 {
      SplitWithoutSep(pieces[0], sep);
    } else {
      SplitJoin(pieces[1..], sep);
      SplitAfterPiece(pieces[0], sep, Join(pieces[1..], sep));
      assert [pieces[0]] + pieces[1..] == pieces;
    }
  }

  function Last(pieces: seq<string>): string
    requires |pieces| >= 1
  {
    pieces[|pieces| - 1]
  }

  /** Joining splits off the last piece after the last separator. */
  lemma {:induction false} JoinLast(pieces: seq<string>, sep: char)
    requires |pieces| >= 2
    ensures Join(pieces, sep) == Join(pieces[..|pieces| - 1], sep) + [sep] + Last(pieces)
  {
    if |pieces| > 2 {
      JoinLast(pieces[1..], sep);
      assert pieces[1..][..|pieces| - 2] == pieces[..|pieces| - 1][1..];
    }
  }

  /** The last piece of a split is the tail of `s` after its last
      separator, or the whole of `s` when there is no separator. */
  lemma LastPieceIsTail(s: string, sep: char)
    ensures |Last(SplitOn(s, sep))| <= |s|
    ensures Last(SplitOn(s, sep)) == s[|s| - |Last(SplitOn(s, sep))|..]
    ensures sep !in s ==> Last(SplitOn(s, sep)) == s
    ensures sep in s ==> |Last(SplitOn(s, sep))| < |s|
                         && s[|s| - |Last(SplitOn(s, sep))| - 1] == sep
  {
    var pieces := SplitOn(s, sep);
    var last := Last(pieces);
    JoinSplit(s, sep);
    if |pieces| == 1 {
      assert s == last;
      assert s[0..] == s;
    } else {
      JoinLast(pieces, sep);
      var front := Join(pieces[..|pieces| - 1], sep);
      assert s == front + [sep] + last;
      assert s[|s| - |last|..] == last;
      assert s[|s| - |last| - 1] == sep;
    }
  }

  /** `e` is the last `sep`-separated segment of `s`: a separator-free
      tail of `s` that is either all of `s` or preceded by a separator. */
  predicate IsLastSegment(s: string, e: string, sep: char) {
    && |e| <= |s|
    && e == s[|s| - |e|..]
    && sep !in e
    && (|e| == |s| || s[|s| - |e| - 1] == sep)
  }

  /** A string has only one last segment. */
  lemma LastSegmentUnique(s: string, a: string, b: string, sep: char)
    requires IsLastSegment(s, a, sep) && IsLastSegment(s, b, sep)
    ensures a == b
  {
  }

  /** ASCII lower-casing of one character; every other character is kept. */
  function LowerChar(c: char): char {
    if 'A' <= c <= 'Z' then (c as int + 32) as char else c
  }

  /** ASCII lower-casing of a string, character by character. */
  function Lower(s: string): (r: string)
    ensures |r| == |s|
    ensures forall k :: 0 <= k < |s| ==> r[k] == LowerChar(s[k])
  {
    if s == [] then [] else [LowerChar(s[0])] + Lower(s[1..])
  }

  /** `q` occurs in `s` starting at position `i`. */
  predicate OccursAt(s: string, q: string, i: int) {
    0 <= i <= |s| - |q| && s[i..i + |q|] == q
  }

  /** Whether `q` occurs in `s` as a contiguous infix, found by trying
      each start position in turn. */
  predicate ContainsInfix(s: string, q: string) {
    q <= s || (s != [] && ContainsInfix(s[1..], q))
  }

  /** Dropping the first character shifts every occurrence by one. */
  lemma OccursShift(s: string, q: string, i: nat)
    requires s != []
    ensures OccursAt(s[1..], q, i) <==> OccursAt(s, q, i + 1)
  {
    if i + 1 <= |s| - |q| {
      assert s[1..][i..i + |q|] == s[i + 1..i + 1 + |q|];
    }
  }

  /** The infix test agrees with its definition by position. */
  lemma {:induction false} ContainsInfixIffOccurs(s: string, q: string)
    ensures ContainsInfix(s, q) <==> exists i :: OccursAt(s, q, i)
  {
    if q <= s {
      assert OccursAt(s, q, 0);
    } else if s != [] {
      ContainsInfixIffOccurs(s[1..], q);
      if i :| OccursAt(s, q, i) {
        assert !OccursAt(s, q, 0);
        OccursShift(s, q, i - 1);
      }
      if i :| OccursAt(s[1..], q, i) {
        OccursShift(s, q, i);
      }
    }
  }

  /** SQL `name ILIKE '%q%'` over ASCII: `q` occurs in `name`, ignoring case. */
  predicate ContainsIgnoringCase(name: string, q: string) {
    ContainsInfix(Lower(name), Lower(q))
  }

  /** Lower-casing twice lower-cases nothing more. */
  lemma LowerIdempotent(s: string)
    ensures Lower(Lower(s)) == Lower(s)
  {
  }

  /** Lower-casing works piece by piece. */
  lemma LowerConcat(a: string, b: string)
    ensures Lower(a + b) == Lower(a) + Lower(b)
  {
  }

  /** The match ignores case on both sides: lower-casing the name or the
      query first changes nothing. */
  lemma MatchIgnoresCase(name: string, q: string)
    ensures ContainsIgnoringCase(Lower(name), q) == ContainsIgnoringCase(name, q)
    ensures ContainsIgnoringCase(name, Lower(q)) == ContainsIgnoringCase(name, q)
  {
    LowerIdempotent(name);
    LowerIdempotent(q);
  }

  /** A query matches every name it is an infix of, wherever it starts. */
  lemma MatchAnywhere(pre: string, q: string, post: string)
    ensures ContainsIgnoringCase(pre + q + post, q)
  {
    LowerConcat(pre + q, post);
    LowerConcat(pre, q);
    var s := Lower(pre + q + post);
    assert s == Lower(pre) + Lower(q) + Lower(post);
    assert s[|pre|..|pre| + |q|] == Lower(q);
    assert OccursAt(s, Lower(q), |pre|);
    ContainsInfixIffOccurs(s, Lower(q));
  }

  /** The empty query occurs in every name. */
  lemma EmptyQueryMatches(name: string)
    ensures ContainsIgnoringCase(name, "")
  {
    assert Lower("") == [];
  }
}
