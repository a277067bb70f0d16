/** The Python string operations the resolver relies on, each written out as
    the interpreter performs it: `str.split` with a one-character separator,
    `str.strip` of one character, and `str.replace`. */
module Text {

  predicate StartsWith(s: string, p: string) {
    |p| <= |s| && s[..|p|] == p
  }

  predicate EndsWith(s: string, p: string) {
    |p| <= |s| && s[|s| - |p|..] == p
  }

  /** `p` occurs in `s` at some position. */
  predicate Contains(s: string, p: string) {
    exists i :: 0 <= i <= |s| && StartsWith(s[i..], p)
  }

  /** No proper prefix of `p` is also a suffix of it, so two occurrences of
      `p` can never overlap. */
  predicate BorderFree(p: string) {
    forall k :: 0 < k < |p| ==> p[..k] != p[|p| - k..]
  }

  // ---------------------------------------------------------------------------
  // split and join

  /** Python's `s.split(sep)`: the pieces between separators, empty pieces
      included, so there is always one piece more than there are separators. */
  function Split(s: string, sep: char): (parts: seq<string>)
    ensures |parts| >= 1
  {
    if |s| == 0 then [""]
    else
      var rest := Split(s[1..], sep);
      if s[0] == sep then [""] + rest
      else [[s[0]] + rest[0]] + rest[1..]
  }

  /** Python's `sep.join(parts)`. */
  function Join(parts: seq<string>, sep: char): string
    requires |parts| >= 1
  {
    if |parts| == 1 then parts[0]
    else parts[0] + [sep] + Join(parts[1..], sep)
  }

  /** No piece holds the separator. */
  lemma {:induction false} SplitPiecesFree(s: string, sep: char)
    ensures forall i :: 0 <= i < |Split(s, sep)| ==> sep !in Split(s, sep)[i]
  {
    if |s| > 0 {
      SplitPiecesFree(s[1..], sep);
    }
  }

  /** Splitting and joining on the same separator gives back the text. */
  lemma {:induction false} JoinOfSplit(s: string, sep: char)
    ensures Join(Split(s, sep), sep) == s
  {
    if |s| > 0 {
      var rest := Split(s[1..], sep);
      JoinOfSplit(s[1..], sep);
      if s[0] == sep {
        assert ([""] + rest)[1..] == rest;
        assert s == [sep] + s[1..];
      } else {
        var parts := [[s[0]] + rest[0]] + rest[1..];
        assert parts[1..] == rest[1..];
        if |rest| > 1 {
          assert Join(rest, sep) == rest[0] + [sep] + Join(rest[1..], sep);
        }
        assert s == [s[0]] + s[1..];
      }
    }
  }

  /** One character in front: a separator opens a new piece, any other
      character joins the first piece. */
  lemma SplitCons(c: char, s: string, sep: char)
    ensures var rest := Split(s, sep);
      Split([c] + s, sep) == if c == sep then [""] + rest else [[c] + rest[0]] + rest[1..]
  {
    assert ([c] + s)[1..] == s;
  }

  /** A separator splits the text in two: the pieces of `a` followed by the
      pieces of `b`. */
  lemma {:induction false} SplitAround(a: string, b: string, sep: char)
    ensures Split(a + [sep] + b, sep) == Split(a, sep) + Split(b, sep)
  {
    if |a| == 0 {
      assert a + [sep] + b == [sep] + b;
      SplitCons(sep, b, sep);
    } else {
      var tail := a[1..] + [sep] + b;
      assert a + [sep] + b == [a[0]] + tail;
      assert a == [a[0]] + a[1..];
      SplitAround(a[1..], b, sep);
      SplitCons(a[0], tail, sep);
      SplitCons(a[0], a[1..], sep);
      ConsPieces(a[0], Split(a[1..], sep), Split(b, sep), sep);
    }
  }

  /** Putting a character in front of the pieces of `a` commutes with
      appending the pieces of `b`. */
  lemma ConsPieces(c: char, ra: seq<string>, rb: seq<string>, sep: char)
    requires |ra| >= 1
    ensures c == sep ==> [""] + (ra + rb) == ([""] + ra) + rb
    ensures c != sep ==> [[c] + (ra + rb)[0]] + (ra + rb)[1..] == ([[c] + ra[0]] + ra[1..]) + rb
  {
    assert (ra + rb)[1..] == ra[1..] + rb;
  }

  /** Text without a separator is a single piece. */
  lemma {:induction false} SplitWithoutSeparator(s: string, sep: char)
    requires sep !in s
    ensures Split(s, sep) == [s]
  {
    if |s| > 0 {
      assert sep !in s[1..];
      SplitWithoutSeparator(s[1..], sep);
      assert s == [s[0]] + s[1..];
    }
  }

  /** Joining pieces that hold no separator and splitting again gives back
      the pieces. */
  lemma {:induction false} SplitOfJoin(parts: seq<string>, sep: char)
    requires |parts| >= 1
    requires forall i :: 0 <= i < |parts| ==> sep !in parts[i]
    ensures Split(Join(parts, sep), sep) == parts
  {
    SplitWithoutSeparator(parts[0], sep);
    if |parts| > 1 {
      SplitOfJoin(parts[1..], sep);
      SplitAround(parts[0], Join(parts[1..], sep), sep);
      assert parts == [parts[0]] + parts[1..];
    }
  }

  // ---------------------------------------------------------------------------
  // dropping empty pieces

  /** The non-empty pieces, in order: the list comprehension `[p for p in parts if p]`. */
  function NonEmpty(parts: seq<string>): seq<string> {
    if |parts| == 0 then []
    else (if parts[0] == "" then [] else [parts[0]]) + NonEmpty(parts[1..])
  }

  /** The kept pieces are exactly the non-empty ones, none of them twice as
      often as in the input. */
  lemma {:induction false} NonEmptyMembers(parts: seq<string>)
    ensures var r := NonEmpty(parts);
      (forall i :: 0 <= i < |r| ==> r[i] != "") &&
      (forall x :: x in r <==> x in parts && x != "") &&
      |r| <= |parts|
  {
    if |parts| > 0 {
      NonEmptyMembers(parts[1..]);
      assert parts == [parts[0]] + parts[1..];
    }
  }

  lemma {:induction false} NonEmptyAppend(a: seq<string>, b: seq<string>)
    ensures NonEmpty(a + b) == NonEmpty(a) + NonEmpty(b)
  {
    if |a| > 0 {
      assert (a + b)[1..] == a[1..] + b;
      NonEmptyAppend(a[1..], b);
    } else {
      assert a + b == b;
    }
  }

  // ---------------------------------------------------------------------------
  // strip

  /** Python's `s.lstrip(c)`: the text after the leading run of `c`. */
  function TrimStart(s: string, c: char): string {
    if |s| > 0 && s[0] == c then TrimStart(s[1..], c) else s
  }

  /** What `lstrip` removes is a run of `c`, and what it keeps is a suffix
      that does not begin with `c`. */
  lemma {:induction false} TrimStartShape(s: string, c: char)
    ensures var r := TrimStart(s, c);
      |r| <= |s| && r == s[|s| - |r|..] &&
      (forall k :: 0 <= k < |s| - |r| ==> s[k] == c) &&
      (|r| == 0 || r[0] != c)
  {
    if |s| > 0 && s[0] == c {
      TrimStartShape(s[1..], c);
    }
  }

  /** Python's `s.rstrip(c)`: the text before the trailing run of `c`. */
  function TrimEnd(s: string, c: char): string {
    if |s| > 0 && s[|s| - 1] == c then TrimEnd(s[..|s| - 1], c) else s
  }

  /** What `rstrip` removes is a run of `c`, and what it keeps is a prefix
      that does not end with `c`. */
  lemma {:induction false} TrimEndShape(s: string, c: char)
    ensures var r := TrimEnd(s, c);
      |r| <= |s| && r == s[..|r|] &&
      (forall k :: |r| <= k < |s| ==> s[k] == c) &&
      (|r| == 0 || r[|r| - 1] != c)
  {
    if |s| > 0 && s[|s| - 1] == c {
      TrimEndShape(s[..|s| - 1], c);
    }
  }

  /** Python's `s.strip(c)`. */
  function Strip(s: string, c: char): string {
    TrimEnd(TrimStart(s, c), c)
  }

  /** Leading separators only add empty pieces. */
  lemma {:induction false} NonEmptyPiecesTrimStart(s: string, sep: char)
    ensures NonEmpty(Split(TrimStart(s, sep), sep)) == NonEmpty(Split(s, sep))
  {
    if |s| > 0 && s[0] == sep {
      var rest := Split(s[1..], sep);
      NonEmptyPiecesTrimStart(s[1..], sep);
      assert TrimStart(s, sep) == TrimStart(s[1..], sep);
      assert Split(s, sep) == [""] + rest;
      NonEmptyAppend([""], rest);
      assert NonEmpty([""]) == [];
    }
  }

  /** Trailing separators only add empty pieces. */
  lemma {:induction false} NonEmptyPiecesTrimEnd(s: string, sep: char)
    ensures NonEmpty(Split(TrimEnd(s, sep), sep)) == NonEmpty(Split(s, sep))
  {
    if |s| > 0 && s[|s| - 1] == sep {
      var init := s[..|s| - 1];
      NonEmptyPiecesTrimEnd(init, sep);
      assert s == init + [sep] + "";
      SplitAround(init, "", sep);
      NonEmptyAppend(Split(init, sep), [""]);
      assert NonEmpty([""]) == [];
    }
  }

  // ---------------------------------------------------------------------------
  // replace

  /** Python's `s.replace(pat, rep)` for a non-empty pattern: one pass from
      left to right, replacing each occurrence that does not overlap an
      earlier replaced one, and never looking again at text it produced. */
  function Replace(s: string, pat: string, rep: string): (r: string)
    requires |pat| > 0
    decreases |s|
  {
    if |s| == 0 then ""
    else if StartsWith(s, pat) then rep + Replace(s[|pat|..], pat, rep)
    else [s[0]] + Replace(s[1..], pat, rep)
  }

  /** Text in which the pattern does not occur comes back unchanged. */
  lemma {:induction false} NoOccurrenceUnchanged(s: string, pat: string, rep: string)
    requires |pat| > 0 && !Contains(s, pat)
    ensures Replace(s, pat, rep) == s
    decreases |s|
  {
    if |s| > 0 {
      assert s[0..] == s;
      NoOccurrenceUnchanged(s[1..], pat, rep);
      assert s == [s[0]] + s[1..];
    }
  }

  /** Text that begins with the pattern has that occurrence replaced first. */
  lemma PrefixReplaced(s: string, pat: string, rep: string)
    requires |pat| > 0
    ensures Replace(pat + s, pat, rep) == rep + Replace(s, pat, rep)
  {
    assert (pat + s)[..|pat|] == pat;
    assert (pat + s)[|pat|..] == s;
  }

  /** Text that begins with the pattern loses that occurrence. */
  lemma DropFirst(s: string, pat: string, rep: string)
    requires |pat| > 0 && StartsWith(s, pat)
    ensures Replace(s, pat, rep) == rep + Replace(s[|pat|..], pat, rep)
  {
  }

  /** Text that does not begin with the pattern keeps its first character. */
  lemma KeepFirst(s: string, pat: string, rep: string)
    requires |pat| > 0 && |s| > 0 && !StartsWith(s, pat)
    ensures Replace(s, pat, rep) == [s[0]] + Replace(s[1..], pat, rep)
  {
  }

  /** Text in which no occurrence begins is copied through unchanged, and
      the pass carries on with what follows it. */
  lemma {:induction false} KeepPrefix(a: string, rest: string, pat: string, rep: string)
    requires |pat| > 0
    requires forall i :: 0 <= i < |a| ==> !StartsWith(a[i..] + rest, pat)
    ensures Replace(a + rest, pat, rep) == a + Replace(rest, pat, rep)
    decreases |a|
  {
    if |a| > 0 {
      assert a[0..] == a;
      KeepFirst(a + rest, pat, rep);
      assert (a + rest)[1..] == a[1..] + rest;
      forall i | 0 <= i < |a| - 1
        ensures !StartsWith(a[1..][i..] + rest, pat)
      {
        assert a[1..][i..] == a[i + 1..];
      }
      KeepPrefix(a[1..], rest, pat, rep);
      assert a == [a[0]] + a[1..];
    } else {
      assert a + rest == rest;
    }
  }

  /** An occurrence of a border-free pattern cannot begin inside a shorter
      text and end inside a copy of the pattern appended to it. */
  lemma NoStraddle(s: string, pat: string)
    requires BorderFree(pat) && 0 < |s| < |pat|
    ensures !StartsWith(s + pat, pat)
  {
    var t, k := s + pat, |pat| - |s|;
    assert t[..|pat|][|s|..] == pat[..k];
  }

  /** For a pattern whose occurrences cannot overlap, an occurrence appended
      at the end is replaced and nothing before it changes. */
  lemma {:induction false} SuffixReplaced(s: string, pat: string, rep: string)
    requires |pat| > 0 && BorderFree(pat)
    ensures Replace(s + pat, pat, rep) == Replace(s, pat, rep) + rep
    decreases |s|
  {
    var t := s + pat;
    if 0 < |s| < |pat| {
      NoStraddle(s, pat);
    }
    if |s| == 0 {
      assert t == pat + "";
      PrefixReplaced("", pat, rep);
    } else if StartsWith(t, pat) {
      assert s[..|pat|] == t[..|pat|];
      DropFirst(s, pat, rep);
      DropFirst(t, pat, rep);
      assert t[|pat|..] == s[|pat|..] + pat;
      SuffixReplaced(s[|pat|..], pat, rep);
    } else {
      if |pat| <= |s| {
        assert t[..|pat|] == s[..|pat|];
      }
      KeepFirst(s, pat, rep);
      KeepFirst(t, pat, rep);
      assert t[1..] == s[1..] + pat;
      SuffixReplaced(s[1..], pat, rep);
    }
  }

}
