/** The storage-key resolver: `_detect_filename` in app.py, a total function
    from the path an export was posted to onto the key it is stored under. */
module Resolver {
  import opened Text

  /** The logical extension every storage key carries. */
  const Suffix: string := ".json"

  const Sep: char := '/'

  /** The non-empty path segments, `[p for p in path.strip("/").split("/") if p]`. */
  function Segments(path: string): (segs: seq<string>)
    ensures forall i :: 0 <= i < |segs| ==> segs[i] != "" && Sep !in segs[i]
  {
    var parts := Split(Strip(path, Sep), Sep);
    SplitPiecesFree(Strip(path, Sep), Sep);
    var segs := NonEmpty(parts);
    NonEmptyMembers(parts);
    forall i | 0 <= i < |segs|
      ensures Sep !in segs[i]
    {
      assert segs[i] in parts;
    }
    segs
  }

  /** Python's `xs.index(x)`: the position of the first occurrence of `x`. */
  function FirstIndex(xs: seq<string>, x: string): (i: nat)
    requires x in xs
    ensures i < |xs| && xs[i] == x && x !in xs[..i]
  {
    if xs[0] == x then 0
    else
      var j := FirstIndex(xs[1..], x);
      assert xs[..j + 1] == [xs[0]] + xs[1..][..j];
      j + 1
  }

  /** The three rules, tried in order: roster, free agents, last segment. */
  function KeyOf(parts: seq<string>): (key: string)
    ensures EndsWith(key, Suffix)
  {
    var key :=
      if "roster" in parts then
        var idx := FirstIndex(parts, "roster");
        var teamId := if idx > 0 then parts[idx - 1] else "unknown";
        "roster_" + teamId + Suffix
      else if "freeagents" in parts || "free_agents" in parts then
        "roster_freeagents" + Suffix
      else
        var stem := if |parts| > 0 then parts[|parts| - 1] else "data";
        Replace(stem, Suffix, "") + Suffix;
    assert key[|key| - |Suffix|..] == Suffix;
    key
  }

  /** The storage key for an export posted to `path`. `_detect_filename`'s
      `payload` argument is never read, so it is not a parameter here. */
  function DetectFilename(path: string): (key: string)
    ensures EndsWith(key, Suffix)
  {
    KeyOf(Segments(path))
  }

  /** Roster rule: the first "roster" segment names the team in the segment
      before it, or "unknown" when it comes first. */
  lemma RosterRule(parts: seq<string>, i: nat)
    requires i < |parts| && parts[i] == "roster" && "roster" !in parts[..i]
    ensures KeyOf(parts) == "roster_" + (if i == 0 then "unknown" else parts[i - 1]) + Suffix
  {
    var j := FirstIndex(parts, "roster");
  }

  /** Free-agent rule, reached only without a "roster" segment. */
  lemma FreeAgentRule(parts: seq<string>)
    requires "roster" !in parts && ("freeagents" in parts || "free_agents" in parts)
    ensures KeyOf(parts) == "roster_freeagents.json"
  {
  }

  /** Default rule: the last segment, or "data" when there is none, with every
      `.json` removed, then `.json` added. */
  lemma DefaultRule(parts: seq<string>)
    requires "roster" !in parts && "freeagents" !in parts && "free_agents" !in parts
    ensures KeyOf(parts) == (if parts == [] then "data" else Replace(parts[|parts| - 1], Suffix, "")) + Suffix
  {
    NoOccurrenceUnchanged("data", Suffix, "");
  }

  /** The three rules together, as one statement about the segments. */
  lemma KeyRules(parts: seq<string>)
    ensures forall i :: 0 <= i < |parts| && parts[i] == "roster" && "roster" !in parts[..i] ==>
      KeyOf(parts) == "roster_" + (if i == 0 then "unknown" else parts[i - 1]) + Suffix
    ensures "roster" !in parts && ("freeagents" in parts || "free_agents" in parts) ==>
      KeyOf(parts) == "roster_freeagents.json"
    ensures "roster" !in parts && "freeagents" !in parts && "free_agents" !in parts ==>
      KeyOf(parts) == (if parts == [] then "data" else Replace(parts[|parts| - 1], Suffix, "")) + Suffix
  {
    forall i | 0 <= i < |parts| && parts[i] == "roster" && "roster" !in parts[..i]
      ensures KeyOf(parts) == "roster_" + (if i == 0 then "unknown" else parts[i - 1]) + Suffix
    {
      RosterRule(parts, i);
    }
    if "roster" !in parts && "freeagents" !in parts && "free_agents" !in parts {
      DefaultRule(parts);
    }
  }

  /** The resolver's contract, stated about the path's non-empty segments. */
  lemma ResolverRules(path: string)
    ensures var parts := Segments(path);
      forall i :: 0 <= i < |parts| && parts[i] == "roster" && "roster" !in parts[..i] ==>
        DetectFilename(path) == "roster_" + (if i == 0 then "unknown" else parts[i - 1]) + Suffix
    ensures var parts := Segments(path);
      "roster" !in parts && ("freeagents" in parts || "free_agents" in parts) ==>
        DetectFilename(path) == "roster_freeagents.json"
    ensures var parts := Segments(path);
      "roster" !in parts && "freeagents" !in parts && "free_agents" !in parts ==>
        DetectFilename(path) == (if parts == [] then "data" else Replace(parts[|parts| - 1], Suffix, "")) + Suffix
  {
    KeyRules(Segments(path));
  }

  // ---------------------------------------------------------------------------
  // slashes

  /** Stripping slashes first changes nothing once empty pieces are dropped. */
  lemma SegmentsIgnoreStrip(path: string)
    ensures Segments(path) == NonEmpty(Split(path, Sep))
  {
    var l := TrimStart(path, Sep);
    NonEmptyPiecesTrimEnd(l, Sep);
    NonEmptyPiecesTrimStart(path, Sep);
  }

  /** A slash splits a path into the segments before it and the segments after it. */
  lemma SegmentsAround(a: string, b: string)
    ensures Segments(a + [Sep] + b) == Segments(a) + Segments(b)
  {
    SegmentsIgnoreStrip(a + [Sep] + b);
    SegmentsIgnoreStrip(a);
    SegmentsIgnoreStrip(b);
    SplitAround(a, b, Sep);
    NonEmptyAppend(Split(a, Sep), Split(b, Sep));
  }

  lemma {:induction false} NonEmptyKeepsNonEmpty(parts: seq<string>)
    requires forall i :: 0 <= i < |parts| ==> parts[i] != ""
    ensures NonEmpty(parts) == parts
  {
    if |parts| > 0 {
      NonEmptyKeepsNonEmpty(parts[1..]);
      assert parts == [parts[0]] + parts[1..];
    }
  }

  /** Joining segments with single slashes and resolving again recovers them:
      the segments are exactly the information a path carries. */
  lemma SegmentsOfJoin(segs: seq<string>)
    requires |segs| >= 1
    requires forall i :: 0 <= i < |segs| ==> segs[i] != "" && Sep !in segs[i]
    ensures Segments(Join(segs, Sep)) == segs
  {
    SegmentsIgnoreStrip(Join(segs, Sep));
    SplitOfJoin(segs, Sep);
    NonEmptyKeepsNonEmpty(segs);
  }

  lemma NoSegments(e: string)
    requires |e| == 0
    ensures Segments(e) == []
  {
    assert Strip(e, Sep) == e;
    var pieces := Split(e, Sep);
    assert pieces == [""] && pieces[1..] == [];
    assert NonEmpty(pieces) == [] + NonEmpty(pieces[1..]) == [];
  }

  /** Leading, trailing and repeated slashes never change the segments. */
  lemma LeadingSlashIgnored(a: string)
    ensures Segments([Sep] + a) == Segments(a)
  {
    var e := a[..0];
    NoSegments(e);
    SegmentsAround(e, a);
    assert e + [Sep] + a == [Sep] + a;
  }

  lemma TrailingSlashIgnored(a: string)
    ensures Segments(a + [Sep]) == Segments(a)
  {
    var e := a[..0];
    NoSegments(e);
    SegmentsAround(a, e);
    assert a + [Sep] + e == a + [Sep];
  }

  lemma DoubleSlashIgnored(a: string, b: string)
    ensures Segments(a + [Sep, Sep] + b) == Segments(a + [Sep] + b)
  {
    var sb := [Sep] + b;
    assert a + [Sep, Sep] + b == a + [Sep] + sb;
    SegmentsAround(a, sb);
    LeadingSlashIgnored(b);
    SegmentsAround(a, b);
  }

  /** Leading, trailing and repeated slashes never change the key. */
  lemma SlashesIrrelevant(a: string, b: string)
    ensures DetectFilename([Sep] + a) == DetectFilename(a)
    ensures DetectFilename(a + [Sep]) == DetectFilename(a)
    ensures DetectFilename(a + [Sep, Sep] + b) == DetectFilename(a + [Sep] + b)
  {
    LeadingSlashIgnored(a);
    TrailingSlashIgnored(a);
    DoubleSlashIgnored(a, b);
  }

  // ---------------------------------------------------------------------------
  // the default rule

  lemma SuffixBorderFree()
    ensures BorderFree(Suffix)
  {
    forall k | 0 < k < |Suffix|
      ensures Suffix[..k] != Suffix[|Suffix| - k..]
    {
      assert Suffix[..k][0] == '.' && Suffix[|Suffix| - k..][0] != '.';
    }
  }

  /** Text without a dot cannot contain `.json`. */
  lemma NoDotNoSuffix(s: string)
    requires '.' !in s
    ensures !Contains(s, Suffix)
  {
    forall i | 0 <= i <= |s|
      ensures !StartsWith(s[i..], Suffix)
    {
      if i < |s| {
        assert s[i..][0] == s[i] != '.';
      }
    }
  }

  /** A name without slashes is one segment. */
  lemma SingleSegment(s: string)
    requires s != "" && Sep !in s
    ensures Segments(s) == [s]
  {
    SegmentsIgnoreStrip(s);
    SplitWithoutSeparator(s, Sep);
    NonEmptyKeepsNonEmpty([s]);
  }

  /** A single segment that is no rule keyword resolves by the default rule. */
  lemma SingleSegmentKey(s: string)
    requires s != "" && Sep !in s
    requires s != "roster" && s != "freeagents" && s != "free_agents"
    ensures DetectFilename(s) == Replace(s, Suffix, "") + Suffix
  {
    SingleSegment(s);
    KeyRules([s]);
  }

  /** A plain name (one segment, no `.json` inside, not a rule keyword)
      resolves to itself with `.json` added, whether or not it already
      carried the suffix. */
  lemma PlainNameKey(stem: string)
    requires stem != "" && Sep !in stem && !Contains(stem, Suffix)
    requires stem != "roster" && stem != "freeagents" && stem != "free_agents"
    ensures DetectFilename(stem) == stem + Suffix
    ensures DetectFilename(stem + Suffix) == stem + Suffix
  {
    SuffixedName(stem);
    SingleSegmentKey(stem);
    SingleSegmentKey(stem + Suffix);
    NoOccurrenceUnchanged(stem, Suffix, "");
    SuffixStripped(stem);
  }

  /** An accidental `.json` at the end of the last segment is removed before
      the suffix is added again, so it is never doubled. */
  lemma SuffixStripped(stem: string)
    ensures Replace(stem + Suffix, Suffix, "") == Replace(stem, Suffix, "")
  {
    SuffixBorderFree();
    SuffixReplaced(stem, Suffix, "");
  }

  lemma SuffixedName(stem: string)
    requires Sep !in stem
    ensures var named := stem + Suffix;
      named != "" && Sep !in named && named != "roster" && named != "freeagents" && named != "free_agents"
  {
    var named := stem + Suffix;
    assert named[|named| - 1] == 'n';
  }


  // ---------------------------------------------------------------------------
  // paths as the exporter sends them

  lemma RosterPathSegments(prefix: seq<string>, team: string)
    requires forall i :: 0 <= i < |prefix| ==> prefix[i] != "" && Sep !in prefix[i]
    requires team != "" && Sep !in team
    ensures var parts := prefix + [team, "roster"];
      forall i :: 0 <= i < |parts| ==> parts[i] != "" && Sep !in parts[i]
  {
    var parts := prefix + [team, "roster"];
    assert Sep !in "roster";
    forall i | 0 <= i < |parts|
      ensures parts[i] != "" && Sep !in parts[i]
    {
      if i < |prefix| {
        assert parts[i] == prefix[i];
      }
    }
  }

  lemma RosterKeyOf(prefix: seq<string>, team: string)
    requires "roster" !in prefix && team != "roster"
    ensures KeyOf(prefix + [team, "roster"]) == "roster_" + team + Suffix
  {
    var parts := prefix + [team, "roster"];
    var i := |prefix| + 1;
    assert parts[..i] == prefix + [team];
    RosterRule(parts, i);
  }

  /** The exporter's roster pattern `.../<team>/roster` stores under
      `roster_<team>.json`, whatever segments come before it. */
  lemma RosterPathKey(prefix: seq<string>, team: string)
    requires forall i :: 0 <= i < |prefix| ==> prefix[i] != "" && Sep !in prefix[i]
    requires team != "" && Sep !in team
    requires "roster" !in prefix && team != "roster"
    ensures DetectFilename(Join(prefix + [team, "roster"], Sep)) == "roster_" + team + Suffix
  {
    RosterPathSegments(prefix, team);
    SegmentsOfJoin(prefix + [team, "roster"]);
    RosterKeyOf(prefix, team);
  }

  /** The roster export of team 774242334 on a PS5 league. */
  lemma RosterExample(segs: seq<string>)
    requires segs == ["ps5", "625743", "team", "774242334", "roster"]
    ensures DetectFilename(Join(segs, Sep)) == "roster_774242334.json"
  {
    var prefix := segs[..3];
    assert segs == prefix + [segs[3], "roster"];
    RosterPathKey(prefix, segs[3]);
  }

  /** A path of nothing but slashes (the empty path included) has no
      segments and resolves to `data.json`. */
  lemma OnlySlashes(path: string)
    requires forall i :: 0 <= i < |path| ==> path[i] == Sep
    ensures Segments(path) == []
    ensures DetectFilename(path) == "data.json"
  {
    var l := TrimStart(path, Sep);
    TrimStartShape(path, Sep);
    NoSegments(l);
    assert Strip(path, Sep) == TrimEnd(l, Sep) == l;
    DefaultRule([]);
  }

  /** Text that differs from `.json` at some offset does not start with it. */
  lemma Mismatch(u: string, k: nat)
    requires k < |Suffix| && k < |u| && u[k] != Suffix[k]
    ensures !StartsWith(u, Suffix)
  {
    if |Suffix| <= |u| {
      assert u[..|Suffix|][k] == u[k];
    }
  }

  /** The only dot of `.json` is its first character. */
  lemma OneDot()
    ensures Suffix[0] == '.'
    ensures forall k :: 0 < k < |Suffix| ==> Suffix[k] != '.'
  {
  }

  /** Text that is `.json` followed by dot-free text loses just the `.json`. */
  lemma ReplaceLeadingSuffix(rest: string)
    requires '.' !in rest
    ensures Replace(Suffix + rest, Suffix, "") == rest
  {
    PrefixReplaced(rest, Suffix, "");
    NoDotNoSuffix(rest);
    NoOccurrenceUnchanged(rest, Suffix, "");
  }

  /** `.json` is removed wherever it occurs, not only at the end: between
      dot-free text `x` and `y` it simply disappears. */
  lemma ReplaceEveryOccurrence(x: string, y: string)
    requires '.' !in x && '.' !in y
    ensures Replace(x + Suffix + y, Suffix, "") == x + y
  {
    var rest := Suffix + y;
    forall i | 0 <= i < |x|
      ensures !StartsWith(x[i..] + rest, Suffix)
    {
      Mismatch(x[i..] + rest, 0);
    }
    KeepPrefix(x, rest, Suffix, "");
    assert x + Suffix + y == x + rest;
    ReplaceLeadingSuffix(y);
  }

  /** The removal is a single pass that never looks again at what it
      produced: when `.json` is wrapped in the two halves `a` and `b` of
      another `.json`, removing it leaves a fresh `.json` behind. */
  lemma ReplaceSinglePass(x: string, a: string, b: string)
    requires '.' !in x && a + b == Suffix && a != "" && b != ""
    ensures Replace(x + a + Suffix + b, Suffix, "") == x + Suffix
  {
    OneDot();
    var pre, rest := x + a, Suffix + b;
    forall i | 0 <= i < |pre|
      ensures !StartsWith(pre[i..] + rest, Suffix)
    {
      var u := pre[i..] + rest;
      if i < |x| {
        Mismatch(u, 0);
      } else if i == |x| {
        assert u[|a|] == rest[0];
        assert a[..|a|] == Suffix[..|a|];
        Mismatch(u, |a|);
      } else {
        assert u[0] == a[i - |x|] == Suffix[i - |x|];
        Mismatch(u, 0);
      }
    }
    KeepPrefix(pre, rest, Suffix, "");
    assert x + a + Suffix + b == pre + rest;
    forall j | 0 <= j < |b|
      ensures b[j] != '.'
    {
      assert b[j] == Suffix[|a| + j];
    }
    ReplaceLeadingSuffix(b);
  }

  /** Standings posted to `/export/standings` or `/export/standings.json`
      are both stored as `standings.json`. */
  lemma StandingsExample(stem: string)
    requires stem == "standings"
    ensures DetectFilename(stem) == "standings.json"
    ensures DetectFilename(stem + Suffix) == "standings.json"
  {
    NoDotNoSuffix(stem);
    PlainNameKey(stem);
  }

  /** Text with a dot is no rule keyword. */
  lemma DottedNoKeyword(seg: string)
    requires '.' in seg
    ensures seg != "roster" && seg != "freeagents" && seg != "free_agents"
  {
    assert '.' !in "roster" && '.' !in "freeagents" && '.' !in "free_agents";
  }

  /** `.json` inside the last segment is dropped: `a.jsonb` is stored as
      `ab.json`. */
  lemma InnerOccurrenceKey(x: string, y: string)
    requires '.' !in x && '.' !in y && Sep !in x && Sep !in y
    ensures DetectFilename(x + Suffix + y) == x + y + Suffix
  {
    var seg := x + Suffix + y;
    assert seg[|x|] == '.';
    assert Sep !in seg by {
      assert forall c :: c in seg ==> c in x || c in Suffix || c in y;
    }
    DottedNoKeyword(seg);
    SingleSegmentKey(seg);
    ReplaceEveryOccurrence(x, y);
  }

  /** The suffix can survive the removal and be added again: `x.js.jsonon`
      is stored as `x.json.json`. */
  lemma SinglePassKey(x: string, a: string, b: string)
    requires '.' !in x && Sep !in x && a + b == Suffix && a != "" && b != ""
    ensures DetectFilename(x + a + Suffix + b) == x + Suffix + Suffix
  {
    var seg := x + a + Suffix + b;
    assert seg[|x| + |a|] == '.';
    assert Sep !in seg by {
      assert forall c :: c in a || c in b ==> c in Suffix;
      assert forall c :: c in seg ==> c in x || c in a || c in Suffix || c in b;
    }
    DottedNoKeyword(seg);
    SingleSegmentKey(seg);
    ReplaceSinglePass(x, a, b);
  }

}
