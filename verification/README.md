# In-memory export server: storage-key resolver and document store

The server holds exported league data in memory and serves it to the bot
that reads it.

- An export tool POSTs a JSON document to `/export/<path>`. The server
  derives a storage key from the path, for example
  `ps5/625743/team/774242334/roster` becomes `roster_774242334.json`.
- The server keeps the document and the time of the write in two
  process-wide maps: `_store` and `_last_updated`.
- Readers fetch a document by name, `GET /<name>`. The `.json` is optional
  there.
- Readers can list what is stored, either as the home page or as `/status`.
- `POST /clear` wipes both maps.

This project models that core in Dafny.

- `Resolver` models `_detect_filename`, a total function from the posted path
  to a key.
  - The path is stripped of slashes, split on `/`, and empty pieces are
    dropped.
  - The roster rule, the free-agent rule and the default rule are then tried
    in that order.
  - The Python string operations it uses are written out in `Text`:
    - `split` on one character;
    - `strip` of one character;
    - `replace`, as the interpreter performs it: one left-to-right pass over
      non-overlapping occurrences, which never rescans its own output.
- `Json` defines the parsed document and Python's truthiness of it. Truthiness
  is the test behind `if not payload`.
- `Store` holds the two maps as one immutable value. Each route becomes a pure
  transition or query:
  - store an export;
  - serve a file;
  - list the files, sorted by `Ordering`, which is Python's string order by
    code point;
  - clear.
- `Service` runs a sequence of requests from the empty store at process start.
  - It defines `Latest`, an independent reading of a request history: the
    document a key must hold.
  - It proves that the store always agrees with `Latest`.

The comment at `app.py:56` says the default rule strips "any accidental
.json suffix before re-adding", which suggests only a trailing `.json` is
meant. The code at `app.py:57` calls `stem.replace(".json", "")`. That removes
every occurrence, and it removes them in a single pass. The model follows the
code:
- `a.jsonb` is stored as `ab.json`;
- `x.js.jsonon` is stored as `x.json.json`, because the removal leaves a new
  `.json` behind.

The lemmas `Resolver.InnerOccurrenceKey` and `Resolver.SinglePassKey` state
both facts for all inputs of those shapes. A name that carries `.json` only at
its end behaves as the comment describes (`Resolver.PlainNameKey`).

## Model

| member | source | states |
|---|---|---|
| Json.Truthy | app.py:95 | a parsed body is refused exactly when it is null, false, a zero number, the empty string, the empty array or the empty object |
| Text.Split | app.py:42 | `split("/")` always yields at least one piece |
| Text.SplitPiecesFree | app.py:42 | no piece of a split contains the separator |
| Text.JoinOfSplit | app.py:42 | joining the pieces of a split with the separator gives back the original text |
| Text.SplitOfJoin | app.py:42 | splitting the join of separator-free pieces gives back the pieces |
| Text.SplitAround | app.py:42 | a separator in the text splits the pieces into those before it followed by those after it |
| Text.SplitWithoutSeparator | app.py:42 | text without the separator is one piece |
| Text.NonEmptyMembers | app.py:42 | the comprehension `[p for p in parts if p]` keeps exactly the non-empty pieces and never more pieces than it got |
| Text.NonEmptyAppend | app.py:42 | dropping empty pieces distributes over concatenation |
| Text.TrimStartShape | app.py:42 | `lstrip("/")` removes a run of slashes and keeps a suffix that does not start with a slash |
| Text.TrimEndShape | app.py:42 | `rstrip("/")` removes a run of slashes and keeps a prefix that does not end with a slash |
| Text.NonEmptyPiecesTrimStart | app.py:42 | leading slashes contribute only empty pieces |
| Text.NonEmptyPiecesTrimEnd | app.py:42 | trailing slashes contribute only empty pieces |
| Text.NoOccurrenceUnchanged | app.py:57 | `replace` returns text in which the pattern does not occur unchanged |
| Text.KeepPrefix | app.py:57 | a stretch of text where no occurrence begins is copied through unchanged |
| Text.SuffixReplaced | app.py:56-57 | for a pattern whose occurrences cannot overlap, an occurrence appended at the end is replaced and nothing before it changes |
| Ordering.BelowIrreflexive | app.py:75 | no string sorts before itself |
| Ordering.BelowTransitive | app.py:75 | the string order is transitive |
| Ordering.BelowTotal | app.py:75 | any two different strings are ordered one way or the other |
| Ordering.BelowAsymmetric | app.py:75 | two strings are never each below the other |
| Ordering.Insert | app.py:75 | inserting a new key into a sorted list keeps it sorted, adds exactly that key and grows it by one |
| Ordering.SortedKeys | app.py:75 | `sorted(keys)` returns every key exactly once, in strictly increasing order |
| Ordering.SortedUnique | app.py:132 | two sorted lists with the same members are equal, so the listing is determined by the key set alone |
| Resolver.Segments | app.py:42 | every segment of a path is non-empty and free of slashes |
| Resolver.FirstIndex | app.py:46 | `parts.index(x)` is the position of the first occurrence of `x` |
| Resolver.KeyOf | app.py:44-58 | every key the three rules produce ends in `.json` |
| Resolver.DetectFilename | app.py:34-58 | every resolved key ends in `.json` |
| Resolver.RosterRule | app.py:45-48 | with a `roster` segment at `i` and none before it, the key is `roster_<segment i-1>.json`, or `roster_unknown.json` when `i` is 0, whatever other segments exist |
| Resolver.FreeAgentRule | app.py:50-52 | without `roster` but with `freeagents` or `free_agents`, the key is `roster_freeagents.json` |
| Resolver.DefaultRule | app.py:54-58 | otherwise the key is the last segment with every `.json` removed, plus `.json`, and `data.json` when there are no segments |
| Resolver.KeyRules | app.py:44-58 | the three rules with their precedence, as one statement about the segments |
| Resolver.ResolverRules | app.py:42-58 | the three rules stated about the non-empty segments of the path |
| Resolver.SegmentsIgnoreStrip | app.py:42 | stripping the slashes first does not change the non-empty segments |
| Resolver.SegmentsAround | app.py:42 | a slash divides a path's segments into those before it and those after it |
| Resolver.SegmentsOfJoin | app.py:42 | the segments of `a/b/.../z` are exactly `a`, `b`, ..., `z` |
| Resolver.NoSegments | app.py:42 | the empty path has no segments |
| Resolver.LeadingSlashIgnored | app.py:42 | a leading slash does not change the segments |
| Resolver.TrailingSlashIgnored | app.py:42 | a trailing slash does not change the segments |
| Resolver.DoubleSlashIgnored | app.py:42 | a doubled slash acts as a single one |
| Resolver.SlashesIrrelevant | app.py:42 | leading, trailing and repeated slashes never change the key |
| Resolver.OnlySlashes | app.py:42-58 | a path of nothing but slashes, the empty path included, has no segments and resolves to `data.json` |
| Resolver.SingleSegment | app.py:42 | a non-empty name without slashes is a single segment |
| Resolver.SingleSegmentKey | app.py:54-58 | a single segment that is no rule keyword is stored under itself with `.json` removed, plus `.json` |
| Resolver.NoDotNoSuffix | app.py:57 | text without a dot holds no `.json` |
| Resolver.SuffixStripped | app.py:56-57 | an accidental `.json` at the end of the last segment is not doubled |
| Resolver.PlainNameKey | app.py:54-58 | a plain name resolves to `<name>.json` whether it was posted with or without `.json` |
| Resolver.ReplaceLeadingSuffix | app.py:57 | `.json` followed by dot-free text loses just the `.json` |
| Resolver.ReplaceEveryOccurrence | app.py:57 | `.json` is removed wherever it occurs, not only at the end |
| Resolver.ReplaceSinglePass | app.py:57 | the removal does not rescan its output: `.json` wrapped in the two halves of another `.json` leaves a `.json` behind |
| Resolver.InnerOccurrenceKey | app.py:55-58 | a last segment `x.jsony` is stored as `xy.json` |
| Resolver.SinglePassKey | app.py:55-58 | a last segment `x.js.jsonon` (any split of `.json` around `.json`) is stored as `x.json.json` |
| Resolver.RosterPathKey | app.py:38-48 | the roster path `.../<team>/roster` is stored under `roster_<team>.json` whatever roster-free segments precede it |
| Resolver.RosterExample | app.py:38 | `ps5/625743/team/774242334/roster` is stored under `roster_774242334.json` |
| Resolver.StandingsExample | app.py:39 | `standings` and `standings.json` are both stored under `standings.json` |
| Store.Export | app.py:94-100 | an absent or falsy body is refused and nothing changes. An accepted body is stored under the resolved key with the given time. Every other key keeps its document and time, the key set grows by that key alone, and both maps keep the same keys |
| Store.PutsCommute | app.py:99-100 | writes to different keys commute |
| Store.PutTwice | app.py:99-100 | a second write to a key hides the first |
| Store.NormalizeName | app.py:113-114 | the lookup key ends in `.json`: the name itself when it already does, else the name with `.json` appended |
| Store.Serve | app.py:113-123 | a read is a miss exactly when the normalised key is not stored. A hit returns the stored document and a miss names the key it looked up |
| Store.Clear | app.py:140-141 | after a clear no key has a document or a time, and both maps agree |
| Store.Listing | app.py:73-75 | the home page lists every stored key exactly once in sorted order, each with its time, or `?` when the time map lacks the key |
| Store.StatusOf | app.py:129-134 | the status reports the number of files, the sorted file list of that length and the time map |
| Store.NormalizeKeepsKeys | app.py:113-116 | a resolved key read back by its own name looks up that very key |
| Store.NormalizeIdempotent | app.py:113-114 | normalising a name twice is the same as once |
| Store.ReadAfterExport | app.py:98-123 | after an accepted export, reading the resolved key returns exactly the posted document |
| Store.LastWriteWins | app.py:98-100 | a second export to the same key leaves the store as if only the second had happened |
| Store.ExportsCommute | app.py:98-100 | exports to different keys can be reordered |
| Store.ClearForgetsAll | app.py:140-141 | after a clear every read is a miss |
| Store.ReadByPlainName | app.py:113-116 | an export to a plain name is readable by that name with or without `.json` |
| Store.RosterReadExample | app.py:38 | a roster posted to `ps5/625743/team/774242334/roster` is served by `roster_774242334.json` |
| Store.EmptyStoreMisses | app.py:28-29 | at process start every read is a miss |
| Service.Step | app.py:84-141 | one request keeps both maps on the same keys. Reads and the export URL check change nothing, and the check reports the number of files. Only a clear removes keys |
| Service.Run | app.py:28-29 | after any history from process start both maps hold the same keys |
| Service.RunMatchesLatest | app.py:94-100 | after any history each key holds the latest accepted export to it since the last clear, with that export's time, and is absent when there is none |
| Service.ReadSeesLatest | app.py:106-123 | a read after any history returns that latest export or a miss |
| Service.KeysGrowBetweenClears | app.py:98-100 | between clears the set of stored keys only grows |

## Left out

- Flask routing and route precedence are not modelled. The routes are
  modelled as follows:
  - the routes that can change the store are request kinds in
    `Service.Request`: export, the export URL check, reading a file and
    clear;
  - the two listing routes, the home page (`app.py:63-81`) and `/status`
    (`app.py:126-134`), are modelled by the methods `Store.Listing` and
    `Store.StatusOf`, outside the request sequence. They read the store and
    never change it, so leaving them out of `Service.Step` loses no state
    transition.
  - HTTP status codes and response bodies are reduced to reply constructors.
  - The HTML of the home page is reduced to the ordered list of entries it
    shows.
  - The home page's special text for an empty store is not modelled, because
    it is presentation only.
- `request.get_json(force=True, silent=True)` is not modelled, because it is a
  library parser. The export receives its result: a parsed value, or `None`
  when the body is not JSON.
- `json.dumps` is not modelled. A read returns the stored value itself.
- The byte count in the log line is left out. So is the `print` logging.
- The clock `datetime.now(...).strftime(...)` is left out. The time text is a
  parameter of each export.
- Numbers are exact decimals `mantissa * 10^exponent`. Floating-point rounding
  and underflow, which could make a nonzero literal falsy, are not modelled.
- Duplicate object keys and their resolution by the parser are not modelled.
  Object members are kept in the order received.
- Concurrent requests under several workers are not modelled. Every request is
  one atomic step against the store.
- The `payload` argument of `_detect_filename` is not modelled, because the
  function never reads it.
- The `__main__` block is left out: port and environment handling.
- Text.Replace: only a non-empty pattern is covered, because the server only
  ever removes `.json`. Python's behaviour for an empty pattern is not
  modelled.
