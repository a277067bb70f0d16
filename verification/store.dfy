/** The in-memory document store of app.py: the two process-wide maps
    `_store` (key to document) and `_last_updated` (key to time text), and the
    four things the routes do with them: store an export, serve a file, list
    the files, clear everything. Each operation is a pure transition from one
    store value to the next. */
module Store {
  import opened Wrappers
  import opened Json
  import opened Text
  import Resolver
  import Ordering

  /** The formatted last-update time; the clock that produces it is outside
      the model and each write receives it as a parameter. */
  type Timestamp = string

  /** `_store` and `_last_updated`. */
  datatype Store = Store(docs: map<string, Value>, updated: map<string, Timestamp>)

  /** Both maps hold the same keys. */
  predicate Valid(s: Store) {
    s.docs.Keys == s.updated.Keys
  }

  /** The store at process start. */
  const Empty := Store(map[], map[])

  function Lookup(s: Store, key: string): Option<Value> {
    if key in s.docs then Some(s.docs[key]) else None
  }

  function StampOf(s: Store, key: string): Option<Timestamp> {
    if key in s.updated then Some(s.updated[key]) else None
  }

  // ---------------------------------------------------------------------------
  // store an export

  datatype ExportReply =
    | Saved(key: string)   // "Saved <key>", status 200
    | NoValidJson          // "No valid JSON received", status 400

  /** The POST branch of `handle_export`. `payload` is what the lenient body
      parser produced: `None` when the body is not JSON. Anything falsy is
      refused without touching the store; otherwise the document replaces
      whatever was stored under the resolved key and the key's time is set. */
  function Export(s: Store, path: string, payload: Option<Value>, now: Timestamp): (r: (Store, ExportReply))
    ensures r.1.NoValidJson? <==> payload == None || !Truthy(payload.value)
    ensures r.1.NoValidJson? ==> r.0 == s
    ensures r.1.Saved? ==> r.1.key == Resolver.DetectFilename(path)
    ensures r.1.Saved? ==> Lookup(r.0, r.1.key) == payload && StampOf(r.0, r.1.key) == Some(now)
    ensures r.1.Saved? ==> forall k :: k != r.1.key ==>
      Lookup(r.0, k) == Lookup(s, k) && StampOf(r.0, k) == StampOf(s, k)
    ensures r.0.docs.Keys == s.docs.Keys + (if r.1.Saved? then {r.1.key} else {})
    ensures Valid(s) ==> Valid(r.0)
  {
    match payload
    case None => (s, NoValidJson)
    case Some(v) =>
      if !Truthy(v) then (s, NoValidJson)
      else
        var key := Resolver.DetectFilename(path);
        (Put(s, key, v, now), Saved(key))
  }

  /** The two assignments of an accepted export. */
  function Put(s: Store, key: string, v: Value, now: Timestamp): Store {
    Store(s.docs[key := v], s.updated[key := now])
  }

  /** Writes to different keys commute. */
  lemma PutsCommute(s: Store, k1: string, k2: string, v1: Value, v2: Value, t1: Timestamp, t2: Timestamp)
    requires k1 != k2
    ensures Put(Put(s, k1, v1, t1), k2, v2, t2) == Put(Put(s, k2, v2, t2), k1, v1, t1)
  {
    assert s.docs[k1 := v1][k2 := v2] == s.docs[k2 := v2][k1 := v1];
    assert s.updated[k1 := t1][k2 := t2] == s.updated[k2 := t2][k1 := t1];
  }

  // ---------------------------------------------------------------------------
  // serve a file

  /** The key a read looks up: the requested name, with `.json` appended
      when it does not already end with it. */
  function NormalizeName(name: string): (key: string)
    ensures EndsWith(key, Resolver.Suffix)
    ensures EndsWith(name, Resolver.Suffix) ==> key == name
    ensures !EndsWith(name, Resolver.Suffix) ==> key == name + Resolver.Suffix
  {
    if EndsWith(name, Resolver.Suffix) then name
    else
      var key := name + Resolver.Suffix;
      assert key[|key| - |Resolver.Suffix|..] == Resolver.Suffix;
      key
  }

  datatype ServeReply =
    | Found(doc: Value)     // the document as JSON, status 200
    | NotFound(key: string) // "<key> not found", status 404

  /** `serve_file`: the stored document under the normalised name, or a
      not-found reply naming the key that was looked up. Reads change nothing. */
  function Serve(s: Store, name: string): (r: ServeReply)
    ensures r.NotFound? <==> NormalizeName(name) !in s.docs
    ensures r.Found? ==> Lookup(s, NormalizeName(name)) == Some(r.doc)
    ensures r.NotFound? ==> r.key == NormalizeName(name)
  {
    var key := NormalizeName(name);
    if key !in s.docs then NotFound(key) else Found(s.docs[key])
  }

  // ---------------------------------------------------------------------------
  // clear

  /** `clear`: both maps emptied. */
  function Clear(s: Store): (r: Store)
    ensures Valid(r)
    ensures forall k :: Lookup(r, k) == None && StampOf(r, k) == None
  {
    Store(map[], map[])
  }

  // ---------------------------------------------------------------------------
  // listings

  /** One line of the home page: a file and its time, or "?" when the time
      map lacks the key. */
  datatype Entry = Entry(key: string, stamp: Timestamp)

  function KeysOf(entries: seq<Entry>): (keys: seq<string>)
    ensures |keys| == |entries|
    ensures forall i :: 0 <= i < |entries| ==> keys[i] == entries[i].key
  {
    seq(|entries|, i requires 0 <= i < |entries| => entries[i].key)
  }

  /** `_last_updated.get(key, "?")`. */
  function StampOrUnknown(s: Store, key: string): Timestamp {
    if key in s.updated then s.updated[key] else "?"
  }

  /** The home page's file list: every stored key once, in sorted order,
      each with its last-update time. */
  method Listing(s: Store) returns (entries: seq<Entry>)
    ensures |entries| == |s.docs|
    ensures Ordering.StrictlySorted(KeysOf(entries))
    ensures forall k :: k in KeysOf(entries) <==> k in s.docs
    ensures forall i :: 0 <= i < |entries| ==> entries[i].stamp == StampOrUnknown(s, entries[i].key)
    ensures Valid(s) ==> forall i :: 0 <= i < |entries| ==>
      StampOf(s, entries[i].key) == Some(entries[i].stamp)
  {
    var keys := Ordering.SortedKeys(s.docs.Keys);
    entries := seq(|keys|, i requires 0 <= i < |keys| => Entry(keys[i], StampOrUnknown(s, keys[i])));
    assert KeysOf(entries) == keys;
  }

  /** The `/status` report. */
  datatype Status = Status(filesStored: nat, files: seq<string>, lastUpdated: map<string, Timestamp>)

  /** `status`: the number of files, the sorted file names and the time map. */
  method StatusOf(s: Store) returns (st: Status)
    ensures st.filesStored == |s.docs| == |st.files|
    ensures Ordering.StrictlySorted(st.files)
    ensures forall k :: k in st.files <==> k in s.docs
    ensures st.lastUpdated == s.updated
  {
    var files := Ordering.SortedKeys(s.docs.Keys);
    st := Status(|s.docs|, files, s.updated);
  }

  // ---------------------------------------------------------------------------
  // properties relating the operations

  /** Every stored key already ends with `.json`, so reading it back by its
      own name looks up that very key. */
  lemma NormalizeKeepsKeys(path: string)
    ensures NormalizeName(Resolver.DetectFilename(path)) == Resolver.DetectFilename(path)
  {
  }

  lemma NormalizeIdempotent(name: string)
    ensures NormalizeName(NormalizeName(name)) == NormalizeName(name)
  {
  }

  /** After an accepted export, reading the resolved key returns exactly the
      document that was posted. */
  lemma ReadAfterExport(s: Store, path: string, v: Value, now: Timestamp)
    requires Truthy(v)
    ensures Serve(Export(s, path, Some(v), now).0, Resolver.DetectFilename(path)) == Found(v)
  {
    NormalizeKeepsKeys(path);
  }

  /** A second export to the same key replaces the first one completely:
      the result is as if only the second had been sent. */
  lemma LastWriteWins(s: Store, p1: string, p2: string, v1: Value, v2: Value, t1: Timestamp, t2: Timestamp)
    requires Truthy(v1) && Truthy(v2)
    requires Resolver.DetectFilename(p1) == Resolver.DetectFilename(p2)
    ensures Export(Export(s, p1, Some(v1), t1).0, p2, Some(v2), t2).0 == Export(s, p2, Some(v2), t2).0
  {
    var key := Resolver.DetectFilename(p2);
    var first := Export(s, p1, Some(v1), t1).0;
    assert first == Put(s, key, v1, t1);
    assert Export(first, p2, Some(v2), t2).0 == Put(first, key, v2, t2);
    PutTwice(s, key, v1, v2, t1, t2);
  }

  /** A second write to a key hides the first. */
  lemma PutTwice(s: Store, k: string, v1: Value, v2: Value, t1: Timestamp, t2: Timestamp)
    ensures Put(Put(s, k, v1, t1), k, v2, t2) == Put(s, k, v2, t2)
  {
    assert s.docs[k := v1][k := v2] == s.docs[k := v2];
    assert s.updated[k := t1][k := t2] == s.updated[k := t2];
  }

  /** Exports resolving to different keys do not interfere: their order
      does not matter. */
  lemma ExportsCommute(s: Store, p1: string, p2: string, v1: Value, v2: Value, t1: Timestamp, t2: Timestamp)
    requires Truthy(v1) && Truthy(v2)
    requires Resolver.DetectFilename(p1) != Resolver.DetectFilename(p2)
    ensures Export(Export(s, p1, Some(v1), t1).0, p2, Some(v2), t2).0
         == Export(Export(s, p2, Some(v2), t2).0, p1, Some(v1), t1).0
  {
    PutsCommute(s, Resolver.DetectFilename(p1), Resolver.DetectFilename(p2), v1, v2, t1, t2);
  }

  /** After a clear every read is a miss. */
  lemma ClearForgetsAll(s: Store, name: string)
    ensures Serve(Clear(s), name).NotFound?
  {
  }

  /** An export to a plain name can be read back by that name alone, with or
      without the `.json` suffix. */
  lemma ReadByPlainName(s: Store, stem: string, v: Value, now: Timestamp)
    requires stem != "" && Resolver.Sep !in stem && !Contains(stem, Resolver.Suffix)
    requires stem != "roster" && stem != "freeagents" && stem != "free_agents"
    requires Truthy(v)
    ensures Export(s, stem, Some(v), now).1 == Saved(stem + Resolver.Suffix)
    ensures Serve(Export(s, stem, Some(v), now).0, stem) == Found(v)
    ensures Serve(Export(s, stem, Some(v), now).0, stem + Resolver.Suffix) == Found(v)
  {
    Resolver.PlainNameKey(stem);
    assert !EndsWith(stem, Resolver.Suffix) by {
      if EndsWith(stem, Resolver.Suffix) {
        var i := |stem| - |Resolver.Suffix|;
        assert StartsWith(stem[i..], Resolver.Suffix);
      }
    }
  }


  // ---------------------------------------------------------------------------
  // scenarios

  /** A roster posted to `/export/ps5/625743/team/774242334/roster` is
      served back by `GET /roster_774242334.json`. */
  lemma RosterReadExample(s: Store, segs: seq<string>, doc: Value, now: Timestamp)
    requires segs == ["ps5", "625743", "team", "774242334", "roster"]
    requires doc == Object([("name", String("A"))])
    ensures var path := Join(segs, Resolver.Sep);
      Serve(Export(s, path, Some(doc), now).0, "roster_774242334.json") == Found(doc)
  {
    Resolver.RosterExample(segs);
    ReadAfterExport(s, Join(segs, Resolver.Sep), doc, now);
  }

  /** Before anything is exported every read is a miss. */
  lemma EmptyStoreMisses(name: string)
    ensures Serve(Empty, name) == NotFound(NormalizeName(name))
  {
  }

}
