/** The service as one sequential state machine: each request is handled
    atomically against the store, one after another, starting from the empty
    store the process begins with. */
module Service {
  import opened Wrappers
  import opened Json
  import opened Store
  import Resolver

  datatype Request =
    | PostExport(path: string, payload: Option<Value>, now: Timestamp) // POST /export/<path>
    | PingExport                                                       // GET /export[/<path>]
    | GetFile(name: string)                                            // GET /<name>
    | PostClear                                                        // POST /clear

  datatype Response =
    | Exported(exported: ExportReply)
    | Online(files: nat)
    | Served(served: ServeReply)
    | Cleared

  /** Handles one request. Reads and the exporter's URL check leave the
      store as it was; only a clear ever removes keys. */
  function Step(s: Store, req: Request): (r: (Store, Response))
    ensures Valid(s) ==> Valid(r.0)
    ensures req.GetFile? || req.PingExport? ==> r.0 == s
    ensures req.PingExport? ==> r.1 == Online(|s.docs|)
    ensures !req.PostClear? ==> s.docs.Keys <= r.0.docs.Keys
  {
    match req
    case PostExport(path, payload, now) =>
      var (s', reply) := Export(s, path, payload, now);
      (s', Exported(reply))
    case PingExport => (s, Online(|s.docs|))
    case GetFile(name) => (s, Served(Serve(s, name)))
    case PostClear => (Clear(s), Cleared)
  }

  /** The store after handling `reqs` in order from process start; the two
      maps agree on their keys after every step. */
  function Run(reqs: seq<Request>): (s: Store)
    ensures Valid(s)
  {
    if |reqs| == 0 then Empty
    else Step(Run(reqs[..|reqs| - 1]), reqs[|reqs| - 1]).0
  }

  /** Reference reading of the history: the document and time of the most
      recent accepted export resolving to `key` after the most recent clear. */
  function Latest(reqs: seq<Request>, key: string): Option<(Value, Timestamp)> {
    if |reqs| == 0 then None
    else
      var earlier := reqs[..|reqs| - 1];
      match reqs[|reqs| - 1]
      case PostClear => None
      case PingExport => Latest(earlier, key)
      case GetFile(_) => Latest(earlier, key)
      case PostExport(path, payload, now) =>
        if payload.Some? && Truthy(payload.value) && Resolver.DetectFilename(path) == key
        then Some((payload.value, now))
        else Latest(earlier, key)
  }

  /** The store holds, for every key, exactly the latest accepted export
      since the last clear, with that export's time; keys never written
      since the last clear are absent from both maps. */
  lemma {:induction false} RunMatchesLatest(reqs: seq<Request>, key: string)
    ensures Lookup(Run(reqs), key) == (if Latest(reqs, key).Some? then Some(Latest(reqs, key).value.0) else None)
    ensures StampOf(Run(reqs), key) == (if Latest(reqs, key).Some? then Some(Latest(reqs, key).value.1) else None)
  {
    if |reqs| > 0 {
      RunMatchesLatest(reqs[..|reqs| - 1], key);
    }
  }

  /** A read issued after a history returns the latest accepted export to
      the normalised name since the last clear, and is a miss otherwise. */
  lemma ReadSeesLatest(reqs: seq<Request>, name: string)
    ensures var latest := Latest(reqs, NormalizeName(name));
      Serve(Run(reqs), name) == if latest.Some? then Found(latest.value.0) else NotFound(NormalizeName(name))
  {
    RunMatchesLatest(reqs, NormalizeName(name));
  }

  /** Handling one more request is one more step. */
  lemma RunAppend(reqs: seq<Request>, req: Request)
    ensures Run(reqs + [req]) == Step(Run(reqs), req).0
  {
    var all := reqs + [req];
    assert all[..|all| - 1] == reqs;
  }

  /** Between clears the set of stored keys only grows. */
  lemma {:induction false} KeysGrowBetweenClears(reqs: seq<Request>, more: seq<Request>)
    requires forall i :: 0 <= i < |more| ==> !more[i].PostClear?
    ensures Run(reqs).docs.Keys <= Run(reqs + more).docs.Keys
  {
    if |more| == 0 {
      assert reqs + more == reqs;
    } else {
      var init, last := more[..|more| - 1], more[|more| - 1];
      assert forall i :: 0 <= i < |init| ==> init[i] == more[i];
      KeysGrowBetweenClears(reqs, init);
      assert !last.PostClear?;
      RunAppend(reqs + init, last);
      assert reqs + init + [last] == reqs + more;
      var before := Run(reqs + init);
      assert before.docs.Keys <= Step(before, last).0.docs.Keys;
    }
  }

}
