/** The request replayer: rebuilds an HTTP request from a captured record,
    merging parameter overrides into the captured query parameters, sends it,
    and keeps the decoded JSON of a 200 response. The HTTP client is a function
    supplied from outside. */
module Replayer {
  import opened Wrappers
  import opened JsonValues

  /** The keyword arguments handed to the HTTP client: `params` and `data`
      are passed only when present. */
  datatype HttpRequest = HttpRequest(
    httpMethod: Json,
    url: Json,
    headers: Json,
    params: Option<Json>,
    data: Option<Json>)

  /** What the HTTP client gives back: a transport failure (it raised), or a
      status code with the body decoded as JSON, `None` when it is not JSON. */
  datatype Reply = TransportError | Response(status: int, body: Option<Json>)

  /** The outcome of one replay: the request issued, if any, and the returned value. */
  datatype Replay = Replay(issued: Option<HttpRequest>, result: Option<Json>)

  /** The fields a record must hold to be replayed. */
  predicate HasRequiredFields(record: Record)
  {
    "method" in record && "url" in record && "headers" in record
  }

  /** The `params` argument: a copy of the captured parameters (an empty dict
      when they are falsy) updated by the overrides, or `None` when that raises:
      only a dict can be updated, and only dicts and lists can be copied. */
  function ParamsFor(captured: Json, overrides: map<string, Json>): (r: Option<Json>)
    ensures !Truthy(captured) ==> r == Some(Obj(overrides))
    ensures captured.Obj? ==> r.Some? && r.value.Obj?
    ensures captured.Obj? ==> r.value.fields.Keys == captured.fields.Keys + overrides.Keys
    ensures captured.Obj? ==> forall k :: k in overrides ==> r.value.fields[k] == overrides[k]
    ensures captured.Obj? ==> forall k :: k in captured.fields && k !in overrides ==> r.value.fields[k] == captured.fields[k]
    ensures Truthy(captured) && captured.Arr? ==> (r.Some? <==> |overrides| == 0) && (r.Some? ==> r.value == captured)
    ensures Truthy(captured) && !captured.Obj? && !captured.Arr? ==> r.None?
  {
    if !Truthy(captured) then Some(Obj(overrides))
    else
      match captured
      case Obj(m) => Some(Obj(m + overrides))
      case Arr(_) => if |overrides| == 0 then Some(captured) else None
      case _ => None
  }

  /** The request the replayer sends for a record and overrides, or `None`
      when it gives up before sending. */
  function BuildRequest(record: Record, overrides: map<string, Json>): (r: Option<HttpRequest>)
    ensures !HasRequiredFields(record) ==> r.None?
    ensures r.Some? ==> && r.value.httpMethod == record["method"]
                        && r.value.url == record["url"]
                        && r.value.headers == record["headers"]
    ensures HasRequiredFields(record) && "params" !in record ==> r.Some? && r.value.params.None?
    ensures HasRequiredFields(record) && "params" in record ==>
              (r.Some? <==> ParamsFor(record["params"], overrides).Some?)
              && (r.Some? ==> r.value.params == ParamsFor(record["params"], overrides))
    ensures r.Some? ==> (r.value.data.Some? <==> "body" in record && Truthy(record["body"]))
    ensures r.Some? && r.value.data.Some? ==> r.value.data.value == record["body"]
  {
    if !HasRequiredFields(record) then None
    else
      var params := if "params" in record then ParamsFor(record["params"], overrides) else Some(Null);
      if params.None? then None
      else
        var data := if "body" in record && Truthy(record["body"]) then Some(record["body"]) else None;
        Some(HttpRequest(
          record["method"], record["url"], record["headers"],
          if "params" in record then params else None,
          data))
  }

  /** `replay_request`: a request is issued only when one can be built, and its
      result is kept only for status 200 with a JSON body. */
  function ReplayRequest(record: Record, overrides: map<string, Json>, send: HttpRequest -> Reply): (r: Replay)
    ensures r.issued == BuildRequest(record, overrides)
    ensures !HasRequiredFields(record) ==> r.issued.None? && r.result.None?
    ensures r.issued.None? ==> r.result.None?
    ensures r.issued.Some? ==>
              var reply := send(r.issued.value);
              (r.result.Some? <==> reply.Response? && reply.status == 200 && reply.body.Some?)
              && (r.result.Some? ==> r.result == reply.body)
  {
    match BuildRequest(record, overrides)
    case None => Replay(None, None)
    case Some(req) =>
      match send(req)
      case TransportError => Replay(Some(req), None)
      case Response(status, body) =>
        if status != 200 then Replay(Some(req), None)
        else Replay(Some(req), body)
  }

  /** Overrides only matter when the record carries a `params` key. */
  lemma OverridesIgnoredWithoutParams(record: Record, o1: map<string, Json>, o2: map<string, Json>)
    requires "params" !in record
    ensures BuildRequest(record, o1) == BuildRequest(record, o2)
  {
  }

  /** Without overrides, dict parameters are sent exactly as captured. */
  lemma NoOverridesKeepsParams(record: Record)
    requires HasRequiredFields(record) && "params" in record && record["params"].Obj?
    ensures BuildRequest(record, map[]).Some?
    ensures BuildRequest(record, map[]).value.params == Some(record["params"])
  {
    var m := record["params"].fields;
    assert m + map[] == m;
  }

  /** The contents of the capture file as loaded: missing or not valid JSON
      both load as an empty list. */
  datatype CaptureFile = Missing | Invalid | Loaded(records: seq<Record>)

  function LoadCapturedRequests(file: CaptureFile): (r: seq<Record>)
    ensures file.Loaded? ==> r == file.records
    ensures !file.Loaded? ==> r == []
  {
    if file.Loaded? then file.records else []
  }

  /** The value kept from one replay: a truthy result, or nothing. */
  function Kept(r: Replay): seq<Json>
  {
    if r.result.Some? && Truthy(r.result.value) then [r.result.value] else []
  }

  /** Every variation for one record, in order. */
  function ReplayVariations(record: Record, variations: seq<map<string, Json>>, send: HttpRequest -> Reply): seq<Json>
  {
    if |variations| == 0 then []
    else
      var last := |variations| - 1;
      ReplayVariations(record, variations[..last], send) + Kept(ReplayRequest(record, variations[last], send))
  }

  /** Every record, and for each every variation: record-major order. */
  function ReplayAll(records: seq<Record>, variations: seq<map<string, Json>>, send: HttpRequest -> Reply): seq<Json>
  {
    if |records| == 0 then []
    else
      var last := |records| - 1;
      ReplayAll(records[..last], variations, send) + ReplayVariations(records[last], variations, send)
  }

  lemma {:induction false} ReplayVariationsBound(record: Record, variations: seq<map<string, Json>>, send: HttpRequest -> Reply)
    ensures |ReplayVariations(record, variations, send)| <= |variations|
    ensures forall j :: 0 <= j < |ReplayVariations(record, variations, send)| ==> Truthy(ReplayVariations(record, variations, send)[j])
  {
    if |variations| > 0 {
      ReplayVariationsBound(record, variations[..|variations| - 1], send);
    }
  }

  /** The batch holds at most one value per (record, variation) pair, and only truthy ones. */
  lemma {:induction false} ReplayAllBound(records: seq<Record>, variations: seq<map<string, Json>>, send: HttpRequest -> Reply)
    ensures |ReplayAll(records, variations, send)| <= |records| * |variations|
    ensures forall j :: 0 <= j < |ReplayAll(records, variations, send)| ==> Truthy(ReplayAll(records, variations, send)[j])
  {
    if |records| > 0 {
      var last := |records| - 1;
      ReplayAllBound(records[..last], variations, send);
      ReplayVariationsBound(records[last], variations, send);
      MulStep(|records|, |variations|);
      var front, here := ReplayAll(records[..last], variations, send), ReplayVariations(records[last], variations, send);
      assert ReplayAll(records, variations, send) == front + here;
      forall j | 0 <= j < |front + here|
        ensures Truthy((front + here)[j])
      {
        if j >= |front| {
          assert (front + here)[j] == here[j - |front|];
        }
      }
    }
  }

  lemma MulStep(n: nat, v: nat)
    requires n > 0
    ensures n * v == (n - 1) * v + v
  {
  }

  /** The inner loop of `replay_with_modifications`: one record with every
      variation, keeping the truthy results in order. */
  method ReplayRecord(record: Record, variations: seq<map<string, Json>>, send: HttpRequest -> Reply)
    returns (kept: seq<Json>)
    ensures kept == ReplayVariations(record, variations, send)
  {
    kept := [];
    var j := 0;
    while j < |variations|
      invariant 0 <= j <= |variations|
      invariant kept == ReplayVariations(record, variations[..j], send)
    {
      var r := ReplayRequest(record, variations[j], send);
      if r.result.Some? && Truthy(r.result.value) {
        kept := kept + [r.result.value];
      }
      assert variations[..j + 1][..j] == variations[..j];
      j := j + 1;
    }
    assert variations[..j] == variations;
  }

  /** `replay_with_modifications`: loads the captured records and replays each
      with each variation, collecting the truthy results in record-major order. */
  method ReplayWithModifications(file: CaptureFile, variations: seq<map<string, Json>>, send: HttpRequest -> Reply)
    returns (results: seq<Json>)
    ensures results == ReplayAll(LoadCapturedRequests(file), variations, send)
    ensures |LoadCapturedRequests(file)| == 0 ==> results == []
  {
    var captured := LoadCapturedRequests(file);
    if |captured| == 0 {
      return [];
    }
    results := [];
    var i := 0;
    while i < |captured|
      invariant 0 <= i <= |captured|
      invariant results == ReplayAll(captured[..i], variations, send)
    {
      var kept := ReplayRecord(captured[i], variations, send);
      results := results + kept;
      assert captured[..i + 1][..i] == captured[..i];
      i := i + 1;
    }
    assert captured[..i] == captured;
  }
}
