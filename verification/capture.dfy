/** The proxy addon that records search requests: each request whose URL
    contains the search marker is appended to an in-memory list that is then
    written out whole, and each such response whose decoded body mentions the
    catalog marker replaces the single saved search-results snapshot. */
module Capture {
  import opened Wrappers
  import opened JsonValues
  import Strings
  import Replayer

  const SearchMarker := "searchGoods"
  const CatalogMarker := "onSaleList"

  /** A response as the hook sees it: absent, present but not JSON, or decoded. */
  datatype ResponseBody = NoResponse | Unparsable | Parsed(value: Json)

  /** One intercepted transaction: the request's full URL, method, headers,
      query parameters and body, and the response. The body is its UTF-8
      decoding, or `None` for bytes that are not valid UTF-8. */
  datatype Exchange = Exchange(
    url: string,
    httpMethod: string,
    headers: map<string, string>,
    query: map<string, string>,
    content: Option<string>,
    response: ResponseBody)

  /** The addon's state: the captured list, the last list written to disk
      (nothing before the first write), and the saved snapshot. */
  datatype Addon = Addon(captured: seq<Record>, persisted: Option<seq<Record>>, snapshot: Option<Json>)

  const Initial := Addon([], None, None)

  /** The record kept for a matching request whose body decodes. */
  function RecordOf(x: Exchange): (r: Record)
    requires x.content.Some?
    ensures r.Keys == {"url", "method", "headers", "params", "body"}
    ensures r["url"] == Str(x.url) && r["method"] == Str(x.httpMethod)
    ensures r["headers"] == Obj(StrMap(x.headers)) && r["params"] == Obj(StrMap(x.query))
    ensures r["body"] == Null <==> |x.content.value| == 0
    ensures |x.content.value| > 0 ==> r["body"] == Str(x.content.value)
  {
    map[
      "url" := Str(x.url),
      "method" := Str(x.httpMethod),
      "headers" := Obj(StrMap(x.headers)),
      "params" := Obj(StrMap(x.query)),
      "body" := if |x.content.value| > 0 then Str(x.content.value) else Null]
  }

  /** The `request` hook. The URL test is case-sensitive. A matching request
      whose body does not decode raises before anything is appended or
      written, so it leaves the addon as it was. */
  function OnRequest(s: Addon, x: Exchange): (r: Addon)
    ensures !Strings.Contains(x.url, SearchMarker) || x.content.None? ==> r == s
    ensures Strings.Contains(x.url, SearchMarker) && x.content.Some? ==>
              && r.captured == s.captured + [RecordOf(x)]
              && r.persisted == Some(r.captured)
              && r.snapshot == s.snapshot
  {
    if Strings.Contains(x.url, SearchMarker) && x.content.Some? then
      var captured := s.captured + [RecordOf(x)];
      Addon(captured, Some(captured), s.snapshot)
    else s
  }

  /** A response that replaces the snapshot. */
  predicate Qualifies(x: Exchange)
  {
    Strings.Contains(x.url, SearchMarker) && x.response.Parsed? && Mentions(x.response.value, CatalogMarker)
  }

  /** The `response` hook. A body that does not decode is logged and ignored. */
  function OnResponse(s: Addon, x: Exchange): (r: Addon)
    ensures r.captured == s.captured && r.persisted == s.persisted
    ensures Qualifies(x) ==> r.snapshot == Some(x.response.value)
    ensures !Qualifies(x) ==> r.snapshot == s.snapshot
  {
    if Strings.Contains(x.url, SearchMarker) && !x.response.NoResponse? then
      match x.response
      case Parsed(j) => if Mentions(j, CatalogMarker) then s.(snapshot := Some(j)) else s
      case _ => s
    else s
  }

  /** The host invokes the hooks one transaction event at a time. */
  datatype Event = RequestHook(x: Exchange) | ResponseHook(x: Exchange)

  function Step(s: Addon, e: Event): Addon
  {
    match e
    case RequestHook(x) => OnRequest(s, x)
    case ResponseHook(x) => OnResponse(s, x)
  }

  function Run(events: seq<Event>): Addon
  {
    if |events| == 0 then Initial else Step(Run(events[..|events| - 1]), events[|events| - 1])
  }

  /** The disk copy is written with every append, so it always equals the list. */
  ghost predicate Persisted(s: Addon)
  {
    s.persisted == if |s.captured| == 0 then None else Some(s.captured)
  }

  lemma {:induction false} RunPersisted(events: seq<Event>)
    ensures Persisted(Run(events))
  {
    if |events| > 0 {
      RunPersisted(events[..|events| - 1]);
    }
  }

  predicate IsCapturedRequest(e: Event)
  {
    e.RequestHook? && Strings.Contains(e.x.url, SearchMarker) && e.x.content.Some?
  }

  /** The records of the matching requests, in arrival order. */
  function CapturedRecords(events: seq<Event>): seq<Record>
  {
    if |events| == 0 then []
    else
      var e := events[|events| - 1];
      CapturedRecords(events[..|events| - 1]) + (if IsCapturedRequest(e) then [RecordOf(e.x)] else [])
  }

  lemma {:induction false} RunCaptured(events: seq<Event>)
    ensures Run(events).captured == CapturedRecords(events)
  {
    if |events| > 0 {
      RunCaptured(events[..|events| - 1]);
    }
  }

  /** What the replayer finds on disk after a run: no file before the first
      write, otherwise the last list written. */
  function CaptureFileOf(s: Addon): Replayer.CaptureFile
  {
    if s.persisted.None? then Replayer.Missing else Replayer.Loaded(s.persisted.value)
  }

  /** The replayer loads back exactly the records the addon captured, in
      arrival order. */
  lemma {:induction false} RunLoadsBack(events: seq<Event>)
    ensures Replayer.LoadCapturedRequests(CaptureFileOf(Run(events))) == CapturedRecords(events)
  {
    RunPersisted(events);
    RunCaptured(events);
  }

  /** Later events only ever append: every earlier list is a prefix of a later one. */
  lemma {:induction false} CapturedOnlyGrows(events: seq<Event>, i: nat)
    requires i <= |events|
    ensures |Run(events[..i]).captured| <= |Run(events).captured|
    ensures Run(events[..i]).captured == Run(events).captured[..|Run(events[..i]).captured|]
    decreases |events| - i
  {
    if i < |events| {
      var pre := events[..|events| - 1];
      assert events[..i] == pre[..i];
      CapturedOnlyGrows(pre, i);
    } else {
      assert events[..i] == events;
    }
  }

  predicate QualifyingResponse(e: Event)
  {
    e.ResponseHook? && Qualifies(e.x)
  }

  /** The snapshot is the body of the last qualifying response, and there is none
      until a response qualifies. */
  lemma {:induction false} RunSnapshot(events: seq<Event>)
    ensures Run(events).snapshot.None? <==> forall i :: 0 <= i < |events| ==> !QualifyingResponse(events[i])
    ensures forall i :: 0 <= i < |events| && QualifyingResponse(events[i])
              && (forall j :: i < j < |events| ==> !QualifyingResponse(events[j]))
              ==> Run(events).snapshot == Some(events[i].x.response.value)
  {
    if |events| > 0 {
      var pre := events[..|events| - 1];
      var e := events[|events| - 1];
      RunSnapshot(pre);
      if !QualifyingResponse(e) {
        assert Run(events).snapshot == Run(pre).snapshot;
        forall i | 0 <= i < |pre| ensures pre[i] == events[i] { }
      }
    }
  }

  /** A record the addon captures can always be replayed: the replayer finds
      every required field, sends the captured query merged with the overrides,
      and sends the body exactly when the request had content. */
  lemma CapturedRecordReplays(x: Exchange, overrides: map<string, Json>)
    requires x.content.Some?
    ensures Replayer.BuildRequest(RecordOf(x), overrides).Some?
    ensures var req := Replayer.BuildRequest(RecordOf(x), overrides).value;
            && req.httpMethod == Str(x.httpMethod) && req.url == Str(x.url)
            && req.params.Some? && req.params.value.Obj?
            && req.params.value.fields.Keys == x.query.Keys + overrides.Keys
            && (req.data.Some? <==> |x.content.value| > 0)
  {
    var r := RecordOf(x);
    assert Replayer.HasRequiredFields(r);
    if |x.query| == 0 {
      assert StrMap(x.query) == map[];
    } else {
      var k :| k in x.query;
      assert k in StrMap(x.query);
    }
  }
}
