/** The keyword driver that works from a recorded traffic file: it keeps every
    flow whose URL mentions "search", takes the first kept request as the
    baseline, and for every other keyword replays a copy of the baseline whose
    JSON body has its `keywords` field replaced. */
module Searcher {
  import opened Wrappers
  import opened JsonValues
  import Strings
  import Replayer

  /** The keyword whose results the original capture already holds. */
  const BaselineKeyword := "苹果"

  /** One entry of the traffic file: an HTTP flow (full URL, method, headers,
      body text) or anything else, which is skipped. */
  datatype Flow = HttpFlow(url: string, httpMethod: string, headers: map<string, string>, content: string) | OtherFlow

  predicate IsSearchFlow(f: Flow)
  {
    f.HttpFlow? && Strings.Contains(Strings.Lower(f.url), "search")
  }

  /** The URL test ignores case: a URL holding any case variant of "search"
      (`Search`, `SEARCH`, ...) is a search flow. */
  lemma CaseVariantIsSearchFlow(f: Flow, v: string)
    requires f.HttpFlow? && Strings.Contains(f.url, v) && Strings.Lower(v) == "search"
    ensures IsSearchFlow(f)
  {
    Strings.LowerKeepsMatch(f.url, v);
  }

  /** The record kept for a search flow: the body only when there is content. */
  function FlowRecord(f: Flow): (r: Record)
    requires f.HttpFlow?
    ensures r.Keys == {"url", "method", "headers"} + (if |f.content| > 0 then {"body"} else {})
    ensures r["url"] == Str(f.url) && r["method"] == Str(f.httpMethod)
    ensures r["headers"] == Obj(StrMap(f.headers))
    ensures "body" in r <==> |f.content| > 0
    ensures "body" in r ==> r["body"] == Str(f.content)
    ensures "params" !in r
  {
    var r := map["url" := Str(f.url), "method" := Str(f.httpMethod), "headers" := Obj(StrMap(f.headers))];
    if |f.content| > 0 then r["body" := Str(f.content)] else r
  }

  /** The records of the search flows, in file order. */
  function SearchRecords(flows: seq<Flow>): seq<Record>
  {
    if |flows| == 0 then []
    else
      var last := flows[|flows| - 1];
      SearchRecords(flows[..|flows| - 1]) + (if IsSearchFlow(last) then [FlowRecord(last)] else [])
  }

  lemma {:induction false} SearchRecordsEmpty(flows: seq<Flow>)
    ensures |SearchRecords(flows)| == 0 <==> forall i :: 0 <= i < |flows| ==> !IsSearchFlow(flows[i])
    ensures |SearchRecords(flows)| <= |flows|
  {
    if |flows| > 0 {
      var pre := flows[..|flows| - 1];
      SearchRecordsEmpty(pre);
      forall i | 0 <= i < |pre| ensures pre[i] == flows[i] { }
    }
  }

  /** A record is kept exactly when it is the record of some search flow. */
  lemma {:induction false} SearchRecordsAreSearchFlows(flows: seq<Flow>)
    ensures forall r :: r in SearchRecords(flows) ==>
              exists i :: 0 <= i < |flows| && IsSearchFlow(flows[i]) && r == FlowRecord(flows[i])
    ensures forall i :: 0 <= i < |flows| && IsSearchFlow(flows[i]) ==> FlowRecord(flows[i]) in SearchRecords(flows)
    decreases |flows|
  {
    if |flows| > 0 {
      var pre := flows[..|flows| - 1];
      var last := flows[|flows| - 1];
      SearchRecordsAreSearchFlows(pre);
      assert forall i :: 0 <= i < |pre| ==> pre[i] == flows[i];
      var here := if IsSearchFlow(last) then [FlowRecord(last)] else [];
      assert SearchRecords(flows) == SearchRecords(pre) + here;
      forall r | r in SearchRecords(flows)
        ensures exists i :: 0 <= i < |flows| && IsSearchFlow(flows[i]) && r == FlowRecord(flows[i])
      {
        if r !in SearchRecords(pre) {
          assert r == FlowRecord(flows[|flows| - 1]);
        }
      }
    }
  }

  /** `convert_flow_to_json`: the kept records, or `None` ("return False")
      when no flow matched. */
  method ConvertFlows(flows: seq<Flow>) returns (r: Option<seq<Record>>)
    ensures r.None? <==> forall i :: 0 <= i < |flows| ==> !IsSearchFlow(flows[i])
    ensures r.Some? ==> r.value == SearchRecords(flows) && 0 < |r.value| <= |flows|
  {
    var captured: seq<Record> := [];
    var i := 0;
    while i < |flows|
      invariant 0 <= i <= |flows|
      invariant captured == SearchRecords(flows[..i])
    {
      var f := flows[i];
      if f.HttpFlow? && Strings.Contains(Strings.Lower(f.url), "search") {
        captured := captured + [FlowRecord(f)];
      }
      assert flows[..i + 1][..i] == flows[..i];
      i := i + 1;
    }
    assert flows[..i] == flows;
    SearchRecordsEmpty(flows);
    if |captured| == 0 {
      return None;
    }
    return Some(captured);
  }

  /** The request derived for a keyword: the baseline with its JSON body's
      `keywords` field set, or `None` when the body is not a JSON object in text
      form (the keyword is then skipped). */
  function Derive(base: Record, keyword: string, codec: Codec): (r: Option<Record>)
    ensures r.Some? ==> r.value.Keys == base.Keys && "body" in base
    ensures r.Some? ==> forall k :: k in base && k != "body" ==> r.value[k] == base[k]
    ensures r.Some? ==> r.value["body"].Str?
    ensures r.Some? <==> BodyIsObject(base, codec)
  {
    if "body" !in base || !base["body"].Str? then None
    else
      match codec.parse(base["body"].s)
      case Some(Obj(m)) => Some(base["body" := Str(codec.dump(Obj(m["keywords" := Str(keyword)])))])
      case _ => None
  }

  /** Whether derivation succeeds depends only on the baseline, not on the keyword. */
  predicate BodyIsObject(base: Record, codec: Codec)
  {
    "body" in base && base["body"].Str? && codec.parse(base["body"].s).Some? && codec.parse(base["body"].s).value.Obj?
  }

  /** With a faithful codec the derived body decodes to the baseline body with
      only `keywords` changed, and derivation fails exactly on a body that is
      not a JSON object. */
  lemma DerivedBody(base: Record, keyword: string, codec: Codec)
    requires Faithful(codec)
    ensures Derive(base, keyword, codec).Some? <==> BodyIsObject(base, codec)
    ensures BodyIsObject(base, codec) ==>
              var m := codec.parse(base["body"].s).value.fields;
              var body := Derive(base, keyword, codec).value["body"].s;
              && codec.parse(body) == Some(Obj(m["keywords" := Str(keyword)]))
              && codec.parse(body).value.fields["keywords"] == Str(keyword)
              && forall k :: k in m && k != "keywords" ==> codec.parse(body).value.fields[k] == m[k]
  {
  }

  /** Derivation succeeds for one keyword exactly when it succeeds for any other. */
  lemma DeriveIgnoresKeyword(base: Record, k1: string, k2: string, codec: Codec)
    ensures Derive(base, k1, codec).Some? <==> Derive(base, k2, codec).Some?
  {
  }

  /** The outcome of a run: every derived request in issue order (the list
      saved at the end), and every result file written, in order. */
  datatype Run = Run(issued: seq<Record>, written: seq<(string, Json)>)

  /** The value a replay of the derived request returns, if any. */
  function ResultOf(req: Record, send: Replayer.HttpRequest -> Replayer.Reply): Option<Json>
  {
    Replayer.ReplayRequest(req, map[], send).result
  }

  /** What is written for one replay: the result, when it is truthy. */
  function ResultFiles(keyword: string, req: Record, send: Replayer.HttpRequest -> Replayer.Reply): (r: seq<(string, Json)>)
    ensures |r| <= 1
    ensures forall e :: e in r ==> e.0 == keyword && Truthy(e.1)
    ensures var out := ResultOf(req, send); |r| == 1 <==> out.Some? && Truthy(out.value)
    ensures |r| == 1 ==> r[0].1 == ResultOf(req, send).value
  {
    var out := ResultOf(req, send);
    if out.Some? && Truthy(out.value) then [(keyword, out.value)] else []
  }

  /** The per-keyword loop. */
  function KeywordLoop(base: Record, keywords: seq<string>, codec: Codec, send: Replayer.HttpRequest -> Replayer.Reply): (r: Run)
    ensures |r.issued| <= |keywords| && |r.written| <= |r.issued|
    decreases |keywords|
  {
    if |keywords| == 0 then Run([], [])
    else
      var rest := KeywordLoop(base, keywords[1..], codec, send);
      var k := keywords[0];
      if k == BaselineKeyword then rest
      else
        match Derive(base, k, codec)
        case None => rest
        case Some(req) => Run([req] + rest.issued, ResultFiles(k, req, send) + rest.written)
  }

  /** The keywords that are attempted: all but the baseline keyword, in order. */
  function Attempted(keywords: seq<string>): (r: seq<string>)
    ensures |r| <= |keywords|
    ensures forall k :: k in r <==> k in keywords && k != BaselineKeyword
  {
    if |keywords| == 0 then []
    else (if keywords[0] == BaselineKeyword then [] else [keywords[0]]) + Attempted(keywords[1..])
  }

  /** Attempting is a filter: it distributes over concatenation, so the
      attempted keywords keep their relative order. */
  lemma {:induction false} AttemptedConcat(a: seq<string>, b: seq<string>)
    ensures Attempted(a + b) == Attempted(a) + Attempted(b)
    decreases |a|
  {
    if |a| > 0 {
      assert (a + b)[1..] == a[1..] + b;
      AttemptedConcat(a[1..], b);
    } else {
      assert a + b == b;
    }
  }

  /** A keyword list without the baseline keyword is attempted in full. */
  lemma {:induction false} AttemptedWithoutBaseline(keywords: seq<string>)
    requires BaselineKeyword !in keywords
    ensures Attempted(keywords) == keywords
    decreases |keywords|
  {
    if |keywords| > 0 {
      AttemptedWithoutBaseline(keywords[1..]);
      assert [keywords[0]] + keywords[1..] == keywords;
    }
  }

  /** A baseline body that is not a JSON object in text form issues nothing
      and writes nothing. */
  lemma {:induction false} MalformedIssuesNothing(base: Record, keywords: seq<string>, codec: Codec, send: Replayer.HttpRequest -> Replayer.Reply)
    requires !BodyIsObject(base, codec)
    ensures KeywordLoop(base, keywords, codec, send) == Run([], [])
    decreases |keywords|
  {
    if |keywords| > 0 {
      MalformedIssuesNothing(base, keywords[1..], codec, send);
    }
  }

  /** Otherwise exactly one request is issued per attempted keyword, in keyword
      order, and it is the one derived for that keyword. */
  lemma {:induction false} IssuedPerKeyword(base: Record, keywords: seq<string>, codec: Codec, send: Replayer.HttpRequest -> Replayer.Reply)
    requires BodyIsObject(base, codec)
    ensures var issued := KeywordLoop(base, keywords, codec, send).issued;
            var ks := Attempted(keywords);
            |issued| == |ks| && forall i :: 0 <= i < |ks| ==> Derive(base, ks[i], codec) == Some(issued[i])
    decreases |keywords|
  {
    if |keywords| > 0 {
      IssuedPerKeyword(base, keywords[1..], codec, send);
      IssuedStep(base, keywords, codec, send);
      var k := keywords[0];
      if k != BaselineKeyword {
        var rest := KeywordLoop(base, keywords[1..], codec, send).issued;
        DerivedInOrder(base, k, Attempted(keywords[1..]), rest, codec);
      }
    }
  }

  /** Putting one more keyword and its derived request in front keeps the two
      lists in step. */
  lemma DerivedInOrder(base: Record, k: string, ks: seq<string>, issued: seq<Record>, codec: Codec)
    requires Derive(base, k, codec).Some?
    requires |issued| == |ks| && forall i :: 0 <= i < |ks| ==> Derive(base, ks[i], codec) == Some(issued[i])
    ensures var ks', issued' := [k] + ks, [Derive(base, k, codec).value] + issued;
            |issued'| == |ks'| && forall i :: 0 <= i < |ks'| ==> Derive(base, ks'[i], codec) == Some(issued'[i])
  {
    var ks', issued' := [k] + ks, [Derive(base, k, codec).value] + issued;
    forall i | 0 < i < |ks'| ensures Derive(base, ks'[i], codec) == Some(issued'[i]) {
      assert ks'[i] == ks[i - 1] && issued'[i] == issued[i - 1];
    }
  }

  /** One turn of the loop on a well-formed baseline, for the issued list. */
  lemma IssuedStep(base: Record, keywords: seq<string>, codec: Codec, send: Replayer.HttpRequest -> Replayer.Reply)
    requires |keywords| > 0 && BodyIsObject(base, codec)
    ensures var k := keywords[0];
            var issued := KeywordLoop(base, keywords, codec, send).issued;
            var rest := KeywordLoop(base, keywords[1..], codec, send).issued;
            && (k == BaselineKeyword ==> issued == rest && Attempted(keywords) == Attempted(keywords[1..]))
            && (k != BaselineKeyword ==>
                  && Derive(base, k, codec).Some?
                  && issued == [Derive(base, k, codec).value] + rest
                  && Attempted(keywords) == [k] + Attempted(keywords[1..]))
  {
  }

  /** A result file is written for an attempted keyword exactly when replaying
      its derived request gave a truthy value, and holds that value. */
  lemma {:induction false} WrittenIffTruthy(base: Record, keywords: seq<string>, codec: Codec, send: Replayer.HttpRequest -> Replayer.Reply)
    ensures var run := KeywordLoop(base, keywords, codec, send);
            forall e :: e in run.written ==>
              && e.0 in Attempted(keywords) && Truthy(e.1)
              && Derive(base, e.0, codec).Some? && ResultOf(Derive(base, e.0, codec).value, send) == Some(e.1)
    ensures var run := KeywordLoop(base, keywords, codec, send);
            forall k :: k in Attempted(keywords) && Derive(base, k, codec).Some? ==>
              var out := ResultOf(Derive(base, k, codec).value, send);
              out.Some? && Truthy(out.value) ==> (k, out.value) in run.written
    decreases |keywords|
  {
    if |keywords| > 0 {
      WrittenIffTruthy(base, keywords[1..], codec, send);
      var k := keywords[0];
      var rest := KeywordLoop(base, keywords[1..], codec, send);
      var ks := Attempted(keywords);
      assert ks == (if k == BaselineKeyword then [] else [k]) + Attempted(keywords[1..]);
      if k != BaselineKeyword && Derive(base, k, codec).Some? {
        var here := ResultFiles(k, Derive(base, k, codec).value, send);
        assert KeywordLoop(base, keywords, codec, send).written == here + rest.written;
      }
    }
  }

  /** The first captured record carries a truthy body. */
  predicate BaselineHasBody(records: seq<Record>)
  {
    |records| > 0 && "body" in records[0] && Truthy(records[0]["body"])
  }

  /** `search_all_keywords`: `None` when nothing was captured or the baseline has
      no body (nothing is written); otherwise the baseline record itself is
      saved as the first result file, then the keyword loop runs. */
  method SearchAllKeywords(flows: seq<Flow>, keywords: seq<string>, codec: Codec, send: Replayer.HttpRequest -> Replayer.Reply)
    returns (r: Option<Run>)
    ensures r.None? <==> (forall i :: 0 <= i < |flows| ==> !IsSearchFlow(flows[i]))
                         || !BaselineHasBody(SearchRecords(flows))
    ensures r.Some? ==>
              var base := SearchRecords(flows)[0];
              var loop := KeywordLoop(base, keywords, codec, send);
              r.value.issued == loop.issued
              && r.value.written == [(BaselineKeyword, Obj(base))] + loop.written
  {
    SearchRecordsEmpty(flows);
    var captured := ConvertFlows(flows);
    if captured.None? {
      return None;
    }
    var base := captured.value[0];
    if !("body" in base && Truthy(base["body"])) {
      return None;
    }
    var loop := KeywordLoop(base, keywords, codec, send);
    return Some(Run(loop.issued, [(BaselineKeyword, Obj(base))] + loop.written));
  }
}
