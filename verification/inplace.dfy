/** The root-level variant of the keyword driver: it rewrites the baseline request's body in place
    for each keyword in turn, appends a copy of it to the list read back from
    the capture file, saves that list after every keyword, and gives up on the
    whole run at the first exception. */
module InPlace {
  import opened Wrappers
  import opened JsonValues
  import Replayer
  import Searcher
  import Strings

  /** The driver's state between keywords: the (mutated) baseline, the list of
      requests, the contents of the capture file on disk, the result files
      written so far, and whether an exception ended the run. */
  datatype State = State(base: Record, issued: seq<Record>, disk: seq<Record>, written: seq<(string, Json)>, aborted: bool)

  /** One pass of the keyword loop. The body rewrite is the same as the one the
      copying driver performs, except that it overwrites the baseline and a
      failure raises instead of skipping the keyword. */
  function Advance(st: State, keyword: string, codec: Codec, send: Replayer.HttpRequest -> Replayer.Reply): (r: State)
    ensures st.aborted || keyword == Searcher.BaselineKeyword ==> r == st
    ensures !st.aborted && keyword != Searcher.BaselineKeyword ==>
              match Searcher.Derive(st.base, keyword, codec)
              case None => r == st.(aborted := true)
              case Some(b) =>
                && !r.aborted && r.base == b
                && r.issued == st.issued + [b] && r.disk == r.issued
                && r.written == st.written + Searcher.ResultFiles(keyword, b, send)
  {
    if st.aborted || keyword == Searcher.BaselineKeyword then st
    else
      match Searcher.Derive(st.base, keyword, codec)
      case None => st.(aborted := true)
      case Some(b) =>
        var issued := st.issued + [b];
        State(b, issued, issued, st.written + Searcher.ResultFiles(keyword, b, send), false)
  }

  /** The keyword loop, one keyword after another. */
  function Loop(st: State, keywords: seq<string>, codec: Codec, send: Replayer.HttpRequest -> Replayer.Reply): (r: State)
    ensures st.aborted ==> r == st
    ensures st.issued <= r.issued && |r.issued| <= |st.issued| + |keywords|
    ensures st.written <= r.written && |r.written| <= |st.written| + |keywords|
    decreases |keywords|
  {
    if |keywords| == 0 then st
    else Loop(Advance(st, keywords[0], codec, send), keywords[1..], codec, send)
  }

  /** The state once the capture file has been read: the baseline is its first
      record, the list is the file's records (the same file read a second
      time) and the baseline's own result file has been written. */
  function Start(captured: seq<Record>): (r: State)
    requires |captured| > 0
    ensures Consistent(r, captured) && !r.aborted && r.base == captured[0]
    ensures r.issued == captured && r.disk == captured
    ensures r.written == [(Searcher.BaselineKeyword, Obj(captured[0]))]
  {
    State(captured[0], captured, captured, [(Searcher.BaselineKeyword, Obj(captured[0]))], false)
  }

  /** `search_all_keywords` of the root-level driver. An empty capture raises at
      `captured[0]`: the run ends at once with nothing written. */
  method SearchAllKeywordsInPlace(file: Replayer.CaptureFile, keywords: seq<string>, codec: Codec, send: Replayer.HttpRequest -> Replayer.Reply)
    returns (r: Option<State>)
    ensures r.None? <==> |Replayer.LoadCapturedRequests(file)| == 0
    ensures r.Some? ==> r.value == Loop(Start(Replayer.LoadCapturedRequests(file)), keywords, codec, send)
  {
    var captured := Replayer.LoadCapturedRequests(file);
    if |captured| == 0 {
      return None;
    }
    var st := Start(captured);
    var i := 0;
    while i < |keywords| && !st.aborted
      invariant 0 <= i <= |keywords|
      invariant Loop(st, keywords[i..], codec, send) == Loop(Start(captured), keywords, codec, send)
    {
      st := Advance(st, keywords[i], codec, send);
      assert keywords[i..][1..] == keywords[i + 1..];
      i := i + 1;
    }
    LoopAborted(st, keywords[i..], codec, send);
    return Some(st);
  }

  /** Once aborted, nothing further happens. */
  lemma {:induction false} LoopAborted(st: State, keywords: seq<string>, codec: Codec, send: Replayer.HttpRequest -> Replayer.Reply)
    ensures |keywords| == 0 || st.aborted ==> Loop(st, keywords, codec, send) == st
    decreases |keywords|
  {
    if |keywords| > 0 && st.aborted {
      LoopAborted(st, keywords[1..], codec, send);
    }
  }

  /** The capture file on disk always holds exactly the driver's list, the
      records read at the start stay at its head, and the last request
      appended is the current baseline. */
  predicate Consistent(st: State, captured: seq<Record>)
  {
    && st.disk == st.issued
    && |captured| <= |st.issued| && st.issued[..|captured|] == captured
    && (|st.issued| > |captured| ==> st.issued[|st.issued| - 1] == st.base)
  }

  lemma {:induction false} LoopConsistent(st: State, captured: seq<Record>, keywords: seq<string>, codec: Codec, send: Replayer.HttpRequest -> Replayer.Reply)
    requires Consistent(st, captured)
    ensures Consistent(Loop(st, keywords, codec, send), captured)
    decreases |keywords|
  {
    if |keywords| > 0 {
      var next := Advance(st, keywords[0], codec, send);
      if next != st {
        assert next.issued[..|captured|] == st.issued[..|captured|];
      }
      LoopConsistent(next, captured, keywords[1..], codec, send);
    }
  }

  /** With a faithful codec, a rewritten body is again a JSON object, and
      rewriting it for a second keyword is the same as rewriting the original
      for that keyword: the in-place baseline only ever differs from the
      captured one in its `keywords` field. */
  lemma DeriveTwice(b: Record, k1: string, k2: string, codec: Codec)
    requires Faithful(codec)
    requires Searcher.Derive(b, k1, codec).Some?
    ensures Searcher.BodyIsObject(Searcher.Derive(b, k1, codec).value, codec)
    ensures Searcher.Derive(Searcher.Derive(b, k1, codec).value, k2, codec) == Searcher.Derive(b, k2, codec)
  {
    var m := codec.parse(b["body"].s).value.fields;
    var b1 := Searcher.Derive(b, k1, codec).value;
    var m1 := m["keywords" := Str(k1)];
    assert b1 == b["body" := Str(codec.dump(Obj(m1)))];
    assert codec.parse(b1["body"].s) == Some(Obj(m1));
    assert m1["keywords" := Str(k2)] == m["keywords" := Str(k2)];
    var body2 := Str(codec.dump(Obj(m["keywords" := Str(k2)])));
    assert Searcher.Derive(b1, k2, codec) == Some(b1["body" := body2]);
    assert b1["body" := body2] == b["body" := body2];
  }

  /** Two baselines that derive the same request for every keyword drive the
      copying loop identically. */
  lemma {:induction false} KeywordLoopAgrees(b1: Record, b2: Record, keywords: seq<string>, codec: Codec, send: Replayer.HttpRequest -> Replayer.Reply)
    requires forall k :: Searcher.Derive(b1, k, codec) == Searcher.Derive(b2, k, codec)
    ensures Searcher.KeywordLoop(b1, keywords, codec, send) == Searcher.KeywordLoop(b2, keywords, codec, send)
    decreases |keywords|
  {
    if |keywords| > 0 {
      KeywordLoopAgrees(b1, b2, keywords[1..], codec, send);
      assert Searcher.Derive(b1, keywords[0], codec) == Searcher.Derive(b2, keywords[0], codec);
    }
  }

  /** One in-place step on a well-formed baseline: it appends the request the
      copying driver would derive, and leaves a baseline that derives the same
      requests as before. */
  lemma AdvanceWellFormed(st: State, k: string, codec: Codec, send: Replayer.HttpRequest -> Replayer.Reply)
    requires Faithful(codec)
    requires !st.aborted && Searcher.BodyIsObject(st.base, codec) && k != Searcher.BaselineKeyword
    ensures var next := Advance(st, k, codec, send);
            var b := Searcher.Derive(st.base, k, codec);
            && b.Some? && !next.aborted && next.base == b.value
            && next.issued == st.issued + [b.value]
            && next.written == st.written + Searcher.ResultFiles(k, b.value, send)
            && Searcher.BodyIsObject(next.base, codec)
            && forall k2 :: Searcher.Derive(next.base, k2, codec) == Searcher.Derive(st.base, k2, codec)
  {
    Searcher.DerivedBody(st.base, k, codec);
    forall k2 ensures Searcher.Derive(Searcher.Derive(st.base, k, codec).value, k2, codec) == Searcher.Derive(st.base, k2, codec) {
      DeriveTwice(st.base, k, k2, codec);
    }
    DeriveTwice(st.base, k, k, codec);
  }

  /** With a faithful codec and a baseline body that is a JSON object, the
      in-place driver never aborts and issues and writes exactly what the
      copying driver does for the same baseline. */
  lemma {:induction false} InPlaceMatchesCopies(st: State, keywords: seq<string>, codec: Codec, send: Replayer.HttpRequest -> Replayer.Reply)
    requires Faithful(codec)
    requires !st.aborted && Searcher.BodyIsObject(st.base, codec)
    ensures var r := Loop(st, keywords, codec, send);
            var copies := Searcher.KeywordLoop(st.base, keywords, codec, send);
            && !r.aborted
            && r.issued == st.issued + copies.issued
            && r.written == st.written + copies.written
    decreases |keywords|
  {
    if |keywords| > 0 {
      var k := keywords[0];
      var next := Advance(st, k, codec, send);
      var r := Loop(next, keywords[1..], codec, send);
      var rest := Searcher.KeywordLoop(st.base, keywords[1..], codec, send);
      if k == Searcher.BaselineKeyword {
        InPlaceMatchesCopies(next, keywords[1..], codec, send);
      } else {
        AdvanceWellFormed(st, k, codec, send);
        InPlaceMatchesCopies(next, keywords[1..], codec, send);
        KeywordLoopAgrees(next.base, st.base, keywords[1..], codec, send);
        var b := next.base;
        assert Searcher.KeywordLoop(st.base, keywords, codec, send)
            == Searcher.Run([b] + rest.issued, Searcher.ResultFiles(k, b, send) + rest.written);
        Strings.ConcatAssoc(st.issued, [b], rest.issued);
        Strings.ConcatAssoc(st.written, Searcher.ResultFiles(k, b, send), rest.written);
      }
    }
  }

  /** A baseline body that is not a JSON object aborts the run at the first
      keyword that is not the baseline keyword, before anything is appended or
      saved. */
  lemma {:induction false} MalformedBodyAbortsAtFirst(st: State, keywords: seq<string>, codec: Codec, send: Replayer.HttpRequest -> Replayer.Reply)
    requires !st.aborted && !Searcher.BodyIsObject(st.base, codec)
    ensures var r := Loop(st, keywords, codec, send);
            && r.issued == st.issued && r.disk == st.disk && r.written == st.written
            && (r.aborted <==> |Searcher.Attempted(keywords)| > 0)
    decreases |keywords|
  {
    if |keywords| > 0 {
      var k := keywords[0];
      var next := Advance(st, k, codec, send);
      if k == Searcher.BaselineKeyword {
        MalformedBodyAbortsAtFirst(next, keywords[1..], codec, send);
      } else {
        LoopAborted(next, keywords[1..], codec, send);
      }
    }
  }
}
