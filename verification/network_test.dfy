/**
 The network performance test: while the home page loads, every response is
 passed to a listener that checks static assets against the budgets. A static
 asset whose status is not allowed is logged as a failed request; one whose
 `content-length` exceeds the maximum asset size is logged as oversized. The
 test passes when, once the page is idle, both logs are empty.

 The listener does not wait on anything, so the responses are modelled as a
 sequence in arrival order and the listener as a left fold over it.
 */
module NetworkTest {
  import opened JsValues
  import opened Budgets
  import opened AssetHelpers

  /** One network response: its URL, HTTP status and `content-length` header. */
  datatype Response = Response(url: string, status: nat, contentLength: Option<string>)

  /** An entry of the oversized-assets log. */
  datatype OversizedAsset = OversizedAsset(url: string, size: nat)

  /** The two logs the listener appends to. */
  datatype Findings = Findings(failedRequests: seq<string>, oversizedAssets: seq<OversizedAsset>)

  const NoFindings := Findings([], [])

  const MaxAssetSize: nat := performanceBudgets.resources.maxAssetSize

  /**
   The failed-request entry: the URL, then " (status: ", the status in its
   shortest decimal spelling, and ")". URL and status can be read back from it.
   */
  function FailureMessage(url: string, status: nat): (m: string)
    ensures |m| > |url| + 11 && m[..|url|] == url
    ensures m[|url|..|url| + 10] == " (status: " && m[|m| - 1] == ')'
    ensures AllDigits(m[|url| + 10..|m| - 1]) && DecimalValue(m[|url| + 10..|m| - 1]) == status
    ensures IsCanonicalDecimal(m[|url| + 10..|m| - 1])
  {
    var digits := FormatDecimal(status);
    var m := url + " (status: " + digits + ")";
    assert m[|url| + 10..|m| - 1] == digits;
    m
  }

  /** The listener would log this response as a failed request. */
  predicate FailsStatus(r: Response) {
    IsStaticAsset(r.url) && !IsAllowedStatus(r.status)
  }

  /** The listener would log this response as an oversized asset. */
  predicate ExceedsSize(r: Response) {
    IsStaticAsset(r.url) && IsOversized(GetAssetSize(r.contentLength), MaxAssetSize)
  }

  /** The response listener: classify one response and append to the logs. */
  function Listen(f: Findings, r: Response): (g: Findings)
    ensures !IsStaticAsset(r.url) ==> g == f
    ensures f.failedRequests <= g.failedRequests && f.oversizedAssets <= g.oversizedAssets
    ensures |g.failedRequests| <= |f.failedRequests| + 1
    ensures |g.oversizedAssets| <= |f.oversizedAssets| + 1
    ensures |g.failedRequests| == |f.failedRequests| + 1 <==> IsStaticAsset(r.url) && !IsAllowedStatus(r.status)
    ensures |g.failedRequests| == |f.failedRequests| + 1 ==>
              g.failedRequests[|f.failedRequests|] == FailureMessage(r.url, r.status)
    ensures |g.oversizedAssets| == |f.oversizedAssets| + 1 <==>
              IsStaticAsset(r.url) && IsOversized(GetAssetSize(r.contentLength), MaxAssetSize)
    ensures |g.oversizedAssets| == |f.oversizedAssets| + 1 ==>
              var entry := g.oversizedAssets[|f.oversizedAssets|];
              entry.url == r.url && entry.size > MaxAssetSize &&
              GetAssetSize(r.contentLength) == Some(Finite(entry.size))
  {
    if IsStaticAsset(r.url) then
      var failed :=
        if !IsAllowedStatus(r.status) then f.failedRequests + [FailureMessage(r.url, r.status)]
        else f.failedRequests;
      var size := GetAssetSize(r.contentLength);
      var oversized :=
        if IsOversized(size, MaxAssetSize) then f.oversizedAssets + [OversizedAsset(r.url, size.value.value)]
        else f.oversizedAssets;
      Findings(failed, oversized)
    else f
  }

  /** The logs after the listener has seen `rs`, in arrival order. */
  function Collect(rs: seq<Response>): Findings
  {
    if rs == [] then NoFindings else Listen(Collect(rs[..|rs| - 1]), rs[|rs| - 1])
  }

  /** The test's verdict: both logs are empty once every response has been seen. */
  predicate TestPasses(rs: seq<Response>) {
    var f := Collect(rs);
    f.failedRequests == [] && f.oversizedAssets == []
  }

  /** A response the budget check has nothing against. */
  predicate WithinBudget(r: Response) {
    IsStaticAsset(r.url) ==>
      IsAllowedStatus(r.status) && !IsOversized(GetAssetSize(r.contentLength), MaxAssetSize)
  }

  /** The failed-request log built from the front: one entry per failing response, in order. */
  function ExpectedFailures(rs: seq<Response>): seq<string>
  {
    if rs == [] then []
    else (if FailsStatus(rs[0]) then [FailureMessage(rs[0].url, rs[0].status)] else []) + ExpectedFailures(rs[1..])
  }

  /** The oversized-assets log built from the front: one entry per oversized response, in order. */
  function ExpectedOversized(rs: seq<Response>): seq<OversizedAsset>
  {
    if rs == [] then []
    else
      (if ExceedsSize(rs[0]) then [OversizedAsset(rs[0].url, GetAssetSize(rs[0].contentLength).value.value)] else [])
      + ExpectedOversized(rs[1..])
  }

  lemma {:induction false} ExpectedFailuresAppend(rs: seq<Response>, r: Response)
    ensures ExpectedFailures(rs + [r]) ==
              ExpectedFailures(rs) + (if FailsStatus(r) then [FailureMessage(r.url, r.status)] else [])
  {
    if rs != [] {
      assert (rs + [r])[1..] == rs[1..] + [r];
      ExpectedFailuresAppend(rs[1..], r);
    } else {
      assert [r][1..] == [];
    }
  }

  lemma {:induction false} ExpectedOversizedAppend(rs: seq<Response>, r: Response)
    ensures ExpectedOversized(rs + [r]) ==
              ExpectedOversized(rs)
              + (if ExceedsSize(r) then [OversizedAsset(r.url, GetAssetSize(r.contentLength).value.value)] else [])
  {
    if rs != [] {
      assert (rs + [r])[1..] == rs[1..] + [r];
      ExpectedOversizedAppend(rs[1..], r);
    } else {
      assert [r][1..] == [];
    }
  }

  /**
   Each response adds at most one entry to each log, and the entries appear
   in the order the responses arrived.
   */
  lemma {:induction false} LogsFollowArrivalOrder(rs: seq<Response>)
    ensures Collect(rs).failedRequests == ExpectedFailures(rs)
    ensures Collect(rs).oversizedAssets == ExpectedOversized(rs)
    ensures |Collect(rs).failedRequests| <= |rs| && |Collect(rs).oversizedAssets| <= |rs|
  {
    if rs != [] {
      var init := rs[..|rs| - 1];
      var last := rs[|rs| - 1];
      assert rs == init + [last];
      LogsFollowArrivalOrder(init);
      ExpectedFailuresAppend(init, last);
      ExpectedOversizedAppend(init, last);
    }
  }

  /** The test passes iff every static response has an allowed status and is not oversized. */
  lemma {:induction false} PassesIffAllWithinBudget(rs: seq<Response>)
    ensures TestPasses(rs) <==> forall i :: 0 <= i < |rs| ==> WithinBudget(rs[i])
  {
    if rs != [] {
      var init := rs[..|rs| - 1];
      var last := rs[|rs| - 1];
      PassesIffAllWithinBudget(init);
      if forall i :: 0 <= i < |rs| ==> WithinBudget(rs[i]) {
        assert forall i :: 0 <= i < |init| ==> WithinBudget(init[i]) by {
          forall i | 0 <= i < |init| ensures WithinBudget(init[i]) {
            assert init[i] == rs[i];
          }
        }
      }
      if TestPasses(rs) {
        forall i | 0 <= i < |rs| ensures WithinBudget(rs[i]) {
          if i < |init| {
            assert rs[i] == init[i];
          }
        }
      }
    }
  }

  /** A response that is not a static asset never touches the logs, after any history. */
  lemma {:induction false} NonStaticIgnored(rs: seq<Response>, r: Response)
    requires !IsStaticAsset(r.url)
    ensures Collect(rs + [r]) == Collect(rs)
  {
    assert (rs + [r])[..|rs + [r]| - 1] == rs;
  }

  /**
   A non-static response can be dropped from anywhere in the stream: the logs
   are those of the stream without it.
   */
  lemma {:induction false} NonStaticIgnoredMidStream(before: seq<Response>, r: Response, after: seq<Response>)
    requires !IsStaticAsset(r.url)
    ensures Collect(before + [r] + after) == Collect(before + after)
  {
    if after == [] {
      assert before + [r] + after == before + [r];
      assert before + after == before;
      NonStaticIgnored(before, r);
    } else {
      var init := after[..|after| - 1];
      var last := after[|after| - 1];
      NonStaticIgnoredMidStream(before, r, init);
      assert before + [r] + after == (before + [r] + init) + [last];
      assert before + after == (before + init) + [last];
      CollectSnoc(before + [r] + init, last);
      CollectSnoc(before + init, last);
    }
  }

  /** The fold takes one more step for one more response. */
  lemma CollectSnoc(rs: seq<Response>, r: Response)
    ensures Collect(rs + [r]) == Listen(Collect(rs), r)
  {
    assert (rs + [r])[..|rs|] == rs;
  }

  /**
   The two checks are independent: a static asset with status 404 and a
   `content-length` above the maximum is logged in both lists.
   */
  lemma BothLogsExample(n: nat)
    requires n > MaxAssetSize
    ensures Listen(NoFindings, Response("app.js", 404, Some(FormatDecimal(n))))
            == Findings([FailureMessage("app.js", 404)], [OversizedAsset("app.js", n)])
  {
    assert IsStaticAsset("app.js") by { AcceptedExample("app.js", 3, "js"); }
    AllowedStatusCodes(404);
    SizeOfPrintedHeader(n);
  }

  /**
   The listener run imperatively over the responses, followed by the test's
   two expectations.
   */
  method RunNetworkTest(rs: seq<Response>) returns (findings: Findings, passed: bool)
    ensures findings == Collect(rs)
    ensures passed <==> forall i :: 0 <= i < |rs| ==> WithinBudget(rs[i])
  {
    findings := NoFindings;
    var i := 0;
    while i < |rs|
      invariant 0 <= i <= |rs|
      invariant findings == Collect(rs[..i])
    {
      assert rs[..i + 1][..i] == rs[..i];
      findings := Listen(findings, rs[i]);
      i := i + 1;
    }
    assert rs[..i] == rs;
    passed := findings.failedRequests == [] && findings.oversizedAssets == [];
    PassesIffAllWithinBudget(rs);
  }
}
