/**
 * Selection of the shop's API calls from the browser's performance log
 * (`get_api_requests`, main.py:45-67). Log entries arrive already decoded;
 * an entry whose JSON or keys are unusable is `Malformed`, which stands for
 * the `except Exception: continue` path.
 */
module ApiRequests {
  import opened Common
  import opened Text

  const ResponseReceived: string := "Network.responseReceived"
  const ApiPrefix: string := "https://shop.amul.com/api/"

  /**
   * One decoded performance-log entry. `url` is `""` when the response has no
   * URL (`.get("url", "")`); `requestId` is `None` when `params` lacks it, in
   * which case reading it raises after the URL checks and the entry is skipped.
   */
  datatype LogEntry =
    | Malformed
    | Entry(event: string, url: string, requestId: Option<string>)

  /** One selected request: the pair `(requestId, url)`. */
  datatype Request = Request(requestId: string, url: string)

  /** Everything the loop body checks except "URL not seen before". */
  predicate Qualifies(e: LogEntry, filter: Option<string>) {
    && e.Entry?
    && e.event == ResponseReceived
    && StartsWith(e.url, ApiPrefix)
    && (filter.None? || Contains(e.url, filter.value))
    && e.requestId.Some?
  }

  /** Entry `i` is the first qualifying entry with its URL. */
  predicate FirstOccurrence(logs: seq<LogEntry>, filter: Option<string>, i: int)
    requires 0 <= i < |logs|
  {
    && Qualifies(logs[i], filter)
    && forall j :: 0 <= j < i && Qualifies(logs[j], filter) ==> logs[j].url != logs[i].url
  }

  function AsRequest(e: LogEntry): Request
    requires e.Entry? && e.requestId.Some?
  {
    Request(e.requestId.value, e.url)
  }

  /**
   * Reference selection over the first `n` entries: the first qualifying
   * occurrence of every URL, in log order.
   */
  function Selected(logs: seq<LogEntry>, filter: Option<string>, n: int): (r: seq<Request>)
    requires 0 <= n <= |logs|
    ensures |r| <= n
  {
    if n == 0 then []
    else Selected(logs, filter, n - 1)
         + (if FirstOccurrence(logs, filter, n - 1) then [AsRequest(logs[n - 1])] else [])
  }

  /** The URLs of the qualifying entries among the first `n`. */
  function QualifiedUrls(logs: seq<LogEntry>, filter: Option<string>, n: int): set<string>
    requires 0 <= n <= |logs|
  {
    set j | 0 <= j < n && Qualifies(logs[j], filter) :: logs[j].url
  }

  /** Extending the prefix by one entry adds at most that entry's URL. */
  lemma QualifiedUrlsStep(logs: seq<LogEntry>, filter: Option<string>, n: int)
    requires 0 < n <= |logs|
    ensures QualifiedUrls(logs, filter, n) ==
      QualifiedUrls(logs, filter, n - 1) + (if Qualifies(logs[n - 1], filter) then {logs[n - 1].url} else {})
    ensures FirstOccurrence(logs, filter, n - 1) <==>
      Qualifies(logs[n - 1], filter) && logs[n - 1].url !in QualifiedUrls(logs, filter, n - 1)
  {
    var e := logs[n - 1];
    if Qualifies(e, filter) && e.url in QualifiedUrls(logs, filter, n - 1) {
      var j :| 0 <= j < n - 1 && Qualifies(logs[j], filter) && logs[j].url == e.url;
    }
  }

  /** The selection's URLs are exactly the qualifying URLs seen so far. */
  lemma {:induction false} SelectedUrls(logs: seq<LogEntry>, filter: Option<string>, n: int)
    requires 0 <= n <= |logs|
    ensures forall u :: u in QualifiedUrls(logs, filter, n) <==>
      exists k :: 0 <= k < |Selected(logs, filter, n)| && Selected(logs, filter, n)[k].url == u
  {
    if n > 0 {
      SelectedUrls(logs, filter, n - 1);
      QualifiedUrlsStep(logs, filter, n);
      var before := Selected(logs, filter, n - 1);
      var r := Selected(logs, filter, n);
      assert forall k :: 0 <= k < |before| ==> r[k] == before[k];
      forall u
        ensures u in QualifiedUrls(logs, filter, n) <==> exists k :: 0 <= k < |r| && r[k].url == u
      {
        if u in QualifiedUrls(logs, filter, n - 1) {
          var k :| 0 <= k < |before| && before[k].url == u;
          assert r[k].url == u;
        } else if FirstOccurrence(logs, filter, n - 1) && u == logs[n - 1].url {
          assert r[|before|].url == u;
        } else {
          assert u !in QualifiedUrls(logs, filter, n);
          forall k | 0 <= k < |r|
            ensures r[k].url != u
          {
            if k < |before| {
              assert r[k] == before[k];
            }
          }
        }
      }
      assert r == Selected(logs, filter, n);
    }
  }

  /** No URL is selected twice. */
  lemma {:induction false} SelectedDistinct(logs: seq<LogEntry>, filter: Option<string>, n: int)
    requires 0 <= n <= |logs|
    ensures forall a, b :: 0 <= a < b < |Selected(logs, filter, n)| ==>
      Selected(logs, filter, n)[a].url != Selected(logs, filter, n)[b].url
  {
    if n > 0 {
      SelectedDistinct(logs, filter, n - 1);
      SelectedUrls(logs, filter, n - 1);
      QualifiedUrlsStep(logs, filter, n);
      var before := Selected(logs, filter, n - 1);
      var r := Selected(logs, filter, n);
      assert forall k :: 0 <= k < |before| ==> r[k] == before[k];
      if FirstOccurrence(logs, filter, n - 1) {
        assert r[|before|] == AsRequest(logs[n - 1]);
        forall a, b | 0 <= a < b < |r|
          ensures r[a].url != r[b].url
        {
          if b == |before| {
            assert before[a].url in QualifiedUrls(logs, filter, n - 1);
          } else {
            assert r[a] == before[a] && r[b] == before[b];
          }
        }
      }
    }
  }

  /** `req` is the request of a first qualifying occurrence among the first `n` entries. */
  predicate FromFirstOccurrence(logs: seq<LogEntry>, filter: Option<string>, n: int, req: Request)
    requires 0 <= n <= |logs|
  {
    exists i :: 0 <= i < n && FirstOccurrence(logs, filter, i) && req == AsRequest(logs[i])
  }

  /**
   * Every selected request comes from a `Network.responseReceived` entry
   * whose URL lies under the shop's API, contains the filter, and is the
   * first qualifying entry with that URL.
   */
  lemma {:induction false} SelectedSound(logs: seq<LogEntry>, filter: Option<string>, n: int)
    requires 0 <= n <= |logs|
    ensures forall k :: 0 <= k < |Selected(logs, filter, n)| ==>
      FromFirstOccurrence(logs, filter, n, Selected(logs, filter, n)[k])
  {
    if n > 0 {
      SelectedSound(logs, filter, n - 1);
      var before := Selected(logs, filter, n - 1);
      var r := Selected(logs, filter, n);
      forall k | 0 <= k < |r|
        ensures FromFirstOccurrence(logs, filter, n, r[k])
      {
        if k < |before| {
          assert r[k] == before[k];
          assert FromFirstOccurrence(logs, filter, n - 1, before[k]);
          var i :| 0 <= i < n - 1 && FirstOccurrence(logs, filter, i) && before[k] == AsRequest(logs[i]);
        } else {
          assert FirstOccurrence(logs, filter, n - 1) && r[k] == AsRequest(logs[n - 1]);
        }
      }
    }
  }

  /**
   * The loop of `get_api_requests` over decoded entries: keeps the first
   * qualifying occurrence of each URL, in log order.
   */
  method GetApiRequests(logs: seq<LogEntry>, filter: Option<string>) returns (reqs: seq<Request>)
    ensures reqs == Selected(logs, filter, |logs|)
    ensures forall k :: 0 <= k < |reqs| ==>
      && StartsWith(reqs[k].url, ApiPrefix)
      && (filter.Some? ==> Contains(reqs[k].url, filter.value))
      && exists i :: 0 <= i < |logs| && logs[i] == Entry(ResponseReceived, reqs[k].url, Some(reqs[k].requestId))
    ensures forall a, b :: 0 <= a < b < |reqs| ==> reqs[a].url != reqs[b].url
    ensures forall i :: 0 <= i < |logs| && Qualifies(logs[i], filter) ==>
      exists k :: 0 <= k < |reqs| && reqs[k].url == logs[i].url
  {
    reqs := [];
    var seen: set<string> := {};
    for i := 0 to |logs|
      invariant reqs == Selected(logs, filter, i)
      invariant seen == QualifiedUrls(logs, filter, i)
    {
      var e := logs[i];
      if e.Entry? && e.event == ResponseReceived {
        if StartsWith(e.url, ApiPrefix) {
          if (filter.None? || Contains(e.url, filter.value)) && e.url !in seen {
            if e.requestId.Some? {
              reqs := reqs + [Request(e.requestId.value, e.url)];
              seen := seen + {e.url};
            }
          }
        }
      }
      QualifiedUrlsStep(logs, filter, i + 1);
    }
    SelectedSound(logs, filter, |logs|);
    SelectedDistinct(logs, filter, |logs|);
    SelectedUrls(logs, filter, |logs|);
    forall i | 0 <= i < |logs| && Qualifies(logs[i], filter)
      ensures logs[i].url in QualifiedUrls(logs, filter, |logs|)
    {
    }
  }
}
