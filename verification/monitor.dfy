/**
 * One run of `StockMonitor.run_check` (main.py:172-226) around the
 * reconciliation: how far the browser session got decides what is sent and
 * what the `finally` clause persists. Browser I/O is replaced by a `Scrape`
 * value describing what the session delivered.
 */
module Monitor {
  import opened Common
  import opened Reconciliation

  /** What the browser session delivered inside the `try` block. */
  datatype Scrape =
      /**
       * `set_store_preferences` returned false (main.py:178-180). As written,
       * `set_store_preferences` (main.py:111-127) either returns true or
       * raises, so this branch cannot be reached; a rejected pin code ends
       * as `SetupRaised`, with the same effects.
       */
    | PreferencesRejected
      /** Client creation, pin-code entry or `get_products` raised (main.py:177-182). */
    | SetupRaised
      /**
       * `get_products` returned `products`; when `raisesAt == Some(k)` with
       * `k < |products|`, reading product `k`'s name raises (main.py:194)
       * before anything is recorded for it.
       */
    | Delivered(products: seq<Observation>, raisesAt: Option<nat>)

  /** How the `try` block ended. */
  datatype Outcome =
    | Ok
    | EmptyScrape
    | PreconditionFail
      /** An exception escaped before product `k` was handled; `k == 0` covers the setup failures. */
    | FailAt(k: nat)

  /** What the run sent and what `_save_state` wrote. */
  datatype RunResult = RunResult(outcome: Outcome, persisted: Status, alerts: seq<Product>)

  /** The products the session handed to the reconciliation loop, if any. */
  function Products(scrape: Scrape): seq<Observation> {
    if scrape.Delivered? then scrape.products else []
  }

  function Classify(scrape: Scrape): (o: Outcome)
    ensures o == PreconditionFail <==> scrape.PreferencesRejected?
    ensures o == EmptyScrape <==> scrape.Delivered? && scrape.products == []
    ensures scrape.SetupRaised? ==> o == FailAt(0)
    ensures scrape.Delivered? && scrape.products != [] ==>
      (o.FailAt? <==> scrape.raisesAt.Some? && scrape.raisesAt.value < |scrape.products|)
    ensures o.FailAt? && scrape.Delivered? ==> o == FailAt(scrape.raisesAt.value)
    ensures o == Ok <==>
      (scrape.Delivered? && scrape.products != [] && !(scrape.raisesAt.Some? && scrape.raisesAt.value < |scrape.products|))
  {
    match scrape
    case PreferencesRejected => PreconditionFail
    case SetupRaised => FailAt(0)
    case Delivered(products, raisesAt) =>
      if products == [] then EmptyScrape
      else if raisesAt.Some? && raisesAt.value < |products| then FailAt(raisesAt.value)
      else Ok
  }

  /**
   * The map the `finally` clause persists and the alerts sent before the
   * `try` block ended: the untouched copy on an early `return`, the copy as
   * far as the loop got on an exception, the full reconciliation otherwise.
   */
  function Effects(prev: Status, targets: set<string>, products: seq<Observation>, outcome: Outcome): (p: Pass)
    requires outcome.FailAt? ==> outcome.k <= |products|
    ensures prev.Keys <= p.status.Keys
    ensures outcome == PreconditionFail ==> p.status == prev && p.alerts == []
    ensures outcome == Ok || outcome == EmptyScrape ==> p == Reconcile(prev, targets, products)
    ensures outcome.FailAt? ==> p.alerts <= LoopAlerts(prev, targets, products)
  {
    match outcome
    case PreconditionFail => Pass(prev, [])
    case FailAt(k) =>
      LoopPrefixAlerts(prev, targets, products, k);
      Pass(LoopStatus(prev, targets, products[..k]), LoopAlerts(prev, targets, products[..k]))
    case EmptyScrape => Reconcile(prev, targets, products)
    case Ok => Reconcile(prev, targets, products)
  }

  /**
   * One run. The map is persisted on every path and never loses a key;
   * the alerts are always a prefix of what an uninterrupted reconciliation
   * of the delivered products sends; a rejected or failed setup persists the
   * pre-run map unchanged and sends nothing.
   */
  function RunCheck(prev: Status, targets: set<string>, scrape: Scrape): (r: RunResult)
    ensures r.outcome == Classify(scrape)
    ensures prev.Keys <= r.persisted.Keys
    ensures r.alerts <= Reconcile(prev, targets, Products(scrape)).alerts
    ensures scrape.PreferencesRejected? || scrape.SetupRaised? ==> r.persisted == prev && r.alerts == []
    ensures r.outcome == Ok || r.outcome == EmptyScrape ==>
      r.persisted == Reconcile(prev, targets, Products(scrape)).status &&
      r.alerts == Reconcile(prev, targets, Products(scrape)).alerts
    ensures forall j :: 0 <= j < |r.alerts| ==> Justified(prev, targets, r.alerts[j])
  {
    var outcome := Classify(scrape);
    var products := Products(scrape);
    var p := Effects(prev, targets, products, outcome);
    LoopPrefixAlerts(prev, targets, products, if outcome.FailAt? then outcome.k else |products|);
    RunResult(outcome, p.status, p.alerts)
  }

  /** The alerts of the loop over a prefix are a prefix of the loop's alerts. */
  lemma LoopPrefixAlerts(prev: Status, targets: set<string>, products: seq<Observation>, k: nat)
    requires k <= |products|
    ensures LoopAlerts(prev, targets, products[..k]) <= LoopAlerts(prev, targets, products)
  {
    assert products == products[..k] + products[k..];
    LoopAlertsAppend(prev, targets, products[..k], products[k..]);
  }

  /**
   * An exception while handling product `k` persists the copy as the loop
   * left it: products before `k` are recorded, but targets not yet seen
   * are NOT reset to unavailable, and every other key keeps its value.
   */
  lemma FailureMidLoopKeepsPartialCopy(prev: Status, targets: set<string>, products: seq<Observation>, k: nat, key: string)
    requires k < |products|
    ensures RunCheck(prev, targets, Delivered(products, Some(k))).outcome == FailAt(k)
    ensures !(Tracked(targets, key) && Observed(products[..k], key)) ==>
      && (key in RunCheck(prev, targets, Delivered(products, Some(k))).persisted <==> key in prev)
      && (key in prev ==> RunCheck(prev, targets, Delivered(products, Some(k))).persisted[key] == prev[key])
    ensures Tracked(targets, key) && Observed(products[..k], key) ==>
      && key in RunCheck(prev, targets, Delivered(products, Some(k))).persisted
      && LastReports(products[..k], key, RunCheck(prev, targets, Delivered(products, Some(k))).persisted[key])
    ensures RunCheck(prev, targets, Delivered(products, Some(k))).alerts == Reconcile(prev, targets, products[..k]).alerts
  {
    LoopStatusByKey(prev, targets, products[..k], key);
  }

  /**
   * An empty product list is the one failure that resets the targets: all
   * of them are persisted as unavailable, nothing is sent, and every other
   * entry is persisted as it was.
   */
  lemma EmptyScrapeRun(prev: Status, targets: set<string>, raisesAt: Option<nat>)
    ensures RunCheck(prev, targets, Delivered([], raisesAt)).outcome == EmptyScrape
    ensures RunCheck(prev, targets, Delivered([], raisesAt)).alerts == []
    ensures forall t :: t in targets ==> !RunCheck(prev, targets, Delivered([], raisesAt)).persisted[t]
    ensures forall key :: key in prev && key !in targets ==>
      RunCheck(prev, targets, Delivered([], raisesAt)).persisted[key] == prev[key]
  {
    EmptyScrapeResetsTargets(prev, targets);
  }
}
