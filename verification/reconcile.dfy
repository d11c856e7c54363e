/**
 * The stock-reconciliation step of `StockMonitor.run_check` (main.py:172-226)
 * as a pure function: the pre-run availability map, the scraped product list
 * and the watch list go in; the map to persist and the alerts to send come out.
 */
module Reconciliation {
  import opened Common
  import opened Text

  /**
   * One decoded entry of the product list the shop's API returned. A
   * missing name or alias is `None`; `available` and `inventory` arrive with
   * their defaults (`False`, `0`) already applied, and `price` is assumed
   * present.
   */
  datatype Observation = Observation(name: Option<string>, alias: Option<string>, available: bool, price: real, inventory: int)

  /**
   * The `Product` record handed to `send_alert`. Name and alias are copied
   * without a default, so they stay `None` when the entry lacks them;
   * `price` is carried along untouched.
   */
  datatype Product = Product(alias: Option<string>, name: Option<string>, available: bool, url: string, price: real, inventory: int)

  /** The persisted state: lower-cased product name to last known availability. */
  type Status = map<string, bool>

  /** What one reconciliation produces: the new map and the alerts, in the order they are sent. */
  datatype Pass = Pass(status: Status, alerts: seq<Product>)

  const ProductUrlPrefix: string := "https://shop.amul.com/en/product/"

  /** `.get("name", "")`: a missing name reads as the empty string. */
  function NameOrEmpty(name: Option<string>): string {
    if name.Some? then name.value else ""
  }

  /** The key a name is matched and stored under: the name, lower-cased. */
  function NameKey(name: Option<string>): string {
    Lower(NameOrEmpty(name))
  }

  /** The key a product is matched and stored under. */
  function Key(o: Observation): string {
    NameKey(o.name)
  }

  /** How Python's f-string renders an optional string: a missing value prints as `None`. */
  function Render(v: Option<string>): string {
    if v.Some? then v.value else "None"
  }

  /** A key is watched when the watch list is empty or names it. */
  predicate Tracked(targets: set<string>, key: string) {
    targets == {} || key in targets
  }

  /** The alert rule: watched, unavailable or unknown before this run, available now. */
  predicate Fires(prev: Status, targets: set<string>, o: Observation) {
    Tracked(targets, Key(o)) && !GetOr(prev, Key(o), false) && o.available
  }

  /** An alert names an available, watched product that was unavailable or unknown before the run. */
  predicate Justified(prev: Status, targets: set<string>, p: Product) {
    p.available && Tracked(targets, NameKey(p.name)) && !GetOr(prev, NameKey(p.name), false)
  }

  /** The alert payload; its URL is the product page built from the alias. */
  function ToProduct(o: Observation): (p: Product)
    ensures NameKey(p.name) == Key(o)
    ensures p.available == o.available && p.price == o.price && p.inventory == o.inventory
    ensures StartsWith(p.url, ProductUrlPrefix) && p.url[|ProductUrlPrefix|..] == Render(o.alias)
  {
    Product(o.alias, o.name, o.available, ProductUrlPrefix + Render(o.alias), o.price, o.inventory)
  }

  /** Some observation carries this key. */
  predicate Observed(obs: seq<Observation>, key: string) {
    exists i :: 0 <= i < |obs| && Key(obs[i]) == key
  }

  /** Observation `i` is the last one carrying `key`. */
  predicate LastAt(obs: seq<Observation>, i: int, key: string) {
    && 0 <= i < |obs|
    && Key(obs[i]) == key
    && forall j :: i < j < |obs| ==> Key(obs[j]) != key
  }

  /** The last observation carrying `key` reports availability `v`. */
  ghost predicate LastReports(obs: seq<Observation>, key: string, v: bool) {
    exists i :: LastAt(obs, i, key) && obs[i].available == v
  }

  /** `seen_products`: the keys of all observations, watched or not. */
  function Seen(obs: seq<Observation>): (keys: set<string>)
    ensures forall k :: k in keys <==> Observed(obs, k)
  {
    set i | 0 <= i < |obs| :: Key(obs[i])
  }

  /** Sets every given key to unavailable, adding the keys that were absent. */
  function MarkUnavailable(m: Status, keys: set<string>): (r: Status)
    ensures r.Keys == m.Keys + keys
    ensures forall k :: k in keys ==> !r[k]
    ensures forall k :: k in m && k !in keys ==> r[k] == m[k]
  {
    map k | k in m.Keys + keys :: if k in keys then false else m[k]
  }

  /**
   * The writes of the product loop (main.py:193-214) to the copy of the
   * map: each watched product stores its availability under its key.
   */
  function LoopStatus(prev: Status, targets: set<string>, obs: seq<Observation>): (status: Status)
    ensures prev.Keys <= status.Keys
  {
    if obs == [] then prev
    else
      var o := obs[|obs| - 1];
      var before := LoopStatus(prev, targets, obs[..|obs| - 1]);
      if Tracked(targets, Key(o)) then before[Key(o) := o.available] else before
  }

  /**
   * The alerts the product loop (main.py:193-212) sends, in product order.
   * Every decision reads the pre-run map `prev`, never the copy.
   */
  function LoopAlerts(prev: Status, targets: set<string>, obs: seq<Observation>): (alerts: seq<Product>)
    ensures |alerts| <= |obs|
    ensures forall j :: 0 <= j < |alerts| ==> Justified(prev, targets, alerts[j])
  {
    if obs == [] then []
    else
      var o := obs[|obs| - 1];
      LoopAlerts(prev, targets, obs[..|obs| - 1]) + (if Fires(prev, targets, o) then [ToProduct(o)] else [])
  }

  /**
   * One reconciliation: an empty product list marks every target unavailable
   * (main.py:183-188); otherwise the product loop runs and, with a non-empty
   * watch list, every target missing from the list is marked unavailable
   * (main.py:217-220).
   */
  function Reconcile(prev: Status, targets: set<string>, obs: seq<Observation>): (r: Pass)
    ensures prev.Keys + targets <= r.status.Keys
    ensures forall t :: t in targets && !Observed(obs, t) ==> !r.status[t]
    ensures obs == [] ==> r.alerts == []
    ensures r.alerts == LoopAlerts(prev, targets, obs)
    ensures forall j :: 0 <= j < |r.alerts| ==> Justified(prev, targets, r.alerts[j])
  {
    if obs == [] then Pass(MarkUnavailable(prev, targets), [])
    else
      var status := LoopStatus(prev, targets, obs);
      LoopStatusCoversWatched(prev, targets, obs);
      if targets != {} then Pass(MarkUnavailable(status, targets - Seen(obs)), LoopAlerts(prev, targets, obs))
      else Pass(status, LoopAlerts(prev, targets, obs))
  }

  // ---------------------------------------------------------------------------
  // The map after the product loop, key by key

  lemma ObservedStep(obs: seq<Observation>, key: string)
    requires |obs| > 0
    ensures Observed(obs, key) <==> Observed(obs[..|obs| - 1], key) || Key(obs[|obs| - 1]) == key
  {
    var init := obs[..|obs| - 1];
    if Observed(obs, key) && Key(obs[|obs| - 1]) != key {
      var i :| 0 <= i < |obs| && Key(obs[i]) == key;
      assert Key(init[i]) == key;
    }
    if Observed(init, key) {
      var i :| 0 <= i < |init| && Key(init[i]) == key;
      assert Key(obs[i]) == key;
    }
  }

  /**
   * After the product loop a key is present exactly when it was before or
   * a watched product carried it; watched observed keys hold the last
   * observation's availability; every other key keeps its pre-run value.
   */
  lemma {:induction false} LoopStatusByKey(prev: Status, targets: set<string>, obs: seq<Observation>, key: string)
    ensures key in LoopStatus(prev, targets, obs) <==> key in prev || (Tracked(targets, key) && Observed(obs, key))
    ensures key in prev && !(Tracked(targets, key) && Observed(obs, key)) ==>
      LoopStatus(prev, targets, obs)[key] == prev[key]
    ensures Tracked(targets, key) && Observed(obs, key) ==>
      LastReports(obs, key, LoopStatus(prev, targets, obs)[key])
  {
    if obs != [] {
      var init := obs[..|obs| - 1];
      var o := obs[|obs| - 1];
      LoopStatusByKey(prev, targets, init, key);
      ObservedStep(obs, key);
      var s := LoopStatus(prev, targets, obs);
      if Tracked(targets, key) && Observed(obs, key) {
        if Key(o) == key {
          assert LastAt(obs, |obs| - 1, key);
        } else {
          var i :| LastAt(init, i, key) && init[i].available == LoopStatus(prev, targets, init)[key];
          assert LastAt(obs, i, key);
        }
      }
    }
  }

  /** Every watched observed name is a key after the product loop. */
  lemma LoopStatusCoversWatched(prev: Status, targets: set<string>, obs: seq<Observation>)
    ensures forall key :: Tracked(targets, key) && Observed(obs, key) ==> key in LoopStatus(prev, targets, obs)
  {
    forall key | Tracked(targets, key) && Observed(obs, key)
      ensures key in LoopStatus(prev, targets, obs)
    {
      LoopStatusByKey(prev, targets, obs, key);
    }
  }

  // ---------------------------------------------------------------------------
  // Alerts

  /**
   * Alerts of a concatenation are the concatenation of the alerts: a
   * decision never depends on earlier observations, only on the pre-run map.
   */
  lemma {:induction false} LoopAlertsAppend(prev: Status, targets: set<string>, a: seq<Observation>, b: seq<Observation>)
    ensures LoopAlerts(prev, targets, a + b) == LoopAlerts(prev, targets, a) + LoopAlerts(prev, targets, b)
    decreases |b|
  {
    if b == [] {
      assert a + b == a;
    } else {
      var b', o := b[..|b| - 1], b[|b| - 1];
      LoopAlertsAppend(prev, targets, a, b');
      assert (a + b)[..|a + b| - 1] == a + b';
      assert (a + b)[|a + b| - 1] == o;
      var extra := if Fires(prev, targets, o) then [ToProduct(o)] else [];
      assert LoopAlerts(prev, targets, a + b) == LoopAlerts(prev, targets, a + b') + extra;
      assert LoopAlerts(prev, targets, b) == LoopAlerts(prev, targets, b') + extra;
    }
  }

  /** A single observation alerts exactly when the alert rule holds for it. */
  lemma AlertForOne(prev: Status, targets: set<string>, o: Observation)
    ensures Reconcile(prev, targets, [o]).alerts == if Fires(prev, targets, o) then [ToProduct(o)] else []
  {
    assert [o][..0] == [];
  }

  /**
   * An entry with neither name nor alias is stored under the empty key and,
   * when it alerts, the alert carries no name and a URL ending in `None`.
   */
  lemma NamelessProductAlerts(prev: Status, o: Observation)
    requires o.name.None? && o.alias.None? && o.available && !GetOr(prev, "", false)
    ensures Reconcile(prev, {}, [o]).alerts == [Product(None, None, true, ProductUrlPrefix + "None", o.price, o.inventory)]
    ensures "" in Reconcile(prev, {}, [o]).status && Reconcile(prev, {}, [o]).status[""]
  {
    AlertForOne(prev, {}, o);
    LastObservationWins(prev, {}, [o], "");
    assert LastAt([o], 0, "");
  }

  /**
   * Matching is case-insensitive: two products share a key, and so one map
   * entry, exactly when their names agree up to ASCII case.
   */
  lemma KeyIgnoresCase(a: Observation, b: Observation)
    ensures Key(a) == Key(b) <==> EqualIgnoringCase(NameOrEmpty(a.name), NameOrEmpty(b.name))
  {
    LowerEqualIff(NameOrEmpty(a.name), NameOrEmpty(b.name));
  }

  /** The product loop over one observation alerts exactly when the alert rule holds. */
  lemma LoopAlertForOne(prev: Status, targets: set<string>, o: Observation)
    ensures LoopAlerts(prev, targets, [o]) == if Fires(prev, targets, o) then [ToProduct(o)] else []
  {
    assert [o][..0] == [];
  }

  /** The loop's alerts around one observation in the middle of the list. */
  lemma LoopAlertsAround(prev: Status, targets: set<string>, a: seq<Observation>, o: Observation, b: seq<Observation>)
    ensures LoopAlerts(prev, targets, a + [o] + b) ==
      LoopAlerts(prev, targets, a)
      + (if Fires(prev, targets, o) then [ToProduct(o)] else [])
      + LoopAlerts(prev, targets, b)
  {
    LoopAlertsAppend(prev, targets, a + [o], b);
    LoopAlertsAppend(prev, targets, a, [o]);
    LoopAlertForOne(prev, targets, o);
  }

  /** `AlertAt` for the product loop alone. */
  lemma LoopAlertAt(prev: Status, targets: set<string>, obs: seq<Observation>, i: int)
    requires 0 <= i < |obs|
    ensures LoopAlerts(prev, targets, obs) ==
      LoopAlerts(prev, targets, obs[..i])
      + (if Fires(prev, targets, obs[i]) then [ToProduct(obs[i])] else [])
      + LoopAlerts(prev, targets, obs[i + 1..])
  {
    assert obs == obs[..i] + [obs[i]] + obs[i + 1..];
    LoopAlertsAround(prev, targets, obs[..i], obs[i], obs[i + 1..]);
  }

  /**
   * Observation `i` contributes an alert, at its own position among the
   * alerts, exactly when the alert rule holds for it: watched, unavailable
   * or unknown before the run, and available now.
   */
  lemma AlertAt(prev: Status, targets: set<string>, obs: seq<Observation>, i: int)
    requires 0 <= i < |obs|
    ensures Reconcile(prev, targets, obs).alerts ==
      Reconcile(prev, targets, obs[..i]).alerts
      + (if Fires(prev, targets, obs[i]) then [ToProduct(obs[i])] else [])
      + Reconcile(prev, targets, obs[i + 1..]).alerts
  {
    LoopAlertAt(prev, targets, obs, i);
    assert Reconcile(prev, targets, obs).alerts == LoopAlerts(prev, targets, obs);
    assert Reconcile(prev, targets, obs[..i]).alerts == LoopAlerts(prev, targets, obs[..i]);
    assert Reconcile(prev, targets, obs[i + 1..]).alerts == LoopAlerts(prev, targets, obs[i + 1..]);
  }

  /** No alert at all exactly when no observation satisfies the alert rule. */
  lemma {:induction false} NoAlertsIff(prev: Status, targets: set<string>, obs: seq<Observation>)
    ensures Reconcile(prev, targets, obs).alerts == [] <==> forall i :: 0 <= i < |obs| ==> !Fires(prev, targets, obs[i])
  {
    LoopNoAlertsIff(prev, targets, obs);
  }

  lemma {:induction false} LoopNoAlertsIff(prev: Status, targets: set<string>, obs: seq<Observation>)
    ensures LoopAlerts(prev, targets, obs) == [] <==> forall i :: 0 <= i < |obs| ==> !Fires(prev, targets, obs[i])
  {
    if obs != [] {
      var init, o := obs[..|obs| - 1], obs[|obs| - 1];
      LoopNoAlertsIff(prev, targets, init);
      assert LoopAlerts(prev, targets, obs) ==
        LoopAlerts(prev, targets, init) + (if Fires(prev, targets, o) then [ToProduct(o)] else []);
      assert forall i :: 0 <= i < |init| ==> init[i] == obs[i];
    }
  }

  // ---------------------------------------------------------------------------
  // The reconciled map

  /** The keys after a run: the old keys, the watch list, and every watched observed name. */
  lemma ReconcileKeys(prev: Status, targets: set<string>, obs: seq<Observation>, key: string)
    ensures key in Reconcile(prev, targets, obs).status <==>
      key in prev || key in targets || (Tracked(targets, key) && Observed(obs, key))
  {
    LoopStatusByKey(prev, targets, obs, key);
  }

  /**
   * With a non-empty watch list, a product that is not on it neither
   * changes the map under its key nor causes an alert.
   */
  lemma NonTargetUntouched(prev: Status, targets: set<string>, obs: seq<Observation>, key: string)
    requires targets != {} && key !in targets
    ensures key in Reconcile(prev, targets, obs).status <==> key in prev
    ensures key in prev ==> Reconcile(prev, targets, obs).status[key] == prev[key]
    ensures forall j :: 0 <= j < |Reconcile(prev, targets, obs).alerts| ==>
      NameKey(Reconcile(prev, targets, obs).alerts[j].name) != key
  {
    LoopStatusByKey(prev, targets, obs, key);
  }

  /**
   * A key that is neither on the watch list nor a watched observed name
   * keeps exactly its previous entry: the new map starts as a copy.
   */
  lemma UntouchedKeysKept(prev: Status, targets: set<string>, obs: seq<Observation>, key: string)
    requires key !in targets && !(Tracked(targets, key) && Observed(obs, key))
    ensures key in Reconcile(prev, targets, obs).status <==> key in prev
    ensures key in prev ==> Reconcile(prev, targets, obs).status[key] == prev[key]
  {
    LoopStatusByKey(prev, targets, obs, key);
  }

  /** For a watched name seen several times, the last observation's availability is stored. */
  lemma LastObservationWins(prev: Status, targets: set<string>, obs: seq<Observation>, key: string)
    requires Tracked(targets, key) && Observed(obs, key)
    ensures key in Reconcile(prev, targets, obs).status
    ensures LastReports(obs, key, Reconcile(prev, targets, obs).status[key])
  {
    LoopStatusByKey(prev, targets, obs, key);
  }

  /**
   * An empty product list sends nothing, marks every target unavailable and
   * leaves every other entry as it was.
   */
  lemma EmptyScrapeResetsTargets(prev: Status, targets: set<string>)
    ensures Reconcile(prev, targets, []).alerts == []
    ensures Reconcile(prev, targets, []).status.Keys == prev.Keys + targets
    ensures forall t :: t in targets ==> !Reconcile(prev, targets, []).status[t]
    ensures forall k :: k in prev && k !in targets ==> Reconcile(prev, targets, []).status[k] == prev[k]
  {
  }

  // ---------------------------------------------------------------------------
  // Repeated runs

  /** Two observations with the same key agree on availability. */
  predicate ConsistentDuplicates(obs: seq<Observation>) {
    forall i, j :: 0 <= i < |obs| && 0 <= j < |obs| && Key(obs[i]) == Key(obs[j]) ==> obs[i].available == obs[j].available
  }

  /**
   * Sustained availability never re-alerts: running the same observations
   * again against the map the first run produced sends nothing, provided
   * duplicate names agree on availability.
   */
  lemma SecondRunIsQuiet(prev: Status, targets: set<string>, obs: seq<Observation>)
    requires ConsistentDuplicates(obs)
    ensures Reconcile(Reconcile(prev, targets, obs).status, targets, obs).alerts == []
  {
    var s := Reconcile(prev, targets, obs).status;
    forall i | 0 <= i < |obs|
      ensures !Fires(s, targets, obs[i])
    {
      var key := Key(obs[i]);
      if Tracked(targets, key) {
        assert Observed(obs, key);
        LastObservationWins(prev, targets, obs, key);
        var j :| LastAt(obs, j, key) && obs[j].available == s[key];
      }
    }
    NoAlertsIff(s, targets, obs);
  }

  /** Only one observation is the last to carry a key. */
  lemma LastAtUnique(obs: seq<Observation>, i: int, j: int, key: string)
    requires LastAt(obs, i, key) && LastAt(obs, j, key)
    ensures i == j
  {
  }

  /**
   * On a second run over the same observations, observation `i` alerts
   * exactly when it is watched and available while the last observation
   * carrying its name was unavailable.
   */
  lemma SecondRunFiresIff(prev: Status, targets: set<string>, obs: seq<Observation>, i: int)
    requires 0 <= i < |obs|
    ensures Fires(Reconcile(prev, targets, obs).status, targets, obs[i]) <==>
      Tracked(targets, Key(obs[i])) && obs[i].available && LastReports(obs, Key(obs[i]), false)
  {
    var s := Reconcile(prev, targets, obs).status;
    var key := Key(obs[i]);
    if Tracked(targets, key) {
      assert Observed(obs, key);
      LastObservationWins(prev, targets, obs, key);
      var j :| LastAt(obs, j, key) && obs[j].available == s[key];
      if LastReports(obs, key, false) {
        var j' :| LastAt(obs, j', key) && !obs[j'].available;
        LastAtUnique(obs, j, j', key);
      }
    }
  }

  /**
   * Without agreement between duplicates the second run can alert again:
   * a watched, available sighting whose name is last seen unavailable is
   * stored unavailable, so it fires once more.
   */
  lemma SecondRunRealertsAfterUnavailableLast(prev: Status, targets: set<string>, obs: seq<Observation>, i: int, j: int)
    requires 0 <= i < |obs| && LastAt(obs, j, Key(obs[i]))
    requires Tracked(targets, Key(obs[i])) && obs[i].available && !obs[j].available
    ensures Reconcile(Reconcile(prev, targets, obs).status, targets, obs).alerts != []
  {
    var s := Reconcile(prev, targets, obs).status;
    SecondRunFiresIff(prev, targets, obs, i);
    AlertAt(s, targets, obs, i);
  }

  /**
   * One concrete list: "x" seen available and then unavailable is stored
   * unavailable, so the first sighting fires on the second run.
   */
  lemma SecondRunMayRealertOnConflictingDuplicates()
    ensures var obs := [Observation(Some("x"), Some("x"), true, 0.0, 0), Observation(Some("x"), Some("x"), false, 0.0, 0)];
      Reconcile(Reconcile(map[], {}, obs).status, {}, obs).alerts != []
  {
    var obs := [Observation(Some("x"), Some("x"), true, 0.0, 0), Observation(Some("x"), Some("x"), false, 0.0, 0)];
    assert LastAt(obs, 1, Key(obs[0]));
    SecondRunRealertsAfterUnavailableLast(map[], {}, obs, 0, 1);
  }

  /**
   * The opposite order is quiet: "x" seen unavailable and then available is
   * stored available, so neither sighting fires on the second run.
   */
  lemma UnavailableThenAvailableIsQuiet()
    ensures var obs := [Observation(Some("x"), Some("x"), false, 0.0, 0), Observation(Some("x"), Some("x"), true, 0.0, 0)];
      Reconcile(Reconcile(map[], {}, obs).status, {}, obs).alerts == []
  {
    var obs := [Observation(Some("x"), Some("x"), false, 0.0, 0), Observation(Some("x"), Some("x"), true, 0.0, 0)];
    var s := Reconcile(map[], {}, obs).status;
    assert LastAt(obs, 1, Key(obs[0]));
    SecondRunFiresIff(map[], {}, obs, 0);
    SecondRunFiresIff(map[], {}, obs, 1);
    NoAlertsIff(s, {}, obs);
  }

  /**
   * A watched product that drops out of the list is stored unavailable
   * without an alert, so its return with availability alerts again.
   */
  lemma DisappearThenReappear(prev: Status, x: Observation, y: Observation)
    requires Key(x) != Key(y) && x.available
    ensures Reconcile(prev, {Key(x)}, [y]).alerts == []
    ensures !Reconcile(prev, {Key(x)}, [y]).status[Key(x)]
    ensures Reconcile(Reconcile(prev, {Key(x)}, [y]).status, {Key(x)}, [x]).alerts == [ToProduct(x)]
  {
    var first := Reconcile(prev, {Key(x)}, [y]);
    assert !Observed([y], Key(x));
    AlertForOne(prev, {Key(x)}, y);
    AlertForOne(first.status, {Key(x)}, x);
  }
}
