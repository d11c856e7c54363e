# Amul stock monitor — reconciliation model

A Dafny model of the decision logic of a one-shot stock monitor for the Amul
online shop. One run scrapes the shop's product API through a headless browser,
compares each product's availability with the map persisted by the previous
run, sends a notification when a watched product goes from unavailable (or
unknown) to available, and persists the new map in a `finally` clause.

The model covers three pure pieces of `main.py`:

- **Reconciliation** (`reconcile.dfy`, `monitor.dfy`): the body of
  `StockMonitor.run_check`. The pre-run map, the scraped products and the watch
  list go in; the map to persist and the ordered alerts come out. Alert
  decisions read the pre-run map, while writes go to the copy. `Monitor.RunCheck`
  adds the `try`/`finally` shape. An early `return` (preferences rejected or
  an empty product list) and an exception part-way through the loop each
  persist a different map.
- **Watch-list parsing** (`targets.dfy`, `text.dfy`): `TARGET_PRODUCTS` is split
  on commas, each piece is stripped, blank pieces are dropped, and the names are
  lower-cased into a set. An empty set means "watch everything".
- **API-request selection** (`api_requests.dfy`): `get_api_requests` keeps the
  first `Network.responseReceived` entry for each URL under
  `https://shop.amul.com/api/` that contains the endpoint filter, in log order.
  It works over log entries that are already decoded.

Three consequences of the code's control flow are easy to miss, and the model keeps them:

- A rejected store preference (`return` at main.py:180) would persist the
  unchanged copy, because the `return` runs the `finally` clause. This branch
  cannot run with the code as written: `set_store_preferences`
  (main.py:111-127) either returns `True` or raises from one of its
  `wait.until` calls. A rejected pin code therefore ends in the `except` at
  main.py:222, which also persists the unchanged copy and sends nothing.
- An exception from `get_products` or from browser setup (main.py:177-182)
  persists the unchanged copy. Targets are reset to unavailable only when the
  product list comes back empty (main.py:183-188) or after the product loop
  finishes (main.py:216-220). An exception inside the loop (main.py:193-214)
  resets nothing.
- Running the same observations twice need not be quiet. When duplicate
  product names agree on availability, the second run sends nothing
  (`SecondRunIsQuiet`). Otherwise the map stores the last entry for each name.
  If a watched name's last entry is unavailable, an earlier available entry
  for it fires again (`SecondRunFiresIff`,
  `SecondRunRealertsAfterUnavailableLast`). When the last entry is available,
  nothing fires (`UnavailableThenAvailableIsQuiet`).

## Model

| member | source | states |
|---|---|---|
| Text.Strip | main.py:265 | the result is the slice of the input left once all leading and trailing whitespace (Python's `isspace` set) is removed: everything cut off is whitespace and neither end of the result is |
| Text.StripEmptyIffBlank | main.py:265 | a piece strips to the empty string exactly when it is all whitespace, which is what the `if p.strip()` filter drops |
| Text.Split | main.py:265 | `split(',')` yields at least one piece and no piece contains the separator |
| Text.JoinSplit | main.py:265 | joining the pieces of `split(',')` with commas gives back the original string |
| Text.SplitJoin | main.py:265 | splitting the comma-join of comma-free pieces gives back the pieces, so split and join are inverse |
| Text.Lower | main.py:149 | lower-casing keeps the length and leaves no upper-case letter |
| Text.LowerEach | main.py:149 | each character of the lower-cased string is the character at the same position, lower-cased: an ASCII capital becomes its small letter, and every other character stays as it is |
| Text.LowerEqualIff | main.py:194-197 | two names lower-case to the same key exactly when they agree letter by letter up to ASCII case, so name matching is case-insensitive |
| Text.LowerIdempotent | main.py:149 | lower-casing twice equals lower-casing once, and a lower-case string is its own lower-case form |
| Targets.Clean | main.py:265 | keeps a stripped piece exactly when it is non-empty: every kept name is non-empty with no surrounding whitespace, and the kept names are exactly the non-blank stripped pieces |
| Targets.CleanMembers | main.py:265 | a name is kept exactly when it is non-empty and some piece strips to it |
| Targets.ParseTargets | main.py:265 | every parsed target is non-empty, has no leading or trailing whitespace and no comma, and the targets are exactly the non-blank stripped comma-separated pieces of the setting |
| Targets.TargetSet | main.py:149 | every element of the target set is lower-case, and the set holds exactly the lower-cased names |
| Targets.Targets | main.py:149 | the watch set built from the setting holds exactly the lower-cased, stripped, non-blank comma-separated pieces, each non-empty, lower-case, stripped and comma-free |
| Targets.BlankConfigWatchesAll | main.py:263-265 | a setting of only commas and whitespace, including the empty string, gives the empty set, which watches every product |
| ApiRequests.GetApiRequests | main.py:45-67 | returns the first qualifying entry for each URL, in log order. Each returned URL starts with the API prefix, contains the filter when one is given, and comes from a `Network.responseReceived` entry. URLs are pairwise distinct, and every qualifying entry's URL is returned |
| ApiRequests.SelectedUrls | main.py:58-64 | the URLs selected so far are exactly the qualifying URLs seen so far, which is the `seen_urls` set |
| ApiRequests.SelectedDistinct | main.py:60-64 | no URL is selected twice |
| ApiRequests.SelectedSound | main.py:57-63 | every selected request is built from the first qualifying entry with its URL |
| ApiRequests.QualifiedUrlsStep | main.py:60-64 | an entry is the first occurrence of its URL exactly when it qualifies and its URL is not yet in `seen_urls` |
| Reconciliation.LoopStatus | main.py:193-214 | the copy leaving the product loop keeps every pre-run key |
| Reconciliation.LoopAlerts | main.py:193-212 | the loop sends no more alerts than there are products (`AlertAt` places each one), and every alert is for an available, watched product whose pre-run status was false or absent |
| Reconciliation.LoopStatusByKey | main.py:193-214 | after the loop a key is present exactly when it was before or a watched product carried it. A watched observed key holds the last such product's availability. Every other key keeps its pre-run value |
| Reconciliation.Reconcile | main.py:175-220 | the new map keeps every old key and holds every target. A target absent from the scrape is false. An empty scrape sends nothing. Every alert is for an available, watched product that was false or absent before |
| Reconciliation.LoopAlertsAppend | main.py:197-212 | the alerts for two lists in sequence are the two lists' alerts concatenated, because every decision reads the pre-run map and none reads earlier products |
| Reconciliation.KeyIgnoresCase | main.py:194-197 | two products share a map entry exactly when their names, a missing name read as empty, agree up to ASCII case |
| Reconciliation.NamelessProductAlerts | main.py:194-211 | a product with no name and no alias is stored under the empty key. When it alerts, the alert has no name and a URL ending in `None` |
| Reconciliation.AlertForOne | main.py:197-212 | one product alerts exactly when it is watched, was false or absent before, and is available now |
| Reconciliation.AlertAt | main.py:193-212 | product `i` contributes an alert, at its own position in scrape order, exactly when the alert rule holds for it. Duplicate names alert independently |
| Reconciliation.NoAlertsIff | main.py:197-212 | a run sends nothing exactly when no product meets the alert rule |
| Reconciliation.ReconcileKeys | main.py:175-220 | the new map's keys are exactly the old keys, the targets, and the watched scraped names |
| Reconciliation.NonTargetUntouched | main.py:197-214 | with a non-empty watch list, a product that is not a target leaves its key exactly as before and gets no alert |
| Reconciliation.UntouchedKeysKept | main.py:175-220 | a key that is neither a target nor a watched scraped name keeps exactly its previous entry |
| Reconciliation.LastObservationWins | main.py:193-214 | for a watched name scraped several times, the new map stores the last entry's availability |
| Reconciliation.EmptyScrapeResetsTargets | main.py:183-188 | an empty scrape sends nothing, adds every target as false, and keeps every other entry |
| Reconciliation.SecondRunIsQuiet | main.py:197-214 | reconciling the same products again against the first run's map sends nothing, when duplicate names agree on availability |
| Reconciliation.SecondRunFiresIff | main.py:197-214 | on a second run over the same products, a product alerts exactly when it is watched and available and the last product with its name was unavailable |
| Reconciliation.SecondRunRealertsAfterUnavailableLast | main.py:197-214 | a watched, available product whose name is last seen unavailable makes the second run alert again |
| Reconciliation.SecondRunMayRealertOnConflictingDuplicates | main.py:200-214 | one list, "x" available and then unavailable, on which the second run alerts again |
| Reconciliation.UnavailableThenAvailableIsQuiet | main.py:200-214 | one list, "x" unavailable and then available, on which the second run is quiet although the duplicates disagree |
| Reconciliation.DisappearThenReappear | main.py:197-220 | a target missing from a scrape is stored as false with no alert, so its later return as available alerts again |
| Monitor.Classify | main.py:176-222 | the run is a precondition failure exactly when preferences are rejected. It is an empty scrape exactly when the product list is empty. A setup exception stops before product 0. A non-empty list stops at product `k` exactly when reading that product raises, and otherwise completes |
| Monitor.Effects | main.py:172-226 | an early `return` keeps the untouched copy with no alerts. An empty or completed scrape yields the full reconciliation. An exception yields alerts that are a prefix of the full loop's. Every pre-run key survives on every path |
| Monitor.RunCheck | main.py:172-226 | the map is persisted on every path and keeps every pre-run key. A completed or empty scrape persists exactly the reconciled map and sends exactly its alerts. The alerts are always a prefix of what an uninterrupted reconciliation sends. Rejected or failed setup persists the pre-run map unchanged with no alerts |
| Monitor.LoopPrefixAlerts | main.py:193-212 | alerts already sent when the loop stops early are a prefix of the full loop's alerts |
| Monitor.FailureMidLoopKeepsPartialCopy | main.py:193-226 | an exception at product `k` persists the copy as the loop left it: earlier products are recorded, unseen targets are not reset, and every other key keeps its value |
| Monitor.EmptyScrapeRun | main.py:182-188 | a run whose product list is empty persists every target as false, keeps every other entry, and sends nothing |

## Left out

- Browser work is left out: creating the Selenium driver, navigation, pin-code entry, `time.sleep`, and the DevTools calls (main.py:84-143). This is I/O. The `Scrape` value says only what the session delivered.
- The ntfy.sh POST in `send_alert` (main.py:228-250) is network I/O. An alert is modelled as the `Product` value appended to the alert sequence.
- Loading and saving the JSON state file (main.py:155-170) is left out. So is JSON decoding of log messages and response bodies (main.py:54, 138). These are library calls. The state is a `map<string, bool>`, and log entries and products arrive decoded. A missing name or alias is `None`. The key reads a missing name as the empty string (`.get("name", "")`, main.py:194). The alert copies both fields without a default (main.py:205-208), and its URL then ends in `None`.
- `Product.__str__` (main.py:37-42) is left out. It is float formatting. `price` is carried as an opaque `real` and assumed present. A missing price would reach the alert as `None` (main.py:209), which the model does not represent.
- Logging setup and the `os.getenv` reads (main.py:19-25, 259-268) are left out. The configuration string is a parameter of `Targets.Targets`.
- Text.Lower: only ASCII letters are case-folded. Python's `str.lower()` also folds non-ASCII letters, which this model does not represent.
- Monitor.Classify: `PreferencesRejected` models the `return` at main.py:178-180 as written. `set_store_preferences` (main.py:111-127) never returns `False`, so the branch cannot run with the current code. A rejected pin code raises a timeout and ends as `SetupRaised`. Both persist the pre-run map and send nothing (`Monitor.RunCheck`).
- Monitor.Classify: only one kind of exception inside the product loop is modelled. It is raised while reading product `k`'s name (main.py:194), before anything is recorded for that product. A `name` that is present but JSON `null` raises there.
- The loaded state file is assumed to be a JSON object of booleans (main.py:155-164). `available` is taken as already converted by `bool(...)`, and a missing `inventory_quantity` as already defaulted to 0 (main.py:199, 210).
