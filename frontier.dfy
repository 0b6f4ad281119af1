/**
 * The URL frontier (crawler/frontier.py): the ledger of every discovered URL
 * keyed by URL hash, the ready queue, the per-netloc politeness clock and the
 * two reporting sets. `add_url`, `get_tbd_url` and `mark_url_complete` hold
 * the frontier's lock, and `_parse_save_file` runs only during construction,
 * so the model runs the operations one after another.
 */
module Crawler {
  import opened Wrappers
  import opened Strings
  import opened Urls
  import opened Scraper

  /** A ledger entry: the URL and whether it has been completed. */
  datatype Record = Record(url: string, completed: bool)

  /** One successful `get_tbd_url`: the URL, its netloc and the time it was handed out. */
  datatype Handout = Handout(url: string, netloc: string, time: int)

  /** Every ledger entry is stored under the hash of its own URL. */
  ghost predicate WellKeyed(ops: UrlOps, save: map<string, Record>) {
    forall h :: h in save ==> ops.urlHash(save[h].url) == h
  }

  /** `order` lists the keys of the ledger, each exactly once: its iteration order. */
  ghost predicate Enumerates(order: seq<string>, save: map<string, Record>) {
    && (forall i, j :: 0 <= i < j < |order| ==> order[i] != order[j])
    && (forall h :: h in save <==> h in order)
  }

  // ---------------------------------------------------------------------------
  // check_subdomain
  // ---------------------------------------------------------------------------

  /**
   * `check_subdomain(url)`, given the parsed form of `url`: true exactly when
   * the host is under an assigned suffix, or is the path-restricted host with
   * the required path prefix; false when there is no host.
   */
  function CheckSubdomain(p: ParsedUrl): (r: bool)
    ensures r <==> p.hostname.Some? && InAssignedScope(p.hostname.value, p.path)
  {
    match p.hostname
    case None => false
    case Some(hostname) =>
      if exists suffix | suffix in AssignedSuffixes :: EndsWith(hostname, suffix) then true
      else if hostname == TodayHost && StartsWith(p.path, TodayPathPrefix) then true
      else false
  }

  /**
   * A URL in crawl scope whose host is its lower-cased netloc (no user info,
   * no port) passes the subdomain check: the two predicates agree on scope.
   */
  lemma ValidUrlInSubdomain(url: string, p: ParsedUrl)
    requires IsValid(url, p)
    requires p.hostname == Some(Lower(p.netloc))
    ensures CheckSubdomain(p)
  {
  }

  /** Adding `u` to the subdomain index under its host, when it passes the check. */
  function IndexSubdomain(index: map<string, set<string>>, p: ParsedUrl, u: string): (r: map<string, set<string>>)
    ensures !CheckSubdomain(p) ==> r == index
    ensures CheckSubdomain(p) ==> var host := p.hostname.value;
      && r.Keys == index.Keys + {host}
      && u in r[host]
      && r[host] - {u} == (if host in index then index[host] else {}) - {u}
      && forall other :: other in index && other != host ==> r[other] == index[other]
  {
    if CheckSubdomain(p) then
      var host := p.hostname.value;
      index[host := (if host in index then index[host] else {}) + {u}]
    else index
  }

  /**
   * The indexing step of `add_url` as written: it looks up `hostname` on the
   * URL string, and a `str` has no such attribute, so the step raises
   * `AttributeError` exactly when the URL passes the subdomain check.
   */
  datatype IndexStep = Indexed(index: map<string, set<string>>) | RaisesAttributeError

  function IndexAsWritten(index: map<string, set<string>>, p: ParsedUrl): (r: IndexStep)
    ensures r == RaisesAttributeError <==> CheckSubdomain(p)
    ensures r.Indexed? ==> r.index == index
  {
    if CheckSubdomain(p) then RaisesAttributeError else Indexed(index)
  }

  /**
   * A seed such as `https://www.ics.uci.edu/`, whose host is under an
   * assigned suffix, makes the step as written raise; the corrected step
   * indexes it under its host.
   */
  lemma SeedHostRaises(index: map<string, set<string>>, p: ParsedUrl, u: string)
    requires p.hostname == Some("www.ics.uci.edu")
    ensures IndexAsWritten(index, p) == RaisesAttributeError
    ensures "www.ics.uci.edu" in IndexSubdomain(index, p, u)
    ensures u in IndexSubdomain(index, p, u)["www.ics.uci.edu"]
  {
    var host := "www.ics.uci.edu";
    assert host[|host| - |".ics.uci.edu"|..] == ".ics.uci.edu";
    assert EndsWith(host, ".ics.uci.edu");
  }

  // ---------------------------------------------------------------------------
  // Politeness: get_tbd_url's eligibility test
  // ---------------------------------------------------------------------------

  /** `domain_last_access.get(netloc, 0)`. */
  function LastAccess(lastAccess: map<string, int>, netloc: string): int {
    if netloc in lastAccess then lastAccess[netloc] else 0
  }

  /** The politeness window of `netloc` has elapsed at time `now`. */
  predicate Ready(lastAccess: map<string, int>, netloc: string, now: int, delay: nat) {
    now - LastAccess(lastAccess, netloc) >= delay
  }

  /** The position of the first URL in queue order whose netloc is ready. */
  function FirstReady(ops: UrlOps, queue: seq<string>, lastAccess: map<string, int>,
                      now: int, delay: nat): (r: Option<nat>)
    ensures r.Some? ==> r.value < |queue| && Ready(lastAccess, Netloc(ops, queue[r.value]), now, delay)
    ensures r.Some? ==> forall j :: 0 <= j < r.value ==> !Ready(lastAccess, Netloc(ops, queue[j]), now, delay)
    ensures r.None? <==> forall j :: 0 <= j < |queue| ==> !Ready(lastAccess, Netloc(ops, queue[j]), now, delay)
    decreases |queue|
  {
    if queue == [] then None
    else if Ready(lastAccess, Netloc(ops, queue[0]), now, delay) then Some(0)
    else
      match FirstReady(ops, queue[1..], lastAccess, now, delay)
      case None => None
      case Some(i) => Some(i + 1)
  }

  /** A ready position with no ready position before it is the first ready one. */
  lemma FirstReadyAt(ops: UrlOps, queue: seq<string>, lastAccess: map<string, int>,
                     now: int, delay: nat, i: nat)
    requires i < |queue| && Ready(lastAccess, Netloc(ops, queue[i]), now, delay)
    requires forall j :: 0 <= j < i ==> !Ready(lastAccess, Netloc(ops, queue[j]), now, delay)
    ensures FirstReady(ops, queue, lastAccess, now, delay) == Some(i)
  {
  }

  // ---------------------------------------------------------------------------
  // _parse_save_file: rebuilding the queue from the ledger
  // ---------------------------------------------------------------------------

  /** A ledger entry that `_parse_save_file` puts back in the queue. */
  predicate Resumable(ops: UrlOps, rec: Record) {
    !rec.completed && IsValid(rec.url, ops.parse(rec.url))
  }

  /** The URLs of the resumable entries, in ledger iteration order. */
  function PendingUrls(ops: UrlOps, save: map<string, Record>, order: seq<string>): seq<string>
    requires forall i :: 0 <= i < |order| ==> order[i] in save
    decreases |order|
  {
    if order == [] then []
    else
      var last := save[order[|order| - 1]];
      PendingUrls(ops, save, order[..|order| - 1]) + (if Resumable(ops, last) then [last.url] else [])
  }

  /** A URL is queued on restart exactly when some listed entry holds it, not completed and in scope. */
  lemma {:induction false} PendingUrlsMembers(ops: UrlOps, save: map<string, Record>, order: seq<string>, u: string)
    requires forall i :: 0 <= i < |order| ==> order[i] in save
    ensures u in PendingUrls(ops, save, order) <==>
      exists i :: 0 <= i < |order| && save[order[i]].url == u && Resumable(ops, save[order[i]])
    decreases |order|
  {
    if order != [] {
      var init := order[..|order| - 1];
      PendingUrlsMembers(ops, save, init, u);
      assert forall i :: 0 <= i < |init| ==> init[i] == order[i];
    }
  }

  /**
   * On a well-keyed ledger listed without repetition, the queued URLs have
   * distinct hashes, each a key of the ledger.
   */
  lemma {:induction false} PendingUrlsKeyed(ops: UrlOps, save: map<string, Record>, order: seq<string>)
    requires forall i :: 0 <= i < |order| ==> order[i] in save
    requires WellKeyed(ops, save)
    requires forall i, j :: 0 <= i < j < |order| ==> order[i] != order[j]
    ensures forall i :: 0 <= i < |PendingUrls(ops, save, order)| ==>
      ops.urlHash(PendingUrls(ops, save, order)[i]) in order
    ensures forall i, j :: 0 <= i < j < |PendingUrls(ops, save, order)| ==>
      ops.urlHash(PendingUrls(ops, save, order)[i]) != ops.urlHash(PendingUrls(ops, save, order)[j])
    decreases |order|
  {
    if order != [] {
      var init := order[..|order| - 1];
      var h := order[|order| - 1];
      PendingUrlsKeyed(ops, save, init);
      assert forall i :: 0 <= i < |init| ==> init[i] != h && init[i] == order[i];
      assert forall x :: x in init ==> x in order && x != h;
      if Resumable(ops, save[h]) {
        assert PendingUrls(ops, save, order) == PendingUrls(ops, save, init) + [save[h].url];
        assert ops.urlHash(save[h].url) == h;
      } else {
        assert PendingUrls(ops, save, order) == PendingUrls(ops, save, init);
      }
    }
  }

  // ---------------------------------------------------------------------------
  // mark_url_complete's effect on the ledger
  // ---------------------------------------------------------------------------

  /**
   * The ledger after `mark_url_complete(url)`: the entry under the hash of the
   * URL as given (not normalised, not defragmented) is `(url, True)`, whether
   * or not it was there before; every other entry is kept.
   */
  function Complete(ops: UrlOps, save: map<string, Record>, url: string): (r: map<string, Record>)
    ensures r.Keys == save.Keys + {ops.urlHash(url)}
    ensures r[ops.urlHash(url)] == Record(url, true)
    ensures forall h :: h in save && h != ops.urlHash(url) ==> r[h] == save[h]
  {
    save[ops.urlHash(url) := Record(url, true)]
  }

  /** Completing a URL twice leaves the same ledger as completing it once. */
  lemma CompleteIdempotent(ops: UrlOps, save: map<string, Record>, url: string)
    ensures Complete(ops, Complete(ops, save, url), url) == Complete(ops, save, url)
  {
  }

  /** A completed entry never goes back to pending, and no key is lost. */
  lemma CompleteNeverReverts(ops: UrlOps, save: map<string, Record>, url: string, h: string)
    requires h in save && save[h].completed
    ensures h in Complete(ops, save, url) && Complete(ops, save, url)[h].completed
  {
  }

  /** Completing keeps every entry stored under the hash of its own URL. */
  lemma CompleteWellKeyed(ops: UrlOps, save: map<string, Record>, url: string)
    requires WellKeyed(ops, save)
    ensures WellKeyed(ops, Complete(ops, save, url))
  {
  }

  // ---------------------------------------------------------------------------
  // The frontier's invariants, over its state's values
  // ---------------------------------------------------------------------------

  /** Every queued and every handed-out URL has its hash in the ledger. */
  ghost predicate Ledgered(ops: UrlOps, save: map<string, Record>, queue: seq<string>, handouts: seq<Handout>) {
    && WellKeyed(ops, save)
    && (forall i :: 0 <= i < |queue| ==> ops.urlHash(queue[i]) in save)
    && (forall k :: 0 <= k < |handouts| ==> ops.urlHash(handouts[k].url) in save)
  }

  /** No hash is queued twice, handed out twice, or queued again after being handed out. */
  ghost predicate OnceOnly(ops: UrlOps, queue: seq<string>, handouts: seq<Handout>) {
    && (forall i, j :: 0 <= i < j < |queue| ==> ops.urlHash(queue[i]) != ops.urlHash(queue[j]))
    && (forall i, k :: 0 <= i < |queue| && 0 <= k < |handouts| ==>
          ops.urlHash(queue[i]) != ops.urlHash(handouts[k].url))
    && (forall k, l :: 0 <= k < l < |handouts| ==>
          ops.urlHash(handouts[k].url) != ops.urlHash(handouts[l].url))
  }

  /**
   * Every hand-out stamped its netloc, the stamp is at least its time, and two
   * hand-outs for one netloc, in the order made, are at least `delay` apart.
   */
  ghost predicate Polite(ops: UrlOps, delay: nat, lastAccess: map<string, int>, handouts: seq<Handout>) {
    && (forall k :: 0 <= k < |handouts| ==> handouts[k].netloc == Netloc(ops, handouts[k].url))
    && (forall k :: 0 <= k < |handouts| ==>
          handouts[k].netloc in lastAccess && handouts[k].time <= lastAccess[handouts[k].netloc])
    && (forall k, l :: 0 <= k < l < |handouts| && handouts[k].netloc == handouts[l].netloc ==>
          handouts[l].time - handouts[k].time >= delay)
  }

  /** The reporting sets hold every queued URL, and only in-scope URLs are indexed, under their host. */
  ghost predicate Reported(ops: UrlOps, queue: seq<string>, uniqueUrls: set<string>,
                           subdomains: map<string, set<string>>) {
    && (forall i :: 0 <= i < |queue| ==> queue[i] in uniqueUrls)
    && (forall host, u :: host in subdomains && u in subdomains[host] ==>
          u in uniqueUrls && CheckSubdomain(ops.parse(u)) && ops.parse(u).hostname == Some(host))
  }

  /** Every ledger entry is pending and its URL is queued: the state of a crawl started from seeds. */
  ghost predicate AllPending(save: map<string, Record>, queue: seq<string>) {
    forall h :: h in save ==> !save[h].completed && save[h].url in queue
  }

  // ---------------------------------------------------------------------------
  // Adding the seeds: add_url over config.seed_urls
  // ---------------------------------------------------------------------------

  /** The ledger keys after adding `seeds` to a ledger with keys `keys`: those keys and every seed's hash. */
  function SeedKeys(ops: UrlOps, keys: set<string>, seeds: seq<string>): set<string> {
    keys + set i | 0 <= i < |seeds| :: ops.urlHash(Clean(ops, seeds[i]))
  }

  /**
   * The cleaned seeds that `add_url` appends, in seed order: those whose hash
   * is neither an existing key nor the hash of an earlier seed.
   */
  function NewSeeds(ops: UrlOps, keys: set<string>, seeds: seq<string>): seq<string>
    decreases |seeds|
  {
    if seeds == [] then []
    else
      var init := seeds[..|seeds| - 1];
      var u := Clean(ops, seeds[|seeds| - 1]);
      if ops.urlHash(u) in SeedKeys(ops, keys, init) then NewSeeds(ops, keys, init)
      else NewSeeds(ops, keys, init) + [u]
  }

  /** The ledger after recording each of `urls` as pending under its hash, in order. */
  function SeedLedger(ops: UrlOps, save: map<string, Record>, urls: seq<string>): map<string, Record>
    decreases |urls|
  {
    if urls == [] then save
    else
      var u := urls[|urls| - 1];
      SeedLedger(ops, save, urls[..|urls| - 1])[ops.urlHash(u) := Record(u, false)]
  }

  /** The subdomain index after indexing each of `urls`, in order. */
  function IndexAll(ops: UrlOps, index: map<string, set<string>>, urls: seq<string>): map<string, set<string>>
    decreases |urls|
  {
    if urls == [] then index
    else
      var u := urls[|urls| - 1];
      IndexSubdomain(IndexAll(ops, index, urls[..|urls| - 1]), ops.parse(u), u)
  }

  /** The keys gained by one more seed: its hash. */
  lemma SeedKeysStep(ops: UrlOps, keys: set<string>, seeds: seq<string>, i: nat)
    requires i < |seeds|
    ensures SeedKeys(ops, keys, seeds[..i + 1]) ==
      SeedKeys(ops, keys, seeds[..i]) + {ops.urlHash(Clean(ops, seeds[i]))}
  {
    var a := seeds[..i];
    var b := seeds[..i + 1];
    assert forall j :: 0 <= j < i ==> b[j] == a[j];
    assert b[i] == seeds[i];
  }

  /** One more seed is appended exactly when its hash is new. */
  lemma NewSeedsStep(ops: UrlOps, keys: set<string>, seeds: seq<string>, i: nat)
    requires i < |seeds|
    ensures NewSeeds(ops, keys, seeds[..i + 1]) ==
      if ops.urlHash(Clean(ops, seeds[i])) in SeedKeys(ops, keys, seeds[..i]) then NewSeeds(ops, keys, seeds[..i])
      else NewSeeds(ops, keys, seeds[..i]) + [Clean(ops, seeds[i])]
  {
    assert seeds[..i + 1][..i] == seeds[..i];
  }

  /** Appending one URL to the list records it last in the ledger and in the index. */
  lemma SeedLedgerSnoc(ops: UrlOps, save: map<string, Record>, index: map<string, set<string>>,
                       urls: seq<string>, u: string)
    ensures SeedLedger(ops, save, urls + [u]) == SeedLedger(ops, save, urls)[ops.urlHash(u) := Record(u, false)]
    ensures IndexAll(ops, index, urls + [u]) == IndexSubdomain(IndexAll(ops, index, urls), ops.parse(u), u)
  {
    assert (urls + [u])[..|urls|] == urls;
  }

  /**
   * After adding the seeds, the ledger's keys are exactly the old keys and the
   * hash of every seed: no seed is missed and nothing else is recorded.
   */
  lemma {:induction false} SeedLedgerKeys(ops: UrlOps, save: map<string, Record>, seeds: seq<string>)
    ensures SeedLedger(ops, save, NewSeeds(ops, save.Keys, seeds)).Keys == SeedKeys(ops, save.Keys, seeds)
    decreases |seeds|
  {
    if seeds != [] {
      var n := |seeds| - 1;
      var init := seeds[..n];
      assert seeds[..n + 1] == seeds;
      SeedLedgerKeys(ops, save, init);
      SeedKeysStep(ops, save.Keys, seeds, n);
      NewSeedsStep(ops, save.Keys, seeds, n);
      var u := Clean(ops, seeds[n]);
      if ops.urlHash(u) !in SeedKeys(ops, save.Keys, init) {
        SeedLedgerSnoc(ops, save, map[], NewSeeds(ops, save.Keys, init), u);
      }
    }
  }

  /**
   * The appended seeds have distinct hashes, none of them an existing key:
   * `add_url` never queues a URL twice.
   */
  lemma {:induction false} NewSeedsFresh(ops: UrlOps, keys: set<string>, seeds: seq<string>)
    ensures forall i :: 0 <= i < |NewSeeds(ops, keys, seeds)| ==>
      ops.urlHash(NewSeeds(ops, keys, seeds)[i]) !in keys
      && ops.urlHash(NewSeeds(ops, keys, seeds)[i]) in SeedKeys(ops, keys, seeds)
    ensures forall i, j :: 0 <= i < j < |NewSeeds(ops, keys, seeds)| ==>
      ops.urlHash(NewSeeds(ops, keys, seeds)[i]) != ops.urlHash(NewSeeds(ops, keys, seeds)[j])
    decreases |seeds|
  {
    if seeds != [] {
      var n := |seeds| - 1;
      var init := seeds[..n];
      assert seeds[..n + 1] == seeds;
      NewSeedsFresh(ops, keys, init);
      SeedKeysStep(ops, keys, seeds, n);
      NewSeedsStep(ops, keys, seeds, n);
    }
  }

  /** Recording URLs as pending and queueing them keeps every entry pending and queued. */
  lemma {:induction false} SeedLedgerPending(ops: UrlOps, save: map<string, Record>, queue: seq<string>,
                                             urls: seq<string>)
    requires AllPending(save, queue)
    ensures AllPending(SeedLedger(ops, save, urls), queue + urls)
    decreases |urls|
  {
    if urls != [] {
      var init := urls[..|urls| - 1];
      var u := urls[|urls| - 1];
      SeedLedgerPending(ops, save, queue, init);
      assert urls == init + [u];
      forall x | x in queue + init
        ensures x in queue + urls
      {
        assert x in queue || x in init;
      }
    }
  }

  // ---------------------------------------------------------------------------
  // The invariants across add_url and get_tbd_url
  // ---------------------------------------------------------------------------

  /** `add_url` of a URL whose hash is new keeps every entry keyed and every queued hash recorded. */
  lemma AddKeepsLedgered(ops: UrlOps, save: map<string, Record>, queue: seq<string>,
                         handouts: seq<Handout>, u: string)
    requires Ledgered(ops, save, queue, handouts)
    ensures Ledgered(ops, save[ops.urlHash(u) := Record(u, false)], queue + [u], handouts)
  {
  }

  /** `add_url` of a URL whose hash is new queues no hash twice and no handed-out hash again. */
  lemma AddKeepsOnceOnly(ops: UrlOps, save: map<string, Record>, queue: seq<string>,
                         handouts: seq<Handout>, u: string)
    requires Ledgered(ops, save, queue, handouts) && OnceOnly(ops, queue, handouts)
    requires ops.urlHash(u) !in save
    ensures OnceOnly(ops, queue + [u], handouts)
  {
    var q := queue + [u];
    assert forall i :: 0 <= i < |queue| ==> q[i] == queue[i];
    assert q[|queue|] == u;
  }

  /** `add_url` records the new URL as unique and indexes it only when in scope, under its host. */
  lemma AddKeepsReported(ops: UrlOps, queue: seq<string>, uniqueUrls: set<string>,
                         subdomains: map<string, set<string>>, u: string)
    requires Reported(ops, queue, uniqueUrls, subdomains)
    ensures Reported(ops, queue + [u], uniqueUrls + {u}, IndexSubdomain(subdomains, ops.parse(u), u))
  {
    var q := queue + [u];
    assert forall i :: 0 <= i < |queue| ==> q[i] == queue[i];
  }

  /** Queueing the reloaded URLs and adding them to the unique URLs keeps the reporting invariant. */
  lemma ReloadKeepsReported(ops: UrlOps, pending: seq<string>, queue: seq<string>, uniqueUrls: set<string>,
                            unique: set<string>, subdomains: map<string, set<string>>)
    requires Reported(ops, queue, uniqueUrls, subdomains) && |queue| == 0
    requires forall u :: u in unique <==> u in uniqueUrls || u in pending
    ensures Reported(ops, pending, unique, subdomains)
  {
  }

  /** Removing position `i` from the queue, as `pop(i)` does, keeps the other elements in order. */
  lemma RemoveAt(queue: seq<string>, i: nat)
    requires i < |queue|
    ensures |queue[..i] + queue[i + 1..]| == |queue| - 1
    ensures forall j :: 0 <= j < |queue| - 1 ==>
      (queue[..i] + queue[i + 1..])[j] == (if j < i then queue[j] else queue[j + 1])
  {
  }

  /** Handing out position `i` keeps every queued and handed-out hash recorded. */
  lemma HandOutKeepsLedgered(ops: UrlOps, save: map<string, Record>, queue: seq<string>,
                             handouts: seq<Handout>, i: nat, now: int)
    requires Ledgered(ops, save, queue, handouts) && i < |queue|
    ensures Ledgered(ops, save, queue[..i] + queue[i + 1..],
                     handouts + [Handout(queue[i], Netloc(ops, queue[i]), now)])
  {
    RemoveAt(queue, i);
  }

  /** Handing out position `i` hands out a hash never handed out before and queues nothing twice. */
  lemma HandOutKeepsOnceOnly(ops: UrlOps, queue: seq<string>, handouts: seq<Handout>, i: nat, now: int)
    requires OnceOnly(ops, queue, handouts) && i < |queue|
    ensures OnceOnly(ops, queue[..i] + queue[i + 1..],
                     handouts + [Handout(queue[i], Netloc(ops, queue[i]), now)])
  {
    RemoveAt(queue, i);
    var h := handouts + [Handout(queue[i], Netloc(ops, queue[i]), now)];
    assert forall k :: 0 <= k < |handouts| ==> h[k] == handouts[k];
  }

  /**
   * Politeness: handing out a URL whose netloc is ready at `now`, and stamping
   * that netloc with `now`, keeps every two hand-outs for one netloc at least
   * `delay` apart.
   */
  lemma HandOutKeepsPolite(ops: UrlOps, delay: nat, lastAccess: map<string, int>, handouts: seq<Handout>,
                           url: string, now: int)
    requires Polite(ops, delay, lastAccess, handouts)
    requires Ready(lastAccess, Netloc(ops, url), now, delay)
    ensures Polite(ops, delay, lastAccess[Netloc(ops, url) := now],
                   handouts + [Handout(url, Netloc(ops, url), now)])
  {
    var h := handouts + [Handout(url, Netloc(ops, url), now)];
    assert forall k :: 0 <= k < |handouts| ==> h[k] == handouts[k];
    forall k | 0 <= k < |handouts| && handouts[k].netloc == Netloc(ops, url)
      ensures now - handouts[k].time >= delay
    {
      assert handouts[k].time <= LastAccess(lastAccess, Netloc(ops, url));
    }
  }

  /** Handing out position `i` leaves every remaining queued URL recorded as unique. */
  lemma HandOutKeepsReported(ops: UrlOps, queue: seq<string>, uniqueUrls: set<string>,
                             subdomains: map<string, set<string>>, i: nat)
    requires Reported(ops, queue, uniqueUrls, subdomains) && i < |queue|
    ensures Reported(ops, queue[..i] + queue[i + 1..], uniqueUrls, subdomains)
  {
    RemoveAt(queue, i);
  }

  /** Extending the listed prefix by one key appends that entry's URL when it is resumable. */
  lemma PendingUrlsStep(ops: UrlOps, save: map<string, Record>, order: seq<string>, i: nat)
    requires i < |order|
    requires forall j :: 0 <= j < |order| ==> order[j] in save
    ensures PendingUrls(ops, save, order[..i + 1]) ==
      PendingUrls(ops, save, order[..i]) + (if Resumable(ops, save[order[i]]) then [save[order[i]].url] else [])
  {
    assert order[..i + 1][..i] == order[..i];
  }

  /** The restart queue, with nothing handed out yet, meets the ledger and once-only invariants. */
  lemma PendingUrlsInvariant(ops: UrlOps, save: map<string, Record>, order: seq<string>, handouts: seq<Handout>)
    requires WellKeyed(ops, save)
    requires Enumerates(order, save)
    requires |handouts| == 0
    ensures Ledgered(ops, save, PendingUrls(ops, save, order), handouts)
    ensures OnceOnly(ops, PendingUrls(ops, save, order), handouts)
  {
    PendingUrlsKeyed(ops, save, order);
  }

  // ---------------------------------------------------------------------------
  // The Frontier
  // ---------------------------------------------------------------------------

  /**
   * The frontier: the ledger `save` (hash to record), the ready queue
   * `to_be_downloaded`, the politeness map `domain_last_access` and the
   * reporting sets `unique_urls` and `subdomains`. `handouts` is the history of
   * successful `get_tbd_url` calls, kept only to state politeness and
   * hand-out-once as invariants.
   */
  class Frontier {
    const ops: UrlOps
    /** `config.time_delay`, in the same integer ticks as the clock readings. */
    const timeDelay: nat
    var queue: seq<string>
    var lastAccess: map<string, int>
    var save: map<string, Record>
    var uniqueUrls: set<string>
    var subdomains: map<string, set<string>>
    ghost var handouts: seq<Handout>

    /** Some successful `get_tbd_url` handed out `url`. */
    ghost predicate HandedOut(url: string)
      reads this
    {
      exists k :: 0 <= k < |handouts| && handouts[k].url == url
    }

    ghost predicate Valid()
      reads this
    {
      && Ledgered(ops, save, queue, handouts)
      && OnceOnly(ops, queue, handouts)
      && Polite(ops, timeDelay, lastAccess, handouts)
      && Reported(ops, queue, uniqueUrls, subdomains)
    }

    /**
     * `Frontier(config, restart)`. `ledger` is the content of the save file and
     * `order` its iteration order. With `restart` the save file is discarded and
     * the seeds are added; otherwise the queue is rebuilt from the ledger, and
     * the seeds are added only when the ledger is empty.
     */
    constructor (ops: UrlOps, timeDelay: nat, ledger: map<string, Record>, order: seq<string>,
                 restart: bool, seeds: seq<string>)
      requires !restart ==> WellKeyed(ops, ledger)
      requires !restart ==> Enumerates(order, ledger)
      ensures Valid()
      ensures this.ops == ops && this.timeDelay == timeDelay
      ensures lastAccess == map[] && handouts == []
      ensures !restart && ledger != map[] ==>
        && save == ledger && queue == PendingUrls(ops, ledger, order)
        && (forall u :: u in uniqueUrls <==> u in queue) && subdomains == map[]
      ensures restart || ledger == map[] ==>
        && queue == NewSeeds(ops, {}, seeds)
        && save == SeedLedger(ops, map[], queue)
        && (forall u :: u in uniqueUrls <==> u in queue)
        && subdomains == IndexAll(ops, map[], queue)
        && save.Keys == SeedKeys(ops, {}, seeds)
        && AllPending(save, queue)
    {
      this.ops := ops;
      this.timeDelay := timeDelay;
      queue := [];
      lastAccess := map[];
      save := if restart then map[] else ledger;
      uniqueUrls := {};
      subdomains := map[];
      handouts := [];
      new;
      if !restart {
        ParseSaveFile(order);
      }
      if restart || save == map[] {
        assert save == map[] && save.Keys == {};
        if !restart {
          assert order == [];
        }
        assert queue == [] && uniqueUrls == {};
        AddSeeds(seeds);
        SeedLedgerKeys(ops, map[], seeds);
        SeedLedgerPending(ops, map[], [], NewSeeds(ops, {}, seeds));
      }
    }

    /**
     * `for url in config.seed_urls: add_url(url)`: the cleaned seeds whose hash
     * is new are recorded as pending, appended to the queue in seed order,
     * made unique URLs and indexed; known hashes change nothing.
     */
    method AddSeeds(seeds: seq<string>)
      requires Valid()
      modifies this`save, this`queue, this`uniqueUrls, this`subdomains
      ensures Valid()
      ensures queue == old(queue) + NewSeeds(ops, old(save).Keys, seeds)
      ensures save == SeedLedger(ops, old(save), NewSeeds(ops, old(save).Keys, seeds))
      ensures forall u :: u in uniqueUrls <==> u in old(uniqueUrls) || u in NewSeeds(ops, old(save).Keys, seeds)
      ensures subdomains == IndexAll(ops, old(subdomains), NewSeeds(ops, old(save).Keys, seeds))
    {
      ghost var keys := save.Keys;
      var i := 0;
      while i < |seeds|
        invariant 0 <= i <= |seeds|
        invariant Valid()
        invariant queue == old(queue) + NewSeeds(ops, keys, seeds[..i])
        invariant save == SeedLedger(ops, old(save), NewSeeds(ops, keys, seeds[..i]))
        invariant forall u :: u in uniqueUrls <==> u in old(uniqueUrls) || u in NewSeeds(ops, keys, seeds[..i])
        invariant subdomains == IndexAll(ops, old(subdomains), NewSeeds(ops, keys, seeds[..i]))
      {
        ghost var added := NewSeeds(ops, keys, seeds[..i]);
        SeedLedgerKeys(ops, old(save), seeds[..i]);
        NewSeedsStep(ops, keys, seeds, i);
        SeedLedgerSnoc(ops, old(save), old(subdomains), added, Clean(ops, seeds[i]));
        AddUrl(seeds[i]);
        i := i + 1;
      }
      assert seeds[..i] == seeds;
    }

    /**
     * `_parse_save_file()`: queues, in ledger iteration order `order`, the URL of
     * every entry that is not completed and is in crawl scope, and records it
     * as a unique URL. Its one call site is the constructor, on an empty queue.
     */
    method ParseSaveFile(order: seq<string>)
      requires Valid()
      requires queue == [] && handouts == []
      requires Enumerates(order, save)
      modifies this`queue, this`uniqueUrls
      ensures Valid()
      ensures queue == PendingUrls(ops, save, order)
      ensures forall u :: u in uniqueUrls <==> u in old(uniqueUrls) || u in queue
    {
      var pending: seq<string> := [];
      var unique := uniqueUrls;
      var i := 0;
      while i < |order|
        invariant 0 <= i <= |order|
        invariant queue == old(queue) && uniqueUrls == old(uniqueUrls)
        invariant pending == PendingUrls(ops, save, order[..i])
        invariant forall u :: u in unique <==> u in old(uniqueUrls) || u in pending
      {
        PendingUrlsStep(ops, save, order, i);
        var rec := save[order[i]];
        if !rec.completed && IsValid(rec.url, ops.parse(rec.url)) {
          pending := pending + [rec.url];
          unique := unique + {rec.url};
        }
        i := i + 1;
      }
      assert order[..i] == order;
      PendingUrlsInvariant(ops, save, order, handouts);
      ReloadKeepsReported(ops, pending, queue, uniqueUrls, unique, subdomains);
      queue := pending;
      uniqueUrls := unique;
    }

    /**
     * `add_url(url)`: normalises and defragments the URL; when its hash is new
     * it records it as pending, appends it to the queue, adds it to the unique
     * URLs and, when in an assigned subdomain, indexes it under its host. A
     * known hash, pending or completed, changes nothing.
     */
    method AddUrl(url: string)
      requires Valid()
      modifies this`save, this`queue, this`uniqueUrls, this`subdomains
      ensures Valid()
      ensures ops.urlHash(Clean(ops, url)) in old(save) ==>
        && save == old(save) && queue == old(queue)
        && uniqueUrls == old(uniqueUrls) && subdomains == old(subdomains)
      ensures ops.urlHash(Clean(ops, url)) !in old(save) ==>
        var u := Clean(ops, url);
        && save == old(save)[ops.urlHash(u) := Record(u, false)]
        && queue == old(queue) + [u]
        && uniqueUrls == old(uniqueUrls) + {u}
        && subdomains == IndexSubdomain(old(subdomains), ops.parse(u), u)
    {
      var normalized := ops.normalize(url);
      var unfragUrl := ops.defrag(normalized);
      var urlhash := ops.urlHash(unfragUrl);
      if urlhash !in save {
        AddKeepsLedgered(ops, save, queue, handouts, unfragUrl);
        AddKeepsOnceOnly(ops, save, queue, handouts, unfragUrl);
        AddKeepsReported(ops, queue, uniqueUrls, subdomains, unfragUrl);
        save := save[urlhash := Record(unfragUrl, false)];
        queue := queue + [unfragUrl];
        uniqueUrls := uniqueUrls + {unfragUrl};
        // The source indexes by `unfrag_url.hostname`, an attribute lookup on a
        // string; the model indexes by the URL's parsed host, as intended.
        subdomains := IndexSubdomain(subdomains, ops.parse(unfragUrl), unfragUrl);
      }
    }

    /**
     * `get_tbd_url()` at clock reading `now`: hands out the first queued URL,
     * in queue order, whose netloc's politeness window has elapsed, stamps the
     * netloc with `now` and removes exactly that URL; when none is ready
     * (including an empty queue) it returns `None` and changes nothing.
     */
    method GetTbdUrl(now: int) returns (r: Option<string>)
      requires Valid()
      modifies this`queue, this`lastAccess, this`handouts
      ensures Valid()
      ensures match FirstReady(ops, old(queue), old(lastAccess), now, timeDelay)
        case None =>
          r == None && queue == old(queue) && lastAccess == old(lastAccess) && handouts == old(handouts)
        case Some(i) =>
          && r == Some(old(queue)[i])
          && queue == old(queue)[..i] + old(queue)[i + 1..]
          && lastAccess == old(lastAccess)[Netloc(ops, old(queue)[i]) := now]
          && handouts == old(handouts) + [Handout(old(queue)[i], Netloc(ops, old(queue)[i]), now)]
      ensures r.Some? ==> HandedOut(r.value)
    {
      var i := 0;
      while i < |queue|
        invariant 0 <= i <= |queue|
        invariant forall j :: 0 <= j < i ==> !Ready(lastAccess, Netloc(ops, queue[j]), now, timeDelay)
      {
        var url := queue[i];
        var domain := ops.parse(url).netloc;
        var last := if domain in lastAccess then lastAccess[domain] else 0;
        if now - last >= timeDelay {
          FirstReadyAt(ops, queue, lastAccess, now, timeDelay, i);
          HandOut(i, now);
          assert handouts[|handouts| - 1].url == url;
          return Some(url);
        }
        i := i + 1;
      }
      return None;
    }

    /** The hand-out step of `get_tbd_url`: stamp, record and `pop(i)`. */
    method HandOut(i: nat, now: int)
      requires Valid()
      requires i < |queue| && Ready(lastAccess, Netloc(ops, queue[i]), now, timeDelay)
      modifies this`queue, this`lastAccess, this`handouts
      ensures Valid()
      ensures queue == old(queue)[..i] + old(queue)[i + 1..]
      ensures lastAccess == old(lastAccess)[Netloc(ops, old(queue)[i]) := now]
      ensures handouts == old(handouts) + [Handout(old(queue)[i], Netloc(ops, old(queue)[i]), now)]
    {
      var url := queue[i];
      var domain := Netloc(ops, url);
      HandOutKeepsLedgered(ops, save, queue, handouts, i, now);
      HandOutKeepsOnceOnly(ops, queue, handouts, i, now);
      HandOutKeepsPolite(ops, timeDelay, lastAccess, handouts, url, now);
      HandOutKeepsReported(ops, queue, uniqueUrls, subdomains, i);
      lastAccess := lastAccess[domain := now];
      handouts := handouts + [Handout(url, domain, now)];
      queue := queue[..i] + queue[i + 1..];
    }

    /**
     * `mark_url_complete(url)`: stores `(url, True)` under the hash of the URL
     * as given. `known` is false on the "completed url but have not seen it
     * before" branch, which a handed-out URL never takes.
     */
    method MarkUrlComplete(url: string) returns (known: bool)
      requires Valid()
      modifies this`save
      ensures Valid()
      ensures known <==> ops.urlHash(url) in old(save)
      ensures save == Complete(ops, old(save), url)
      ensures HandedOut(url) ==> known
    {
      var urlhash := ops.urlHash(url);
      known := urlhash in save;
      save := save[urlhash := Record(url, true)];
    }
  }
}
