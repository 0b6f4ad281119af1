# Crawl coordination of a bounded web crawler, modelled in Dafny

This project models two pieces of crawl coordination from a multi-threaded
web crawler for a fixed set of university domains.

The **URL frontier** (`Crawler.Frontier`, from `crawler/frontier.py`) holds:

- the ledger `save`, which maps a URL hash to `(url, completed)`;
- the ready queue `to_be_downloaded`;
- the per-netloc politeness clock `domain_last_access`;
- the reporting sets `unique_urls` and `subdomains`.

Its operations are:

- idempotent discovery (`add_url`);
- a politeness-gated hand-out (`get_tbd_url`);
- completion (`mark_url_complete`);
- rebuilding the queue from the ledger on restart (`_parse_save_file`);
- the subdomain test (`check_subdomain`).

The **page-level decisions** (`Scraper`, from `scraper.py`) are:

- the crawl-scope predicate `is_valid`;
- the shingles and Jaccard similarity behind near-duplicate detection;
- the duplicate detector's two stores, `seen_hashes` and `seen_shingles`, modelled as the class `Scraper.DuplicateDetector`;
- the `scraper` pipeline, which decides whether a fetched page yields links.

`add_url`, `get_tbd_url` and `mark_url_complete` run under the frontier's
`RLock`. `_parse_save_file` takes no lock: it runs only inside the
constructor (`crawler/frontier.py:44`), before any worker can reach the
frontier. `is_near_duplicate`'s scan and store run under `seen_shingles_lock`
(`scraper.py:208`). `is_exact_duplicate` takes no lock, and `scraper()`
as a whole is not one critical section. The model runs every operation,
and each `scraper()` call, atomically and one after another. The races
this hides are listed under "Left out".

Modules:

- `Wrappers`: the `Option` type.
- `Strings`: the Python string operations used: `lower`, `startswith`, `endswith`, `in`, `count`, `split(sep)`, `split()`, `join`.
- `Urls`: the parsed-URL record and the library functions the crawler calls.
- `Scraper`: `scraper.py`.
- `Crawler`: `crawler/frontier.py`.

Some functions are not defined in this model. They are given to the model as
function values, so every proof holds for any deterministic choice of them:

- `urlparse` (`ParsedUrl`, with `scheme`, `netloc`, `path`, `query` and `hostname`);
- `utils.normalize`;
- the URL half of `urldefrag`;
- `utils.get_urlhash`;
- the SHA-1 `get_hash`.

The clock (`time.time()`) is a parameter `now`. Time and `config.time_delay`
are integer ticks, and the delay is a `nat`.

The frontier's invariant `Valid()` is made of four parts:

- `Ledgered`: every queued and every handed-out URL has its hash in the ledger, and each ledger entry is stored under the hash of its own URL.
- `OnceOnly`: no hash is queued twice, handed out twice, or queued again after being handed out.
- `Polite`: two hand-outs for the same netloc, in the order they were made, are at least `time_delay` apart.
- `Reported`: every queued URL is a unique URL, and only in-scope URLs are indexed, under their host.

The history of hand-outs behind `OnceOnly` and `Polite` is the ghost field `handouts`.

### Source behaviour worth noting

- `add_url` does not check crawl scope (`crawler/frontier.py:81-100`). The scraper filters links with `is_valid` before they reach it.
- `get_tbd_url` returns a URL or `None` (`crawler/frontier.py:68-79`).
- `_parse_save_file` refills only the queue and `unique_urls`. It leaves the subdomain index empty (`crawler/frontier.py:52-66`).
- `crawler/worker.py` calls `frontier.sync()`, `frontier.queue_size()` and `frontier.get_status()`, none of which `crawler/frontier.py` defines. Those calls would raise `AttributeError`, and the model has no such operations.
- `mark_url_complete` hashes the URL exactly as given, without normalising or defragmenting it (`crawler/frontier.py:106`). `add_url` hashes the normalised, defragmented form (`crawler/frontier.py:85-89`). `Crawler.Complete` models this as written.
- `crawler/frontier.py:100` reads `.hostname` from a string, which has no such attribute. The model indexes the URL under its parsed host, which is the evident intent (`Crawler.IndexSubdomain`). See "Findings" below.

## Model

| member | source | states |
|---|---|---|
| `Strings.Split` | scraper.py:138 | `query.split('&')` has one part more than the query has `&` characters, and no part contains `&` |
| `Strings.JoinSplit` | scraper.py:150 | joining the `&`-parts of a query with `&` gives back the query: the parts cover the query exactly |
| `Strings.LowerAppend` | scraper.py:148 | `(a + b).lower() == a.lower() + b.lower()` |
| `Strings.LowerIdempotent` | scraper.py:153 | lower-casing twice is lower-casing once; no upper-case ASCII letter is left |
| `Strings.WordsOfJoin` | scraper.py:197-199 | `' '.join(ws).split() == ws` for words that are non-empty and contain no whitespace |
| `Scraper.IsValid` | scraper.py:129-177 | an accepted URL is http or https, has at most 4 `&` in the query, is at most 300 characters long, has at most 10 `/` in the path, has no `dddd[-/]dd[-/]dd` date, has no `action=download` and no `version=` query part (ignoring case), is under an assigned suffix or is `today.uci.edu` with the required path prefix (netloc lower-cased), and has no blacklisted extension (path lower-cased, with the regex's newline behaviour) |
| `Scraper.IsValidComplete` | scraper.py:134-173 | the converse: a URL that passes every one of those rules is accepted |
| `Scraper.PortRejected` | scraper.py:153-159 | a netloc with a port (`host:digits`) is never in scope |
| `Scraper.BareDomainRejected` | scraper.py:153-159 | a bare assigned domain such as `ics.uci.edu`, with no subdomain, is rejected |
| `Scraper.ShinglesOf` | scraper.py:197-199 | the shingle set is empty for fewer than 5 words and has at most n-4 elements for n words |
| `Scraper.ShinglesOfSound` | scraper.py:199 | every shingle is the space-joined window of 5 consecutive words at some start position |
| `Scraper.ShinglesOfComplete` | scraper.py:199 | the window at every start position is a shingle |
| `Scraper.ShingleIsFiveWords` | scraper.py:197-199 | every shingle splits back into exactly 5 words, which are consecutive words of the text |
| `Scraper.ShortTextHasNoShingles` | scraper.py:65 | a text of fewer than 5 words has no shingles |
| `Scraper.Jaccard` | scraper.py:201-204 | the similarity lies in [0, 1] and is 0 when either set is empty |
| `Scraper.JaccardSymmetric` | scraper.py:201-204 | `jaccard(a, b) == jaccard(b, a)` |
| `Scraper.JaccardIdentical` | scraper.py:201-204 | `jaccard(a, a) == 1` for a non-empty set |
| `Scraper.JaccardAtThreshold` | scraper.py:66 | for non-empty sets, similarity >= 0.9 exactly when `10*|A∩B| >= 9*|A∪B|`; the threshold is exact and inclusive |
| `Scraper.FirstNear` | scraper.py:209-212 | the first stored page, in dictionary order, whose similarity reaches the threshold; `None` exactly when no stored page does |
| `Scraper.FirstNearAt` | scraper.py:209-212 | the loop's early return picks the first stored page at or above the threshold: a near page with no near page before it is `FirstNear`'s answer |
| `Scraper.StoreKeepsOrder` | scraper.py:213 | `seen_shingles[url] = sh` keeps the dictionary's insertion order: a new key goes to the end, an existing key keeps its place, and every key is listed once |
| `Scraper.ShortTextNeverNear` | scraper.py:206-212 | a text of fewer than 5 words is near no stored page |
| `Scraper.DuplicateDetector.constructor` | scraper.py:22-29 | the detector starts from the loaded stores, with the dictionary's key order |
| `Scraper.DuplicateDetector.IsExactDuplicate` | scraper.py:190-195 | returns true exactly when the digest was already seen; afterwards the digest is recorded, so a second call on the same text returns true and changes nothing |
| `Scraper.DuplicateDetector.IsNearDuplicate` | scraper.py:206-215 | on the first stored page that reaches the threshold: returns true, that URL and the score, and leaves the store unchanged; otherwise: returns `(false, None, 0)` and stores the page's shingles under its URL, keeping insertion order; a text of fewer than 5 words is never a near duplicate |
| `Scraper.InformativeWords` | scraper.py:77-81 | every filtered word is the lower-cased form of some token and is neither a stop word nor all digits; every such token is kept |
| `Scraper.InformativeWordsOne` | scraper.py:77-81 | a single token yields its lower-cased form exactly when that form is informative, and nothing otherwise |
| `Scraper.InformativeWordsAppend` | scraper.py:77-81 | filtering a concatenation gives the concatenation of the filtered parts, so text order and repeated words are kept and `len(filtered_words)` counts every informative occurrence |
| `Scraper.ValidLinks` | scraper.py:103 | the links kept are exactly the input links that pass `is_valid` |
| `Scraper.ValidLinksOne` | scraper.py:103 | a single link is kept exactly when it passes `is_valid` |
| `Scraper.ValidLinksAppend` | scraper.py:103 | the comprehension distributes over concatenation: links keep their order and duplicates |
| `Scraper.Scrape` | scraper.py:68-103 | returns `[]` and leaves both stores unchanged for a non-200 status, a missing body or fewer than 10 informative words; otherwise records the text's digest; returns `[]` for an exact or near duplicate; otherwise stores the shingles under the URL, appending the URL to the insertion order when it is new, and returns the valid links; every returned link passes `is_valid` |
| `Crawler.CheckSubdomain` | crawler/frontier.py:123-149 | true exactly when there is a host and it ends with one of the four assigned suffixes, or is `today.uci.edu` with a path starting `/department/information_computer_sciences`; false for no host |
| `Crawler.ValidUrlInSubdomain` | crawler/frontier.py:132-143 | a URL accepted by `is_valid`, whose host is its lower-cased netloc, passes `check_subdomain` |
| `Crawler.IndexSubdomain` | crawler/frontier.py:99-100 | an in-scope URL is added to the set of its host, and every other host's set is unchanged; an out-of-scope URL changes nothing |
| `Crawler.IndexAsWritten` | crawler/frontier.py:99-100 | as written, the indexing step either raises `AttributeError`, exactly when the URL passes `check_subdomain`, or leaves the index unchanged |
| `Crawler.SeedHostRaises` | crawler/frontier.py:99-100 | a URL whose host is `www.ics.uci.edu` makes the step as written raise, while the corrected step indexes it under that host |
| `Crawler.FirstReady` | crawler/frontier.py:73-78 | the first queue position whose netloc satisfies `now - last >= time_delay` (last access defaulting to 0); `None` exactly when no queued URL is ready |
| `Crawler.FirstReadyAt` | crawler/frontier.py:73-78 | the loop's early return picks the first ready URL: a ready position with no ready position before it is `FirstReady`'s answer |
| `Crawler.PendingUrlsMembers` | crawler/frontier.py:56-61 | a URL is queued on restart exactly when some ledger entry holds it, not completed and accepted by `is_valid` |
| `Crawler.PendingUrlsKeyed` | crawler/frontier.py:56-58 | on a well-keyed ledger, the URLs queued on restart have distinct hashes, each of them a ledger key |
| `Crawler.PendingUrlsInvariant` | crawler/frontier.py:52-61 | the queue rebuilt on restart, with nothing handed out, satisfies the ledger and once-only invariants |
| `Crawler.ReloadKeepsReported` | crawler/frontier.py:56-61 | adding every reloaded URL to the unique URLs keeps every queued URL unique and leaves the subdomain index valid |
| `Crawler.AddKeepsLedgered` | crawler/frontier.py:89-94 | storing `(u, False)` under `u`'s hash and queueing `u` keeps the ledger well-keyed, with every queued and handed-out hash recorded |
| `Crawler.AddKeepsOnceOnly` | crawler/frontier.py:90-94 | queueing a URL whose hash is not in the ledger never queues a hash twice, and never queues a handed-out hash again |
| `Crawler.AddKeepsReported` | crawler/frontier.py:94-100 | after `add_url` every queued URL is still a unique URL, and only in-scope URLs are indexed, each under its host |
| `Crawler.RemoveAt` | crawler/frontier.py:78 | `pop(i)` leaves the other elements in their order, one position shorter |
| `Crawler.HandOutKeepsLedgered` | crawler/frontier.py:76-78 | handing out position `i` keeps every queued and handed-out hash in the ledger |
| `Crawler.HandOutKeepsOnceOnly` | crawler/frontier.py:76-78 | the handed-out hash was never handed out before, and no remaining queued hash equals a handed-out one |
| `Crawler.HandOutKeepsPolite` | crawler/frontier.py:73-78 | handing out a URL whose netloc is ready at `now` and stamping that netloc with `now` keeps every two hand-outs for one netloc at least `time_delay` apart |
| `Crawler.HandOutKeepsReported` | crawler/frontier.py:76-78 | every URL left in the queue is still a unique URL |
| `Crawler.Complete` | crawler/frontier.py:106-113 | after completion the entry under the hash of the URL as given is `(url, True)`, whether or not it was present; every other entry is kept |
| `Crawler.CompleteIdempotent` | crawler/frontier.py:112 | completing a URL twice gives the same ledger as completing it once |
| `Crawler.CompleteNeverReverts` | crawler/frontier.py:112 | a completed entry stays completed, and no key is lost |
| `Crawler.CompleteWellKeyed` | crawler/frontier.py:106-112 | completion keeps every entry stored under the hash of its own URL |
| `Crawler.Frontier.constructor` | crawler/frontier.py:16-47 | with `restart` (the save file is discarded) or an empty save file: the queue is the cleaned seeds with new hashes, in seed order; the ledger records exactly those, as pending; exactly the seed hashes are keys; the unique URLs are the queued ones; the index holds them. Otherwise the ledger is the save file, the queue is rebuilt from it, the unique URLs are the queued ones and the index is empty. The invariant holds |
| `Crawler.Frontier.AddSeeds` | crawler/frontier.py:39-47 | the queue gains the cleaned seeds whose hash is new, in seed order; the ledger records each of them as pending; the unique URLs gain exactly them; the index gains them; the invariant is kept |
| `Crawler.SeedLedgerKeys` | crawler/frontier.py:40-41 | after adding the seeds, the ledger's keys are exactly the old keys and every seed's hash |
| `Crawler.NewSeedsFresh` | crawler/frontier.py:89-94 | the seeds appended to the queue have distinct hashes, none an old key, each a seed's hash |
| `Crawler.SeedLedgerPending` | crawler/frontier.py:91-94 | recording URLs as pending and queueing them keeps every ledger entry pending and queued |
| `Crawler.Frontier.ParseSaveFile` | crawler/frontier.py:52-66 | the queue is the ledger's pending, in-scope URLs in ledger iteration order, and the unique URLs gain exactly those |
| `Crawler.Frontier.AddUrl` | crawler/frontier.py:81-100 | a known hash of the normalised, defragmented URL, pending or completed, changes nothing; a new hash stores `(url, False)`, appends the URL at the end of the queue, adds it to the unique URLs and indexes it when in scope; the invariant is kept |
| `Crawler.Frontier.GetTbdUrl` | crawler/frontier.py:68-79 | hands out the first ready URL in queue order, removes exactly that element with the rest in their order, and stamps only its netloc with `now`; when no URL is ready, including an empty queue, returns `None` and changes nothing; politeness and hand-out-once are kept |
| `Crawler.Frontier.HandOut` | crawler/frontier.py:76-78 | stamping the netloc and popping position `i` keeps every invariant, politeness included |
| `Crawler.Frontier.MarkUrlComplete` | crawler/frontier.py:102-113 | the ledger becomes `Complete(save, url)`; the "not seen before" branch is taken exactly when the hash was absent, and never for a handed-out URL |

## Findings

| source | as written | input that shows it | evidently intended | confidence | as-written member | corrected member |
|---|---|---|---|---|---|---|
| crawler/frontier.py:100 | `self.subdomains[unfrag_url.hostname].add(unfrag_url)` reads `hostname` from a `str`, so `add_url` raises `AttributeError` after updating the ledger, queue and unique URLs whenever the URL passes `check_subdomain`. This includes every in-scope seed added by the constructor | `add_url("https://www.ics.uci.edu/")` on a fresh frontier | index under `urlparse(unfrag_url).hostname` | high (not executed) | `Crawler.SeedHostRaises` (over `Crawler.IndexAsWritten`) | `Crawler.IndexSubdomain`, used by `Crawler.Frontier.AddUrl`, with `Crawler.AddKeepsReported` |

## Left out

- Concurrency: the frontier's `RLock` makes `add_url`, `get_tbd_url` and `mark_url_complete` atomic, and `_parse_save_file` runs before any worker exists. The sequential model already gives this. The rest of `scraper()` is not locked, and the model does not capture it.
- `Scraper.DuplicateDetector.IsExactDuplicate`: `is_exact_duplicate` checks for the digest and then adds it without a lock (`scraper.py:190-195`). Two workers fetching the same text can both see `False`, and both go on to the near-duplicate check. The model runs the check and the add as one step.
- `Scraper.Scrape`: is modelled as one atomic step. In the source, the exact check and the near check are separate, and only the near check is locked. Another worker can change either store between them.
- Durability: `shelve` persistence and `save.sync()`. The ledger is an in-memory map, and the save file's content and key order are constructor parameters.
- Persistence in `scraper.py`: the pickle load and save of the duplicate stores and of the statistics, and the stop-word file read. The loaded stores and the stop words are parameters.
- Reporting state: `global_word_counter`, `max_words_page`, `print_unique_urls`, `print_subdomains` and the logging and `print` calls.
- HTML extraction (`extract_next_links`, `extract_visible_text`) uses BeautifulSoup, a foreign library. The page's visible text and its extracted links are inputs of `Scraper.Scrape`.
- `Urls.UrlOps`: `urlparse`, `normalize`, `urldefrag` and `get_urlhash` are abstract. `urlparse` raising `ValueError` on a malformed bracketed host is not modelled. So is the `try`/`except` in `check_subdomain` that turns such an error into `False`, and the `TypeError` re-raise in `is_valid` for a non-string argument.
- `Strings.Lower`: models `str.lower` on ASCII letters only, because Unicode case mapping is outside the model.
- `Strings.IsWordChar`: models the `\w` of `re.findall(r'\b\w+\b', ...)` on ASCII only.
- `Strings.IsDigit`: models `\d` and `str.isdigit` on ASCII digits only.
- `Scraper.ShinglesOf`: fixes `k` at `SHINGLE_SIZE = 5`, the only value `get_shingles` is called with.
- `Scraper.Jaccard`: uses exact rationals, so float rounding at the 0.9 boundary is not modelled.
- `Crawler.Frontier.GetTbdUrl`: `time.time()` returns float seconds, but the clock reading `now` and `time_delay` are integer ticks.
- `Crawler.Frontier.ParseSaveFile`: is modelled only at its one call site, the constructor, on an empty queue with nothing handed out yet.
- `crawler/worker.py`: the thread loop, sleeps, robots handling, download checks and the status thread. The worker is a caller of the frontier, not part of this model.
- `crawler/__init__.py`, `utils/download.py` and `launch.py`: thread start-up, status files, the HTTP and CBOR client, and configuration plumbing are I/O.
