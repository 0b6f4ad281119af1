/**
 * The page-level decisions of the crawler (scraper.py): the crawl-scope
 * predicate `is_valid`, the shingle and Jaccard machinery behind near-duplicate
 * detection, the duplicate detector's two stores, and the `scraper` pipeline
 * that decides which pages yield links.
 */
module Scraper {
  import opened Wrappers
  import opened Strings
  import opened Urls

  // ---------------------------------------------------------------------------
  // Crawl scope: is_valid
  // ---------------------------------------------------------------------------

  const MaxQueryParts: nat := 5
  const MaxUrlLength: nat := 300
  const MaxPathSlashes: nat := 10

  /** The host suffixes of the assigned crawl domains. */
  const AssignedSuffixes: seq<string> :=
    [".ics.uci.edu", ".cs.uci.edu", ".informatics.uci.edu", ".stat.uci.edu"]

  /** The one host that is in scope only under a path prefix. */
  const TodayHost: string := "today.uci.edu"
  const TodayPathPrefix: string := "/department/information_computer_sciences"

  /** The alternatives of the file-extension regular expression, `jpe?g` and `tiff?` spelt out. */
  const BlacklistedExtensions: seq<string> :=
    ["css", "js", "bmp", "gif", "jpeg", "jpg", "ico",
     "png", "tiff", "tif", "mid", "mp2", "mp3", "mp4",
     "wav", "avi", "mov", "mpeg", "ram", "m4v", "mkv", "ogg", "ogv", "pdf",
     "ps", "eps", "tex", "ppt", "pptx", "doc", "docx", "xls", "xlsx", "names",
     "data", "dat", "exe", "bz2", "tar", "msi", "bin", "7z", "psd", "dmg", "iso",
     "epub", "dll", "cnf", "tgz", "sha1",
     "thmx", "mso", "arff", "rtf", "jar", "csv",
     "rm", "smil", "wmv", "swf", "wma", "zip", "rar", "gz"]

  predicate IsDateSeparator(c: char) {
    c == '-' || c == '/'
  }

  /** The calendar-trap pattern `\d{4}[-/]\d{2}[-/]\d{2}` matches the ten characters at `i`. */
  predicate DateAt(s: string, i: nat)
    requires i + 10 <= |s|
  {
    IsDigit(s[i]) && IsDigit(s[i + 1]) && IsDigit(s[i + 2]) && IsDigit(s[i + 3])
    && IsDateSeparator(s[i + 4])
    && IsDigit(s[i + 5]) && IsDigit(s[i + 6])
    && IsDateSeparator(s[i + 7])
    && IsDigit(s[i + 8]) && IsDigit(s[i + 9])
  }

  /** `re.search(r'\d{4}[-/]\d{2}[-/]\d{2}', s)` finds a match. */
  predicate HasDatePattern(s: string) {
    exists i: nat | i + 10 <= |s| :: DateAt(s, i)
  }

  /** Some `&`-separated part of the query starts with `version=`, ignoring case. */
  predicate HasVersionPart(query: string) {
    exists part | part in Split(query, '&') :: StartsWith(Lower(part), "version=")
  }

  /** A host in the assigned scope: under one of the four suffixes, or the path-restricted host. */
  predicate InAssignedScope(host: string, path: string) {
    (exists suffix | suffix in AssignedSuffixes :: EndsWith(host, suffix))
    || (host == TodayHost && StartsWith(path, TodayPathPrefix))
  }

  /**
   * `re.match(r".*\.ext$", p)`: `.*` does not cross a newline and `$` also
   * matches just before a final newline.
   */
  predicate EndsWithExtension(p: string, ext: string) {
    var tail := "." + ext;
    (EndsWith(p, tail) && '\n' !in p[..|p| - |tail|])
    || (EndsWith(p, tail + "\n") && '\n' !in p[..|p| - |tail| - 1])
  }

  /** The file-extension regular expression matches the (lower-cased) path. */
  predicate HasBlacklistedExtension(p: string) {
    exists ext | ext in BlacklistedExtensions :: EndsWithExtension(p, ext)
  }

  lemma TodayHostNotAssigned()
    ensures forall suffix :: suffix in AssignedSuffixes ==> !EndsWith(TodayHost, suffix)
  {
    assert TodayHost[|TodayHost| - 12..] != ".ics.uci.edu";
    assert TodayHost[|TodayHost| - 11..] != ".cs.uci.edu";
    assert TodayHost[|TodayHost| - 13..] != ".stat.uci.edu";
  }

  /**
   * `is_valid(url)`, given the parsed form `p` of `url`. The checks run in the
   * source's order; each early `return False` is one branch.
   */
  function IsValid(url: string, p: ParsedUrl): (r: bool)
    ensures r ==> p.scheme == "http" || p.scheme == "https"
    ensures r ==> Count(p.query, '&') < MaxQueryParts
    ensures r ==> |url| <= MaxUrlLength
    ensures r ==> Count(p.path, '/') <= MaxPathSlashes
    ensures r ==> !HasDatePattern(url)
    ensures r ==> !Contains(Lower(p.query), "action=download")
    ensures r ==> forall part :: part in Split(p.query, '&') ==> !StartsWith(Lower(part), "version=")
    ensures r ==> InAssignedScope(Lower(p.netloc), p.path)
    ensures r ==> !HasBlacklistedExtension(Lower(p.path))
  {
    if p.scheme != "http" && p.scheme != "https" then false
    else if |Split(p.query, '&')| > MaxQueryParts then false
    else if |url| > MaxUrlLength then false
    else if Count(p.path, '/') > MaxPathSlashes then false
    else if HasDatePattern(url) then false
    else if Contains(Lower(p.query), "action=download") then false
    else if HasVersionPart(p.query) then false
    else
      var domain := Lower(p.netloc);
      if !((exists suffix | suffix in AssignedSuffixes :: EndsWith(domain, suffix)) || domain == TodayHost) then false
      else if domain == TodayHost && !StartsWith(p.path, TodayPathPrefix) then false
      else !HasBlacklistedExtension(Lower(p.path))
  }

  /** The converse of IsValid's contract: a URL passing every rule is accepted. */
  lemma IsValidComplete(url: string, p: ParsedUrl)
    requires p.scheme == "http" || p.scheme == "https"
    requires Count(p.query, '&') < MaxQueryParts
    requires |url| <= MaxUrlLength
    requires Count(p.path, '/') <= MaxPathSlashes
    requires !HasDatePattern(url)
    requires !Contains(Lower(p.query), "action=download")
    requires forall part :: part in Split(p.query, '&') ==> !StartsWith(Lower(part), "version=")
    requires InAssignedScope(Lower(p.netloc), p.path)
    requires !HasBlacklistedExtension(Lower(p.path))
    ensures IsValid(url, p)
  {
    TodayHostNotAssigned();
  }

  /**
   * A netloc that carries a port (`host:8080`) is never in scope: it does not
   * end with any of the suffixes and is not the restricted host.
   */
  lemma PortRejected(url: string, p: ParsedUrl, host: string, port: string)
    requires p.netloc == host + ":" + port
    requires port != [] && forall i :: 0 <= i < |port| ==> IsDigit(port[i])
    ensures !IsValid(url, p)
  {
    var domain := Lower(p.netloc);
    assert IsDigit(domain[|domain| - 1]);
    forall suffix | suffix in AssignedSuffixes
      ensures !EndsWith(domain, suffix)
    {
      assert suffix[|suffix| - 1] == 'u';
      assert |suffix| <= |domain| ==> domain[|domain| - |suffix|..][|suffix| - 1] == domain[|domain| - 1];
    }
    assert TodayHost[|TodayHost| - 1] == 'u';
  }

  /** Each assigned suffix is a dot, a dot-free name, then `.uci.edu`. */
  lemma SuffixShape(suffix: string)
    requires suffix in AssignedSuffixes
    ensures |suffix| > 9 && suffix[0] == '.'
    ensures forall k :: 1 <= k < |suffix| - 8 ==> suffix[k] != '.'
  {
    if suffix == ".ics.uci.edu" {
    } else if suffix == ".cs.uci.edu" {
    } else if suffix == ".informatics.uci.edu" {
    } else {
      assert suffix == ".stat.uci.edu";
    }
  }

  /** The bare assigned domain, without a subdomain (`ics.uci.edu`), is not in scope. */
  lemma BareDomainRejected(url: string, p: ParsedUrl, suffix: string)
    requires suffix in AssignedSuffixes
    requires Lower(p.netloc) == suffix[1..]
    ensures !IsValid(url, p)
  {
    var domain := Lower(p.netloc);
    // The bare domain is a dot-free name followed by `.uci.edu`; every suffix
    // is longer than `.uci.edu` and starts with a dot, which would have to
    // fall inside that name.
    SuffixShape(suffix);
    assert forall k :: 0 <= k < |domain| - 8 ==> domain[k] == suffix[k + 1];
    forall other | other in AssignedSuffixes
      ensures !EndsWith(domain, other)
    {
      SuffixShape(other);
      if |other| <= |domain| {
        assert domain[|domain| - |other|..][0] == domain[|domain| - |other|];
      }
    }
    assert domain != TodayHost;
  }

  // ---------------------------------------------------------------------------
  // Shingles and Jaccard similarity
  // ---------------------------------------------------------------------------

  /** `SHINGLE_SIZE`, the `k` of `get_shingles`, the only value it is called with. */
  const ShingleSize: nat := 5

  /** `NEAR_DUPLICATE_THRESHOLD`, as an exact rational. */
  const NearDuplicateThreshold: real := 0.9

  /** The window of `ShingleSize` words starting at word `i`, joined by single spaces. */
  function ShingleAt(ws: seq<string>, i: nat): string
    requires i + ShingleSize <= |ws|
  {
    Join(ws[i..i + ShingleSize], " ")
  }

  /**
   * The set of all windows of `ShingleSize` consecutive words of `ws`: empty
   * below `ShingleSize` words, and never more than one per start position.
   */
  function ShinglesOf(ws: seq<string>): (r: set<string>)
    ensures |ws| < ShingleSize ==> r == {}
    ensures |ws| >= ShingleSize ==> |r| <= |ws| - ShingleSize + 1
    decreases |ws|
  {
    if |ws| < ShingleSize then {}
    else {ShingleAt(ws, 0)} + ShinglesOf(ws[1..])
  }

  /** `get_shingles(text)`. */
  function Shingles(text: string): set<string> {
    ShinglesOf(Words(text))
  }

  /** Shifting the word list by one shifts every window by one. */
  lemma ShingleAtShift(ws: seq<string>, i: nat)
    requires 1 <= i && i + ShingleSize <= |ws|
    ensures ShingleAt(ws, i) == ShingleAt(ws[1..], i - 1)
  {
    var tail := ws[1..];
    var u, v := ws[i..i + ShingleSize], tail[i - 1..i - 1 + ShingleSize];
    assert forall k :: 0 <= k < ShingleSize ==> u[k] == v[k];
    assert u == v;
  }

  /** Every shingle is the window at some start position. */
  lemma {:induction false} ShinglesOfSound(ws: seq<string>, s: string)
    requires s in ShinglesOf(ws)
    ensures exists i: nat | i + ShingleSize <= |ws| :: s == ShingleAt(ws, i)
    decreases |ws|
  {
    if s != ShingleAt(ws, 0) {
      ShinglesOfSound(ws[1..], s);
      var j: nat :| j + ShingleSize <= |ws| - 1 && s == ShingleAt(ws[1..], j);
      ShingleAtShift(ws, j + 1);
    }
  }

  /** The window at every start position is a shingle. */
  lemma {:induction false} ShinglesOfComplete(ws: seq<string>, i: nat)
    requires i + ShingleSize <= |ws|
    ensures ShingleAt(ws, i) in ShinglesOf(ws)
    decreases |ws|
  {
    if i > 0 {
      ShinglesOfComplete(ws[1..], i - 1);
      ShingleAtShift(ws, i);
    }
  }

  /** The words `v` are the `ShingleSize` consecutive words of `ws` starting at `i`. */
  predicate IsWindow(ws: seq<string>, i: nat, v: seq<string>) {
    i + ShingleSize <= |ws| && v == ws[i..i + ShingleSize]
  }

  /**
   * Every shingle of a text splits back into exactly `ShingleSize` words, and
   * they are consecutive words of the text.
   */
  lemma ShingleIsFiveWords(text: string, s: string)
    requires s in Shingles(text)
    ensures exists i: nat :: IsWindow(Words(text), i, Words(s))
  {
    var ws := Words(text);
    ShinglesOfSound(ws, s);
    var i: nat :| i + ShingleSize <= |ws| && s == ShingleAt(ws, i);
    WordsOfJoin(ws[i..i + ShingleSize]);
    assert IsWindow(ws, i, Words(s));
  }

  /** A text of fewer than `ShingleSize` words has no shingles. */
  lemma ShortTextHasNoShingles(text: string)
    requires |Words(text)| < ShingleSize
    ensures Shingles(text) == {}
  {
  }

  lemma {:induction false} SubsetCardinality<T>(a: set<T>, b: set<T>)
    requires a <= b
    ensures |a| <= |b|
    decreases |a|
  {
    if a != {} {
      var x :| x in a;
      SubsetCardinality(a - {x}, b - {x});
    }
  }

  /**
   * `jaccard_similarity(a, b)`: 0 when either set is empty, otherwise the size
   * of the intersection over the size of the union.
   */
  function Jaccard(a: set<string>, b: set<string>): (r: real)
    ensures 0.0 <= r <= 1.0
    ensures (a == {} || b == {}) ==> r == 0.0
  {
    if a == {} || b == {} then 0.0
    else
      SubsetCardinality(a * b, a + b);
      SubsetCardinality(a, a + b);
      (|a * b| as real) / (|a + b| as real)
  }

  lemma JaccardSymmetric(a: set<string>, b: set<string>)
    ensures Jaccard(a, b) == Jaccard(b, a)
  {
    assert a * b == b * a && a + b == b + a;
  }

  lemma JaccardIdentical(a: set<string>)
    requires a != {}
    ensures Jaccard(a, a) == 1.0
  {
    assert a * a == a && a + a == a;
  }

  /**
   * For non-empty sets the threshold test is the integer inequality
   * `10 * |a * b| >= 9 * |a + b|`: no rounding at the boundary.
   */
  lemma JaccardAtThreshold(a: set<string>, b: set<string>)
    requires a != {} && b != {}
    ensures Jaccard(a, b) >= NearDuplicateThreshold <==> 10 * |a * b| >= 9 * |a + b|
  {
    SubsetCardinality(a, a + b);
    var x := |a * b| as real;
    var y := |a + b| as real;
    assert Jaccard(a, b) == x / y;
    QuotientAtLeast(x, y, 9.0, 10.0);
  }

  /** For a positive denominator, `x / y >= n / d` exactly when `d * x >= n * y`. */
  lemma QuotientAtLeast(x: real, y: real, n: real, d: real)
    requires y > 0.0 && d > 0.0
    ensures x / y >= n / d <==> d * x >= n * y
  {
    var r := x / y;
    var t := n / d;
    assert x == r * y;
    assert n == t * d;
    assert d * x - n * y == (r - t) * (y * d);
    assert y * d > 0.0;
  }

  // ---------------------------------------------------------------------------
  // Duplicate detection: is_exact_duplicate and is_near_duplicate
  // ---------------------------------------------------------------------------

  /** A stored shingle set makes `a` a near duplicate: the threshold is inclusive. */
  predicate IsNear(a: set<string>, b: set<string>) {
    Jaccard(a, b) >= NearDuplicateThreshold
  }

  /**
   * The position, in dictionary order, of the first stored shingle set that
   * makes `sh` a near duplicate.
   */
  function FirstNear(sh: set<string>, order: seq<string>, seen: map<string, set<string>>): (r: Option<nat>)
    requires forall i :: 0 <= i < |order| ==> order[i] in seen
    ensures r.Some? ==> r.value < |order| && IsNear(sh, seen[order[r.value]])
    ensures r.Some? ==> forall j :: 0 <= j < r.value ==> !IsNear(sh, seen[order[j]])
    ensures r.None? <==> forall j :: 0 <= j < |order| ==> !IsNear(sh, seen[order[j]])
    decreases |order|
  {
    if order == [] then None
    else if IsNear(sh, seen[order[0]]) then Some(0)
    else
      match FirstNear(sh, order[1..], seen)
      case None => None
      case Some(i) => Some(i + 1)
  }

  /** A near position with no near position before it is the first near one. */
  lemma FirstNearAt(sh: set<string>, order: seq<string>, seen: map<string, set<string>>, i: nat)
    requires forall j :: 0 <= j < |order| ==> order[j] in seen
    requires i < |order| && IsNear(sh, seen[order[i]])
    requires forall j :: 0 <= j < i ==> !IsNear(sh, seen[order[j]])
    ensures FirstNear(sh, order, seen) == Some(i)
  {
  }

  /** A text of fewer than `ShingleSize` words is near no stored page. */
  lemma ShortTextNeverNear(text: string, order: seq<string>, seen: map<string, set<string>>)
    requires forall i :: 0 <= i < |order| ==> order[i] in seen
    requires |Words(text)| < ShingleSize
    ensures FirstNear(Shingles(text), order, seen) == None
  {
  }

  /** `order` lists every key of `seen` exactly once: the dictionary's insertion order. */
  ghost predicate InsertionOrdered(order: seq<string>, seen: map<string, set<string>>) {
    && (forall i, j :: 0 <= i < j < |order| ==> order[i] != order[j])
    && (forall u :: u in seen <==> u in order)
  }

  /**
   * `seen_shingles[url] = sh` keeps the insertion order: a new key goes to
   * the end, an existing key keeps its place.
   */
  lemma StoreKeepsOrder(order: seq<string>, seen: map<string, set<string>>, url: string, sh: set<string>)
    requires InsertionOrdered(order, seen)
    ensures InsertionOrdered(if url in seen then order else order + [url], seen[url := sh])
  {
    if url !in seen {
      var o := order + [url];
      assert forall i :: 0 <= i < |order| ==> o[i] == order[i];
      assert o[|order|] == url;
    }
  }

  /**
   * The duplicate detector's two stores: the digests of the texts seen
   * (`seen_hashes`) and the shingle set of every page accepted as original
   * (`seen_shingles`), with the dictionary's insertion order kept in `order`.
   */
  class DuplicateDetector {
    /** `get_hash`: the SHA-1 hex digest of a text. */
    const digest: string -> string
    var seenHashes: set<string>
    var seenShingles: map<string, set<string>>
    var order: seq<string>

    ghost predicate Valid()
      reads this
    {
      InsertionOrdered(order, seenShingles)
    }

    /** The detector over the stores loaded at start-up (empty on a first run). */
    constructor (digest: string -> string, hashes: set<string>,
                 shingles: map<string, set<string>>, keyOrder: seq<string>)
      requires forall i, j :: 0 <= i < j < |keyOrder| ==> keyOrder[i] != keyOrder[j]
      requires forall u :: u in shingles <==> u in keyOrder
      ensures Valid()
      ensures this.digest == digest && seenHashes == hashes
      ensures seenShingles == shingles && order == keyOrder
    {
      this.digest := digest;
      seenHashes := hashes;
      seenShingles := shingles;
      order := keyOrder;
    }

    /**
     * `is_exact_duplicate(text)`: the check is also the commit, so the answer is
     * true exactly when the digest was already recorded.
     */
    method IsExactDuplicate(text: string) returns (dup: bool)
      requires Valid()
      modifies this`seenHashes
      ensures Valid()
      ensures dup <==> digest(text) in old(seenHashes)
      ensures seenHashes == old(seenHashes) + {digest(text)}
    {
      var textHash := digest(text);
      if textHash in seenHashes {
        return true;
      }
      seenHashes := seenHashes + {textHash};
      return false;
    }

    /**
     * `is_near_duplicate(url, text)`: scans the stored shingle sets in
     * dictionary order; on the first one at or above the threshold it reports
     * that page and the score and stores nothing, otherwise it stores the new
     * page's shingles under `url`.
     */
    method IsNearDuplicate(url: string, text: string) returns (near: bool, other: Option<string>, score: real)
      requires Valid()
      modifies this`seenShingles, this`order
      ensures Valid()
      ensures var sh := Shingles(text);
        match FirstNear(sh, old(order), old(seenShingles))
        case Some(i) =>
          && near && other == Some(old(order)[i])
          && score == Jaccard(sh, old(seenShingles)[old(order)[i]])
          && seenShingles == old(seenShingles) && order == old(order)
        case None =>
          && !near && other == None && score == 0.0
          && seenShingles == old(seenShingles)[url := sh]
          && order == (if url in old(seenShingles) then old(order) else old(order) + [url])
      ensures near ==> score >= NearDuplicateThreshold
      ensures |Words(text)| < ShingleSize ==> !near
    {
      var newShingles := Shingles(text);
      var i := 0;
      while i < |order|
        invariant 0 <= i <= |order|
        invariant forall j :: 0 <= j < i ==> !IsNear(newShingles, seenShingles[order[j]])
      {
        var similarity := Jaccard(newShingles, seenShingles[order[i]]);
        if similarity >= NearDuplicateThreshold {
          FirstNearAt(newShingles, order, seenShingles, i);
          return true, Some(order[i]), similarity;
        }
        i := i + 1;
      }
      StoreKeepsOrder(order, seenShingles, url, newShingles);
      if url !in seenShingles {
        order := order + [url];
      }
      seenShingles := seenShingles[url := newShingles];
      return false, None, 0.0;
    }
  }

  // ---------------------------------------------------------------------------
  // The scraper pipeline
  // ---------------------------------------------------------------------------

  const HttpOk: int := 200

  /** Pages with fewer informative words than this are treated as dead. */
  const MinInformativeWords: nat := 10

  /** `w.isdigit()` on an ASCII word. */
  predicate IsDigitString(w: string) {
    w != [] && forall i :: 0 <= i < |w| ==> IsDigit(w[i])
  }

  /**
   * The lower-cased tokens that are neither stop words nor all digits, in text
   * order (`filtered_words`).
   */
  function InformativeWords(tokens: seq<string>, stopwords: set<string>): (r: seq<string>)
    ensures |r| <= |tokens|
    ensures forall i :: 0 <= i < |r| ==> r[i] !in stopwords && !IsDigitString(r[i])
    ensures forall i :: 0 <= i < |r| ==> exists j :: 0 <= j < |tokens| && r[i] == Lower(tokens[j])
    ensures forall i :: 0 <= i < |tokens| && Lower(tokens[i]) !in stopwords && !IsDigitString(Lower(tokens[i]))
              ==> Lower(tokens[i]) in r
    decreases |tokens|
  {
    if tokens == [] then []
    else
      var w := Lower(tokens[0]);
      var rest := InformativeWords(tokens[1..], stopwords);
      assert forall i :: 1 <= i < |tokens| ==> tokens[i] == tokens[1..][i - 1];
      if w !in stopwords && !IsDigitString(w) then [w] + rest else rest
  }

  /** One token is kept, lower-cased, exactly when it is informative. */
  lemma InformativeWordsOne(t: string, stopwords: set<string>)
    ensures InformativeWords([t], stopwords) ==
      (if Lower(t) !in stopwords && !IsDigitString(Lower(t)) then [Lower(t)] else [])
  {
    assert [t][1..] == [];
  }

  /**
   * The filter keeps text order and multiplicity: filtering a concatenation is
   * concatenating the filtered parts, so `len(filtered_words)` counts every
   * informative occurrence.
   */
  lemma {:induction false} InformativeWordsAppend(a: seq<string>, b: seq<string>, stopwords: set<string>)
    ensures InformativeWords(a + b, stopwords) == InformativeWords(a, stopwords) + InformativeWords(b, stopwords)
    decreases |a|
  {
    if a == [] {
      assert a + b == b;
    } else {
      assert (a + b)[0] == a[0];
      assert (a + b)[1..] == a[1..] + b;
      InformativeWordsAppend(a[1..], b, stopwords);
    }
  }

  /** `[link for link in links if is_valid(link)]`. */
  function ValidLinks(links: seq<string>, parse: string -> ParsedUrl): (r: seq<string>)
    ensures |r| <= |links|
    ensures forall i :: 0 <= i < |r| ==> r[i] in links && IsValid(r[i], parse(r[i]))
    ensures forall l :: l in links && IsValid(l, parse(l)) ==> l in r
    decreases |links|
  {
    if links == [] then []
    else
      var rest := ValidLinks(links[1..], parse);
      if IsValid(links[0], parse(links[0])) then [links[0]] + rest else rest
  }

  /** One link is kept exactly when it passes `is_valid`. */
  lemma ValidLinksOne(l: string, parse: string -> ParsedUrl)
    ensures ValidLinks([l], parse) == (if IsValid(l, parse(l)) then [l] else [])
  {
    assert [l][1..] == [];
  }

  /** The filter keeps the links' order and duplicates: it distributes over concatenation. */
  lemma {:induction false} ValidLinksAppend(a: seq<string>, b: seq<string>, parse: string -> ParsedUrl)
    ensures ValidLinks(a + b, parse) == ValidLinks(a, parse) + ValidLinks(b, parse)
    decreases |a|
  {
    if a == [] {
      assert a + b == b;
    } else {
      assert (a + b)[0] == a[0];
      assert (a + b)[1..] == a[1..] + b;
      ValidLinksAppend(a[1..], b, parse);
    }
  }

  /** A page that gets as far as duplicate detection: a 200 with a body and enough informative words. */
  predicate Informative(status: int, hasRawResponse: bool, text: string, stopwords: set<string>) {
    status == HttpOk && hasRawResponse
    && |InformativeWords(WordTokens(text), stopwords)| >= MinInformativeWords
  }

  /**
   * `scraper(url, resp)`. The response's status and whether it has a raw body
   * are parameters, as are the page's visible text and its extracted links
   * (the outputs of the HTML parser) and the stop-word list.
   */
  method Scrape(det: DuplicateDetector, url: string, status: int, hasRawResponse: bool,
                text: string, links: seq<string>, stopwords: set<string>,
                parse: string -> ParsedUrl)
    returns (out: seq<string>)
    requires det.Valid()
    modifies det
    ensures det.Valid()
    ensures forall i :: 0 <= i < |out| ==> IsValid(out[i], parse(out[i]))
    ensures !Informative(status, hasRawResponse, text, stopwords) ==>
      && out == []
      && det.seenHashes == old(det.seenHashes)
      && det.seenShingles == old(det.seenShingles) && det.order == old(det.order)
    ensures Informative(status, hasRawResponse, text, stopwords) ==>
      det.seenHashes == old(det.seenHashes) + {det.digest(text)}
    ensures Informative(status, hasRawResponse, text, stopwords) && det.digest(text) in old(det.seenHashes) ==>
      && out == []
      && det.seenShingles == old(det.seenShingles) && det.order == old(det.order)
    ensures Informative(status, hasRawResponse, text, stopwords) && det.digest(text) !in old(det.seenHashes) ==>
      match FirstNear(Shingles(text), old(det.order), old(det.seenShingles))
      case Some(_) =>
        out == [] && det.seenShingles == old(det.seenShingles) && det.order == old(det.order)
      case None =>
        && out == ValidLinks(links, parse)
        && det.seenShingles == old(det.seenShingles)[url := Shingles(text)]
        && det.order == (if url in old(det.seenShingles) then old(det.order) else old(det.order) + [url])
  {
    if status != HttpOk || !hasRawResponse {
      return [];
    }
    var filtered := InformativeWords(WordTokens(text), stopwords);
    if |filtered| < MinInformativeWords {
      return [];
    }
    var exact := det.IsExactDuplicate(text);
    if exact {
      return [];
    }
    var isNear, otherUrl, similarity := det.IsNearDuplicate(url, text);
    if isNear {
      return [];
    }
    out := ValidLinks(links, parse);
  }
}
