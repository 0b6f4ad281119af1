/**
 * The URL library functions the crawler calls. Their code (Python's
 * `urllib.parse` and the repository's `utils` package) is not part of this
 * model, so each is a function value handed to the model: the proofs hold for
 * every choice of them, needing only that each is a deterministic function.
 */
module Urls {
  import opened Wrappers

  /** The fields of `urllib.parse.urlparse(url)` that the crawler reads. */
  datatype ParsedUrl = ParsedUrl(
    scheme: string,
    netloc: string,
    path: string,
    query: string,
    /** `.hostname`: the lower-cased host without user info and port, `None` when there is none. */
    hostname: Option<string>)

  /**
   * `parse` is `urlparse`, `normalize` is `utils.normalize`, `defrag` is the
   * URL half of `urldefrag` and `urlHash` is `utils.get_urlhash`.
   */
  datatype UrlOps = UrlOps(
    parse: string -> ParsedUrl,
    normalize: string -> string,
    defrag: string -> string,
    urlHash: string -> string)

  /** The canonical form under which `add_url` records a URL: normalised, then defragmented. */
  function Clean(ops: UrlOps, url: string): string {
    ops.defrag(ops.normalize(url))
  }

  /** `urlparse(url).netloc`, the key of the politeness map. */
  function Netloc(ops: UrlOps, url: string): string {
    ops.parse(url).netloc
  }
}
