/**
 * The repository behind the widget: an in-memory cache from query text to the
 * results fetched for it, each entry stamped with the time of the search that
 * stored it and dropped once older than the time-to-live, over a remote lookup
 * whose request URL is built from a configurable base URL.
 *
 * Time is an explicit `now` in milliseconds (the value the source reads from the
 * system clock once, at the start of `search`); the remote call is the
 * parameter `fetch`, which may fail.
 */
module SearchRepository {
  import opened Wrappers
  import opened Text
  import opened Records
  import opened FormEncoding

  /** The token a base URL may contain to mark where the query goes. */
  const Placeholder := "{query}"

  /** Results stored for one query, with the time of the search that fetched them. */
  datatype CacheEntry<V> = CacheEntry(results: seq<Record<V>>, timestampMs: int)

  /** Query text, used verbatim (case-sensitive, unnormalised), to its entry. */
  type Cache<V> = map<string, CacheEntry<V>>

  datatype Repository<V> = Repository(baseUrl: string, ttlSeconds: int, cache: Cache<V>)

  /** An entry is stale once its age exceeds the time-to-live; an entry exactly
      as old as the time-to-live is still fresh. */
  predicate IsStale<V>(entry: CacheEntry<V>, now: int, ttlSeconds: int) {
    now - entry.timestampMs > ttlSeconds * 1000
  }

  ghost predicate AllFresh<V>(cache: Cache<V>, now: int, ttlSeconds: int) {
    forall q :: q in cache ==> !IsStale(cache[q], now, ttlSeconds)
  }

  /** `pruneStale`: removes exactly the stale entries and leaves the rest as they were. */
  function PruneStale<V>(cache: Cache<V>, now: int, ttlSeconds: int): (pruned: Cache<V>)
    ensures pruned.Keys <= cache.Keys
    ensures forall q :: q in cache ==>
              (q in pruned <==> now - cache[q].timestampMs <= ttlSeconds * 1000)
    ensures forall q :: q in pruned ==> pruned[q] == cache[q]
    ensures AllFresh(pruned, now, ttlSeconds)
  {
    map q | q in cache && !IsStale(cache[q], now, ttlSeconds) :: cache[q]
  }

  /** Pruning twice at the same time is pruning once. */
  lemma PruneIdempotent<V>(cache: Cache<V>, now: int, ttlSeconds: int)
    ensures PruneStale(PruneStale(cache, now, ttlSeconds), now, ttlSeconds)
            == PruneStale(cache, now, ttlSeconds)
  {
  }

  /** A cache that is already fresh is left alone by pruning. */
  lemma PruneFreshIsIdentity<V>(cache: Cache<V>, now: int, ttlSeconds: int)
    requires AllFresh(cache, now, ttlSeconds)
    ensures PruneStale(cache, now, ttlSeconds) == cache
  {
  }

  /** Pruning at an earlier time and then at a later one is the same as pruning
      only at the later one: ages only grow. */
  lemma PruneLaterSubsumes<V>(cache: Cache<V>, earlier: int, later: int, ttlSeconds: int)
    requires earlier <= later
    ensures PruneStale(PruneStale(cache, earlier, ttlSeconds), later, ttlSeconds)
            == PruneStale(cache, later, ttlSeconds)
  {
  }

  /** With a time-to-live of zero only entries of age zero or less survive. */
  lemma PruneZeroTtl<V>(cache: Cache<V>, now: int)
    ensures forall q :: q in cache && cache[q].timestampMs < now ==> q !in PruneStale(cache, now, 0)
    ensures forall q :: q in cache && cache[q].timestampMs >= now ==> q in PruneStale(cache, now, 0)
  {
  }

  /** `{` opens the placeholder and does not recur in it. */
  lemma PlaceholderOpensOnce()
    ensures OpensOnce(Placeholder)
  {
  }

  /** The separator put before `q=` when the base URL has no placeholder. */
  function Separator(baseUrl: string): char {
    if '?' in baseUrl then '&' else '?'
  }

  /** The request URL for a query: the form-encoded query replaces every
      placeholder in the base URL, or, when there is none, is appended as the
      parameter `q`, after `&` if the base URL already has a `?` and after `?`
      otherwise. */
  function BuildUrl(baseUrl: string, query: string): (url: string)
    ensures !Contains(baseUrl, Placeholder) ==>
              && IsPrefix(baseUrl, url)
              && |url| == |baseUrl| + 3 + |FormEncode(query)|
              && url[|baseUrl|] == (if '?' in baseUrl then '&' else '?')
              && url[|baseUrl| + 1..|baseUrl| + 3] == "q="
              && FormDecode(url[|baseUrl| + 3..]) == Some(query)
  {
    var encoded := FormEncode(query);
    if Contains(baseUrl, Placeholder) then
      Replace(baseUrl, Placeholder, encoded)
    else
      var url := baseUrl + [Separator(baseUrl)] + "q=" + encoded;
      assert url[|baseUrl| + 3..] == encoded;
      FormRoundTrip(query);
      url
  }

  /** With placeholders, the URL is the base URL's placeholder-free pieces
      joined with the encoded query. */
  lemma BuildUrlTemplate(parts: seq<string>, query: string)
    requires |parts| > 1
    requires forall i :: 0 <= i < |parts| ==> !Contains(parts[i], Placeholder)
    ensures BuildUrl(Join(parts, Placeholder), query) == Join(parts, FormEncode(query))
  {
    var s := Join(parts, Placeholder);
    assert s == parts[0] + Placeholder + Join(parts[1..], Placeholder);
    ContainsAt(s, Placeholder);
    assert OccursAt(s, Placeholder, |parts[0]|);
    PlaceholderOpensOnce();
    ReplaceJoin(parts, Placeholder, FormEncode(query));
  }

  /** A base URL with placeholders is cut at each of them, and the URL joins
      the pieces with the encoded query. */
  lemma BuildUrlReplacesEveryPlaceholder(baseUrl: string, query: string)
    requires Contains(baseUrl, Placeholder)
    ensures |SplitAt(baseUrl, Placeholder)| > 1
    ensures BuildUrl(baseUrl, query) == Join(SplitAt(baseUrl, Placeholder), FormEncode(query))
  {
    PlaceholderOpensOnce();
    ReplaceEveryOccurrence(baseUrl, Placeholder, FormEncode(query));
  }

  /** The encoded query never holds the placeholder or the characters that
      delimit URL parameters. */
  lemma EncodedQueryIsInert(query: string)
    ensures !Contains(FormEncode(query), Placeholder)
    ensures '?' !in FormEncode(query) && '&' !in FormEncode(query)
    ensures '=' !in FormEncode(query) && ' ' !in FormEncode(query)
  {
    var e := FormEncode(query);
    forall c | c in e
      ensures IsFormSafe(c)
    {
      var i :| 0 <= i < |e| && e[i] == c;
    }
    assert !IsFormSafe('{') && !IsFormSafe('?') && !IsFormSafe('&');
    assert !IsFormSafe('=') && !IsFormSafe(' ');
    NotContainsWithoutChar(e, Placeholder, '{');
  }

  /** A space in the query is sent as `+`, as `URLEncoder` writes it. */
  lemma EncodeSpaceExample()
    ensures FormEncode("c d") == "c+d"
  {
    assert EncodeChar('d') == "d";
    assert FormEncode("d") == "d";
    assert EncodeChar(' ') == "+";
    assert "c d"[1..] == " d" && " d"[1..] == "d";
    assert FormEncode(" d") == "+d";
  }

  /** Without a placeholder the encoded query is appended as `q` after `?`. */
  lemma BuildUrlAppendExample(baseUrl: string, query: string)
    requires baseUrl == "https://x/search" && query == "c d"
    ensures BuildUrl(baseUrl, query) == "https://x/search?q=c+d"
  {
    PlainBase(baseUrl);
    AppendExample(baseUrl, query, '?');
    EncodeSpaceExample();
    AppendedUrl(baseUrl, FormEncode(query));
  }

  lemma AppendedUrl(baseUrl: string, encoded: string)
    requires baseUrl == "https://x/search" && encoded == "c+d"
    ensures baseUrl + ['?'] + "q=" + encoded == "https://x/search?q=c+d"
  {
  }

  lemma PlainBase(baseUrl: string)
    requires baseUrl == "https://x/search"
    ensures !Contains(baseUrl, Placeholder) && Separator(baseUrl) == '?'
  {
    assert forall i :: 0 <= i < |baseUrl| ==> baseUrl[i] != '{' && baseUrl[i] != '?';
    NotContainsWithoutChar(baseUrl, Placeholder, '{');
  }

  /** When the base URL already has a `?`, the query is appended after `&`. */
  lemma BuildUrlExtendExample(baseUrl: string, query: string)
    requires baseUrl == "https://x/search?a=1" && query == "c d"
    ensures BuildUrl(baseUrl, query) == "https://x/search?a=1&q=c+d"
  {
    ParameterBase(baseUrl);
    AppendExample(baseUrl, query, '&');
    EncodeSpaceExample();
    ExtendedUrl(baseUrl, FormEncode(query));
  }

  lemma ExtendedUrl(baseUrl: string, encoded: string)
    requires baseUrl == "https://x/search?a=1" && encoded == "c+d"
    ensures baseUrl + ['&'] + "q=" + encoded == "https://x/search?a=1&q=c+d"
  {
  }

  lemma ParameterBase(baseUrl: string)
    requires baseUrl == "https://x/search?a=1"
    ensures !Contains(baseUrl, Placeholder) && Separator(baseUrl) == '&'
  {
    assert forall i :: 0 <= i < |baseUrl| ==> baseUrl[i] != '{';
    assert baseUrl[16] == '?';
    NotContainsWithoutChar(baseUrl, Placeholder, '{');
  }

  /** Without a placeholder the URL is the base, the separator, `q=` and the
      encoded query. */
  lemma AppendExample(baseUrl: string, query: string, sep: char)
    requires !Contains(baseUrl, Placeholder)
    requires sep == Separator(baseUrl)
    ensures BuildUrl(baseUrl, query) == baseUrl + [sep] + "q=" + FormEncode(query)
  {
  }

  /** What one `search` call leaves behind: the repository, the value returned
      or thrown, and the URL requested from the network, if any. */
  datatype SearchStep<V, E> = SearchStep(
    repo: Repository<V>,
    outcome: Result<seq<Record<V>>, E>,
    request: Option<string>)

  /** The query has an entry that survives pruning at `now`. */
  predicate IsHit<V>(repo: Repository<V>, query: string, now: int) {
    query in repo.cache && !IsStale(repo.cache[query], now, repo.ttlSeconds)
  }

  /** `search`: prune, then answer from the cache on a hit; on a miss build the
      URL, fetch, and store the fresh results stamped with `now` (the time taken
      before the fetch). A failed fetch stores nothing. */
  function Search<V, E>(repo: Repository<V>, query: string, now: int,
                        fetch: string -> Result<seq<Record<V>>, E>): (step: SearchStep<V, E>)
    ensures step.repo.baseUrl == repo.baseUrl && step.repo.ttlSeconds == repo.ttlSeconds
    ensures IsHit(repo, query, now) ==>
              && step.outcome == Success(repo.cache[query].results)
              && step.request == None
    ensures !IsHit(repo, query, now) ==>
              && step.request == Some(BuildUrl(repo.baseUrl, query))
              && step.outcome == fetch(BuildUrl(repo.baseUrl, query))
    ensures step.outcome.Success? <==> query in step.repo.cache
    ensures step.outcome.Success? ==> step.repo.cache[query].results == step.outcome.value
    ensures forall q :: q != query ==>
              (q in step.repo.cache <==> q in repo.cache && !IsStale(repo.cache[q], now, repo.ttlSeconds))
    ensures forall q :: q in step.repo.cache && q != query ==> step.repo.cache[q] == repo.cache[q]
  {
    var pruned := PruneStale(repo.cache, now, repo.ttlSeconds);
    if query in pruned then
      SearchStep(repo.(cache := pruned), Success(pruned[query].results), None)
    else
      var url := BuildUrl(repo.baseUrl, query);
      match fetch(url)
      case Success(fetched) =>
        SearchStep(repo.(cache := pruned[query := CacheEntry(fetched, now)]), Success(fetched), Some(url))
      case Failure(e) =>
        SearchStep(repo.(cache := pruned), Failure(e), Some(url))
  }

  /** On a hit the cache keeps the hit entry unchanged; on a miss a successful
      fetch is stored stamped with `now`, and a failed one leaves the pruned cache. */
  lemma SearchStoresFreshResults<V, E>(repo: Repository<V>, query: string, now: int,
                                       fetch: string -> Result<seq<Record<V>>, E>)
    ensures var step := Search(repo, query, now, fetch);
      && (IsHit(repo, query, now) ==> step.repo.cache == PruneStale(repo.cache, now, repo.ttlSeconds))
      && (!IsHit(repo, query, now) && step.outcome.Success? ==>
            step.repo.cache[query] == CacheEntry(step.outcome.value, now))
      && (step.outcome.Failure? ==> step.repo.cache == PruneStale(repo.cache, now, repo.ttlSeconds))
  {
  }

  /** With a non-negative time-to-live every entry is fresh right after a search. */
  lemma SearchLeavesCacheFresh<V, E>(repo: Repository<V>, query: string, now: int,
                                     fetch: string -> Result<seq<Record<V>>, E>)
    requires repo.ttlSeconds >= 0
    ensures AllFresh(Search(repo, query, now, fetch).repo.cache, now, repo.ttlSeconds)
  {
  }

  /** After a search at `t0` that misses the cache and stores what it fetched,
      the same query searched at `t1` is answered from the cache, with the same
      results and no request, exactly when `t1 - t0` is at most the
      time-to-live; otherwise it is requested again. */
  lemma RepeatSearchWithinTtl<V, E>(repo: Repository<V>, query: string, t0: int, t1: int,
                                    fetch: string -> Result<seq<Record<V>>, E>)
    requires !IsHit(repo, query, t0)
    requires Search(repo, query, t0, fetch).outcome.Success?
    ensures var first := Search(repo, query, t0, fetch);
            var second := Search(first.repo, query, t1, fetch);
      && (t1 - t0 <= repo.ttlSeconds * 1000 <==> second.request == None)
      && (t1 - t0 <= repo.ttlSeconds * 1000 ==> second.outcome == first.outcome)
      && (t1 - t0 > repo.ttlSeconds * 1000 ==> second.request == Some(BuildUrl(repo.baseUrl, query)))
  {
  }
}
