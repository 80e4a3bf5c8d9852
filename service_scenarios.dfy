/**
 * End-to-end uses of the shortener on a fresh, empty table: what a client
 * sees when it shortens a URL, follows the short link and reads the stats.
 */
module ServiceScenarios {
  import opened Wrappers
  import opened UrlTable
  import opened UrlService
  import ShortCode
  import UrlExamples

  /** A fresh store in which "https://a.com" was shortened once, under the code the draw makes. */
  method ShortenOnFreshStore(draw: seq<nat>, now: int) returns (store: UrlStore, r: ShortenResult)
    requires ShortCode.IsDraw(draw, ShortCode.DefaultLength)
    ensures fresh(store) && store.Valid() && store.baseUrl == DefaultBaseUrl
    ensures r.Shortened? && r.shortCode == ShortCode.GenerateShortCode(ShortCode.DefaultLength, draw)
    ensures r.shortUrl == DefaultBaseUrl + "/" + r.shortCode
    ensures store.rows == [UrlRecord(1, "https://a.com", r.shortCode, 0, now)]
  {
    store := new UrlStore(DefaultBaseUrl);
    UrlExamples.AcceptsPlainDomain();
    FirstFreeIsFirst([], [draw], 0, 0);
    assert FindFirst(store.rows, OriginalUrlColumn, "https://a.com") == None;
    r := store.Shorten(Some("https://a.com"), [draw], now);
    assert Candidate([draw], 0) == ShortCode.GenerateShortCode(ShortCode.DefaultLength, draw);
  }

  /**
   * Shortening a URL and following the short link three times redirects to
   * that URL each time, and the stats then report three clicks.
   */
  method ClicksAreCounted(draw: seq<nat>, now: int)
    returns (code: string, locations: seq<string>, stats: StatsResult)
    requires ShortCode.IsDraw(draw, ShortCode.DefaultLength)
    ensures code == ShortCode.GenerateShortCode(ShortCode.DefaultLength, draw)
    ensures |locations| == 3 && forall m :: 0 <= m < 3 ==> locations[m] == "https://a.com"
    ensures stats == StatsFound(code, "https://a.com", 3, now)
  {
    var store, r := ShortenOnFreshStore(draw, now);
    code := r.shortCode;
    locations := [];
    var n := 0;
    while n < 3
      invariant 0 <= n <= 3 && store.Valid()
      invariant store.rows == [UrlRecord(1, "https://a.com", code, n, now)]
      invariant |locations| == n && forall m :: 0 <= m < n ==> locations[m] == "https://a.com"
    {
      assert FindFirst(store.rows, ShortCodeColumn, code) == Some(0);
      var hop := store.Redirect(code);
      locations := locations + [hop.location];
      n := n + 1;
    }
    stats := store.Stats(code);
  }

  /** Shortening the same URL twice gives the same code and stores one row. */
  method SameUrlSameCode(d1: seq<nat>, d2: seq<nat>, now: int)
    returns (first: ShortenResult, second: ShortenResult, stored: nat)
    requires ShortCode.IsDraw(d1, ShortCode.DefaultLength) && ShortCode.IsDraw(d2, ShortCode.DefaultLength)
    ensures first.Shortened? && first == second
    ensures stored == 1
  {
    var store;
    store, first := ShortenOnFreshStore(d1, now);
    UrlExamples.AcceptsPlainDomain();
    assert FindFirst(store.rows, OriginalUrlColumn, "https://a.com") == Some(0);
    second := store.Shorten(Some("https://a.com"), [d2], now + 1);
    stored := |store.rows|;
  }

  /** A missing, empty or malformed URL is refused and nothing is stored. */
  method RefusedRequestsStoreNothing(draws: seq<seq<nat>>, now: int)
    returns (results: seq<ShortenResult>, stored: nat)
    requires AreDraws(draws)
    ensures results == [ShortenFailed(UrlRequired), ShortenFailed(UrlRequired), ShortenFailed(InvalidUrlFormat)]
    ensures stored == 0
  {
    var store := new UrlStore(DefaultBaseUrl);
    var r1 := store.Shorten(None, draws, now);
    var r2 := store.Shorten(Some(""), draws, now);
    UrlExamples.RejectsOtherScheme();
    var r3 := store.Shorten(Some("ftp://example.com"), draws, now);
    results := [r1, r2, r3];
    stored := |store.rows|;
  }

  /** On an empty table every code is unknown: no redirect, no stats, nothing stored. */
  method UnknownCodeIsNotFound(code: string) returns (hop: RedirectResult, stats: StatsResult, stored: nat)
    ensures hop == RedirectNotFound && stats == StatsNotFound && stored == 0
  {
    var store := new UrlStore(DefaultBaseUrl);
    hop := store.Redirect(code);
    stats := store.Stats(code);
    stored := |store.rows|;
  }
}
