/**
 * The request handlers of the shortener (`shorten_url`, `redirect_url`,
 * `get_stats`) as the operations of one in-memory URL store.
 *
 * The HTTP layer is reduced to the values it passes in and out: the `url`
 * field of the posted JSON is an `Option<string>` (absent or present), and
 * each handler returns a datatype that stands for its JSON body or redirect
 * and its status code. `BASE_URL` is fixed when the store is constructed.
 */
module UrlService {
  import opened Wrappers
  import opened UrlTable
  import ShortCode
  import UrlValidator

  /** The value `BASE_URL` takes when the environment does not set it. */
  const DefaultBaseUrl: string := "http://localhost:5001"

  /** The 400 answers of `shorten_url`, and the end of a finite supply of candidate draws. */
  datatype ShortenError =
    | UrlRequired        // 'URL is required'
    | InvalidUrlFormat   // 'Invalid URL format'
    | DrawsExhausted     // every supplied candidate code was already taken

  /** The answer of `shorten_url`: `{short_url, short_code}` or an error. */
  datatype ShortenResult =
    | Shortened(shortUrl: string, shortCode: string)
    | ShortenFailed(error: ShortenError)

  /** The answer of `redirect_url`: a redirect to the stored URL, or 404 'URL not found'. */
  datatype RedirectResult = RedirectTo(location: string) | RedirectNotFound

  /** The answer of `get_stats`: the row's public fields, or 404 'URL not found'. */
  datatype StatsResult =
    | StatsFound(shortCode: string, originalUrl: string, clicks: nat, createdAt: int)
    | StatsNotFound

  /** `f'{BASE_URL}/{short_code}'`. */
  function ShortUrl(baseUrl: string, code: string): (u: string)
    ensures |u| == |baseUrl| + 1 + |code|
    ensures u[..|baseUrl|] == baseUrl && u[|baseUrl|] == '/' && u[|baseUrl| + 1..] == code
  {
    baseUrl + "/" + code
  }

  class UrlStore {
    /** `BASE_URL`. */
    const baseUrl: string
    /** The rows of the `URL` table, oldest first. */
    var rows: seq<UrlRecord>

    ghost predicate Valid()
      reads this
    {
      TableInvariant(rows)
    }

    /** `db.create_all()` on an empty database. */
    constructor (baseUrl: string)
      ensures Valid() && rows == [] && this.baseUrl == baseUrl
    {
      this.baseUrl := baseUrl;
      rows := [];
    }

    /**
     * `shorten_url`: validate, return the existing mapping of an already
     * shortened URL, or draw candidate codes until one is free and store a
     * new row under it.
     *
     * `draws` stands for the results of `random.choice` in successive
     * `generate_short_code()` calls; `now` for the database clock.
     */
    method Shorten(url: Option<string>, draws: seq<seq<nat>>, now: int) returns (r: ShortenResult)
      requires Valid() && AreDraws(draws)
      modifies this
      ensures Valid() && Extends(old(rows), rows)
      // a missing or empty URL, and a malformed one, are refused and change nothing
      ensures (url.None? || url == Some("")) ==> r == ShortenFailed(UrlRequired) && rows == old(rows)
      ensures url.Some? && url.value != "" && !UrlValidator.IsValidUrl(url.value) ==>
        r == ShortenFailed(InvalidUrlFormat) && rows == old(rows)
      // an URL that is already stored gets its existing code back, and no row is added
      ensures url.Some? && url.value != "" && UrlValidator.IsValidUrl(url.value) &&
              FindFirst(old(rows), OriginalUrlColumn, url.value).Some? ==>
        var k := FindFirst(old(rows), OriginalUrlColumn, url.value).value;
        r == Shortened(ShortUrl(baseUrl, old(rows)[k].shortCode), old(rows)[k].shortCode) &&
        rows == old(rows)
      // otherwise the first candidate that no row holds becomes the code of one new row
      ensures url.Some? && url.value != "" && UrlValidator.IsValidUrl(url.value) &&
              FindFirst(old(rows), OriginalUrlColumn, url.value).None? ==>
        match FirstFree(old(rows), draws, 0)
        case None => r == ShortenFailed(DrawsExhausted) && rows == old(rows)
        case Some(n) =>
          var code := Candidate(draws, n);
          !IsTaken(old(rows), code) &&
          r == Shortened(ShortUrl(baseUrl, code), code) &&
          rows == old(rows) + [NewRecord(old(rows), url.value, code, now)]
      // on success the URL is stored under the returned code, in exactly one row
      ensures r.Shortened? ==>
        url.Some? && FindFirst(rows, OriginalUrlColumn, url.value).Some? &&
        var k := FindFirst(rows, OriginalUrlColumn, url.value).value;
        rows[k].shortCode == r.shortCode &&
        FindFirst(rows, ShortCodeColumn, r.shortCode) == Some(k)
    {
      if url.None? || url.value == "" {
        return ShortenFailed(UrlRequired);
      }
      var original := url.value;
      if !UrlValidator.IsValidUrl(original) {
        return ShortenFailed(InvalidUrlFormat);
      }

      var existing := FindFirst(rows, OriginalUrlColumn, original);
      if existing.Some? {
        var code := rows[existing.value].shortCode;
        LookupFindsTheRow(rows, existing.value, ShortCodeColumn);
        return Shortened(ShortUrl(baseUrl, code), code);
      }

      var free := ProbeCandidates(draws);
      if free.None? {
        return ShortenFailed(DrawsExhausted);
      }
      var code := Candidate(draws, free.value);
      InsertKeepsInvariant(rows, original, code, now);
      var inserted := Insert(rows, original, code, now);
      InsertExtends(rows, original, code, now);
      rows := inserted.value;
      return Shortened(ShortUrl(baseUrl, code), code);
    }

    /**
     * The `while True` loop of `shorten_url`: generate a code, stop at the
     * first one no row holds. The loop runs over the supplied draws only, and
     * reports `None` when all of them are taken.
     */
    method ProbeCandidates(draws: seq<seq<nat>>) returns (free: Option<nat>)
      requires AreDraws(draws)
      ensures free == FirstFree(rows, draws, 0)
    {
      var i := 0;
      while i < |draws|
        invariant 0 <= i <= |draws|
        invariant forall j :: 0 <= j < i ==> IsTaken(rows, Candidate(draws, j))
      {
        var code := ShortCode.GenerateShortCode(ShortCode.DefaultLength, draws[i]);
        if FindFirst(rows, ShortCodeColumn, code).None? {
          FirstFreeIsFirst(rows, draws, 0, i);
          return Some(i);
        }
        assert IsTaken(rows, Candidate(draws, i)) by {
          assert code == Candidate(draws, i);
        }
        i := i + 1;
      }
      FirstFreeIsFirst(rows, draws, 0, i);
      return None;
    }

    /**
     * `redirect_url`: an unknown code is a 404 and changes nothing; a known
     * code adds exactly one click to its row and redirects to the URL stored
     * there, unchanged.
     */
    method Redirect(code: string) returns (r: RedirectResult)
      requires Valid()
      modifies this
      ensures Valid() && Extends(old(rows), rows)
      ensures FindFirst(old(rows), ShortCodeColumn, code).None? ==>
        r == RedirectNotFound && rows == old(rows)
      ensures FindFirst(old(rows), ShortCodeColumn, code).Some? ==>
        var k := FindFirst(old(rows), ShortCodeColumn, code).value;
        r == RedirectTo(old(rows)[k].originalUrl) &&
        |rows| == |old(rows)| &&
        rows[k] == old(rows)[k].(clicks := old(rows)[k].clicks + 1) &&
        forall j :: 0 <= j < |rows| && j != k ==> rows[j] == old(rows)[j]
    {
      var found := FindFirst(rows, ShortCodeColumn, code);
      if found.None? {
        return RedirectNotFound;
      }
      var k := found.value;
      RecordClickKeepsInvariant(rows, k);
      ClickExtends(rows, k);
      rows := RecordClick(rows, k);
      return RedirectTo(rows[k].originalUrl);
    }

    /** `get_stats`: the stored row of a known code, read without changing the table; 404 otherwise. */
    function Stats(code: string): (r: StatsResult)
      requires Valid()
      reads this
      ensures r.StatsNotFound? <==> forall i :: 0 <= i < |rows| ==> rows[i].shortCode != code
      ensures forall i :: 0 <= i < |rows| && rows[i].shortCode == code ==>
        r == StatsFound(code, rows[i].originalUrl, rows[i].clicks, rows[i].createdAt)
    {
      match FindFirst(rows, ShortCodeColumn, code)
      case None => StatsNotFound
      case Some(k) =>
        assert forall i :: 0 <= i < |rows| && rows[i].shortCode == code ==> i == k by {
          forall i | 0 <= i < |rows| && rows[i].shortCode == code ensures i == k {
            LookupFindsTheRow(rows, i, ShortCodeColumn);
          }
        }
        StatsFound(rows[k].shortCode, rows[k].originalUrl, rows[k].clicks, rows[k].createdAt)
    }
  }
}
