# URL shortener core in Dafny

This project models the URL-mapping engine of the `url-shortener` Flask
service (`app.py`) and proves properties of it:

- **Short codes** (`ShortCode`): `generate_short_code` builds a code of
  `length` characters (default 6), each drawn from `ascii_letters + digits`.
  The `random.choice` results are supplied as *draws*: one alphabet index
  per character.
- **URL validation** (`UrlValidator`): `is_valid_url` matches one
  case-insensitive, anchored regular expression. The model gives it twice:
  - as a declarative language (`UrlSpec`), which quantifies over where the
    scheme, host, port and tail end, as backtracking does;
  - as a single-pass recognizer (`IsValidUrl`).

  `IsValidUrlMeetsSpec` proves that the two agree on every string.
  `UrlExamples` checks concrete strings against both.
- **The `URL` table** (`UrlTable`): the table is a sequence of rows in
  insertion order. `.first()` lookups by either column are modelled, as are
  the insert with its unique short code and the click update. The table
  invariant holds:
  - ids are sequential;
  - codes are well-formed and unique;
  - there is at most one row per original URL;
  - every stored URL passed validation.

  A lemma shows each write keeps the invariant. Another shows that writes
  only move the table forward: no row removed, no mapping altered, clicks
  never decrease.
- **The handlers** (`UrlService`): `shorten_url` and `redirect_url` are
  methods of a `UrlStore` class whose `rows` field they update. The retry
  loop of `shorten_url` is a `while` loop proved against the function
  `FirstFree`. `get_stats` is a function that only reads the store.
- **Client scenarios** (`ServiceScenarios`) run on a fresh store:
  - shortening, then following the link three times, reports three clicks;
  - shortening the same URL twice gives the same code and stores one row;
  - refused requests store nothing;
  - unknown codes are not found.

Outside input is modelled as parameters:

- the posted JSON `url` field is an `Option<string>`;
- `BASE_URL` is the store's constant, set by its constructor;
  `DefaultBaseUrl` is the value used when the environment does not set it;
- the random picks are the `draws` parameter;
- the database clock is the `now` parameter.

Two points where the model follows the code's regular-expression
semantics:

- Python's `$` also matches just before a single newline that ends the
  string. The model keeps that: `"https://a.com\n"` is accepted
  (`UrlExamples.AcceptsFinalNewline`), as `re.match` accepts it. It does
  not apply true end-of-string anchoring.
- The host any split admits is always the longest run of host characters
  after the scheme. This is why a one-pass recognizer decides the
  backtracking pattern (`UrlValidator.SplitIsDetermined`).

## Model

| member | source | states |
|---|---|---|
| ShortCode.GenerateShortCode | app.py:69-71 | the code has exactly `length` characters, each an ASCII letter or digit; character `i` is the alphabet character that pick `i` selects |
| ShortCode.GeneratedExactlyWellFormed | app.py:69-71 | a string is a well-formed code (right length, letters and digits only) exactly when some sequence of picks generates it |
| ShortCode.GenerateInjective | app.py:71 | two pick sequences give the same code only when they are equal |
| ShortCode.AlphabetCharIsAlphabet | app.py:70 | `ascii_letters + digits` has 62 characters, and `AlphabetChar(k)` is its character at index `k` |
| ShortCode.AlphabetChar | app.py:70 | every alphabet character is an ASCII letter or digit |
| ShortCode.AlphabetCharInjective | app.py:70 | the 62 alphabet characters are pairwise distinct |
| ShortCode.AlphabetIndex | app.py:70 | every ASCII letter and digit occurs in the alphabet, at the returned index |
| UrlValidator.IsValidUrl | app.py:74-82 | `is_valid_url`: the scheme, host, port and tail scan succeeds on the whole string, or on all of it but one final newline; its meaning is given by `IsValidUrlMeetsSpec` |
| UrlValidator.IsValidUrlMeetsSpec | app.py:74-82 | `is_valid_url` accepts a string exactly when the pattern matches all of it, or all of it but one final newline |
| UrlValidator.MatchesWholeMeetsSpec | app.py:75-81 | the recognizer accepts a string exactly when it splits into scheme, host, port and tail as the pattern describes |
| UrlValidator.SplitIsDetermined | app.py:76-81 | any split the pattern admits is the recognizer's own: the scheme is `http://` or `https://`, the host is the longest run of host characters, the port is `:` with the longest run of digits |
| UrlValidator.SchemeIsDetermined | app.py:76 | a prefix that is `http://` or `https://` in any case is the one `SchemeLength` finds |
| UrlValidator.SchemeLength | app.py:76 | a non-zero result is the length of a prefix that matches `https?://` ignoring case; the converse (a string that starts with a scheme gets a non-zero result) is `SchemeIsDetermined`'s |
| UrlValidator.ToLower | app.py:81 | case folding takes `A`..`Z` to the letter at the same position in `a`..`z` and leaves lower-case letters and non-letters unchanged (`re.IGNORECASE` on ASCII) |
| UrlValidator.ScanWhile | app.py:77-81 | returns the end of the longest run of characters of one class that starts at `i` |
| UrlValidator.HostMeetsSpec | app.py:77-79 | the host recognizer accepts exactly a domain name, `localhost` in any case, or a dotted quad |
| UrlValidator.HostSpecChars | app.py:77-79 | every host the pattern admits consists of letters, digits, `-` and `.` only |
| UrlValidator.DomainMeetsSpec | app.py:77 | from any position, the label-by-label recognizer accepts exactly `(label.)+` followed by a 2-6 letter TLD and an optional dot |
| UrlValidator.DomainSpecChars | app.py:77 | a domain suffix consists of host characters only |
| UrlValidator.DomainStepIsDetermined | app.py:77 | in any domain the pattern admits, the first label ends at the first dot |
| UrlValidator.Ipv4MeetsSpec | app.py:79 | the quad recognizer accepts exactly four dot-separated groups of 1-3 digits, with no 0-255 range check |
| UrlValidator.Ipv4SplitIsDetermined | app.py:79 | any three dots that cut the host into four digit groups are found by scanning for dots from the left |
| UrlExamples.AcceptsPlainDomain | app.py:76-77 | `https://a.com` is accepted |
| UrlExamples.AcceptsUpperCase | app.py:76-81 | `HTTP://A.COM/` is accepted: scheme and host match in any letter case |
| UrlExamples.AcceptsLocalhostWithPort | app.py:78-80 | `http://localhost:5001` is accepted |
| UrlExamples.AcceptsDottedQuadWithPath | app.py:79-81 | `http://10.0.0.1/a?b=c` is accepted |
| UrlExamples.AcceptsFinalNewline | app.py:81 | `https://a.com` followed by one newline is accepted, because `$` matches before a final newline |
| UrlExamples.RejectsNoScheme | app.py:76 | the empty string and `not a url` are refused |
| UrlExamples.RejectsOtherScheme | app.py:76 | `ftp://example.com` is refused |
| UrlExamples.RejectsBareQuery | app.py:81 | `http://a.com?` is refused: `?` must be followed by at least one character |
| UrlExamples.RejectsSpaceInPath | app.py:81 | `http://a.com/a b` is refused: the tail may not contain whitespace |
| UrlExamples.RejectsSeparatorInPath | app.py:81 | `http://a.com/a`, the FS control character, `b` is refused: the ASCII separators count as whitespace for `\S` |
| UrlTable.FindFirst | app.py:122 | `filter_by(...).first()` returns the first row holding the key in that column, and `None` exactly when no row holds it |
| UrlTable.TableInvariant | app.py:61-66 | defines a reachable table: short codes unique (the `unique=True` column, line 64), at most one row per original URL (the dedup lookup, line 97), and every row with its sequential id, a well-formed code and a validated URL |
| UrlTable.LookupFindsTheRow | app.py:64 | in a valid table, looking up any row's code, or any row's URL, finds exactly that row |
| UrlTable.DistinctUrlsDistinctCodes | app.py:64 | two different stored URLs have different short codes |
| UrlTable.NewRecord | app.py:110 | defines the row `URL(original_url=..., short_code=...)` creates: the given URL and code, the next id, clicks at their default 0 (line 65) and the caller's creation time |
| UrlTable.Insert | app.py:110-112 | adding a row is refused exactly when its code is already stored, as the unique constraint does; otherwise the old rows are kept and the new row is appended with clicks 0 and is the one found by its code |
| UrlTable.InsertKeepsInvariant | app.py:105-112 | inserting a new valid URL under a free, well-formed code keeps the table invariant, and the URL is then found at the new row |
| UrlTable.InsertKeepsRows | app.py:61-66 | after such an insert every row has its sequential id, a well-formed code and a validated URL |
| UrlTable.InsertKeepsKeysUnique | app.py:64 | a new URL under a new code keeps both columns free of duplicates |
| UrlTable.RecordClick | app.py:127 | `clicks += 1` adds exactly one click to that row and changes no other field and no other row |
| UrlTable.RecordClickKeepsInvariant | app.py:127-128 | a click keeps the table invariant |
| UrlTable.ClickExtends | app.py:127 | a click removes no row, alters no mapping and decreases no click count |
| UrlTable.InsertExtends | app.py:110-112 | an insert removes no row, alters no mapping and decreases no click count |
| UrlTable.ExtendsTransitive | app.py:127 | "moves forward" composes: clicks never decrease over any sequence of writes |
| UrlTable.Candidate | app.py:106 | every code the retry loop generates is well-formed with the default length 6 |
| UrlTable.IsTakenIsLookup | app.py:107 | a candidate is taken exactly when the `filter_by(short_code=...).first()` lookup finds a row |
| UrlTable.FirstFree | app.py:105-108 | the retry loop stops at a candidate that no row holds, after candidates that were all taken; `None` means every candidate is taken |
| UrlTable.FirstFreeIsFirst | app.py:105-108 | if candidates `from..n-1` are taken and `n` is free (or the supply ends at `n`), the loop stops at `n` |
| UrlService.ShortUrl | app.py:115 | the short URL is `BASE_URL`, then `/`, then the code |
| UrlService.UrlStore.Valid | app.py:61-66 | defines a valid store: its rows satisfy `TableInvariant` |
| UrlService.UrlStore.constructor | app.py:149 | a new store has an empty table that satisfies the invariant |
| UrlService.UrlStore.Shorten | app.py:86-117 | the handler's result in each case: a missing or empty URL is `URL is required` and a malformed one `Invalid URL format`, both leaving the table unchanged; an already-stored URL returns its row's code and adds no row; otherwise the first free candidate becomes the code and exactly one row is appended with clicks 0; on success the URL is stored, in one row, under the returned code; the invariant holds and clicks never decrease |
| UrlService.UrlStore.ProbeCandidates | app.py:105-108 | the loop returns exactly the first candidate that no row holds, `FirstFree` |
| UrlService.UrlStore.Redirect | app.py:121-130 | an unknown code is not found and changes nothing; a known code redirects to the stored URL verbatim, adds exactly one click to its row and leaves every other row unchanged |
| UrlService.UrlStore.Stats | app.py:134-144 | not found exactly when no row has the code; otherwise the code, URL, clicks and creation time of the row that has it |
| ServiceScenarios.ShortenOnFreshStore | app.py:86-117 | on an empty table, shortening `https://a.com` stores one row with the generated code and clicks 0 |
| ServiceScenarios.ClicksAreCounted | app.py:121-144 | after three redirects through the short code, each to `https://a.com`, the stats report three clicks |
| ServiceScenarios.SameUrlSameCode | app.py:97-102 | shortening the same URL twice gives the same answer and stores one row |
| ServiceScenarios.RefusedRequestsStoreNothing | app.py:90-94 | a missing, empty or malformed URL is refused with its error, and nothing is stored |
| ServiceScenarios.UnknownCodeIsNotFound | app.py:122-124 | on an empty table a code gives neither a redirect nor stats |

## Left out

- HTTP and Flask: routing, `request.get_json`, `jsonify`, `redirect` and the status codes are reduced to the result datatypes `ShortenResult`, `RedirectResult` and `StatsResult`.
- A request body that is not JSON, or a `url` field that is not a string (a number, a list), is not modelled. `url` is an `Option<string>`.
- CORS configuration is configuration, not logic.
- The `BASE_URL` environment lookup is out: the base URL is the store's constant, set by its constructor.
- The Cloud SQL connector, the SQLAlchemy engine and its pool options are foreign libraries. The table is a sequence of rows, and `.first()` returns the oldest matching row.
- `random.choice` is nondeterministic: its results are the `draws` parameter, one sequence of alphabet indices per `generate_short_code()` call.
- UrlService.UrlStore.Shorten: the source's `while True` loop has no bound. The model runs it over a finite supply of draws and answers `DrawsExhausted` when every one is taken. That answer is a modelling device: the source has no such case and would keep drawing.
- The `created_at` clock: the creation time is the caller's `now` parameter. `isoformat()` is date formatting and is not modelled.
- UrlService.UrlStore.Stats: returns `createdAt` as that opaque number, not as an ISO-8601 string.
- The database-assigned `id` is modelled as sequential (its position plus one). Nothing in the handlers reads it.
- Concurrency: the check-then-insert of `shorten_url` and the read-modify-write of `clicks += 1` race under concurrent requests. The model is sequential.
- The unique-constraint error cannot arise on the modelled path, because the loop only picks a free code. `Insert` still models the refusal.
- Python regular-expression fine print beyond ASCII: Unicode `\d` and `\s`, and the non-ASCII characters that IGNORECASE folds onto ASCII letters. Characters are ASCII here: `\d` is 0-9, and `\s` is every ASCII character `str.isspace` holds of: space, TAB, LF, VT, FF, CR and the separators FS, GS, RS, US.
- The `String(2048)` and `String(10)` column widths are storage limits that the code never checks.
- UrlTable.RecordClick: `clicks` is an unbounded `nat`. The `db.Integer` column (app.py:65) is 32-bit on a PostgreSQL backend, and there the commit of `clicks += 1` fails once the counter holds 2^31-1. The model adds one click every time and has no such failure.
- UrlService.UrlStore.Redirect: promises a redirect and one more click for every known code. On a 32-bit `clicks` column, a row at 2^31-1 clicks would make the commit fail and give no redirect; that failure is not modelled.
- The database-assigned `id` is an unbounded `nat` here. The 32-bit `db.Integer` limit on the number of rows is not modelled.
- Application start-up (`app.run`, debug mode, port 5001) is out, apart from the empty table that `db.create_all()` creates.
