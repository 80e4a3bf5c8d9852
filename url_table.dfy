/**
 * The `URL` table of the shortener as a sequence of rows in insertion order,
 * with the queries and writes the request handlers issue against it.
 *
 * The database is modelled as a value: `FindFirst` is
 * `URL.query.filter_by(column=key).first()`, `Insert` adds a row the way
 * `db.session.add` plus `commit` does (refusing a duplicate short code, as the
 * `unique=True` constraint does), and `RecordClick` is `url.clicks += 1`
 * followed by `commit`. `TableInvariant` collects what every reachable table
 * satisfies; the lemmas show each write keeps it.
 */
module UrlTable {
  import opened Wrappers
  import ShortCode
  import UrlValidator

  /**
   * One row of the `URL` model. `id` is the database's sequential key,
   * `createdAt` an opaque timestamp supplied by the caller's clock.
   */
  datatype UrlRecord = UrlRecord(
    id: nat,
    originalUrl: string,
    shortCode: string,
    clicks: nat,
    createdAt: int)

  /** The two columns the handlers query by. */
  datatype Column = OriginalUrlColumn | ShortCodeColumn

  function KeyOf(row: UrlRecord, col: Column): string {
    match col
    case OriginalUrlColumn => row.originalUrl
    case ShortCodeColumn => row.shortCode
  }

  /**
   * `URL.query.filter_by(col=key).first()`: the position of the first row
   * whose column equals `key`, or `None` when no row has it.
   */
  function FindFirst(rows: seq<UrlRecord>, col: Column, key: string): (r: Option<nat>)
    ensures r.Some? ==> r.value < |rows| && KeyOf(rows[r.value], col) == key
    ensures r.Some? ==> forall j :: 0 <= j < r.value ==> KeyOf(rows[j], col) != key
    ensures r.None? <==> forall j :: 0 <= j < |rows| ==> KeyOf(rows[j], col) != key
  {
    if rows == [] then None
    else if KeyOf(rows[0], col) == key then Some(0)
    else
      match FindFirst(rows[1..], col, key)
      case None => None
      case Some(k) => Some(k + 1)
  }

  /** No two rows share a value in the column. */
  ghost predicate KeysUnique(rows: seq<UrlRecord>, col: Column) {
    forall i, j :: 0 <= i < j < |rows| ==> KeyOf(rows[i], col) != KeyOf(rows[j], col)
  }

  /** What each stored row satisfies: its id is its position plus one, its code is well-formed and its URL passed validation. */
  ghost predicate RowInvariant(rows: seq<UrlRecord>, i: int)
    requires 0 <= i < |rows|
  {
    rows[i].id == i + 1 &&
    ShortCode.IsWellFormed(rows[i].shortCode, ShortCode.DefaultLength) &&
    rows[i].originalUrl != "" && UrlValidator.IsValidUrl(rows[i].originalUrl)
  }

  /**
   * The table invariant: short codes are unique (the column's `unique=True`),
   * there is at most one row per original URL (the dedup check in
   * `shorten_url`), and every row is well-formed.
   */
  ghost predicate TableInvariant(rows: seq<UrlRecord>) {
    KeysUnique(rows, ShortCodeColumn) &&
    KeysUnique(rows, OriginalUrlColumn) &&
    forall i :: 0 <= i < |rows| ==> RowInvariant(rows, i)
  }

  /** In a valid table a lookup by either column finds the one row that holds the key. */
  lemma LookupFindsTheRow(rows: seq<UrlRecord>, i: int, col: Column)
    requires TableInvariant(rows) && 0 <= i < |rows|
    ensures FindFirst(rows, col, KeyOf(rows[i], col)) == Some(i)
  {
    assert KeysUnique(rows, col) by {
      match col
      case ShortCodeColumn =>
      case OriginalUrlColumn =>
    }
  }

  /** Distinct original URLs in a valid table are mapped to distinct short codes. */
  lemma DistinctUrlsDistinctCodes(rows: seq<UrlRecord>, u1: string, u2: string)
    requires TableInvariant(rows) && u1 != u2
    requires FindFirst(rows, OriginalUrlColumn, u1).Some?
    requires FindFirst(rows, OriginalUrlColumn, u2).Some?
    ensures rows[FindFirst(rows, OriginalUrlColumn, u1).value].shortCode !=
            rows[FindFirst(rows, OriginalUrlColumn, u2).value].shortCode
  {
    var k1 := FindFirst(rows, OriginalUrlColumn, u1).value;
    var k2 := FindFirst(rows, OriginalUrlColumn, u2).value;
    if k1 < k2 {
      assert KeyOf(rows[k1], ShortCodeColumn) != KeyOf(rows[k2], ShortCodeColumn);
    } else {
      assert KeyOf(rows[k2], ShortCodeColumn) != KeyOf(rows[k1], ShortCodeColumn);
    }
  }

  /** The row `db.session.add(URL(original_url=url, short_code=code))` creates: clicks start at 0. */
  function NewRecord(rows: seq<UrlRecord>, url: string, code: string, now: int): UrlRecord {
    UrlRecord(|rows| + 1, url, code, 0, now)
  }

  /**
   * `db.session.add` and `commit` of a new row: refused (the unique
   * constraint's integrity error) when the code is already stored, otherwise
   * the table with the new row appended and every old row untouched.
   */
  function Insert(rows: seq<UrlRecord>, url: string, code: string, now: int): (r: Option<seq<UrlRecord>>)
    ensures r.None? <==> FindFirst(rows, ShortCodeColumn, code).Some?
    ensures r.Some? ==> |r.value| == |rows| + 1 && r.value[..|rows|] == rows
    ensures r.Some? ==> FindFirst(r.value, ShortCodeColumn, code) == Some(|rows|)
    ensures r.Some? ==> r.value[|rows|] == NewRecord(rows, url, code, now)
  {
    if FindFirst(rows, ShortCodeColumn, code).Some? then None
    else
      var after := rows + [NewRecord(rows, url, code, now)];
      assert after[..|rows|] == rows;
      assert forall j :: 0 <= j < |rows| ==> after[j] == rows[j];
      assert KeyOf(after[|rows|], ShortCodeColumn) == code;
      Some(after)
  }

  /**
   * Inserting a new URL under a free, well-formed code keeps the invariant,
   * and the URL is then found at the new row.
   */
  lemma InsertKeepsInvariant(rows: seq<UrlRecord>, url: string, code: string, now: int)
    requires TableInvariant(rows)
    requires FindFirst(rows, OriginalUrlColumn, url).None?
    requires FindFirst(rows, ShortCodeColumn, code).None?
    requires ShortCode.IsWellFormed(code, ShortCode.DefaultLength)
    requires url != "" && UrlValidator.IsValidUrl(url)
    ensures Insert(rows, url, code, now).Some?
    ensures TableInvariant(Insert(rows, url, code, now).value)
    ensures FindFirst(Insert(rows, url, code, now).value, OriginalUrlColumn, url) == Some(|rows|)
  {
    var after := rows + [NewRecord(rows, url, code, now)];
    assert Insert(rows, url, code, now) == Some(after);
    InsertKeepsRows(rows, url, code, now);
    InsertKeepsKeysUnique(rows, url, code, now);
    LookupFindsTheRow(after, |rows|, OriginalUrlColumn);
  }

  /** Every row of the table after an insert is well-formed. */
  lemma InsertKeepsRows(rows: seq<UrlRecord>, url: string, code: string, now: int)
    requires TableInvariant(rows)
    requires ShortCode.IsWellFormed(code, ShortCode.DefaultLength)
    requires url != "" && UrlValidator.IsValidUrl(url)
    ensures var after := rows + [NewRecord(rows, url, code, now)];
      forall i :: 0 <= i < |after| ==> RowInvariant(after, i)
  {
    var after := rows + [NewRecord(rows, url, code, now)];
    forall i | 0 <= i < |after| ensures RowInvariant(after, i) {
      if i < |rows| {
        assert after[i] == rows[i];
        assert RowInvariant(rows, i);
      }
    }
  }

  /** A new URL under a new code keeps both columns free of duplicates. */
  lemma InsertKeepsKeysUnique(rows: seq<UrlRecord>, url: string, code: string, now: int)
    requires TableInvariant(rows)
    requires FindFirst(rows, OriginalUrlColumn, url).None?
    requires FindFirst(rows, ShortCodeColumn, code).None?
    ensures var after := rows + [NewRecord(rows, url, code, now)];
      KeysUnique(after, ShortCodeColumn) && KeysUnique(after, OriginalUrlColumn)
  {
    var after := rows + [NewRecord(rows, url, code, now)];
    forall i, j | 0 <= i < j < |after|
      ensures KeyOf(after[i], ShortCodeColumn) != KeyOf(after[j], ShortCodeColumn)
      ensures KeyOf(after[i], OriginalUrlColumn) != KeyOf(after[j], OriginalUrlColumn)
    {
      if j < |rows| {
        assert after[i] == rows[i] && after[j] == rows[j];
      } else {
        assert after[i] == rows[i];
      }
    }
  }

  /** `url.clicks += 1` on the row at `k`. */
  function RecordClick(rows: seq<UrlRecord>, k: int): (r: seq<UrlRecord>)
    requires 0 <= k < |rows|
    ensures |r| == |rows|
    ensures r[k].clicks == rows[k].clicks + 1
    ensures r[k] == rows[k].(clicks := r[k].clicks)
    ensures forall j :: 0 <= j < |rows| && j != k ==> r[j] == rows[j]
  {
    rows[k := rows[k].(clicks := rows[k].clicks + 1)]
  }

  /** A click changes no key, so it keeps the invariant. */
  lemma RecordClickKeepsInvariant(rows: seq<UrlRecord>, k: int)
    requires TableInvariant(rows) && 0 <= k < |rows|
    ensures TableInvariant(RecordClick(rows, k))
  {
    var after := RecordClick(rows, k);
    forall i | 0 <= i < |after| ensures RowInvariant(after, i) {
      assert RowInvariant(rows, i);
    }
    forall i, j | 0 <= i < j < |after|
      ensures KeyOf(after[i], ShortCodeColumn) != KeyOf(after[j], ShortCodeColumn)
      ensures KeyOf(after[i], OriginalUrlColumn) != KeyOf(after[j], OriginalUrlColumn)
    {
      assert KeyOf(after[i], ShortCodeColumn) == KeyOf(rows[i], ShortCodeColumn);
      assert KeyOf(after[j], ShortCodeColumn) == KeyOf(rows[j], ShortCodeColumn);
      assert KeyOf(after[i], OriginalUrlColumn) == KeyOf(rows[i], OriginalUrlColumn);
      assert KeyOf(after[j], OriginalUrlColumn) == KeyOf(rows[j], OriginalUrlColumn);
    }
  }

  /**
   * `after` is a later state of `before`: rows are never removed, a row's id,
   * URL, code and creation time never change, and its clicks never decrease.
   */
  ghost predicate Extends(before: seq<UrlRecord>, after: seq<UrlRecord>) {
    |before| <= |after| &&
    forall i :: 0 <= i < |before| ==>
      after[i].id == before[i].id &&
      after[i].originalUrl == before[i].originalUrl &&
      after[i].shortCode == before[i].shortCode &&
      after[i].createdAt == before[i].createdAt &&
      after[i].clicks >= before[i].clicks
  }

  /** A click moves the table forward: only one row's clicks grow. */
  lemma ClickExtends(rows: seq<UrlRecord>, k: int)
    requires 0 <= k < |rows|
    ensures Extends(rows, RecordClick(rows, k))
  {
  }

  /** An insert moves the table forward: old rows stay as they were. */
  lemma InsertExtends(rows: seq<UrlRecord>, url: string, code: string, now: int)
    ensures Insert(rows, url, code, now).Some? ==> Extends(rows, Insert(rows, url, code, now).value)
  {
    var r := Insert(rows, url, code, now);
    if r.Some? {
      forall i | 0 <= i < |rows| ensures r.value[i] == rows[i] {
        assert r.value[i] == r.value[..|rows|][i];
      }
    }
  }

  lemma ExtendsTransitive(a: seq<UrlRecord>, b: seq<UrlRecord>, c: seq<UrlRecord>)
    requires Extends(a, b) && Extends(b, c)
    ensures Extends(a, c)
  {
  }

  // ---------------------------------------------------------------------------
  // Drawing candidate codes

  /** A finite supply of draws, each good for one `generate_short_code()` call. */
  predicate AreDraws(draws: seq<seq<nat>>) {
    forall i :: 0 <= i < |draws| ==> ShortCode.IsDraw(draws[i], ShortCode.DefaultLength)
  }

  /** The code the `n`-th `generate_short_code()` call of the retry loop returns. */
  function Candidate(draws: seq<seq<nat>>, n: int): (code: string)
    requires AreDraws(draws) && 0 <= n < |draws|
    ensures ShortCode.IsWellFormed(code, ShortCode.DefaultLength)
  {
    ShortCode.GenerateShortCode(ShortCode.DefaultLength, draws[n])
  }

  /**
   * The code is already stored: the loop's `URL.query.filter_by(short_code=...).first()`
   * finds a row. Stated over the rows directly; `IsTakenIsLookup` shows it is
   * `FindFirst(rows, ShortCodeColumn, code).Some?`, by `FindFirst`'s third ensures.
   */
  predicate IsTaken(rows: seq<UrlRecord>, code: string) {
    exists j :: 0 <= j < |rows| && rows[j].shortCode == code
  }

  /** `IsTaken` is the short-code lookup succeeding. */
  lemma IsTakenIsLookup(rows: seq<UrlRecord>, code: string)
    ensures IsTaken(rows, code) <==> FindFirst(rows, ShortCodeColumn, code).Some?
  {
  }

  /**
   * Where the retry loop of `shorten_url` stops: the first candidate whose
   * code no row holds, or `None` when every candidate is taken.
   */
  function FirstFree(rows: seq<UrlRecord>, draws: seq<seq<nat>>, from: int): (r: Option<nat>)
    requires AreDraws(draws) && 0 <= from <= |draws|
    ensures r.Some? ==> from <= r.value < |draws| && !IsTaken(rows, Candidate(draws, r.value))
    ensures r.Some? ==> forall j :: from <= j < r.value ==> IsTaken(rows, Candidate(draws, j))
    ensures r.None? ==> forall j :: from <= j < |draws| ==> IsTaken(rows, Candidate(draws, j))
    decreases |draws| - from
  {
    if from == |draws| then None
    else if !IsTaken(rows, Candidate(draws, from)) then Some(from)
    else FirstFree(rows, draws, from + 1)
  }

  /**
   * `FirstFree` is the first free candidate at or after `from`: when every
   * candidate in `[from, n)` is taken and `n` is free (or the supply ends at
   * `n`), the search stops at `n`.
   */
  lemma FirstFreeIsFirst(rows: seq<UrlRecord>, draws: seq<seq<nat>>, from: int, n: int)
    requires AreDraws(draws) && 0 <= from <= n <= |draws|
    requires forall j :: from <= j < n ==> IsTaken(rows, Candidate(draws, j))
    requires n < |draws| ==> !IsTaken(rows, Candidate(draws, n))
    ensures FirstFree(rows, draws, from) == if n < |draws| then Some(n) else None
  {
  }
}
