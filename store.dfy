/** The `urls` table of the durable store, as the migration
    server/src/db/migrations/20250201120000_create-urls-table.js declares it
    and as the services use it through knex: point lookups by slug, inserts,
    and in-place counter increments. The store is either reachable for the
    whole of a call or not; when it is not, every statement fails. */
module UrlStore {
  import opened Common
  import opened Platform

  /** `t.string("slug", 8)`: the column is `varchar(8)`. */
  const SlugColumnWidth: nat := 8

  /** `t.integer(...)`: counters are 32-bit signed integers. */
  const Int4Max: nat := 0x7FFF_FFFF

  /** The errors a statement can throw. */
  datatype DbError =
    | Unavailable        // the connection cannot be made
    | InvalidTimestamp   // the expiration text is not a timestamp
    | ValueTooLong       // the slug does not fit varchar(8)
    | UniqueViolation    // the slug is already taken

  /** One row of `urls`; `id` stands for the generated uuid. The timestamps
      and the `utm_params` column, which no core operation reads, are left out. */
  datatype UrlRow = UrlRow(id: nat, originalUrl: string, slug: string, expirationDate: Option<int>,
                           clickCount: nat, expiredAccessCount: nat)

  datatype Counter = ClickCount | ExpiredAccessCount

  function CounterValue(row: UrlRow, c: Counter): nat {
    match c
    case ClickCount => row.clickCount
    case ExpiredAccessCount => row.expiredAccessCount
  }

  /** `increment(column, 1)` on one row. */
  function Bumped(row: UrlRow, c: Counter): (r: UrlRow)
    ensures CounterValue(r, c) == CounterValue(row, c) + 1
    ensures r.id == row.id && r.slug == row.slug && r.originalUrl == row.originalUrl
            && r.expirationDate == row.expirationDate
    ensures c == ClickCount ==> r.expiredAccessCount == row.expiredAccessCount
    ensures c == ExpiredAccessCount ==> r.clickCount == row.clickCount
  {
    match c
    case ClickCount => row.(clickCount := row.clickCount + 1)
    case ExpiredAccessCount => row.(expiredAccessCount := row.expiredAccessCount + 1)
  }

  /** The table's constraints: rows are keyed by their slug (unique index),
      slugs fit the column, ids are unique and below the next one to hand out. */
  ghost predicate WellFormed(rows: map<string, UrlRow>, nextId: nat) {
    (forall s :: s in rows ==> rows[s].slug == s && |s| <= SlugColumnWidth && rows[s].id < nextId)
    && UniqueIds(rows)
  }

  /** No two rows share an id. */
  ghost predicate UniqueIds(rows: map<string, UrlRow>) {
    forall s, t :: s in rows && t in rows && rows[s].id == rows[t].id ==> s == t
  }

  /** `where({ id }).increment(c, 1)`: every row with that id gains one. */
  function IncrementedById(rows: map<string, UrlRow>, id: nat, c: Counter): map<string, UrlRow> {
    map s | s in rows :: if rows[s].id == id then Bumped(rows[s], c) else rows[s]
  }

  /** Ids are unique, so an increment by the id of the row under `slug`
      changes that row alone. */
  lemma IncrementByIdTouchesOneRow(rows: map<string, UrlRow>, nextId: nat, slug: string, c: Counter)
    requires WellFormed(rows, nextId) && slug in rows
    ensures IncrementedById(rows, rows[slug].id, c) == rows[slug := Bumped(rows[slug], c)]
  {
    var lhs := IncrementedById(rows, rows[slug].id, c);
    var rhs := rows[slug := Bumped(rows[slug], c)];
    assert lhs.Keys == rhs.Keys;
    forall s | s in lhs ensures lhs[s] == rhs[s] {
      if s != slug {
        assert rows[s].id != rows[slug].id;
      }
    }
  }

  /** A row with a new slug and the next id keeps the table well formed. */
  lemma InsertKeepsWellFormed(rows: map<string, UrlRow>, nextId: nat, row: UrlRow)
    requires WellFormed(rows, nextId)
    requires row.slug !in rows && |row.slug| <= SlugColumnWidth && row.id == nextId
    ensures WellFormed(rows[row.slug := row], nextId + 1)
  {
    var rows' := rows[row.slug := row];
    forall s, t | s in rows' && t in rows' && rows'[s].id == rows'[t].id
      ensures s == t
    {
      if s != row.slug && t != row.slug {
        assert rows[s].id == rows[t].id;
      }
    }
  }

  class Store {
    var rows: map<string, UrlRow>
    var nextId: nat
    /** Whether the database answers; it does or does not for the life of the object. */
    const reachable: bool
    /** How many lookups by slug have been issued so far, answered or not. */
    ghost var lookups: nat

    ghost predicate Valid()
      reads this
    {
      WellFormed(rows, nextId)
    }

    constructor (reachable: bool)
      ensures Valid()
      ensures rows == map[] && this.reachable == reachable && lookups == 0
    {
      rows := map[];
      nextId := 0;
      this.reachable := reachable;
      lookups := 0;
    }

    /** `db("urls").where({ slug }).first()`: the row, `undefined`, or a thrown error. */
    method FindBySlug(slug: string) returns (r: Result<Option<UrlRow>, DbError>)
      modifies this
      ensures rows == old(rows) && nextId == old(nextId) && lookups == old(lookups) + 1
      ensures !reachable <==> r.Failure?
      ensures r.Failure? ==> r.error == Unavailable
      ensures r.Success? ==> (r.value.Some? <==> slug in rows)
      ensures r.Success? && r.value.Some? ==> r.value.value == rows[slug]
    {
      lookups := lookups + 1;
      if !reachable {
        return Failure(Unavailable);
      }
      r := Success(if slug in rows then Some(rows[slug]) else None);
    }

    /** `insert({ original_url, slug, expiration_date })`: the database
        converts the date, checks the column width and the unique index,
        and hands out a fresh id with both counters at their default 0. */
    method Insert(originalUrl: string, slug: string, expiration: Option<string>, toTimestamp: DateParser)
      returns (r: Result<UrlRow, DbError>)
      requires Valid()
      modifies this
      ensures Valid() && lookups == old(lookups)
      ensures r.Failure? ==> rows == old(rows) && nextId == old(nextId)
      ensures r.Success? <==> reachable && |slug| <= SlugColumnWidth && slug !in old(rows)
                              && (expiration.Some? ==> toTimestamp(expiration.value).Some?)
      ensures r.Success? ==>
                r.value == UrlRow(old(nextId), originalUrl, slug,
                                  if expiration.Some? then toTimestamp(expiration.value) else None, 0, 0)
                && rows == old(rows)[slug := r.value]
    {
      if !reachable {
        r := Failure(Unavailable);
      } else if expiration.Some? && toTimestamp(expiration.value).None? {
        r := Failure(InvalidTimestamp);
      } else if |slug| > SlugColumnWidth {
        r := Failure(ValueTooLong);
      } else if slug in rows {
        r := Failure(UniqueViolation);
      } else {
        var row := UrlRow(nextId, originalUrl, slug,
                          if expiration.Some? then toTimestamp(expiration.value) else None, 0, 0);
        InsertKeepsWellFormed(rows, nextId, row);
        rows := rows[slug := row];
        nextId := nextId + 1;
        r := Success(row);
      }
    }

    /** `where({ id }).increment(c, 1)`: fails without any change when the
        store is down or the counter would leave the 32-bit range. */
    method IncrementWhereId(id: nat, c: Counter) returns (ok: bool)
      requires Valid()
      modifies this
      ensures Valid() && nextId == old(nextId) && lookups == old(lookups)
      ensures ok <==> reachable && forall s :: (s in old(rows) && old(rows)[s].id == id)
                                               ==> CounterValue(old(rows)[s], c) < Int4Max
      ensures rows == if ok then IncrementedById(old(rows), id, c) else old(rows)
    {
      if !reachable {
        return false;
      }
      if exists s :: s in rows && rows[s].id == id && CounterValue(rows[s], c) >= Int4Max {
        return false;
      }
      rows := IncrementedById(rows, id, c);
      ok := true;
    }

    /** `where({ slug }).increment(c, 1)`: as above, on the row with that slug, if any. */
    method IncrementWhereSlug(slug: string, c: Counter) returns (ok: bool)
      requires Valid()
      modifies this
      ensures Valid() && nextId == old(nextId) && lookups == old(lookups)
      ensures ok <==> reachable && (slug in old(rows) ==> CounterValue(old(rows)[slug], c) < Int4Max)
      ensures rows == if ok && slug in old(rows) then old(rows)[slug := Bumped(old(rows)[slug], c)]
                      else old(rows)
    {
      if !reachable {
        return false;
      }
      if slug in rows && CounterValue(rows[slug], c) >= Int4Max {
        return false;
      }
      if slug in rows {
        rows := rows[slug := Bumped(rows[slug], c)];
      }
      ok := true;
    }
  }
}
