/**
 * Marking and unmarking a country as visited
 * (src/lib/actions/visited-countries.ts). The code is stored upper-cased;
 * marking is an upsert on the pair (user, code), so it never creates a
 * second row, and unmarking deletes the pair's row.
 */
module VisitedCountries {
  import opened Options
  import opened Strings
  import opened Backend
  import opened Actions

  /** The upsert on the conflict target (user_id, country_code): the row is present afterwards, once. */
  function Upsert(rows: seq<VisitedRow>, row: VisitedRow): (r: seq<VisitedRow>)
    ensures forall x :: x in r <==> x in rows || x == row
    ensures VisitedValid(rows) ==> VisitedValid(r)
    ensures row in rows ==> r == rows
  {
    if row in rows then rows else rows + [row]
  }

  /** The delete filter `.eq("user_id", user).eq("country_code", code)`. */
  function RemovePair(rows: seq<VisitedRow>, user: UserId, code: string): (r: seq<VisitedRow>)
    ensures |r| <= |rows|
    ensures forall x :: x in r <==> x in rows && x != VisitedRow(user, code)
  {
    if rows == [] then []
    else if rows[0] == VisitedRow(user, code) then RemovePair(rows[1..], user, code)
    else [rows[0]] + RemovePair(rows[1..], user, code)
  }

  lemma {:induction false} RemovePairKeepsValid(rows: seq<VisitedRow>, user: UserId, code: string)
    requires VisitedValid(rows)
    ensures VisitedValid(RemovePair(rows, user, code))
  {
    if rows != [] {
      VisitedValidTail(rows);
      RemovePairKeepsValid(rows[1..], user, code);
      if rows[0] != VisitedRow(user, code) {
        VisitedValidCons(rows[0], RemovePair(rows[1..], user, code));
      }
    }
  }

  /** Marking twice leaves the same rows as marking once. */
  lemma UpsertIdempotent(rows: seq<VisitedRow>, row: VisitedRow)
    ensures Upsert(Upsert(rows, row), row) == Upsert(rows, row)
  {
  }

  /** Whatever the earlier state, unmarking after marking leaves no row for the pair, and the other rows as they were. */
  lemma MarkThenUnmark(rows: seq<VisitedRow>, user: UserId, code: string)
    ensures VisitedRow(user, code) !in RemovePair(Upsert(rows, VisitedRow(user, code)), user, code)
    ensures forall x :: x != VisitedRow(user, code) ==>
              (x in RemovePair(Upsert(rows, VisitedRow(user, code)), user, code) <==> x in rows)
  {
  }

  /** `markCountryVisited`: the user's upper-cased code is present once afterwards, unless the upsert fails. */
  method Mark(db: Database, user: Option<UserId>, countryCode: string, upper: CaseMap, upsertError: Option<string>)
    returns (r: ActionResult)
    requires db.Valid()
    modifies db
    ensures db.Valid()
    ensures user.None? ==> r == Threw(Unauthorized)
    ensures user.Some? && upsertError.Some? ==> r == Failed(upsertError.value)
    ensures r == Succeeded <==> user.Some? && upsertError.None?
    ensures r == Succeeded ==> db.visited == Upsert(old(db.visited), VisitedRow(user.value, upper(countryCode)))
    ensures r != Succeeded ==> db.visited == old(db.visited)
    ensures db.trips == old(db.trips) && db.photos == old(db.photos) && db.portraits == old(db.portraits)
    ensures db.storage == old(db.storage) && db.nextId == old(db.nextId)
  {
    if user.None? {
      return Threw(Unauthorized);
    }
    if upsertError.Some? {
      return Failed(upsertError.value);
    }
    db.visited := Upsert(db.visited, VisitedRow(user.value, upper(countryCode)));
    return Succeeded;
  }

  /** `unmarkCountryVisited`: the user's upper-cased code is absent afterwards, unless the delete fails. */
  method Unmark(db: Database, user: Option<UserId>, countryCode: string, upper: CaseMap, deleteError: Option<string>)
    returns (r: ActionResult)
    requires db.Valid()
    modifies db
    ensures db.Valid()
    ensures user.None? ==> r == Threw(Unauthorized)
    ensures user.Some? && deleteError.Some? ==> r == Failed(deleteError.value)
    ensures r == Succeeded <==> user.Some? && deleteError.None?
    ensures r == Succeeded ==> db.visited == RemovePair(old(db.visited), user.value, upper(countryCode))
    ensures r != Succeeded ==> db.visited == old(db.visited)
    ensures db.trips == old(db.trips) && db.photos == old(db.photos) && db.portraits == old(db.portraits)
    ensures db.storage == old(db.storage) && db.nextId == old(db.nextId)
  {
    if user.None? {
      return Threw(Unauthorized);
    }
    if deleteError.Some? {
      return Failed(deleteError.value);
    }
    RemovePairKeepsValid(db.visited, user.value, upper(countryCode));
    db.visited := RemovePair(db.visited, user.value, upper(countryCode));
    return Succeeded;
  }

  /** Codes differing only in case reach the same row: marking "fr" and unmarking "FR" cancel out when the mapping agrees on them. */
  lemma CaseInsensitiveUnmark(rows: seq<VisitedRow>, user: UserId, a: string, b: string, upper: CaseMap)
    requires upper(a) == upper(b)
    ensures VisitedRow(user, upper(a)) !in RemovePair(Upsert(rows, VisitedRow(user, upper(a))), user, upper(b))
  {
  }
}
