/**
 * The hosted backend as the server actions see it: the `trips`, `photos`,
 * `visited_countries` and `ai_portraits` tables (row shapes of
 * src/types/index.ts) and the "trip-photos" storage bucket. Row ids are
 * drawn from a counter; the invariant says they are unique, that every trip
 * row carries its required fields, and that a user's visited code appears
 * once (the `user_id, country_code` conflict target of the upsert).
 */
module Backend {
  import opened Options

  type UserId = string

  /** The columns written by the trip form. */
  datatype TripFields = TripFields(
    countryCode: Option<string>,
    countryName: Option<string>,
    city: Option<string>,
    title: Option<string>,
    startedAt: Option<string>,
    endedAt: Option<string>,
    notes: Option<string>,
    mood: Option<string>,
    isPublic: bool)

  datatype TripRow = TripRow(id: nat, userId: UserId, fields: TripFields)

  datatype PhotoRow = PhotoRow(id: nat, tripId: nat, userId: UserId, storagePath: string,
                               caption: Option<string>, sortOrder: int)

  datatype VisitedRow = VisitedRow(userId: UserId, countryCode: string)

  datatype PortraitRow = PortraitRow(userId: UserId, archetype: Option<string>, content: string,
                                     tripsCount: nat, modelVersion: string)

  /** A JavaScript value that is falsy as a string field: missing, null or "". */
  predicate Blank(o: Option<string>) {
    o.None? || o.value == ""
  }

  /** The required-field test of create and update: country code, country name and start date. */
  predicate HasRequired(f: TripFields) {
    !Blank(f.countryCode) && !Blank(f.countryName) && !Blank(f.startedAt)
  }

  predicate TripsValid(trips: seq<TripRow>, nextId: nat) {
    && (forall i :: 0 <= i < |trips| ==> trips[i].id < nextId && HasRequired(trips[i].fields))
    && (forall i, j :: 0 <= i < j < |trips| ==> trips[i].id != trips[j].id)
  }

  predicate PhotosValid(photos: seq<PhotoRow>, nextId: nat) {
    && (forall i :: 0 <= i < |photos| ==> photos[i].id < nextId)
    && (forall i, j :: 0 <= i < j < |photos| ==> photos[i].id != photos[j].id)
  }

  predicate VisitedValid(visited: seq<VisitedRow>) {
    forall i, j :: 0 <= i < j < |visited| ==> visited[i] != visited[j]
  }

  // ----- Validity of a table under dropping or adding its first row -----

  lemma TripsValidTail(trips: seq<TripRow>, nextId: nat)
    requires TripsValid(trips, nextId) && trips != []
    ensures TripsValid(trips[1..], nextId)
    ensures forall t :: t in trips[1..] ==> t.id != trips[0].id
  {
    var t := trips[1..];
    forall i, j | 0 <= i < j < |t| ensures t[i].id != t[j].id {
      assert t[i] == trips[i + 1] && t[j] == trips[j + 1];
    }
    forall x | x in t ensures x.id != trips[0].id {
      var k :| 0 <= k < |t| && t[k] == x;
      assert x == trips[k + 1];
    }
  }

  lemma TripsValidCons(x: TripRow, rest: seq<TripRow>, nextId: nat)
    requires TripsValid(rest, nextId) && x.id < nextId && HasRequired(x.fields)
    requires forall t :: t in rest ==> t.id != x.id
    ensures TripsValid([x] + rest, nextId)
  {
    var r := [x] + rest;
    forall i | 0 < i < |r| ensures r[i] == rest[i - 1] && r[i] in rest {
    }
  }

  lemma PhotosValidTail(photos: seq<PhotoRow>, nextId: nat)
    requires PhotosValid(photos, nextId) && photos != []
    ensures PhotosValid(photos[1..], nextId)
    ensures forall p :: p in photos[1..] ==> p.id != photos[0].id
  {
    var t := photos[1..];
    forall i, j | 0 <= i < j < |t| ensures t[i].id != t[j].id {
      assert t[i] == photos[i + 1] && t[j] == photos[j + 1];
    }
    forall x | x in t ensures x.id != photos[0].id {
      var k :| 0 <= k < |t| && t[k] == x;
      assert x == photos[k + 1];
    }
  }

  lemma PhotosValidCons(x: PhotoRow, rest: seq<PhotoRow>, nextId: nat)
    requires PhotosValid(rest, nextId) && x.id < nextId
    requires forall p :: p in rest ==> p.id != x.id
    ensures PhotosValid([x] + rest, nextId)
  {
    var r := [x] + rest;
    forall i | 0 < i < |r| ensures r[i] == rest[i - 1] && r[i] in rest {
    }
  }

  lemma VisitedValidTail(rows: seq<VisitedRow>)
    requires VisitedValid(rows) && rows != []
    ensures VisitedValid(rows[1..])
    ensures rows[0] !in rows[1..]
  {
    var t := rows[1..];
    forall i, j | 0 <= i < j < |t| ensures t[i] != t[j] {
      assert t[i] == rows[i + 1] && t[j] == rows[j + 1];
    }
    forall k | 0 <= k < |t| ensures t[k] != rows[0] {
      assert t[k] == rows[k + 1];
    }
  }

  lemma VisitedValidCons(x: VisitedRow, rest: seq<VisitedRow>)
    requires VisitedValid(rest) && x !in rest
    ensures VisitedValid([x] + rest)
  {
    var r := [x] + rest;
    forall i | 0 < i < |r| ensures r[i] == rest[i - 1] && r[i] in rest {
    }
  }

  // ----- Validity under inserting a row with the next id -----

  lemma TripsValidAppend(trips: seq<TripRow>, x: TripRow, nextId: nat)
    requires TripsValid(trips, nextId) && x.id == nextId && HasRequired(x.fields)
    ensures TripsValid(trips + [x], nextId + 1)
  {
    var r := trips + [x];
    forall i | 0 <= i < |trips| ensures r[i] == trips[i] {
    }
  }

  lemma TripsValidRaise(trips: seq<TripRow>, nextId: nat)
    requires TripsValid(trips, nextId)
    ensures TripsValid(trips, nextId + 1)
  {
  }

  lemma PhotosValidAppend(photos: seq<PhotoRow>, x: PhotoRow, nextId: nat)
    requires PhotosValid(photos, nextId) && x.id == nextId
    ensures PhotosValid(photos + [x], nextId + 1)
  {
    var r := photos + [x];
    forall i | 0 <= i < |photos| ensures r[i] == photos[i] {
    }
  }

  lemma PhotosValidRaise(photos: seq<PhotoRow>, nextId: nat)
    requires PhotosValid(photos, nextId)
    ensures PhotosValid(photos, nextId + 1)
  {
  }

  class Database {
    var trips: seq<TripRow>
    var photos: seq<PhotoRow>
    var visited: seq<VisitedRow>
    var portraits: seq<PortraitRow>
    /** The object paths held in the "trip-photos" bucket. */
    var storage: set<string>
    var nextId: nat

    predicate Valid()
      reads this
    {
      TripsValid(trips, nextId) && PhotosValid(photos, nextId) && VisitedValid(visited)
    }

    /** `insert` of a complete trip row: it gets the next id. */
    method InsertTrip(userId: UserId, fields: TripFields) returns (id: nat)
      requires Valid() && HasRequired(fields)
      modifies this
      ensures Valid()
      ensures id == old(nextId) && nextId == old(nextId) + 1
      ensures trips == old(trips) + [TripRow(id, userId, fields)]
      ensures photos == old(photos) && visited == old(visited)
      ensures portraits == old(portraits) && storage == old(storage)
    {
      id := nextId;
      TripsValidAppend(trips, TripRow(id, userId, fields), id);
      PhotosValidRaise(photos, id);
      trips, nextId := trips + [TripRow(id, userId, fields)], id + 1;
    }

    /** Replaces the trips table by a valid one, as an `update` or `delete` on it does. */
    method SetTrips(t: seq<TripRow>)
      requires Valid() && TripsValid(t, nextId)
      modifies this
      ensures Valid()
      ensures trips == t
      ensures photos == old(photos) && visited == old(visited) && nextId == old(nextId)
      ensures portraits == old(portraits) && storage == old(storage)
    {
      trips := t;
    }

    constructor ()
      ensures Valid()
      ensures trips == [] && photos == [] && visited == [] && portraits == []
      ensures storage == {} && nextId == 0
    {
      trips := [];
      photos := [];
      visited := [];
      portraits := [];
      storage := {};
      nextId := 0;
    }
  }
}
