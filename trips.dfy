/**
 * The trip server actions (src/lib/actions/trips.ts): reading the trip
 * columns from the submitted form, and creating, updating and deleting a
 * trip of the signed-in user. Backend failures are inputs: the error the
 * backend would report, or whether a call fails.
 */
module Trips {
  import opened Options
  import opened Strings
  import opened Backend
  import opened FormDatas
  import opened Actions

  const RequiredMessage: string := "Страна и дата начала обязательны"

  const TripFieldNames: seq<string> :=
    ["country_code", "country_name", "city", "title", "started_at", "ended_at", "notes", "mood"]

  /** The `as string` casts: every trip field the form holds is a text entry. */
  predicate TextFieldsOnly(entries: seq<Entry>) {
    forall n :: n in TripFieldNames ==> GetIn(entries, n).None? || GetIn(entries, n).value.Text?
  }

  /** `formData.get(name) as string`: the text, or null when the name is absent. */
  function TextOf(entries: seq<Entry>, name: string): (o: Option<string>)
    requires GetIn(entries, name).None? || GetIn(entries, name).value.Text?
    ensures o.None? <==> GetIn(entries, name).None?
    ensures o.Some? ==> GetIn(entries, name) == Some(Text(o.value))
  {
    match GetIn(entries, name)
    case Some(v) => Some(v.text)
    case None => None
  }

  /** `value || null`: a blank string becomes null, anything else is kept. */
  function OrNull(o: Option<string>): (r: Option<string>)
    ensures r.None? <==> Blank(o)
    ensures r.Some? ==> r == o
  {
    if Blank(o) then None else o
  }

  /**
   * `getTripFields`: country code, country name and start date pass through
   * as read (null or "" included); city, title, end date, notes and mood
   * become null when blank; the trip is never public.
   */
  function TripFieldsOf(entries: seq<Entry>): (f: TripFields)
    requires TextFieldsOnly(entries)
    ensures f.countryCode == TextOf(entries, "country_code")
    ensures f.countryName == TextOf(entries, "country_name")
    ensures f.startedAt == TextOf(entries, "started_at")
    ensures f.city.None? <==> Blank(TextOf(entries, "city"))
    ensures f.title.None? <==> Blank(TextOf(entries, "title"))
    ensures f.endedAt.None? <==> Blank(TextOf(entries, "ended_at"))
    ensures f.notes.None? <==> Blank(TextOf(entries, "notes"))
    ensures f.mood.None? <==> Blank(TextOf(entries, "mood"))
    ensures f.city.Some? ==> f.city == TextOf(entries, "city")
    ensures f.title.Some? ==> f.title == TextOf(entries, "title")
    ensures f.endedAt.Some? ==> f.endedAt == TextOf(entries, "ended_at")
    ensures f.notes.Some? ==> f.notes == TextOf(entries, "notes")
    ensures f.mood.Some? ==> f.mood == TextOf(entries, "mood")
    ensures !f.isPublic
  {
    TripFields(TextOf(entries, "country_code"), TextOf(entries, "country_name"),
               OrNull(TextOf(entries, "city")), OrNull(TextOf(entries, "title")),
               TextOf(entries, "started_at"), OrNull(TextOf(entries, "ended_at")),
               OrNull(TextOf(entries, "notes")), OrNull(TextOf(entries, "mood")), false)
  }

  /**
   * The result of `createTrip` and of `updateTrip`, which check in the same
   * order: `id` is the new row's id for a create and the edited trip's id
   * for an update, `writeError` the insert's or the update's error.
   */
  function SaveResult(user: Option<UserId>, f: TripFields, writeError: Option<string>, id: nat): (r: ActionResult)
    ensures user.None? <==> r == Threw(Unauthorized)
    ensures user.Some? && !HasRequired(f) ==> r == Failed(RequiredMessage)
    ensures user.Some? && HasRequired(f) && writeError.Some? ==> r == Failed(writeError.value)
    ensures r.Redirected? <==> user.Some? && HasRequired(f) && writeError.None?
    ensures r.Redirected? ==> r.path == "/trips/" + Decimal(id)
  {
    if user.None? then Threw(Unauthorized)
    else if !HasRequired(f) then Failed(RequiredMessage)
    else if writeError.Some? then Failed(writeError.value)
    else Redirected("/trips/" + Decimal(id))
  }

  /** `createTrip`: inserts an owned row with the form's fields when they are complete and the insert goes through. */
  method CreateTrip(db: Database, user: Option<UserId>, form: FormData, insertError: Option<string>)
    returns (r: ActionResult)
    requires db.Valid() && TextFieldsOnly(form.entries)
    modifies db
    ensures db.Valid()
    ensures r == SaveResult(user, TripFieldsOf(form.entries), insertError, old(db.nextId))
    ensures r.Redirected? ==> db.trips == old(db.trips) + [TripRow(old(db.nextId), user.value, TripFieldsOf(form.entries))]
                              && db.nextId == old(db.nextId) + 1
    ensures !r.Redirected? ==> db.trips == old(db.trips) && db.nextId == old(db.nextId)
    ensures db.photos == old(db.photos) && db.visited == old(db.visited)
    ensures db.portraits == old(db.portraits) && db.storage == old(db.storage)
  {
    if user.None? {
      return Threw(Unauthorized);
    }
    var fields := TripFieldsOf(form.entries);
    if !HasRequired(fields) {
      return Failed(RequiredMessage);
    }
    if insertError.Some? {
      return Failed(insertError.value);
    }
    var id := db.InsertTrip(user.value, fields);
    return Redirected("/trips/" + Decimal(id));
  }

  /** The update filter `.eq("id", tripId).eq("user_id", user)`. */
  predicate Owned(t: TripRow, tripId: nat, user: UserId) {
    t.id == tripId && t.userId == user
  }

  /** The trips table after `update(fields)` on the rows the filter selects. */
  function UpdateOwned(trips: seq<TripRow>, tripId: nat, user: UserId, f: TripFields): (r: seq<TripRow>)
    ensures |r| == |trips|
    ensures forall i :: 0 <= i < |trips| ==> r[i].id == trips[i].id && r[i].userId == trips[i].userId
    ensures forall i :: 0 <= i < |trips| && Owned(trips[i], tripId, user) ==> r[i].fields == f
    ensures forall i :: 0 <= i < |trips| && !Owned(trips[i], tripId, user) ==> r[i] == trips[i]
  {
    seq(|trips|, i requires 0 <= i < |trips| =>
      if Owned(trips[i], tripId, user) then trips[i].(fields := f) else trips[i])
  }

  /** Updating with complete fields keeps the trips table valid. */
  lemma UpdateKeepsValid(trips: seq<TripRow>, nextId: nat, tripId: nat, user: UserId, f: TripFields)
    requires TripsValid(trips, nextId) && HasRequired(f)
    ensures TripsValid(UpdateOwned(trips, tripId, user, f), nextId)
  {
    var r := UpdateOwned(trips, tripId, user, f);
    assert forall i :: 0 <= i < |r| ==> r[i].id == trips[i].id;
  }

  /** Another user's update never touches a trip: the owner filter protects it. */
  lemma UpdateByOtherUser(trips: seq<TripRow>, tripId: nat, user: UserId, f: TripFields, i: nat)
    requires i < |trips| && trips[i].userId != user
    ensures UpdateOwned(trips, tripId, user, f)[i] == trips[i]
  {
  }

  /** `updateTrip`: rewrites every column of the owned row; a trip the user does not own is left alone, and the action still redirects. */
  method UpdateTrip(db: Database, user: Option<UserId>, tripId: nat, form: FormData, updateError: Option<string>)
    returns (r: ActionResult)
    requires db.Valid() && TextFieldsOnly(form.entries)
    modifies db
    ensures db.Valid()
    ensures r == SaveResult(user, TripFieldsOf(form.entries), updateError, tripId)
    ensures user.None? ==> r == Threw(Unauthorized)
    ensures user.Some? && !HasRequired(TripFieldsOf(form.entries)) ==> r == Failed(RequiredMessage)
    ensures user.Some? && HasRequired(TripFieldsOf(form.entries)) && updateError.Some? ==> r == Failed(updateError.value)
    ensures r.Redirected? <==> user.Some? && HasRequired(TripFieldsOf(form.entries)) && updateError.None?
    ensures r.Redirected? ==> r.path == "/trips/" + Decimal(tripId)
                              && db.trips == UpdateOwned(old(db.trips), tripId, user.value, TripFieldsOf(form.entries))
    ensures !r.Redirected? ==> db.trips == old(db.trips)
    ensures db.photos == old(db.photos) && db.visited == old(db.visited) && db.nextId == old(db.nextId)
    ensures db.portraits == old(db.portraits) && db.storage == old(db.storage)
  {
    if user.None? {
      return Threw(Unauthorized);
    }
    var fields := TripFieldsOf(form.entries);
    if !HasRequired(fields) {
      return Failed(RequiredMessage);
    }
    if updateError.Some? {
      return Failed(updateError.value);
    }
    UpdateKeepsValid(db.trips, db.nextId, tripId, user.value, fields);
    db.SetTrips(UpdateOwned(db.trips, tripId, user.value, fields));
    return Redirected("/trips/" + Decimal(tripId));
  }

  /** The storage paths of the user's photos of a trip, in table order. */
  function PhotoPaths(photos: seq<PhotoRow>, tripId: nat, user: UserId): (paths: seq<string>)
    ensures forall p :: p in paths <==> exists i :: 0 <= i < |photos| && photos[i].tripId == tripId
                                                  && photos[i].userId == user && photos[i].storagePath == p
  {
    if photos == [] then []
    else
      var rest := PhotoPaths(photos[1..], tripId, user);
      assert forall i :: 1 <= i < |photos| ==> photos[i] == photos[1..][i - 1];
      if photos[0].tripId == tripId && photos[0].userId == user then [photos[0].storagePath] + rest else rest
  }

  /** The rows the delete filter leaves. */
  function RemoveOwned(trips: seq<TripRow>, tripId: nat, user: UserId): (r: seq<TripRow>)
    ensures |r| <= |trips|
    ensures forall t :: t in r <==> t in trips && !Owned(t, tripId, user)
  {
    if trips == [] then []
    else if Owned(trips[0], tripId, user) then RemoveOwned(trips[1..], tripId, user)
    else [trips[0]] + RemoveOwned(trips[1..], tripId, user)
  }

  /** The photos the cascade leaves: every row of the deleted trip goes, whoever uploaded it. */
  function RemoveTripPhotos(photos: seq<PhotoRow>, tripId: nat): (r: seq<PhotoRow>)
    ensures |r| <= |photos|
    ensures forall p :: p in r <==> p in photos && p.tripId != tripId
  {
    if photos == [] then []
    else if photos[0].tripId == tripId then RemoveTripPhotos(photos[1..], tripId)
    else [photos[0]] + RemoveTripPhotos(photos[1..], tripId)
  }

  predicate OwnsTrip(trips: seq<TripRow>, tripId: nat, user: UserId) {
    exists i :: 0 <= i < |trips| && Owned(trips[i], tripId, user)
  }

  /** Removing rows keeps the trips table valid. */
  lemma {:induction false} RemoveKeepsTripsValid(trips: seq<TripRow>, nextId: nat, tripId: nat, user: UserId)
    requires TripsValid(trips, nextId)
    ensures TripsValid(RemoveOwned(trips, tripId, user), nextId)
  {
    if trips != [] {
      TripsValidTail(trips, nextId);
      RemoveKeepsTripsValid(trips[1..], nextId, tripId, user);
      if !Owned(trips[0], tripId, user) {
        TripsValidCons(trips[0], RemoveOwned(trips[1..], tripId, user), nextId);
      }
    }
  }

  lemma {:induction false} RemoveKeepsPhotosValid(photos: seq<PhotoRow>, nextId: nat, tripId: nat)
    requires PhotosValid(photos, nextId)
    ensures PhotosValid(RemoveTripPhotos(photos, tripId), nextId)
  {
    if photos != [] {
      PhotosValidTail(photos, nextId);
      RemoveKeepsPhotosValid(photos[1..], nextId, tripId);
      if photos[0].tripId != tripId {
        PhotosValidCons(photos[0], RemoveTripPhotos(photos[1..], tripId), nextId);
      }
    }
  }

  /** The set of paths handed to the bucket's `remove`. */
  function PathSet(paths: seq<string>): (ps: set<string>)
    ensures forall p :: p in ps <==> p in paths
  {
    set p | p in paths
  }

  /** Steps 1 and 2 of `deleteTrip`: the bucket loses the files of the user's photos of the trip, unless the query or the removal fails. */
  method RemoveTripFiles(db: Database, user: UserId, tripId: nat, photosQueryFails: bool, removeFails: bool)
    modifies db
    ensures !photosQueryFails && !removeFails ==>
              db.storage == old(db.storage) - PathSet(PhotoPaths(old(db.photos), tripId, user))
    ensures photosQueryFails || removeFails ==> db.storage == old(db.storage)
    ensures db.trips == old(db.trips) && db.photos == old(db.photos) && db.visited == old(db.visited)
    ensures db.portraits == old(db.portraits) && db.nextId == old(db.nextId)
  {
    if !photosQueryFails {
      var paths := PhotoPaths(db.photos, tripId, user);
      if |paths| > 0 && !removeFails {
        db.storage := db.storage - PathSet(paths);
      } else if paths == [] {
        assert PathSet(paths) == {};
      }
    }
  }

  /** Step 3 of `deleteTrip` when it goes through: the owned row goes, and with it the trip's photo rows. */
  method DeleteOwnedTrip(db: Database, user: UserId, tripId: nat)
    requires db.Valid()
    modifies db
    ensures db.Valid()
    ensures db.trips == RemoveOwned(old(db.trips), tripId, user)
    ensures OwnsTrip(old(db.trips), tripId, user) ==> db.photos == RemoveTripPhotos(old(db.photos), tripId)
    ensures !OwnsTrip(old(db.trips), tripId, user) ==> db.photos == old(db.photos)
    ensures db.storage == old(db.storage) && db.visited == old(db.visited)
    ensures db.portraits == old(db.portraits) && db.nextId == old(db.nextId)
  {
    var owned := OwnsTrip(db.trips, tripId, user);
    RemoveKeepsTripsValid(db.trips, db.nextId, tripId, user);
    if owned {
      RemoveKeepsPhotosValid(db.photos, db.nextId, tripId);
      db.trips, db.photos := RemoveOwned(db.trips, tripId, user), RemoveTripPhotos(db.photos, tripId);
    } else {
      db.trips := RemoveOwned(db.trips, tripId, user);
    }
  }

  /**
   * `deleteTrip`: removes the files of the user's photos of the trip from the
   * bucket (only when that query returns rows; a removal failure is
   * ignored), then deletes the owned trip row, and with it, through the
   * cascade, every photo row of that trip. When the row delete fails the
   * files are already gone.
   */
  method DeleteTrip(db: Database, user: Option<UserId>, tripId: nat, photosQueryFails: bool,
                    removeFails: bool, deleteError: Option<string>)
    returns (r: ActionResult)
    requires db.Valid()
    modifies db
    ensures db.Valid()
    ensures user.None? ==> r == Threw(Unauthorized) && db.storage == old(db.storage)
    ensures user.Some? && deleteError.Some? ==> r == Failed(deleteError.value)
    ensures r.Redirected? <==> user.Some? && deleteError.None?
    ensures r.Redirected? ==> r.path == "/trips"
    ensures user.Some? && !photosQueryFails && !removeFails ==>
              db.storage == old(db.storage) - PathSet(PhotoPaths(old(db.photos), tripId, user.value))
    ensures user.None? || photosQueryFails || removeFails ==> db.storage == old(db.storage)
    ensures r.Redirected? ==> db.trips == RemoveOwned(old(db.trips), tripId, user.value)
    ensures r.Redirected? && OwnsTrip(old(db.trips), tripId, user.value) ==>
              db.photos == RemoveTripPhotos(old(db.photos), tripId)
    ensures !(r.Redirected? && OwnsTrip(old(db.trips), tripId, user.value)) ==> db.photos == old(db.photos)
    ensures !r.Redirected? ==> db.trips == old(db.trips)
    ensures db.visited == old(db.visited) && db.portraits == old(db.portraits) && db.nextId == old(db.nextId)
  {
    if user.None? {
      return Threw(Unauthorized);
    }
    RemoveTripFiles(db, user.value, tripId, photosQueryFails, removeFails);
    if deleteError.Some? {
      return Failed(deleteError.value);
    }
    DeleteOwnedTrip(db, user.value, tripId);
    return Redirected("/trips");
  }

  /** After a delete that went through, the user owns no trip with that id. */
  lemma DeletedTripIsGone(trips: seq<TripRow>, tripId: nat, user: UserId)
    ensures !OwnsTrip(RemoveOwned(trips, tripId, user), tripId, user)
  {
    var r := RemoveOwned(trips, tripId, user);
    assert forall i :: 0 <= i < |r| ==> r[i] in r;
  }

  /** The delete never removes another user's trip. */
  lemma DeleteKeepsOthers(trips: seq<TripRow>, tripId: nat, user: UserId, t: TripRow)
    requires t in trips && t.userId != user
    ensures t in RemoveOwned(trips, tripId, user)
  {
  }
}
