/**
 * The trip form (src/components/trips/TripForm.tsx): the country search,
 * the lookup of the selected country, and the submit handler, which writes
 * the selected country and the chosen mood into the form data before
 * calling the create or update action. The country registry is a
 * parameter.
 */
module TripForm {
  import opened Options
  import opened Strings
  import opened Registry
  import opened Backend
  import opened FormDatas
  import opened Actions
  import Trips

  /** A registry country matches the lower-cased query by name, English name, or exact code. */
  predicate MatchesQuery(c: Country, q: string, lower: CaseMap) {
    Includes(lower(c.name), q) || Includes(lower(c.nameEn), q) || lower(c.code) == q
  }

  /** The callback of `filter`, for an already lower-cased query. */
  function Matcher(q: string, lower: CaseMap): Country -> bool {
    c => MatchesQuery(c, q, lower)
  }

  /**
   * `filteredCountries`: the whole registry for an empty search; otherwise
   * the k-th result is the country at the k-th matching registry position,
   * where the positions run upwards and take in every matching country.
   */
  function FilteredCountries(countries: seq<Country>, search: string, lower: CaseMap): (r: seq<Country>)
    ensures search == "" ==> r == countries
    ensures |r| <= |countries|
    ensures search != "" ==> forall c :: c in r <==> c in countries && MatchesQuery(c, lower(search), lower)
    ensures search != "" ==>
              && AcceptedPositions(countries, Matcher(lower(search), lower), 0,
                                   PositionsFrom(countries, Matcher(lower(search), lower), 0))
              && AtPositions(r, countries, PositionsFrom(countries, Matcher(lower(search), lower), 0))
  {
    if search == "" then countries
    else
      var keep := Matcher(lower(search), lower);
      FilterFromInOrder(countries, keep, 0);
      PositionsFromExact(countries, keep, 0);
      FilterFromMembers(countries, keep, 0);
      assert countries[0..] == countries;
      FilterFrom(countries, keep, 0)
  }

  /** `idx` lists, in ascending order, exactly the positions from i on whose country `keep` accepts. */
  predicate AcceptedPositions(countries: seq<Country>, keep: Country -> bool, i: nat, idx: seq<nat>) {
    && (forall k :: 0 <= k < |idx| ==> i <= idx[k] < |countries| && keep(countries[idx[k]]))
    && (forall k, l :: 0 <= k < l < |idx| ==> idx[k] < idx[l])
    && (forall j {:trigger j in idx} :: i <= j < |countries| && keep(countries[j]) ==> j in idx)
  }

  /** `r` lists the countries at the positions `idx`, in that order. */
  predicate AtPositions(r: seq<Country>, countries: seq<Country>, idx: seq<nat>) {
    |r| == |idx| && forall k :: 0 <= k < |r| ==> idx[k] < |countries| && r[k] == countries[idx[k]]
  }

  /** `countries.slice(i).filter(keep)`: the accepted countries from position i on. */
  function FilterFrom(countries: seq<Country>, keep: Country -> bool, i: nat): (r: seq<Country>)
    requires i <= |countries|
    ensures |r| <= |countries| - i
    decreases |countries| - i
  {
    if i == |countries| then []
    else
      var rest := FilterFrom(countries, keep, i + 1);
      if keep(countries[i]) then [countries[i]] + rest else rest
  }

  /** The positions from i on whose country `keep` accepts. */
  function PositionsFrom(countries: seq<Country>, keep: Country -> bool, i: nat): seq<nat>
    requires i <= |countries|
    decreases |countries| - i
  {
    if i == |countries| then []
    else if keep(countries[i]) then [i] + PositionsFrom(countries, keep, i + 1)
    else PositionsFrom(countries, keep, i + 1)
  }

  /** The positions are exactly the accepted ones from i on, in ascending order. */
  lemma {:induction false} PositionsFromExact(countries: seq<Country>, keep: Country -> bool, i: nat)
    requires i <= |countries|
    ensures AcceptedPositions(countries, keep, i, PositionsFrom(countries, keep, i))
    decreases |countries| - i
  {
    if i < |countries| {
      PositionsFromExact(countries, keep, i + 1);
      var rest := PositionsFrom(countries, keep, i + 1);
      var idx := PositionsFrom(countries, keep, i);
      if keep(countries[i]) {
        assert idx == [i] + rest;
        forall j | i < j < |countries| && keep(countries[j]) ensures j in idx {
          assert j in rest;
        }
      } else {
        assert idx == rest;
      }
    }
  }

  /** The filter keeps registry order: its k-th result is the country at the k-th accepted position. */
  lemma {:induction false} FilterFromInOrder(countries: seq<Country>, keep: Country -> bool, i: nat)
    requires i <= |countries|
    ensures AtPositions(FilterFrom(countries, keep, i), countries, PositionsFrom(countries, keep, i))
    decreases |countries| - i
  {
    if i < |countries| {
      FilterFromInOrder(countries, keep, i + 1);
      var rest := PositionsFrom(countries, keep, i + 1);
      var rt := FilterFrom(countries, keep, i + 1);
      if keep(countries[i]) {
        assert PositionsFrom(countries, keep, i) == [i] + rest;
        assert FilterFrom(countries, keep, i) == [countries[i]] + rt;
      }
    }
  }

  /** The filter keeps exactly the accepted countries from position i on. */
  lemma FilterFromMembers(countries: seq<Country>, keep: Country -> bool, i: nat)
    requires i <= |countries|
    ensures forall x :: x in FilterFrom(countries, keep, i) <==> x in countries[i..] && keep(x)
  {
    FilterFromInOrder(countries, keep, i);
    PositionsFromExact(countries, keep, i);
    var r := FilterFrom(countries, keep, i);
    var idx := PositionsFrom(countries, keep, i);
    forall x ensures x in r <==> x in countries[i..] && keep(x) {
      if x in r {
        var k :| 0 <= k < |r| && r[k] == x;
        assert countries[i..][idx[k] - i] == x;
      }
      if x in countries[i..] && keep(x) {
        var j :| 0 <= j < |countries| - i && countries[i..][j] == x;
        assert countries[i + j] == x;
        assert i + j in idx;
        var k :| 0 <= k < |idx| && idx[k] == i + j;
        assert r[k] == x;
      }
    }
  }

  /** Searching by a country's code, in any case the mapping folds together, finds that country. */
  lemma SearchByCodeFinds(countries: seq<Country>, c: Country, search: string, lower: CaseMap)
    requires c in countries && search != "" && lower(search) == lower(c.code)
    ensures c in FilteredCountries(countries, search, lower)
  {
  }

  /** `selectedCountry`: the first registry country with the selected code. */
  function SelectedCountry(countries: seq<Country>, code: string): (r: Option<Country>)
    ensures r.None? <==> forall i :: 0 <= i < |countries| ==> countries[i].code != code
    ensures r.Some? ==> r.value.code == code && r.value in countries
    ensures r.Some? ==> exists i :: 0 <= i < |countries| && countries[i] == r.value
                                    && forall j :: 0 <= j < i ==> countries[j].code != code
  {
    if countries == [] then None
    else if countries[0].code == code then Some(countries[0])
    else
      var rest := SelectedCountry(countries[1..], code);
      if rest.Some? then
        var i :| 0 <= i < |countries[1..]| && countries[1..][i] == rest.value
                 && forall j :: 0 <= j < i ==> countries[1..][j].code != code;
        assert countries[i + 1] == rest.value;
        rest
      else rest
  }

  /** The form entries after the submit handler's `set` calls. */
  function Injected(entries: seq<Entry>, selected: Option<Country>, mood: string): seq<Entry> {
    var withCountry :=
      if selected.Some? then
        SetIn(SetIn(entries, "country_code", Text(selected.value.code)), "country_name", Text(selected.value.name))
      else entries;
    if mood != "" then SetIn(withCountry, "mood", Text(mood)) else withCountry
  }

  lemma {:induction false} SetInKeepsText(entries: seq<Entry>, name: string, text: string)
    requires Trips.TextFieldsOnly(entries)
    ensures Trips.TextFieldsOnly(SetIn(entries, name, Text(text)))
  {
    GetAfterSet(entries, name, Text(text));
    forall n | n in Trips.TripFieldNames && n != name {
      GetOtherAfterSet(entries, name, Text(text), n);
    }
  }

  /**
   * What the actions read from the injected form: the selected country's
   * code and name when a country is selected, the chosen mood when one is
   * chosen, and the form's own values otherwise.
   */
  lemma InjectedFields(entries: seq<Entry>, selected: Option<Country>, mood: string)
    requires Trips.TextFieldsOnly(entries)
    ensures Trips.TextFieldsOnly(Injected(entries, selected, mood))
    ensures var f := Trips.TripFieldsOf(Injected(entries, selected, mood));
            && (selected.Some? ==> f.countryCode == Some(selected.value.code) && f.countryName == Some(selected.value.name))
            && (selected.None? ==> f.countryCode == Trips.TextOf(entries, "country_code")
                                   && f.countryName == Trips.TextOf(entries, "country_name"))
            && (mood != "" ==> f.mood == Some(mood))
            && (mood == "" ==> f.mood == Trips.OrNull(Trips.TextOf(entries, "mood")))
            && f.startedAt == Trips.TextOf(entries, "started_at")
  {
    var e1 := if selected.Some? then SetIn(SetIn(entries, "country_code", Text(selected.value.code)), "country_name", Text(selected.value.name)) else entries;
    if selected.Some? {
      var e0 := SetIn(entries, "country_code", Text(selected.value.code));
      SetInKeepsText(entries, "country_code", selected.value.code);
      SetInKeepsText(e0, "country_name", selected.value.name);
      GetAfterSet(entries, "country_code", Text(selected.value.code));
      GetOtherAfterSet(e0, "country_name", Text(selected.value.name), "country_code");
      GetAfterSet(e0, "country_name", Text(selected.value.name));
      GetOtherAfterSet(entries, "country_code", Text(selected.value.code), "started_at");
      GetOtherAfterSet(e0, "country_name", Text(selected.value.name), "started_at");
      GetOtherAfterSet(entries, "country_code", Text(selected.value.code), "mood");
      GetOtherAfterSet(e0, "country_name", Text(selected.value.name), "mood");
    }
    if mood != "" {
      SetInKeepsText(e1, "mood", mood);
      GetAfterSet(e1, "mood", Text(mood));
      GetOtherAfterSet(e1, "mood", Text(mood), "country_code");
      GetOtherAfterSet(e1, "mood", Text(mood), "country_name");
      GetOtherAfterSet(e1, "mood", Text(mood), "started_at");
    }
  }

  /** The `set` calls of `handleSubmit`, on the form data in place. */
  method Inject(form: FormData, selected: Option<Country>, mood: string)
    modifies form
    ensures form.entries == Injected(old(form.entries), selected, mood)
  {
    if selected.Some? {
      form.Set("country_code", Text(selected.value.code));
      form.Set("country_name", Text(selected.value.name));
    }
    if mood != "" {
      form.Set("mood", Text(mood));
    }
  }

  /**
   * `handleSubmit`: injects the selection, then calls `updateTrip` for the
   * trip being edited or `createTrip` for a new one. Each action's backend
   * failure is an input.
   */
  method HandleSubmit(db: Database, user: Option<UserId>, form: FormData, countries: seq<Country>,
                      selectedCode: string, mood: string, editing: Option<TripRow>, actionError: Option<string>)
    returns (r: ActionResult)
    requires db.Valid() && Trips.TextFieldsOnly(form.entries)
    modifies form, db
    ensures db.Valid()
    ensures form.entries == Injected(old(form.entries), SelectedCountry(countries, selectedCode), mood)
    ensures Trips.TextFieldsOnly(form.entries)
    ensures editing.None? ==> r == Trips.SaveResult(user, Trips.TripFieldsOf(form.entries), actionError, old(db.nextId))
    ensures editing.Some? ==> r == Trips.SaveResult(user, Trips.TripFieldsOf(form.entries), actionError, editing.value.id)
    ensures editing.None? && r.Redirected? ==>
              db.trips == old(db.trips) + [TripRow(old(db.nextId), user.value, Trips.TripFieldsOf(form.entries))]
    ensures editing.Some? && r.Redirected? && user.Some? ==>
              db.trips == Trips.UpdateOwned(old(db.trips), editing.value.id, user.value, Trips.TripFieldsOf(form.entries))
    ensures editing.Some? ==> (r.Redirected? ==> user.Some?)
    ensures !r.Redirected? ==> db.trips == old(db.trips)
    ensures db.photos == old(db.photos) && db.visited == old(db.visited) && db.storage == old(db.storage)
  {
    var selected := SelectedCountry(countries, selectedCode);
    InjectedFields(form.entries, selected, mood);
    Inject(form, selected, mood);
    if editing.Some? {
      r := Trips.UpdateTrip(db, user, editing.value.id, form, actionError);
    } else {
      r := Trips.CreateTrip(db, user, form, actionError);
    }
  }
}
