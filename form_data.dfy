/**
 * The browser's `FormData` as the forms and actions use it: an ordered list
 * of named entries, each a text value or a file. `get` reads the first entry
 * of a name, `getAll` every entry of it in order, and `set` replaces the
 * first entry of a name, drops its other entries, or appends one when there
 * is none.
 */
module FormDatas {
  import opened Options

  /** A browser `File`: its name, size in bytes and MIME type. */
  datatype File = File(name: string, size: nat, mimeType: string)

  datatype FormValue = Text(text: string) | Upload(file: File)

  type Entry = (string, FormValue)

  /** `get(name)` over an entry list. */
  function GetIn(entries: seq<Entry>, name: string): (v: Option<FormValue>)
    ensures v.None? <==> forall i :: 0 <= i < |entries| ==> entries[i].0 != name
    ensures v.Some? ==> exists i :: 0 <= i < |entries| && entries[i] == (name, v.value)
                                    && forall j :: 0 <= j < i ==> entries[j].0 != name
  {
    if entries == [] then None
    else if entries[0].0 == name then Some(entries[0].1)
    else
      var rest := GetIn(entries[1..], name);
      if rest.Some? then
        var i :| 0 <= i < |entries[1..]| && entries[1..][i] == (name, rest.value)
                 && forall j :: 0 <= j < i ==> entries[1..][j].0 != name;
        assert entries[i + 1] == (name, rest.value);
        rest
      else rest
  }

  /** `getAll(name)` over an entry list: the values of that name, in order. */
  function GetAllIn(entries: seq<Entry>, name: string): (vs: seq<FormValue>)
    ensures |vs| <= |entries|
    ensures forall v :: v in vs <==> (name, v) in entries
  {
    if entries == [] then []
    else if entries[0].0 == name then [entries[0].1] + GetAllIn(entries[1..], name)
    else GetAllIn(entries[1..], name)
  }

  /** `getAll` of two entry lists one after the other: the values of the first, then those of the second. */
  lemma {:induction false} GetAllAppend(a: seq<Entry>, b: seq<Entry>, name: string)
    ensures GetAllIn(a + b, name) == GetAllIn(a, name) + GetAllIn(b, name)
  {
    if a == [] {
      assert a + b == b;
    } else {
      assert (a + b)[0] == a[0] && (a + b)[1..] == a[1..] + b;
      GetAllAppend(a[1..], b, name);
    }
  }

  /** One entry contributes its value exactly when it has the name. */
  lemma GetAllSingle(e: Entry, name: string)
    ensures GetAllIn([e], name) == if e.0 == name then [e.1] else []
  {
    assert [e][1..] == [];
  }

  /** `set(name, value)` over an entry list. */
  function SetIn(entries: seq<Entry>, name: string, value: FormValue): (r: seq<Entry>)
    ensures |r| <= |entries| + 1
  {
    if entries == [] then [(name, value)]
    else if entries[0].0 == name then [(name, value)] + RemoveName(entries[1..], name)
    else [entries[0]] + SetIn(entries[1..], name, value)
  }

  /** The entries of other names, in order. */
  function RemoveName(entries: seq<Entry>, name: string): (r: seq<Entry>)
    ensures |r| <= |entries|
    ensures forall e :: e in r <==> e in entries && e.0 != name
  {
    if entries == [] then []
    else if entries[0].0 == name then RemoveName(entries[1..], name)
    else [entries[0]] + RemoveName(entries[1..], name)
  }

  /** After `set`, `get` of that name returns the value set. */
  lemma {:induction false} GetAfterSet(entries: seq<Entry>, name: string, value: FormValue)
    ensures GetIn(SetIn(entries, name, value), name) == Some(value)
  {
    if entries != [] && entries[0].0 != name {
      GetAfterSet(entries[1..], name, value);
      assert SetIn(entries, name, value)[1..] == SetIn(entries[1..], name, value);
    }
  }

  /** After `set`, `getAll` of that name holds the value set and nothing else. */
  lemma {:induction false} GetAllAfterSet(entries: seq<Entry>, name: string, value: FormValue)
    ensures GetAllIn(SetIn(entries, name, value), name) == [value]
  {
    if entries == [] {
    } else if entries[0].0 == name {
      NoneOfName(RemoveName(entries[1..], name), name);
      assert SetIn(entries, name, value)[1..] == RemoveName(entries[1..], name);
    } else {
      GetAllAfterSet(entries[1..], name, value);
      assert SetIn(entries, name, value)[1..] == SetIn(entries[1..], name, value);
    }
  }

  lemma {:induction false} NoneOfName(entries: seq<Entry>, name: string)
    requires forall e :: e in entries ==> e.0 != name
    ensures GetAllIn(entries, name) == []
  {
    if entries != [] {
      assert entries[0] in entries;
      assert forall e :: e in entries[1..] ==> e in entries;
      NoneOfName(entries[1..], name);
    }
  }

  /** `set` leaves `get` of every other name as it was. */
  lemma {:induction false} GetOtherAfterSet(entries: seq<Entry>, name: string, value: FormValue, other: string)
    requires other != name
    ensures GetIn(SetIn(entries, name, value), other) == GetIn(entries, other)
  {
    if entries == [] {
    } else if entries[0].0 == name {
      GetOtherAfterRemove(entries[1..], name, other);
      assert SetIn(entries, name, value)[1..] == RemoveName(entries[1..], name);
    } else if entries[0].0 != other {
      GetOtherAfterSet(entries[1..], name, value, other);
      assert SetIn(entries, name, value)[1..] == SetIn(entries[1..], name, value);
    }
  }

  lemma {:induction false} GetOtherAfterRemove(entries: seq<Entry>, name: string, other: string)
    requires other != name
    ensures GetIn(RemoveName(entries, name), other) == GetIn(entries, other)
  {
    if entries != [] {
      GetOtherAfterRemove(entries[1..], name, other);
      if entries[0].0 != name {
        assert RemoveName(entries, name)[1..] == RemoveName(entries[1..], name);
      }
    }
  }

  /** The form data a form submits: its entries, updated in place by `set`. */
  class FormData {
    var entries: seq<Entry>

    constructor (initial: seq<Entry>)
      ensures entries == initial
    {
      entries := initial;
    }

    function Get(name: string): Option<FormValue>
      reads this
    {
      GetIn(entries, name)
    }

    function GetAll(name: string): seq<FormValue>
      reads this
    {
      GetAllIn(entries, name)
    }

    method Set(name: string, value: FormValue)
      modifies this
      ensures entries == SetIn(old(entries), name, value)
      ensures Get(name) == Some(value)
    {
      GetAfterSet(entries, name, value);
      entries := SetIn(entries, name, value);
    }
  }
}
