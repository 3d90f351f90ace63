/**
 * The photo server actions (src/lib/actions/photos.ts): uploading the files
 * of a form to a trip, one by one, under the per-trip limit and the server's
 * size and type rules, and deleting one photo. Backend failures are inputs,
 * keyed by the index of the form entry being processed; the timestamp of
 * the request is an input too.
 */
module Photos {
  import opened Options
  import opened Strings
  import opened Backend
  import opened FormDatas

  const MaxPhotosPerTrip: nat := 20
  const MaxFileSize: nat := 5 * 1024 * 1024
  const AllowedTypes: seq<string> := ["image/jpeg", "image/png", "image/webp"]

  const SignInMessage: string := "Необходимо войти в аккаунт"
  const NoFilesMessage: string := "Нет файлов для загрузки"
  const NotFoundMessage: string := "Фото не найдено"
  /** The storage service's message when `upsert: false` meets a path that is already taken. */
  const DuplicateMessage: string := "The resource already exists"

  /** Why an upload stops. */
  datatype UploadError =
    | NotSignedIn
    | CountFailed(message: string)
    | NoFiles
    | TooMany(current: nat, adding: nat)
    | TooLarge(name: string)
    | BadType(name: string)
    | UploadFailed(name: string, message: string)
    | SaveFailed(message: string)

  /** The `error` string the action returns for each reason. */
  function Message(e: UploadError): (m: string)
    ensures e.CountFailed? ==> m == e.message
    ensures e.TooMany? ==> StartsWith(m, "Максимум " + Decimal(MaxPhotosPerTrip) + " фото на поездку.")
  {
    match e
    case NotSignedIn => SignInMessage
    case CountFailed(msg) => msg
    case NoFiles => NoFilesMessage
    case TooMany(current, adding) =>
      "Максимум " + Decimal(MaxPhotosPerTrip) + " фото на поездку." + " Сейчас " + Decimal(current)
        + ", вы пытаетесь добавить " + Decimal(adding) + "."
    case TooLarge(name) => "Файл «" + name + "» больше 5 МБ."
    case BadType(name) => "Формат не поддерживается: " + name + ". Разрешены JPG, PNG, WebP."
    case UploadFailed(name, msg) => "Ошибка загрузки «" + name + "»: " + msg
    case SaveFailed(msg) => "Ошибка сохранения: " + msg
  }

  function MessageOf(e: Option<UploadError>): (m: Option<string>)
    ensures m.None? <==> e.None?
  {
    match e
    case Some(err) => Some(Message(err))
    case None => None
  }

  /** A character the class `[a-zA-Z0-9.-]` matches. */
  predicate SafeChar(c: char) {
    ('a' <= c <= 'z') || ('A' <= c <= 'Z') || ('0' <= c <= '9') || c == '.' || c == '-'
  }

  /** `name.replace(/[^a-zA-Z0-9.-]/g, "_")`: each character outside the class becomes "_". */
  function SafeName(name: string): (r: string)
    ensures |r| == |name|
    ensures forall i :: 0 <= i < |name| && SafeChar(name[i]) ==> r[i] == name[i]
    ensures forall i :: 0 <= i < |name| && !SafeChar(name[i]) ==> r[i] == '_'
  {
    seq(|name|, i requires 0 <= i < |name| => if SafeChar(name[i]) then name[i] else '_')
  }

  /** A safe name cannot leave its folder: it holds no "/". */
  lemma SafeNameHasNoSlash(name: string)
    ensures '/' !in SafeName(name)
  {
    var r := SafeName(name);
    forall i | 0 <= i < |r| ensures r[i] != '/' {
    }
  }

  /** Sanitising twice changes nothing more. */
  lemma SafeNameIdempotent(name: string)
    ensures SafeName(SafeName(name)) == SafeName(name)
  {
  }

  /** `${user.id}/${tripId}/${timestamp}_${i}_${safeName}`. */
  function PathFor(user: UserId, tripId: nat, timestamp: nat, i: nat, name: string): string {
    user + "/" + Decimal(tripId) + "/" + Decimal(timestamp) + "_" + Decimal(i) + "_" + SafeName(name)
  }

  /** Two entries of one upload never share a storage path: the entry index is part of the name. */
  lemma PathsDistinct(user: UserId, tripId: nat, timestamp: nat, i: nat, a: string, j: nat, b: string)
    requires i != j
    ensures PathFor(user, tripId, timestamp, i, a) != PathFor(user, tripId, timestamp, j, b)
  {
    var pre := user + "/" + Decimal(tripId) + "/" + Decimal(timestamp) + "_";
    var di, dj := Decimal(i), Decimal(j);
    var x, y := di + "_" + SafeName(a), dj + "_" + SafeName(b);
    assert PathFor(user, tripId, timestamp, i, a) == pre + x;
    assert PathFor(user, tripId, timestamp, j, b) == pre + y;
    if |di| < |dj| {
      assert x[|di|] == '_' && y[|di|] == dj[|di|];
    } else if |dj| < |di| {
      assert y[|dj|] == '_' && x[|dj|] == di[|dj|];
    } else {
      assert di != dj by {
        if di == dj {
          DecimalInjective(i, j);
        }
      }
      var k :| 0 <= k < |di| && di[k] != dj[k];
      assert x[k] == di[k] && y[k] == dj[k];
    }
    assert x != y;
    assert (pre + x)[|pre|..] == x && (pre + y)[|pre|..] == y;
  }

  /** The number of the user's photo rows of a trip (the exact `count` of the head query). */
  function CountOf(photos: seq<PhotoRow>, tripId: nat, user: UserId): (n: nat)
    ensures n <= |photos|
  {
    if photos == [] then 0
    else (if photos[0].tripId == tripId && photos[0].userId == user then 1 else 0) + CountOf(photos[1..], tripId, user)
  }

  lemma {:induction false} CountAppend(a: seq<PhotoRow>, b: seq<PhotoRow>, tripId: nat, user: UserId)
    ensures CountOf(a + b, tripId, user) == CountOf(a, tripId, user) + CountOf(b, tripId, user)
  {
    if a == [] {
      assert a + b == b;
    } else {
      assert (a + b)[1..] == a[1..] + b;
      CountAppend(a[1..], b, tripId, user);
    }
  }

  lemma {:induction false} CountAllMatching(rows: seq<PhotoRow>, tripId: nat, user: UserId)
    requires forall j :: 0 <= j < |rows| ==> rows[j].tripId == tripId && rows[j].userId == user
    ensures CountOf(rows, tripId, user) == |rows|
  {
    if rows != [] {
      CountAllMatching(rows[1..], tripId, user);
    }
  }

  /** The positions of the user's rows of the trip. */
  function MatchingRows(photos: seq<PhotoRow>, tripId: nat, user: UserId): set<nat> {
    set i: nat | i < |photos| && photos[i].tripId == tripId && photos[i].userId == user
  }

  /** The count is exactly the number of the user's rows of the trip. */
  lemma {:induction false} CountIsExact(photos: seq<PhotoRow>, tripId: nat, user: UserId)
    ensures CountOf(photos, tripId, user) == |MatchingRows(photos, tripId, user)|
    decreases |photos|
  {
    if photos != [] {
      var n := |photos| - 1;
      var front := photos[..n];
      CountIsExact(front, tripId, user);
      assert photos == front + [photos[n]];
      CountAppend(front, [photos[n]], tripId, user);
      var rows := MatchingRows(front, tripId, user);
      if photos[n].tripId == tripId && photos[n].userId == user {
        assert MatchingRows(photos, tripId, user) == rows + {n};
      } else {
        assert MatchingRows(photos, tripId, user) == rows;
      }
    }
  }

  /** The photo table, the bucket and the id counter, as one value. */
  datatype Store = Store(photos: seq<PhotoRow>, storage: set<string>, nextId: nat)

  /**
   * The backend's answers to one upload request: the error of the count
   * query, the upload and insert errors by entry index, and the indices whose
   * clean-up removal fails.
   */
  datatype UploadFaults = UploadFaults(countError: Option<string>, uploadErrors: map<nat, string>,
                                       insertErrors: map<nat, string>, removeFails: set<nat>)

  datatype Uploaded = Uploaded(store: Store, error: Option<UploadError>)

  /** The upload of entry j to `path` fails: the backend reports an error, or, with `upsert: false`, the bucket already holds the path. */
  predicate UploadRefused(j: nat, path: string, faults: UploadFaults, storage: set<string>) {
    j in faults.uploadErrors || path in storage
  }

  /** The backend's message for a refused upload. */
  function RefusalMessage(j: nat, faults: UploadFaults): string {
    if j in faults.uploadErrors then faults.uploadErrors[j] else DuplicateMessage
  }

  /**
   * The loop stops at entry j: a file that is too large, of a refused type,
   * whose upload is refused (`taken` being the bucket before the request),
   * or whose insert fails.
   */
  predicate Stops(files: seq<FormValue>, j: nat, user: UserId, tripId: nat, timestamp: nat,
                  faults: UploadFaults, taken: set<string>)
    requires j < |files|
  {
    files[j].Upload? &&
    (files[j].file.size > MaxFileSize || files[j].file.mimeType !in AllowedTypes
     || UploadRefused(j, PathFor(user, tripId, timestamp, j, files[j].file.name), faults, taken)
     || j in faults.insertErrors)
  }

  /** The first entry from i on at which the loop stops, or |files| when it runs to the end. */
  function FirstStop(files: seq<FormValue>, i: nat, user: UserId, tripId: nat, timestamp: nat,
                     faults: UploadFaults, taken: set<string>): (k: nat)
    requires i <= |files|
    ensures i <= k <= |files|
    ensures forall j :: i <= j < k ==> !Stops(files, j, user, tripId, timestamp, faults, taken)
    ensures k < |files| ==> Stops(files, k, user, tripId, timestamp, faults, taken)
    decreases |files| - i
  {
    if i == |files| || Stops(files, i, user, tripId, timestamp, faults, taken) then i
    else FirstStop(files, i + 1, user, tripId, timestamp, faults, taken)
  }

  /** The error reported for the stopping entry k. */
  function StopError(files: seq<FormValue>, k: nat, user: UserId, tripId: nat, timestamp: nat,
                     faults: UploadFaults, taken: set<string>): UploadError
    requires k < |files| && Stops(files, k, user, tripId, timestamp, faults, taken)
  {
    var f := files[k].file;
    if f.size > MaxFileSize then TooLarge(f.name)
    else if f.mimeType !in AllowedTypes then BadType(f.name)
    else if UploadRefused(k, PathFor(user, tripId, timestamp, k, f.name), faults, taken) then
      UploadFailed(f.name, RefusalMessage(k, faults))
    else SaveFailed(faults.insertErrors[k])
  }

  /** The storage paths of the file entries in [lo, hi). */
  function PathsBetween(files: seq<FormValue>, lo: nat, hi: nat, user: UserId, tripId: nat, timestamp: nat): set<string>
    requires lo <= hi <= |files|
  {
    set j | lo <= j < hi && files[j].Upload? :: PathFor(user, tripId, timestamp, j, files[j].file.name)
  }

  /** Dropping the first entry of the range drops its path, if it is a file. */
  lemma PathsBetweenStep(files: seq<FormValue>, lo: nat, hi: nat, user: UserId, tripId: nat, timestamp: nat)
    requires lo < hi <= |files|
    ensures files[lo].Text? ==> PathsBetween(files, lo, hi, user, tripId, timestamp)
                                == PathsBetween(files, lo + 1, hi, user, tripId, timestamp)
    ensures files[lo].Upload? ==> PathsBetween(files, lo, hi, user, tripId, timestamp)
                                  == {PathFor(user, tripId, timestamp, lo, files[lo].file.name)}
                                     + PathsBetween(files, lo + 1, hi, user, tripId, timestamp)
  {
  }

  /** The number of file entries in [lo, hi). */
  function FileCount(files: seq<FormValue>, lo: nat, hi: nat): (n: nat)
    requires lo <= hi <= |files|
    ensures n <= hi - lo
    decreases hi - lo
  {
    if lo == hi then 0 else (if files[lo].Upload? then 1 else 0) + FileCount(files, lo + 1, hi)
  }

  /** A row the loop inserts for entry index in [lo, hi) of this request. */
  predicate NewRow(r: PhotoRow, tripId: nat, user: UserId, current: nat, lo: nat, hi: nat) {
    r.tripId == tripId && r.userId == user && r.caption.None? && current + lo <= r.sortOrder < current + hi
  }

  /**
   * The loop of `uploadTripPhotos` from entry i: a non-file entry is skipped;
   * a file is checked for size, then type; it is uploaded, which fails on a
   * path the bucket already holds, then its row is inserted with sort order
   * `current + i`; a failed insert removes the uploaded file (unless that
   * removal fails too) and stops. Earlier uploads are never rolled back.
   */
  function RunFrom(files: seq<FormValue>, i: nat, user: UserId, tripId: nat, timestamp: nat, current: nat,
                   faults: UploadFaults, st: Store): Uploaded
    requires i <= |files|
    decreases |files| - i
  {
    if i == |files| then Uploaded(st, None)
    else match files[i]
      case Text(_) => RunFrom(files, i + 1, user, tripId, timestamp, current, faults, st)
      case Upload(f) =>
        if f.size > MaxFileSize then Uploaded(st, Some(TooLarge(f.name)))
        else if f.mimeType !in AllowedTypes then Uploaded(st, Some(BadType(f.name)))
        else
          var path := PathFor(user, tripId, timestamp, i, f.name);
          if UploadRefused(i, path, faults, st.storage) then
            Uploaded(st, Some(UploadFailed(f.name, RefusalMessage(i, faults))))
          else if i in faults.insertErrors then
            var kept := if i in faults.removeFails then st.storage + {path} else st.storage + {path} - {path};
            Uploaded(st.(storage := kept), Some(SaveFailed(faults.insertErrors[i])))
          else
            RunFrom(files, i + 1, user, tripId, timestamp, current, faults,
                    Store(st.photos + [PhotoRow(st.nextId, tripId, user, path, None, current + i)],
                          st.storage + {path}, st.nextId + 1))
  }

  /** The store after entry i when the loop goes on: a file entry adds its row and its file. */
  function Advance(files: seq<FormValue>, i: nat, user: UserId, tripId: nat, timestamp: nat, current: nat,
                   st: Store): Store
    requires i < |files|
  {
    match files[i]
    case Text(_) => st
    case Upload(f) =>
      var path := PathFor(user, tripId, timestamp, i, f.name);
      Store(st.photos + [PhotoRow(st.nextId, tripId, user, path, None, current + i)], st.storage + {path}, st.nextId + 1)
  }

  /** The store when the loop stops at entry k: only a failed insert touched the bucket. */
  function StopStore(files: seq<FormValue>, k: nat, user: UserId, tripId: nat, timestamp: nat,
                     faults: UploadFaults, taken: set<string>, st: Store): Store
    requires k < |files| && Stops(files, k, user, tripId, timestamp, faults, taken)
  {
    var f := files[k].file;
    var path := PathFor(user, tripId, timestamp, k, f.name);
    if f.size <= MaxFileSize && f.mimeType in AllowedTypes && !UploadRefused(k, path, faults, taken) then
      st.(storage := if k in faults.removeFails then st.storage + {path} else st.storage + {path} - {path})
    else st
  }

  /** From entry i on, the bucket `storage` holds a file entry's path exactly when `taken` does. */
  predicate SameTaken(files: seq<FormValue>, i: nat, user: UserId, tripId: nat, timestamp: nat,
                      storage: set<string>, taken: set<string>)
  {
    forall j :: i <= j < |files| && files[j].Upload? ==>
      (PathFor(user, tripId, timestamp, j, files[j].file.name) in storage
       <==> PathFor(user, tripId, timestamp, j, files[j].file.name) in taken)
  }

  /** Storing entry i's file keeps the later entries' paths as they were: no two entries share a path. */
  lemma AdvanceSameTaken(files: seq<FormValue>, i: nat, user: UserId, tripId: nat, timestamp: nat,
                         current: nat, st: Store, taken: set<string>)
    requires i < |files| && SameTaken(files, i, user, tripId, timestamp, st.storage, taken)
    ensures SameTaken(files, i + 1, user, tripId, timestamp,
                      Advance(files, i, user, tripId, timestamp, current, st).storage, taken)
  {
    if files[i].Upload? {
      forall j | i + 1 <= j < |files| && files[j].Upload? {
        PathsDistinct(user, tripId, timestamp, i, files[i].file.name, j, files[j].file.name);
      }
    }
  }

  /** One step of the loop: a stopping entry ends it, any other entry advances the store. */
  lemma RunFromStep(files: seq<FormValue>, i: nat, user: UserId, tripId: nat, timestamp: nat,
                    current: nat, faults: UploadFaults, taken: set<string>, st: Store)
    requires i < |files| && SameTaken(files, i, user, tripId, timestamp, st.storage, taken)
    ensures Stops(files, i, user, tripId, timestamp, faults, taken) ==>
              RunFrom(files, i, user, tripId, timestamp, current, faults, st)
                == Uploaded(StopStore(files, i, user, tripId, timestamp, faults, taken, st),
                            Some(StopError(files, i, user, tripId, timestamp, faults, taken)))
    ensures !Stops(files, i, user, tripId, timestamp, faults, taken) ==>
              RunFrom(files, i, user, tripId, timestamp, current, faults, st)
                == RunFrom(files, i + 1, user, tripId, timestamp, current, faults,
                           Advance(files, i, user, tripId, timestamp, current, st))
  {
  }

  /** The loop stops exactly at the first stopping entry, with that entry's error. */
  lemma {:induction false} RunFromError(files: seq<FormValue>, i: nat, user: UserId, tripId: nat, timestamp: nat,
                                        current: nat, faults: UploadFaults, taken: set<string>, st: Store)
    requires i <= |files| && SameTaken(files, i, user, tripId, timestamp, st.storage, taken)
    ensures var k := FirstStop(files, i, user, tripId, timestamp, faults, taken);
            RunFrom(files, i, user, tripId, timestamp, current, faults, st).error
              == if k == |files| then None else Some(StopError(files, k, user, tripId, timestamp, faults, taken))
    decreases |files| - i
  {
    if i < |files| {
      RunFromStep(files, i, user, tripId, timestamp, current, faults, taken, st);
      if !Stops(files, i, user, tripId, timestamp, faults, taken) {
        AdvanceSameTaken(files, i, user, tripId, timestamp, current, st, taken);
        RunFromError(files, i + 1, user, tripId, timestamp, current, faults, taken,
                     Advance(files, i, user, tripId, timestamp, current, st));
      }
    }
  }

  /** An empty range of entries has no paths. */
  lemma PathsBetweenEmpty(files: seq<FormValue>, lo: nat, user: UserId, tripId: nat, timestamp: nat)
    requires lo <= |files|
    ensures PathsBetween(files, lo, lo, user, tripId, timestamp) == {}
  {
  }

  /**
   * The bucket `before` plus what the stopping entry k leaves there: its file
   * stays only when its upload went through, its insert failed and the
   * clean-up removal failed as well. With k == |files| nothing is added.
   */
  function StorageAfterStop(files: seq<FormValue>, k: nat, user: UserId, tripId: nat, timestamp: nat,
                            faults: UploadFaults, taken: set<string>, before: set<string>): set<string>
    requires k <= |files| && (k < |files| ==> files[k].Upload?)
  {
    if k < |files| && files[k].file.size <= MaxFileSize && files[k].file.mimeType in AllowedTypes
       && !UploadRefused(k, PathFor(user, tripId, timestamp, k, files[k].file.name), faults, taken) then
      var p := PathFor(user, tripId, timestamp, k, files[k].file.name);
      if k in faults.removeFails then before + {p} else before + {p} - {p}
    else before
  }

  /**
   * What the bucket holds afterwards: every file entry before the stopping
   * one was uploaded and stays, and the stopping entry leaves what
   * `StorageAfterStop` says.
   */
  lemma {:induction false} RunFromStorage(files: seq<FormValue>, i: nat, user: UserId, tripId: nat, timestamp: nat,
                                          current: nat, faults: UploadFaults, taken: set<string>, st: Store)
    requires i <= |files| && SameTaken(files, i, user, tripId, timestamp, st.storage, taken)
    ensures var k := FirstStop(files, i, user, tripId, timestamp, faults, taken);
            RunFrom(files, i, user, tripId, timestamp, current, faults, st).store.storage
              == StorageAfterStop(files, k, user, tripId, timestamp, faults, taken,
                                  st.storage + PathsBetween(files, i, k, user, tripId, timestamp))
    decreases |files| - i
  {
    var k := FirstStop(files, i, user, tripId, timestamp, faults, taken);
    if i < |files| {
      RunFromStep(files, i, user, tripId, timestamp, current, faults, taken, st);
      if Stops(files, i, user, tripId, timestamp, faults, taken) {
        assert k == i;
        PathsBetweenEmpty(files, i, user, tripId, timestamp);
        assert st.storage + PathsBetween(files, i, k, user, tripId, timestamp) == st.storage;
      } else {
        var next := Advance(files, i, user, tripId, timestamp, current, st);
        AdvanceSameTaken(files, i, user, tripId, timestamp, current, st, taken);
        RunFromStorage(files, i + 1, user, tripId, timestamp, current, faults, taken, next);
        assert k == FirstStop(files, i + 1, user, tripId, timestamp, faults, taken);
        PathsBetweenStep(files, i, k, user, tripId, timestamp);
        assert st.storage + PathsBetween(files, i, k, user, tripId, timestamp)
               == next.storage + PathsBetween(files, i + 1, k, user, tripId, timestamp);
      }
    } else {
      PathsBetweenEmpty(files, i, user, tripId, timestamp);
      assert st.storage + PathsBetween(files, i, k, user, tripId, timestamp) == st.storage;
    }
  }

  /**
   * The rows the loop adds: it appends one row per file entry before the
   * stopping one, each of this user and trip, without caption, with a sort
   * order from this request's range; the id counter moves on by as many.
   */
  lemma {:induction false} RunFromAdded(files: seq<FormValue>, i: nat, user: UserId, tripId: nat, timestamp: nat,
                                        current: nat, faults: UploadFaults, taken: set<string>, st: Store)
    requires i <= |files| && SameTaken(files, i, user, tripId, timestamp, st.storage, taken)
    ensures var k := FirstStop(files, i, user, tripId, timestamp, faults, taken);
            var out := RunFrom(files, i, user, tripId, timestamp, current, faults, st).store;
            && |out.photos| == |st.photos| + FileCount(files, i, k)
            && out.photos[..|st.photos|] == st.photos
            && out.nextId == st.nextId + FileCount(files, i, k)
            && (forall n :: |st.photos| <= n < |out.photos| ==> NewRow(out.photos[n], tripId, user, current, i, k))
    decreases |files| - i
  {
    var k := FirstStop(files, i, user, tripId, timestamp, faults, taken);
    if i < |files| && !Stops(files, i, user, tripId, timestamp, faults, taken) {
      RunFromStep(files, i, user, tripId, timestamp, current, faults, taken, st);
      var next := Advance(files, i, user, tripId, timestamp, current, st);
      AdvanceSameTaken(files, i, user, tripId, timestamp, current, st, taken);
      RunFromAdded(files, i + 1, user, tripId, timestamp, current, faults, taken, next);
      assert k == FirstStop(files, i + 1, user, tripId, timestamp, faults, taken);
      assert FileCount(files, i, k) == (if files[i].Upload? then 1 else 0) + FileCount(files, i + 1, k);
      if files[i].Upload? {
        var out := RunFrom(files, i, user, tripId, timestamp, current, faults, st).store;
        assert out.photos[..|next.photos|] == next.photos;
        assert out.photos[..|st.photos|] == next.photos[..|st.photos|];
        assert out.photos[|st.photos|] == next.photos[|st.photos|];
      }
    } else {
      if i < |files| {
        RunFromStep(files, i, user, tripId, timestamp, current, faults, taken, st);
      }
      assert k == i && FileCount(files, i, k) == 0;
    }
  }

  /** The added rows take fresh ids from the counter, in ascending order. */
  lemma {:induction false} RunFromIds(files: seq<FormValue>, i: nat, user: UserId, tripId: nat, timestamp: nat,
                                      current: nat, faults: UploadFaults, taken: set<string>, st: Store)
    requires i <= |files| && SameTaken(files, i, user, tripId, timestamp, st.storage, taken)
    ensures var out := RunFrom(files, i, user, tripId, timestamp, current, faults, st).store;
            && |st.photos| <= |out.photos|
            && (forall n :: |st.photos| <= n < |out.photos| ==> st.nextId <= out.photos[n].id < out.nextId)
            && (forall n, m :: |st.photos| <= n < m < |out.photos| ==> out.photos[n].id < out.photos[m].id)
    decreases |files| - i
  {
    RunFromAdded(files, i, user, tripId, timestamp, current, faults, taken, st);
    if i < |files| {
      RunFromStep(files, i, user, tripId, timestamp, current, faults, taken, st);
      if !Stops(files, i, user, tripId, timestamp, faults, taken) {
        var next := Advance(files, i, user, tripId, timestamp, current, st);
        AdvanceSameTaken(files, i, user, tripId, timestamp, current, st, taken);
        RunFromIds(files, i + 1, user, tripId, timestamp, current, faults, taken, next);
        if files[i].Upload? {
          RunFromAdded(files, i + 1, user, tripId, timestamp, current, faults, taken, next);
          var out := RunFrom(files, i, user, tripId, timestamp, current, faults, st).store;
          assert out.photos[|st.photos|] == next.photos[|st.photos|] by {
            assert out.photos[..|next.photos|] == next.photos;
          }
        }
      }
    }
  }

  /** Every file entry before the stopping one has its row, with sort order `current + j` and its own path. */
  lemma {:induction false} RunFromRowPaths(files: seq<FormValue>, i: nat, user: UserId, tripId: nat, timestamp: nat,
                                           current: nat, faults: UploadFaults, taken: set<string>, st: Store)
    requires i <= |files| && SameTaken(files, i, user, tripId, timestamp, st.storage, taken)
    ensures var k := FirstStop(files, i, user, tripId, timestamp, faults, taken);
            var out := RunFrom(files, i, user, tripId, timestamp, current, faults, st).store;
            forall j :: i <= j < k && files[j].Upload? ==>
              exists n :: |st.photos| <= n < |out.photos| && out.photos[n].sortOrder == current + j
                          && out.photos[n].storagePath == PathFor(user, tripId, timestamp, j, files[j].file.name)
    decreases |files| - i
  {
    var k := FirstStop(files, i, user, tripId, timestamp, faults, taken);
    if i < |files| {
      RunFromStep(files, i, user, tripId, timestamp, current, faults, taken, st);
      if !Stops(files, i, user, tripId, timestamp, faults, taken) {
        var next := Advance(files, i, user, tripId, timestamp, current, st);
        AdvanceSameTaken(files, i, user, tripId, timestamp, current, st, taken);
        RunFromRowPaths(files, i + 1, user, tripId, timestamp, current, faults, taken, next);
        if files[i].Upload? {
          RunFromAdded(files, i + 1, user, tripId, timestamp, current, faults, taken, next);
          var out := RunFrom(files, i, user, tripId, timestamp, current, faults, st).store;
          var n := |st.photos|;
          assert out.photos[n] == next.photos[n] by {
            assert out.photos[..|next.photos|] == next.photos;
          }
          forall j | i <= j < k && files[j].Upload?
            ensures exists n :: |st.photos| <= n < |out.photos| && out.photos[n].sortOrder == current + j
                                && out.photos[n].storagePath == PathFor(user, tripId, timestamp, j, files[j].file.name)
          {
            if j == i {
              assert out.photos[n].sortOrder == current + j;
            }
          }
        }
      }
    }
  }

  /**
   * `uploadTripPhotos` as a whole: sign-in, the count query, an empty
   * `files` list, and the limit `current + files.length > 20` (non-file
   * entries included) are each checked before anything is uploaded.
   */
  function Upload(st: Store, user: Option<UserId>, tripId: nat, files: seq<FormValue>, timestamp: nat,
                  faults: UploadFaults): (r: Uploaded)
    ensures r.error.Some? && r.error.value in {NotSignedIn, NoFiles} ==> r.store == st
    ensures r.error.Some? && (r.error.value.CountFailed? || r.error.value.TooMany?) ==> r.store == st
    ensures user.Some? && faults.countError.None? && files != [] ==>
              (r.error == Some(TooMany(CountOf(st.photos, tripId, user.value), |files|))
               <==> CountOf(st.photos, tripId, user.value) + |files| > MaxPhotosPerTrip)
  {
    if user.None? then Uploaded(st, Some(NotSignedIn))
    else if faults.countError.Some? then Uploaded(st, Some(CountFailed(faults.countError.value)))
    else if files == [] then Uploaded(st, Some(NoFiles))
    else
      var current := CountOf(st.photos, tripId, user.value);
      if current + |files| > MaxPhotosPerTrip then Uploaded(st, Some(TooMany(current, |files|)))
      else
        var r := RunFrom(files, 0, user.value, tripId, timestamp, current, faults, st);
        RunFromError(files, 0, user.value, tripId, timestamp, current, faults, st.storage, st);
        r
  }

  /** A trip within the limit stays within it: at most 20 of the user's photos, whatever the request. */
  lemma UploadKeepsLimit(st: Store, user: UserId, tripId: nat, files: seq<FormValue>, timestamp: nat,
                         faults: UploadFaults)
    requires CountOf(st.photos, tripId, user) <= MaxPhotosPerTrip
    ensures CountOf(Upload(st, Some(user), tripId, files, timestamp, faults).store.photos, tripId, user)
              <= MaxPhotosPerTrip
  {
    var current := CountOf(st.photos, tripId, user);
    if faults.countError.None? && files != [] && current + |files| <= MaxPhotosPerTrip {
      var r := RunFrom(files, 0, user, tripId, timestamp, current, faults, st);
      assert Upload(st, Some(user), tripId, files, timestamp, faults) == r;
      RunFromAdded(files, 0, user, tripId, timestamp, current, faults, st.storage, st);
      var out := r.store.photos;
      var added := out[|st.photos|..];
      assert out == st.photos + added;
      assert |added| <= |files|;
      CountAppend(st.photos, added, tripId, user);
      CountAllMatching(added, tripId, user);
    }
  }

  /** A request that reports no error stored every file entry: its file is in the bucket and its row in the table. */
  lemma UploadSuccessStoresEveryFile(st: Store, user: UserId, tripId: nat, files: seq<FormValue>, timestamp: nat,
                                     faults: UploadFaults, j: nat)
    requires Upload(st, Some(user), tripId, files, timestamp, faults).error.None?
    requires j < |files| && files[j].Upload?
    ensures var out := Upload(st, Some(user), tripId, files, timestamp, faults).store;
            var p := PathFor(user, tripId, timestamp, j, files[j].file.name);
            p in out.storage && exists n :: 0 <= n < |out.photos| && out.photos[n].storagePath == p
                                            && out.photos[n].sortOrder == CountOf(st.photos, tripId, user) + j
  {
    var current := CountOf(st.photos, tripId, user);
    RunFromError(files, 0, user, tripId, timestamp, current, faults, st.storage, st);
    RunFromStorage(files, 0, user, tripId, timestamp, current, faults, st.storage, st);
    RunFromRowPaths(files, 0, user, tripId, timestamp, current, faults, st.storage, st);
  }

  /** A successful request uploaded no file onto a path the bucket already held: every new path was free. */
  lemma UploadSuccessPathsWereFree(st: Store, user: UserId, tripId: nat, files: seq<FormValue>, timestamp: nat,
                                   faults: UploadFaults, j: nat)
    requires Upload(st, Some(user), tripId, files, timestamp, faults).error.None?
    requires j < |files| && files[j].Upload?
    ensures PathFor(user, tripId, timestamp, j, files[j].file.name) !in st.storage
  {
    var current := CountOf(st.photos, tripId, user);
    RunFromError(files, 0, user, tripId, timestamp, current, faults, st.storage, st);
    assert !Stops(files, j, user, tripId, timestamp, faults, st.storage);
  }

  /** A file whose path the bucket already holds stops the request with the storage service's refusal, before any insert. */
  lemma UploadRefusesTakenPath(st: Store, user: UserId, tripId: nat, files: seq<FormValue>, timestamp: nat,
                               faults: UploadFaults, k: nat)
    requires faults.countError.None? && files != []
    requires CountOf(st.photos, tripId, user) + |files| <= MaxPhotosPerTrip
    requires k == FirstStop(files, 0, user, tripId, timestamp, faults, st.storage) && k < |files|
    requires files[k].file.size <= MaxFileSize && files[k].file.mimeType in AllowedTypes
    requires k !in faults.uploadErrors && PathFor(user, tripId, timestamp, k, files[k].file.name) in st.storage
    ensures Upload(st, Some(user), tripId, files, timestamp, faults).error
              == Some(UploadFailed(files[k].file.name, DuplicateMessage))
    ensures |Upload(st, Some(user), tripId, files, timestamp, faults).store.photos|
              == |st.photos| + FileCount(files, 0, k)
  {
    var current := CountOf(st.photos, tripId, user);
    RunFromError(files, 0, user, tripId, timestamp, current, faults, st.storage, st);
    RunFromAdded(files, 0, user, tripId, timestamp, current, faults, st.storage, st);
  }

  /**
   * A request that stops at entry k keeps what it stored before k (no
   * rollback), and the file of a failed insert is gone unless its removal
   * failed.
   */
  lemma UploadStopKeepsEarlierFiles(st: Store, user: UserId, tripId: nat, files: seq<FormValue>, timestamp: nat,
                                    faults: UploadFaults, j: nat)
    requires faults.countError.None? && files != []
    requires CountOf(st.photos, tripId, user) + |files| <= MaxPhotosPerTrip
    requires j < FirstStop(files, 0, user, tripId, timestamp, faults, st.storage) && files[j].Upload?
    ensures PathFor(user, tripId, timestamp, j, files[j].file.name)
              in Upload(st, Some(user), tripId, files, timestamp, faults).store.storage
  {
    var current := CountOf(st.photos, tripId, user);
    var k := FirstStop(files, 0, user, tripId, timestamp, faults, st.storage);
    RunFromStorage(files, 0, user, tripId, timestamp, current, faults, st.storage, st);
    var pj := PathFor(user, tripId, timestamp, j, files[j].file.name);
    assert pj in PathsBetween(files, 0, k, user, tripId, timestamp);
    if k < |files| {
      PathsDistinct(user, tripId, timestamp, j, files[j].file.name, k, files[k].file.name);
    }
  }

  lemma UploadFailedInsertCleansUp(st: Store, user: UserId, tripId: nat, files: seq<FormValue>, timestamp: nat,
                                   faults: UploadFaults, k: nat)
    requires faults.countError.None? && files != []
    requires CountOf(st.photos, tripId, user) + |files| <= MaxPhotosPerTrip
    requires k == FirstStop(files, 0, user, tripId, timestamp, faults, st.storage) && k < |files|
    requires Upload(st, Some(user), tripId, files, timestamp, faults).error.Some?
    requires Upload(st, Some(user), tripId, files, timestamp, faults).error.value.SaveFailed?
    ensures PathFor(user, tripId, timestamp, k, files[k].file.name)
              in Upload(st, Some(user), tripId, files, timestamp, faults).store.storage
            <==> k in faults.removeFails
  {
    var current := CountOf(st.photos, tripId, user);
    RunFromError(files, 0, user, tripId, timestamp, current, faults, st.storage, st);
    RunFromStorage(files, 0, user, tripId, timestamp, current, faults, st.storage, st);
  }

  /** One turn of the loop: entry i either stops the request or leaves it to go on from i + 1. */
  method UploadEntry(db: Database, files: seq<FormValue>, i: nat, user: UserId, tripId: nat, timestamp: nat,
                     current: nat, faults: UploadFaults)
    returns (stop: Option<UploadError>)
    requires i < |files|
    requires TripsValid(db.trips, db.nextId) && PhotosValid(db.photos, db.nextId)
    modifies db
    ensures TripsValid(db.trips, db.nextId) && PhotosValid(db.photos, db.nextId)
    ensures db.trips == old(db.trips) && db.visited == old(db.visited) && db.portraits == old(db.portraits)
    ensures var before := Store(old(db.photos), old(db.storage), old(db.nextId));
            var now := Store(db.photos, db.storage, db.nextId);
            RunFrom(files, i, user, tripId, timestamp, current, faults, before)
              == if stop.Some? then Uploaded(now, stop) else RunFrom(files, i + 1, user, tripId, timestamp, current, faults, now)
  {
    RunFromStep(files, i, user, tripId, timestamp, current, faults, db.storage, Store(db.photos, db.storage, db.nextId));
    if files[i].Text? {
      return None;
    }
    var file := files[i].file;
    if file.size > MaxFileSize {
      return Some(TooLarge(file.name));
    }
    if file.mimeType !in AllowedTypes {
      return Some(BadType(file.name));
    }
    var path := PathFor(user, tripId, timestamp, i, file.name);
    if i in faults.uploadErrors || path in db.storage {
      return Some(UploadFailed(file.name, RefusalMessage(i, faults)));
    }
    db.storage := db.storage + {path};
    if i in faults.insertErrors {
      if i !in faults.removeFails {
        db.storage := db.storage - {path};
      }
      return Some(SaveFailed(faults.insertErrors[i]));
    }
    TripsValidRaise(db.trips, db.nextId);
    PhotosValidAppend(db.photos, PhotoRow(db.nextId, tripId, user, path, None, current + i), db.nextId);
    db.photos := db.photos + [PhotoRow(db.nextId, tripId, user, path, None, current + i)];
    db.nextId := db.nextId + 1;
    return None;
  }

  /** `uploadTripPhotos`, with the loop over `formData.getAll("files")`. */
  method UploadTripPhotos(db: Database, user: Option<UserId>, tripId: nat, form: FormData, timestamp: nat,
                          faults: UploadFaults)
    returns (error: Option<string>)
    requires db.Valid()
    modifies db
    ensures db.Valid()
    ensures var out := Upload(Store(old(db.photos), old(db.storage), old(db.nextId)), user, tripId,
                              form.GetAll("files"), timestamp, faults);
            Store(db.photos, db.storage, db.nextId) == out.store && error == MessageOf(out.error)
    ensures db.trips == old(db.trips) && db.visited == old(db.visited) && db.portraits == old(db.portraits)
  {
    if user.None? {
      return Some(SignInMessage);
    }
    if faults.countError.Some? {
      return Some(faults.countError.value);
    }
    var current := CountOf(db.photos, tripId, user.value);
    var files := form.GetAll("files");
    if |files| == 0 {
      return Some(NoFilesMessage);
    }
    if current + |files| > MaxPhotosPerTrip {
      return Some(Message(TooMany(current, |files|)));
    }
    ghost var goal := RunFrom(files, 0, user.value, tripId, timestamp, current, faults,
                              Store(db.photos, db.storage, db.nextId));
    var i := 0;
    while i < |files|
      invariant 0 <= i <= |files|
      invariant RunFrom(files, i, user.value, tripId, timestamp, current, faults, Store(db.photos, db.storage, db.nextId)) == goal
      invariant TripsValid(db.trips, db.nextId) && PhotosValid(db.photos, db.nextId)
      invariant db.trips == old(db.trips) && db.visited == old(db.visited) && db.portraits == old(db.portraits)
    {
      var stop := UploadEntry(db, files, i, user.value, tripId, timestamp, current, faults);
      if stop.Some? {
        return Some(Message(stop.value));
      }
      i := i + 1;
    }
    return None;
  }

  /** The fetch `.eq("id", photoId).eq("user_id", user).single()`: the user's row with that id, if any. */
  function FindPhoto(photos: seq<PhotoRow>, photoId: nat, user: UserId): (r: Option<PhotoRow>)
    ensures r.Some? ==> r.value in photos && r.value.id == photoId && r.value.userId == user
    ensures r.None? <==> forall p :: p in photos ==> !(p.id == photoId && p.userId == user)
  {
    if photos == [] then None
    else if photos[0].id == photoId && photos[0].userId == user then Some(photos[0])
    else FindPhoto(photos[1..], photoId, user)
  }

  /** The rows the delete filter leaves. */
  function RemovePhoto(photos: seq<PhotoRow>, photoId: nat, user: UserId): (r: seq<PhotoRow>)
    ensures |r| <= |photos|
    ensures forall p :: p in r <==> p in photos && !(p.id == photoId && p.userId == user)
  {
    if photos == [] then []
    else if photos[0].id == photoId && photos[0].userId == user then RemovePhoto(photos[1..], photoId, user)
    else [photos[0]] + RemovePhoto(photos[1..], photoId, user)
  }

  lemma {:induction false} RemovePhotoKeepsValid(photos: seq<PhotoRow>, nextId: nat, photoId: nat, user: UserId)
    requires PhotosValid(photos, nextId)
    ensures PhotosValid(RemovePhoto(photos, photoId, user), nextId)
  {
    if photos != [] {
      PhotosValidTail(photos, nextId);
      RemovePhotoKeepsValid(photos[1..], nextId, photoId, user);
      if !(photos[0].id == photoId && photos[0].userId == user) {
        PhotosValidCons(photos[0], RemovePhoto(photos[1..], photoId, user), nextId);
      }
    }
  }

  /**
   * `deleteTripPhoto`: finds the user's photo, removes its file from the
   * bucket, then deletes its row. A failed fetch or a missing photo changes
   * nothing; a failed file removal keeps the row; a failed row delete comes
   * after the file is already gone.
   */
  method DeleteTripPhoto(db: Database, user: Option<UserId>, photoId: nat, fetchError: Option<string>,
                         removeError: Option<string>, deleteError: Option<string>)
    returns (error: Option<string>)
    requires db.Valid()
    modifies db
    ensures db.Valid()
    ensures user.None? ==> error == Some(SignInMessage) && db.storage == old(db.storage) && db.photos == old(db.photos)
    ensures user.Some? && (fetchError.Some? || FindPhoto(old(db.photos), photoId, user.value).None?) ==>
              error == Some(fetchError.GetOr(NotFoundMessage)) && db.storage == old(db.storage) && db.photos == old(db.photos)
    ensures user.Some? && fetchError.None? && FindPhoto(old(db.photos), photoId, user.value).Some? ==>
              var photo := FindPhoto(old(db.photos), photoId, user.value).value;
              && (removeError.Some? ==> error == Some("Ошибка удаления файла: " + removeError.value)
                                        && db.storage == old(db.storage) && db.photos == old(db.photos))
              && (removeError.None? ==> db.storage == old(db.storage) - {photo.storagePath})
              && (removeError.None? && deleteError.Some? ==> error == deleteError && db.photos == old(db.photos))
              && (removeError.None? && deleteError.None? ==>
                    error.None? && db.photos == RemovePhoto(old(db.photos), photoId, user.value))
    ensures db.trips == old(db.trips) && db.visited == old(db.visited) && db.portraits == old(db.portraits)
    ensures db.nextId == old(db.nextId)
  {
    if user.None? {
      return Some(SignInMessage);
    }
    var photo := FindPhoto(db.photos, photoId, user.value);
    if fetchError.Some? || photo.None? {
      return Some(fetchError.GetOr(NotFoundMessage));
    }
    if removeError.Some? {
      return Some("Ошибка удаления файла: " + removeError.value);
    }
    db.storage := db.storage - {photo.value.storagePath};
    if deleteError.Some? {
      return deleteError;
    }
    RemovePhotoKeepsValid(db.photos, db.nextId, photoId, user.value);
    db.photos := RemovePhoto(db.photos, photoId, user.value);
    return None;
  }

  /** Deleting a photo never touches another user's rows or the trip's other photos. */
  lemma DeletePhotoKeepsOthers(photos: seq<PhotoRow>, photoId: nat, user: UserId, p: PhotoRow)
    requires p in photos && (p.id != photoId || p.userId != user)
    ensures p in RemovePhoto(photos, photoId, user)
  {
  }
}
