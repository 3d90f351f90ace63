# Travel World: a verified model of the core

Travel World is a Next.js travel diary. A signed-in user records trips, which have a country, dates, notes and a mood. They attach up to twenty photos to a trip, mark countries as visited on a world map, and request an AI "traveller portrait" once they have at least three trips. Supabase provides authentication, the database tables and the photo bucket.

This project models the logic at the centre of the application in Dafny and proves what that logic promises:

- **`country_codes.dfy`**: the ISO 3166-1 numeric to alpha-2 table that joins the map's TopoJSON ids to the database's country codes, and its inversion through `Object.entries`/`Object.fromEntries`. The model follows JavaScript property order: canonical array-index keys come first, in ascending order, then the other keys in creation order. The last entry for a key wins. So the two Israel keys "275" and "376" invert to "376".
- **`world_map.dfy`**: the map component. It covers the per-region colour and cursor, clicks, the tooltip state machine as a class (`MapView`), and the Russian plural after the visited count.
- **`parse_portrait.dfy`**: splitting the model's reply at line-start `## ` headers, dropping empty pieces, finding sections by case-insensitive prefix, and the regular expression `^.*\n`, which only drops a first line that ends in a line feed.
- **`portrait_route.dfy`**: the `POST /api/ai/portrait` handler. It covers the 401 and 400 guards, the minimum of three trips, the 500 response when the model call throws, the recorded row with its `model_version`, and the 200 response.
- **`photos.dfy`**: the photo server actions. The upload loop over `formData.getAll("files")` has these properties:
  - the loop is an imperative method proved against a recursive specification of the loop;
  - the per-trip limit is checked;
  - size and type are checked per file;
  - storage paths are sanitised;
  - an upload onto a path the bucket already holds fails (`upsert: false`);
  - a failed insert triggers clean-up;
  - nothing is rolled back.

  Deleting a photo is modelled too.
- **`photo_uploader.dfy`**: the client-side checks of the uploader: file acceptance, the limit, validation order, and the drop, file-input and click handlers.
- **`trips.dfy`**: create, update and delete of a trip. This covers reading the columns from the form, the required fields, owner filters, removing a trip's files from the bucket, and the cascade to the photo rows.
- **`trip_form.dfy`**: the country search of the trip form, the selected country, and the submit handler, which injects the country and mood into the `FormData` before calling the action.
- **`visited_countries.dfy`**: marking (upsert) and unmarking (delete) a visited country, keyed by the upper-cased code.
- **`header.dfy`**: the avatar initials (split on `/[\s@]+/`, first characters, upper case, at most two) and the active navigation link.
- **Support modules**:
  - `options.dfy`: `Option`, standing for `null`, `undefined` and `??`;
  - `strings.dfy`: `trim`, `startsWith`, whitespace, decimal rendering;
  - `form_data.dfy`: `FormData` as a class over its entry list;
  - `actions.dfy`: the results of server actions;
  - `registry.dfy`: the country record;
  - `backend.dfy`: the Supabase tables and the bucket as a `Database` class, with its validity invariant.

The following become parameters of the model:

- whatever the backend or the environment decides;
- the signed-in user;
- each query's or call's error;
- the upload timestamp;
- the model's reply;
- the environment variables;
- the `toLowerCase`/`toUpperCase` functions;
- the country registry.

Row ids are natural numbers drawn from a `nextId` counter.

## Model

| member | source | states |
|---|---|---|
| Options.Option.GetOr | src/components/map/WorldMap.tsx:56 | `??`: the wrapped value when there is one, the default otherwise |
| Strings.Trim | src/lib/ai/parse-portrait.ts:23 | `trim()` returns a slice of its input; only whitespace lies outside the slice and neither end of the result is whitespace |
| Strings.TrimOfTrimmed | src/lib/ai/parse-portrait.ts:23 | trimming a string that has no whitespace at either end returns it unchanged |
| Strings.SignedDecimal | src/components/photos/PhotoUploader.tsx:68 | a negative number renders as "-" followed by the digits of its absolute value |
| Strings.DecimalRoundTrip | src/lib/actions/photos.ts:61 | reading back the decimal rendering of a number gives the number |
| Strings.DecimalInjective | src/lib/actions/photos.ts:61 | distinct numbers render to distinct digit strings |
| CountryCodes.FromEntries | src/lib/constants/country-codes.ts:250-253 | the object's keys are exactly the entries' keys; each value is the value of an entry with that key |
| CountryCodes.FromEntriesLastWins | src/lib/constants/country-codes.ts:250-253 | an entry that no later entry with the same key contradicts gives the object's value for its key |
| CountryCodes.FromDistinctEntries | src/lib/constants/country-codes.ts:6-247 | when no key repeats, every entry survives in the object |
| CountryCodes.InsertBy | src/lib/constants/country-codes.ts:252 | inserting adds exactly the one entry: the result is a permutation of the input plus it |
| CountryCodes.InsertBySorted | src/lib/constants/country-codes.ts:252 | inserting into an ascending list keeps it ascending, with the new entry or the old head in front |
| CountryCodes.SortBy | src/lib/constants/country-codes.ts:252 | the array-index keys come out in ascending numeric order, as a permutation of the input |
| CountryCodes.SelectKeys | src/lib/constants/country-codes.ts:252 | keeps exactly the entries whose key is (or is not) a canonical array index |
| CountryCodes.SelectKeysAppend | src/lib/constants/country-codes.ts:252 | selecting from two lists joined gives the selection from the first, then from the second |
| CountryCodes.SelectKeysSingle | src/lib/constants/country-codes.ts:252 | one entry is kept exactly when its key is of the wanted kind; with `SelectKeysAppend` this fixes the selection's order and multiplicity |
| CountryCodes.SelectKeysPartition | src/lib/constants/country-codes.ts:252 | the array-index selection and the other selection together hold every entry, as often as the input does |
| CountryCodes.SelectKeysUniform | src/lib/constants/country-codes.ts:252 | a list whose keys are all of one kind is kept whole by that selection and emptied by the other |
| CountryCodes.OwnEntries | src/lib/constants/country-codes.ts:252 | `Object.entries` yields the object's entries and nothing else; their order is stated by `OwnEntriesOrder` |
| CountryCodes.OwnEntriesParts | src/lib/constants/country-codes.ts:252 | the sorted part holds only array-index keys and the remaining part none |
| CountryCodes.OwnEntriesIndexFirst | src/lib/constants/country-codes.ts:252 | the array-index keys are exactly the leading entries, as many as the input has |
| CountryCodes.OwnEntriesOrder | src/lib/constants/country-codes.ts:252 | a permutation of the entries in which every array-index key precedes every other key, the array-index keys ascend numerically, and the other keys keep their creation order |
| CountryCodes.Swap | src/lib/constants/country-codes.ts:252 | `([k, v]) => [v, k]` swaps every entry, position by position |
| CountryCodes.Alpha2Of | src/components/map/WorldMap.tsx:54 | the lookup fails exactly for ids that are not in the table, and otherwise returns the table's code for the id |
| CountryCodes.ThreeDigitKey | src/lib/constants/country-codes.ts:6-247 | a three-digit key is a JavaScript array index exactly when it does not start with "0" |
| CountryCodes.TableDistinctKeys | src/lib/constants/country-codes.ts:6-247 | no numeric key occurs twice in the table literal |
| CountryCodes.TableWellFormed | src/lib/constants/country-codes.ts:6-247 | every key of `NUMERIC_TO_ALPHA2` is three digits and every value two upper-case letters |
| CountryCodes.ForwardOf | src/lib/constants/country-codes.ts:6-247 | every row of the literal is an entry of `NUMERIC_TO_ALPHA2` |
| CountryCodes.ForwardValues | src/lib/constants/country-codes.ts:6-247 | with distinct keys, the object's values are exactly the entries' values |
| CountryCodes.InvertFrom | src/lib/constants/country-codes.ts:250-253 | each inverse entry is a swapped entry of the table |
| CountryCodes.InvertKeys | src/lib/constants/country-codes.ts:250-253 | the inverse has a key for every value of the table and for nothing else |
| CountryCodes.InvertLastWins | src/lib/constants/country-codes.ts:250-253 | when a value sits under exactly two array-index keys, the inverse keeps the numerically larger key, wherever the two stand in the literal |
| CountryCodes.InverseSound | src/lib/constants/country-codes.ts:250-253 | every code of `ALPHA2_TO_NUMERIC` maps to a numeric key that maps back to that code |
| CountryCodes.InverseKeys | src/lib/constants/country-codes.ts:250-253 | the codes of `ALPHA2_TO_NUMERIC` are exactly the values of `NUMERIC_TO_ALPHA2` |
| CountryCodes.RoundTrip | src/lib/constants/country-codes.ts:250-253 | a numeric key whose code no other key shares survives the round trip through both tables |
| CountryCodes.IsraelEntries | src/lib/constants/country-codes.ts:84-107 | both "275" and "376" are rows with code "IL" |
| CountryCodes.IsraelKeys | src/lib/constants/country-codes.ts:6-247 | no other row has code "IL" |
| CountryCodes.IsraelForward | src/lib/constants/country-codes.ts:84-107 | both "275" and "376" map to "IL" |
| CountryCodes.IsraelInverse | src/lib/constants/country-codes.ts:250-253 | "IL" maps back to "376" |
| CountryCodes.IsraelLastWins | src/lib/constants/country-codes.ts:250-253 | both keys map forward to "IL", the inverse keeps "376", and "275" is no value of the inverse |
| WorldMap.IsVisited | src/components/map/WorldMap.tsx:123-125 | a region is visited exactly when its id maps to a code in the visited set; an unmapped id is never visited |
| WorldMap.RegionStyle | src/components/map/WorldMap.tsx:131-142 | visited colours exactly for visited regions and the default and hover colours for the others; the pointer cursor exactly for mapped ids |
| WorldMap.Click | src/components/map/WorldMap.tsx:155-159 | the callback fires exactly when one is given and the id is mapped, with the id's code and whether that code is visited |
| WorldMap.TooltipName | src/components/map/WorldMap.tsx:53-56 | the registry's name for the mapped code, otherwise the feature's name, otherwise "Unknown" |
| WorldMap.Moved | src/components/map/WorldMap.tsx:63-65 | a shown tooltip keeps its name and takes the new position; a hidden one stays hidden |
| WorldMap.MoveAfterLeaveShowsNothing | src/components/map/WorldMap.tsx:63-69 | after the mouse leaves, moves bring no tooltip back |
| WorldMap.MovesKeepName | src/components/map/WorldMap.tsx:63-65 | any sequence of moves keeps the tooltip shown, under its name |
| WorldMap.MapView.constructor | src/components/map/WorldMap.tsx:39-44 | no tooltip and region "World" at first |
| WorldMap.MapView.MouseEnter | src/components/map/WorldMap.tsx:48-61 | shows the tooltip with the region's name at the pointer; the region filter is unchanged |
| WorldMap.MapView.MouseMove | src/components/map/WorldMap.tsx:63-65 | the tooltip becomes `Moved` of the old one; the region filter is unchanged |
| WorldMap.MapView.MouseLeave | src/components/map/WorldMap.tsx:67-69 | hides the tooltip; the region filter is unchanged |
| WorldMap.MapView.SelectRegion | src/components/map/WorldMap.tsx:78-94 | sets the region filter and leaves the tooltip alone |
| WorldMap.CountWord | src/components/map/WorldMap.tsx:185 | "страна" for 1, "страны" for 2 to 4, "стран" for 0 and from 5 on |
| WorldMap.VisitedCountLabel | src/components/map/WorldMap.tsx:184-185 | the label is the size of the visited set with its plural word |
| ParsePortrait.SplitFrom | src/lib/ai/parse-portrait.ts:16 | a split always yields at least one piece |
| ParsePortrait.SplitRejoins | src/lib/ai/parse-portrait.ts:16 | rejoining the pieces with "## " gives back the text |
| ParsePortrait.SplitFromCutsAtHeaders | src/lib/ai/parse-portrait.ts:16 | from any scan position, the text right after each piece but the last, and its marker, begins at a line-start "## " |
| ParsePortrait.SplitCutsAtHeaders | src/lib/ai/parse-portrait.ts:16 | the split cuts only where "## " opens the text or follows a line terminator, so "a## b" stays one piece |
| ParsePortrait.SplitNoInnerHeader | src/lib/ai/parse-portrait.ts:16 | no piece holds a line-start "## " after its first position |
| ParsePortrait.FirstPieceHasNoMarker | src/lib/ai/parse-portrait.ts:16 | the first piece never starts with "## " |
| ParsePortrait.DropEmpty | src/lib/ai/parse-portrait.ts:16 | `filter(Boolean)` keeps every non-empty piece and no empty one |
| ParsePortrait.FindIgnoresEmpty | src/lib/ai/parse-portrait.ts:16-21 | when the case mapping keeps "" empty and the name is non-empty, `find` over the filtered pieces picks the same piece as over all of them, and finds one exactly when that does |
| ParsePortrait.SectionIgnoresEmpty | src/lib/ai/parse-portrait.ts:16-25 | under the same conditions, every section body is the same with or without the empty pieces |
| ParsePortrait.FindSection | src/lib/ai/parse-portrait.ts:19-21 | `find` returns the first piece whose lower-cased text starts with the lower-cased name, and none only when there is no such piece |
| ParsePortrait.FirstTerminator | src/lib/ai/parse-portrait.ts:23 | the position of the first line terminator, or none when there is none |
| ParsePortrait.DropFirstLine | src/lib/ai/parse-portrait.ts:23 | `replace(/^.*\n/, "")` removes the first line with its line feed when no other line terminator comes first, and otherwise leaves the text unchanged |
| ParsePortrait.FirstLineUnique | src/lib/ai/parse-portrait.ts:23 | there is only one first line terminator |
| ParsePortrait.Section | src/lib/ai/parse-portrait.ts:18-25 | a missing section gives ""; a found one gives its trimmed body, without the header line; the result is trimmed either way |
| ParsePortrait.Parse | src/lib/ai/parse-portrait.ts:13-33 | each of the four fields is its section's body and is trimmed; `raw` is the text |
| ParsePortrait.NoHeadersAllEmpty | src/lib/ai/parse-portrait.ts:13-33 | a reply none of whose non-empty pieces starts, once both are lower-cased, with one of the four section names parses to four empty fields, with the raw text kept |
| ParsePortrait.HeaderLineDropped | src/lib/ai/parse-portrait.ts:23 | the header line up to its line feed goes |
| ParsePortrait.CrlfHeaderKept | src/lib/ai/parse-portrait.ts:23 | a header line that ends in CR LF is kept, because `.` stops at the CR |
| ParsePortrait.SingleLineKept | src/lib/ai/parse-portrait.ts:23 | a section without a line feed is kept whole |
| PortraitRoute.ModelVersion | src/app/api/ai/portrait/route.ts:50-53 | "gemini/" plus the model (default "gemini-2.0-flash") when the provider is "gemini"; the provider otherwise; "gemini" when it is unset |
| PortraitRoute.TripCount | src/app/api/ai/portrait/route.ts:21-26 | counts the user's rows: 0 when the user has none, all of them when every row is the user's |
| PortraitRoute.ArchetypeColumn | src/app/api/ai/portrait/route.ts:57 | `archetype \|\| null`: null exactly for the empty archetype |
| PortraitRoute.Respond | src/app/api/ai/portrait/route.ts:17-71 | 401 without a user; 400 when the query returns nothing or fewer than 3 trips; the model is asked exactly otherwise; 500 with the error's message or "LLM request failed" when the call throws; otherwise 200 with the parsed portrait and a row holding the raw text, the trip count and the model version |
| PortraitRoute.SuccessKeepsRawReply | src/app/api/ai/portrait/route.ts:49-69 | on success both the response and the row carry the model's raw text |
| PortraitRoute.RecordedArchetype | src/app/api/ai/portrait/route.ts:55-61 | the recorded archetype is null exactly when the parsed one is empty |
| PortraitRoute.Post | src/app/api/ai/portrait/route.ts:10-72 | responds as `Respond` says and appends the row unless the insert fails, which is ignored; no other table changes |
| Photos.Message | src/lib/actions/photos.ts:34-85 | a count failure passes the backend's message through; the limit message names the limit of 20 |
| Photos.MessageOf | src/lib/actions/photos.ts:25-91 | the action returns an error exactly when the upload stopped |
| Photos.SafeName | src/lib/actions/photos.ts:60 | each character outside `[a-zA-Z0-9.-]` becomes "_" and the others stay, position by position |
| Photos.SafeNameHasNoSlash | src/lib/actions/photos.ts:60-61 | a sanitised name holds no "/" and cannot leave its folder |
| Photos.SafeNameIdempotent | src/lib/actions/photos.ts:60 | sanitising twice changes nothing more |
| Photos.PathsDistinct | src/lib/actions/photos.ts:61 | two entries of one request never share a storage path |
| Photos.CountOf | src/lib/actions/photos.ts:28-32 | the count of the head query never exceeds the table's size |
| Photos.CountIsExact | src/lib/actions/photos.ts:28-32 | the count is exactly the number of positions holding a row of this user and trip |
| Photos.CountAppend | src/lib/actions/photos.ts:28-32 | counting two tables one after the other adds their counts |
| Photos.CountAllMatching | src/lib/actions/photos.ts:28-32 | a table of the user's rows of the trip counts all of them |
| Photos.FirstStop | src/lib/actions/photos.ts:49-87 | the first entry at which the loop stops (too large, refused type, upload refused by an error or a taken path, failed insert), or the end; no entry before it stops |
| Photos.AdvanceSameTaken | src/lib/actions/photos.ts:61-69 | storing one entry's file leaves the later entries' paths free or taken exactly as before the request, since no two entries share a path |
| Photos.RunFromError | src/lib/actions/photos.ts:49-87 | the loop reports exactly the error of the first stopping entry, and none when it runs to the end |
| Photos.RunFromStorage | src/lib/actions/photos.ts:63-86 | the bucket afterwards holds the earlier files plus every file before the stop; the stopping file was stored only when its upload went through, and then stays only when its insert and its removal both failed |
| Photos.RunFromAdded | src/lib/actions/photos.ts:74-80 | one row per file entry before the stop is appended after the old rows, each of this user and trip, without caption, with a sort order from this request |
| Photos.RunFromIds | src/lib/actions/photos.ts:74-80 | the appended rows take fresh ascending ids from the counter |
| Photos.RunFromRowPaths | src/lib/actions/photos.ts:74-80 | each file entry j before the stop has a row with sort order `current + j` and its own path |
| Photos.Upload | src/lib/actions/photos.ts:16-44 | a missing user, a failed count, no files or a request over the limit changes nothing; the limit error comes exactly when count plus entries exceeds 20 |
| Photos.UploadKeepsLimit | src/lib/actions/photos.ts:40-44 | a trip within the limit ends within it, whatever the request and the failures |
| Photos.UploadSuccessStoresEveryFile | src/lib/actions/photos.ts:49-87 | after a request without an error, every file is in the bucket and has its row with sort order `current + j` |
| Photos.UploadSuccessPathsWereFree | src/lib/actions/photos.ts:63-69 | after a request without an error, no file was uploaded onto a path the bucket already held |
| Photos.UploadRefusesTakenPath | src/lib/actions/photos.ts:63-73 | a file that reaches the upload with its path already taken stops the request with the storage service's refusal, and no row is inserted for it |
| Photos.UploadStopKeepsEarlierFiles | src/lib/actions/photos.ts:49-87 | a request that stops keeps the files uploaded before the stop (no rollback) |
| Photos.UploadFailedInsertCleansUp | src/lib/actions/photos.ts:82-86 | the file of a failed insert is in the bucket exactly when its removal failed |
| Photos.UploadEntry | src/lib/actions/photos.ts:50-86 | one pass of the loop body, the upload refused on a taken path: it either stops with the specification's error and store, or leaves the specification's state for the next entry |
| Photos.UploadTripPhotos | src/lib/actions/photos.ts:16-92 | the tables, bucket and counter end exactly as `Upload` says; the error string is its message; trips and visited rows are unchanged |
| Photos.FindPhoto | src/lib/actions/photos.ts:105-110 | finds a row with that id owned by the user, and finds none only when no such row exists |
| Photos.RemovePhoto | src/lib/actions/photos.ts:124-128 | removes exactly the user's rows with that id |
| Photos.RemovePhotoKeepsValid | src/lib/actions/photos.ts:124-128 | the delete keeps photo ids fresh and distinct |
| Photos.DeletePhotoKeepsOthers | src/lib/actions/photos.ts:124-128 | the delete never removes another user's photo or another photo id |
| Photos.DeleteTripPhoto | src/lib/actions/photos.ts:95-137 | sign-in, fetch and not-found errors change nothing; a failed file removal keeps the row; otherwise the file goes, and the row goes unless its delete fails |
| PhotoUploader.OversizeRefused | src/components/photos/PhotoUploader.tsx:24 | a file over 20 MB is refused whatever its type and name |
| PhotoUploader.ExtensionSuffices | src/components/photos/PhotoUploader.tsx:27-29 | a file within the size with an allowed extension is accepted whatever its type |
| PhotoUploader.ServerAcceptedIsClientAccepted | src/components/photos/PhotoUploader.tsx:23-30 | a file within a server size no larger than 20 MB, of a server type among the allowed ones, passes the client check |
| PhotoUploader.Remaining | src/components/photos/PhotoUploader.tsx:59 | remaining plus existing is 20, negative past the limit |
| PhotoUploader.AtLimitIffFull | src/components/photos/PhotoUploader.tsx:59-60 | at the limit exactly when 20 or more photos exist |
| PhotoUploader.FirstRefused | src/components/photos/PhotoUploader.tsx:71-77 | the first refused file, or none when every file is allowed |
| PhotoUploader.ValidateFiles | src/components/photos/PhotoUploader.tsx:62-81 | an empty list is refused first, then a list over the limit, then the first refused file; otherwise every file is accepted, in order |
| PhotoUploader.HandleDrop | src/components/photos/PhotoUploader.tsx:110-123 | nothing happens at the limit or during an upload; otherwise validation decides between showing an error and starting the upload |
| PhotoUploader.HandleFileInput | src/components/photos/PhotoUploader.tsx:137-151 | an empty selection does nothing; otherwise the input behaves like a drop |
| PhotoUploader.HandleClick | src/components/photos/PhotoUploader.tsx:153-156 | the picker opens exactly below the limit and when no upload runs |
| PhotoUploader.UploadStartsOnlyWithinLimit | src/components/photos/PhotoUploader.tsx:110-151 | an upload starts only when none runs, with a non-empty list of allowed files that fits the limit |
| PhotoUploader.EmptySelection | src/components/photos/PhotoUploader.tsx:62-141 | an empty input does nothing, while an empty drop shows "Выберите файлы" |
| FormDatas.GetIn | src/lib/actions/trips.ts:12-19 | `get` returns the first entry of that name, and none only when the name is absent |
| FormDatas.GetAllIn | src/lib/actions/photos.ts:37 | every value `getAll` returns has an entry of that name, and every such entry's value is returned |
| FormDatas.GetAllAppend | src/lib/actions/photos.ts:37 | `getAll` over two entry lists returns the first list's values, then the second's, in order and with repeats |
| FormDatas.GetAllSingle | src/lib/actions/photos.ts:37 | one entry contributes its value exactly when it has the name |
| FormDatas.SetIn | src/components/trips/TripForm.tsx:76-81 | `set` does not grow the list by more than one entry |
| FormDatas.GetAfterSet | src/components/trips/TripForm.tsx:76-81 | after `set`, `get` of that name returns the new value |
| FormDatas.GetAllAfterSet | src/components/trips/TripForm.tsx:76-81 | after `set`, the name has exactly one value |
| FormDatas.GetOtherAfterSet | src/components/trips/TripForm.tsx:76-81 | `set` leaves every other name as it was |
| FormDatas.RemoveName | src/components/trips/TripForm.tsx:76-81 | keeps exactly the entries of other names |
| FormDatas.GetOtherAfterRemove | src/components/trips/TripForm.tsx:76-81 | removing a name leaves every other name as it was |
| FormDatas.NoneOfName | src/lib/actions/photos.ts:37-38 | a name that is absent has no values |
| FormDatas.FormData.Set | src/components/trips/TripForm.tsx:76 | the entries become `SetIn` of the old ones, and `get` returns the new value |
| TripForm.FilteredCountries | src/components/trips/TripForm.tsx:55-64 | an empty search lists every country; otherwise the result holds exactly the countries whose name or English name contains the lower-cased query, or whose lower-cased code equals it, and its k-th element is the country at the k-th matching registry position, counting upwards over every match |
| TripForm.PositionsFromExact | src/components/trips/TripForm.tsx:58-63 | the matching positions from i on are listed in ascending order, each matches, and none is missing |
| TripForm.FilterFromInOrder | src/components/trips/TripForm.tsx:58-63 | `filter` keeps registry order: its k-th result is the country at the k-th matching position |
| TripForm.FilterFromMembers | src/components/trips/TripForm.tsx:58-63 | `filter` keeps exactly the matching countries |
| TripForm.SearchByCodeFinds | src/components/trips/TripForm.tsx:62 | searching by a country's code in any case finds it |
| TripForm.SelectedCountry | src/components/trips/TripForm.tsx:66-68 | the first registry country with the selected code, and none only when no country has it |
| TripForm.SetInKeepsText | src/components/trips/TripForm.tsx:76-81 | setting a text value keeps every trip field a text entry |
| TripForm.InjectedFields | src/components/trips/TripForm.tsx:73-81 | the selected country's code and name, and a non-empty mood, replace what the form held; without them the form's own values stay; the start date is untouched |
| TripForm.Inject | src/components/trips/TripForm.tsx:75-81 | the form's entries become the injected ones |
| TripForm.HandleSubmit | src/components/trips/TripForm.tsx:73-92 | injects the country and mood, then creates (appending the row) or updates (the owned row) with the injected fields; in both modes the result is `SaveResult` of those fields, with the next id or the edited trip's id |
| Trips.TextOf | src/lib/actions/trips.ts:12 | the value of `get(name) as string`: null exactly when the name is absent, else its text |
| Trips.OrNull | src/lib/actions/trips.ts:14 | `value \|\| null`: null exactly for a blank value, otherwise the value |
| Trips.TripFieldsOf | src/lib/actions/trips.ts:10-22 | country code, country name and start date pass through as read; city, title, end date, notes and mood are null exactly when blank, and otherwise the value read; `is_public` is false |
| Trips.SaveResult | src/lib/actions/trips.ts:26-53 | throws exactly without a user; with a user, missing required fields give the required-fields message, an insert or update error is passed through, and otherwise it redirects to "/trips/" plus the given id |
| Trips.CreateTrip | src/lib/actions/trips.ts:26-53 | its result is `SaveResult` with the next id; on redirect it appends the owned row with the next id; otherwise nothing changes |
| Trips.UpdateOwned | src/lib/actions/trips.ts:71-75 | the rows matching id and owner get the new fields; every other row and every id and owner stay |
| Trips.UpdateKeepsValid | src/lib/actions/trips.ts:71-75 | the update keeps the trips table valid |
| Trips.UpdateByOtherUser | src/lib/actions/trips.ts:71-75 | another user's update never touches a trip |
| Trips.UpdateTrip | src/lib/actions/trips.ts:57-85 | its result is `SaveResult` with the trip id: throws without a user; rejects missing required fields; passes an update error through; otherwise rewrites the owned row and redirects to "/trips/" plus the trip id, owned or not |
| Trips.PhotoPaths | src/lib/actions/trips.ts:98-106 | exactly the storage paths of the user's photos of the trip |
| Trips.PathSet | src/lib/actions/trips.ts:106-107 | the paths handed to `remove`, as a set |
| Trips.RemoveOwned | src/lib/actions/trips.ts:111-115 | removes exactly the rows matching id and owner |
| Trips.RemoveTripPhotos | src/lib/actions/trips.ts:110 | the cascade removes exactly the photo rows of the trip, whoever uploaded them |
| Trips.RemoveKeepsTripsValid | src/lib/actions/trips.ts:111-115 | the delete keeps the trips table valid |
| Trips.RemoveKeepsPhotosValid | src/lib/actions/trips.ts:110 | the cascade keeps the photos table valid |
| Trips.RemoveTripFiles | src/lib/actions/trips.ts:97-108 | the bucket loses the user's photo files of the trip unless the query or the removal fails; the tables are unchanged |
| Trips.DeleteOwnedTrip | src/lib/actions/trips.ts:110-119 | the owned row goes, and the trip's photo rows with it when the user owned the trip |
| Trips.DeleteTrip | src/lib/actions/trips.ts:89-124 | throws without a user; removes the files first, which stay removed when the delete then fails; redirects to "/trips" exactly when the delete goes through |
| Trips.DeletedTripIsGone | src/lib/actions/trips.ts:111-115 | after the delete the user owns no trip with that id |
| Trips.DeleteKeepsOthers | src/lib/actions/trips.ts:111-115 | the delete never removes another user's trip |
| VisitedCountries.Upsert | src/lib/actions/visited-countries.ts:16-21 | the resulting rows are the old ones plus the pair, without duplicates; an existing pair changes nothing |
| VisitedCountries.UpsertIdempotent | src/lib/actions/visited-countries.ts:16-21 | marking twice equals marking once |
| VisitedCountries.RemovePair | src/lib/actions/visited-countries.ts:43-47 | removes exactly the user's row for the code |
| VisitedCountries.RemovePairKeepsValid | src/lib/actions/visited-countries.ts:43-47 | the delete keeps the rows free of duplicates |
| VisitedCountries.MarkThenUnmark | src/lib/actions/visited-countries.ts:8-57 | mark then unmark leaves the pair absent and every other row as before |
| VisitedCountries.CaseInsensitiveUnmark | src/lib/actions/visited-countries.ts:19-47 | codes equal after upper-casing unmark what they marked |
| VisitedCountries.Mark | src/lib/actions/visited-countries.ts:8-31 | throws without a user; returns the upsert's error and changes nothing; otherwise succeeds with the upper-cased pair upserted |
| VisitedCountries.Unmark | src/lib/actions/visited-countries.ts:35-57 | throws without a user; returns the delete's error and changes nothing; otherwise succeeds with the upper-cased pair removed |
| Header.SplitFrom | src/components/layout/Header.tsx:48 | a split always yields at least one piece |
| Header.WordsHaveNoSeparator | src/components/layout/Header.tsx:48 | no piece of `split(/[\s@]+/)` holds whitespace or "@" |
| Header.NoSeparatorOneWord | src/components/layout/Header.tsx:48 | a string without separators splits into itself |
| Header.SplitFromInterleaves | src/components/layout/Header.tsx:48 | from any scan position, the pieces and the separator runs cut at alternate and rebuild the rest of the text; every run is a non-empty stretch of whitespace and "@" |
| Header.SplitFromInnerNonEmpty | src/components/layout/Header.tsx:48 | from any scan position, only the first and the last piece can be empty |
| Header.WordsInterleave | src/components/layout/Header.tsx:48 | `split(/[\s@]+/)` in full: the words, interleaved with the maximal separator runs, give back the name; no word holds a separator, no run is empty, and only the first and last word can be empty |
| Header.FirstChars | src/components/layout/Header.tsx:49-50 | at most one character per piece, each the first character of some non-empty piece |
| Header.FirstCharsAppend | src/components/layout/Header.tsx:49-50 | the characters of two piece lists joined are those of the first list, then those of the second |
| Header.FirstCharsOfWords | src/components/layout/Header.tsx:49-50 | without empty pieces, the k-th character is the first character of the k-th piece |
| Header.TwoWords | src/components/layout/Header.tsx:48 | two words around a run of separators split into exactly those two words |
| Header.TwoWordInitials | src/components/layout/Header.tsx:47-52 | a two-word display name gives the upper-cased first characters of both words, cut to two |
| Header.NameSource | src/components/layout/Header.tsx:47 | the display name when non-empty, else the e-mail when non-empty, else "U"; never empty |
| Header.Initials | src/components/layout/Header.tsx:47-52 | the leading two characters (or all, when fewer) of the upper-cased first characters of the name's words |
| Header.InitialsComeFromWords | src/components/layout/Header.tsx:47-52 | no initial is whitespace or "@" |
| Header.OneWordInitial | src/components/layout/Header.tsx:47-52 | a one-word name contributes just its first character |
| Header.ActiveIsUnique | src/components/layout/Header.tsx:82-83 | two one-segment links are active together only when they are the same link |
| Header.AtMostOneActive | src/components/layout/Header.tsx:36-41 | at most one navigation link is active for any path |
| Header.SegmentBoundary | src/components/layout/Header.tsx:82-83 | "/tripsX" does not activate "/trips", while "/trips/abc/edit" does |
| Backend.Database.InsertTrip | src/lib/actions/trips.ts:40-44 | the row is appended with the next id, the counter moves on, and the database stays valid |
| Backend.Database.SetTrips | src/lib/actions/trips.ts:71-75 | the trips table is replaced by a valid one and nothing else changes |

## Left out

- The contents of the `COUNTRIES` registry (`src/lib/constants/countries.ts`). That file is not part of this model: the registry is a parameter (`map<string, Country>` or `seq<Country>`).
- Prompts and the model provider (`src/lib/ai/provider.ts`): the model's reply is an input (`LlmReply`), and the environment variables are a record.
- The Supabase client, authentication and row-level security: the signed-in user is an input, and each query's or call's failure is an input.
- `revalidatePath`, toasts, `router.refresh`, `redirect` as navigation: they are side effects on the UI or the cache only; the redirect target is part of the action's result.
- Image compression before upload (`compressFiles`, `doUpload`) and the `isDragging` flag: they depend on the browser or only drive rendering.
- The service worker, the middleware, the pages and dashboards, rendering, the percentage in the map's stats bar (floating point) and the map projection.
- `toLowerCase`/`toUpperCase`: Unicode case mapping is an abstract function (`CaseMap`).
- Strings are sequences of code points, not UTF-16 code units: `SafeName` and `s[0]` act per character.
- Row ids are natural numbers from a counter, not UUIDs; an unknown trip id in a photo insert (the foreign key) is not checked, since insert failures are inputs.
- The text of the storage service's refusal of a taken path is not in this source; it is the constant `DuplicateMessage`.
- `existingCount ?? 0`: the model's count query returns the exact count or fails; a null count with no error is not modelled.
- Concurrency: two requests between the count query and the inserts are not modelled; each action runs alone.
- The trips query's `order("started_at")`: only the number of rows reaches the route's logic, so order is left out.
- `.single()` returning several rows: row ids are unique under the database invariant, so at most one row matches.
- Map geography ids are assumed not to be inherited property names of `Object.prototype` (such as "constructor").
- PortraitRoute.TripCount: counts the rows of the user and states the all-or-nothing cases, not the count for mixed tables.
- FormDatas.SetIn: states only the length bound; its meaning is stated by `GetAfterSet`, `GetAllAfterSet` and `GetOtherAfterSet`.
