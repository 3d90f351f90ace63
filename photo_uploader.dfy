/**
 * The client-side gate of the photo uploader
 * (src/components/photos/PhotoUploader.tsx): which picked or dropped files
 * it accepts before compressing and sending them, the remaining-slots
 * arithmetic, and when the drop, file-input and click handlers do nothing.
 * The client accepts files up to 20 MB (they are compressed before
 * upload) and by type or by extension; the server applies its own rules.
 */
module PhotoUploader {
  import opened Options
  import opened Strings
  import opened FormDatas

  const MaxPhotosPerTrip: nat := 20
  const MaxInputSize: nat := 20 * 1024 * 1024
  const AllowedTypes: seq<string> := ["image/jpeg", "image/png", "image/webp"]
  const AllowedExtensions: seq<string> := [".jpg", ".jpeg", ".png", ".webp"]

  const ChooseFilesMessage: string := "Выберите файлы"

  /** `isAllowedFile`: at most 20 MB, and an allowed lower-cased type or an allowed extension of the lower-cased name. */
  predicate IsAllowedFile(f: File, lower: CaseMap) {
    f.size <= MaxInputSize
    && (lower(f.mimeType) in AllowedTypes || exists e :: e in AllowedExtensions && EndsWith(lower(f.name), e))
  }

  /** A file over 20 MB is refused whatever its type and name. */
  lemma OversizeRefused(f: File, lower: CaseMap)
    requires f.size > MaxInputSize
    ensures !IsAllowedFile(f, lower)
  {
  }

  /** A file the server would take is taken by the client too, when lower-casing leaves its type alone. */
  lemma ServerAcceptedIsClientAccepted(f: File, lower: CaseMap, serverMax: nat, serverTypes: seq<string>)
    requires serverMax <= MaxInputSize && (forall t :: t in serverTypes ==> t in AllowedTypes)
    requires f.size <= serverMax && f.mimeType in serverTypes && lower(f.mimeType) == f.mimeType
    ensures IsAllowedFile(f, lower)
  {
  }

  /** A file with no usable type is still taken when its name ends with an allowed extension. */
  lemma ExtensionSuffices(f: File, lower: CaseMap, e: string)
    requires f.size <= MaxInputSize && e in AllowedExtensions && EndsWith(lower(f.name), e)
    ensures IsAllowedFile(f, lower)
  {
  }

  /** `remaining`: the free slots, negative when the trip is over the limit. */
  function Remaining(existingCount: nat): (r: int)
    ensures r + existingCount == MaxPhotosPerTrip
  {
    MaxPhotosPerTrip - existingCount
  }

  /** `atLimit`: no free slot is left. */
  predicate AtLimit(existingCount: nat) {
    Remaining(existingCount) <= 0
  }

  lemma AtLimitIffFull(existingCount: nat)
    ensures AtLimit(existingCount) <==> existingCount >= MaxPhotosPerTrip
  {
  }

  /** The first file the gate refuses, if any. */
  function FirstRefused(files: seq<File>, lower: CaseMap): (k: Option<nat>)
    ensures k.None? <==> forall i :: 0 <= i < |files| ==> IsAllowedFile(files[i], lower)
    ensures k.Some? ==> k.value < |files| && !IsAllowedFile(files[k.value], lower)
                        && forall i :: 0 <= i < k.value ==> IsAllowedFile(files[i], lower)
  {
    if files == [] then None
    else if !IsAllowedFile(files[0], lower) then Some(0)
    else match FirstRefused(files[1..], lower)
         case Some(k) => Some(k + 1)
         case None => None
  }

  datatype Validated = Accepted(files: seq<File>) | Rejected(error: string)

  function TooManyMessage(existingCount: nat): string {
    "Максимум " + Decimal(MaxPhotosPerTrip) + " фото. Сейчас " + Decimal(existingCount)
      + ", можно добавить ещё " + SignedDecimal(Remaining(existingCount)) + "."
  }

  function RefusedMessage(f: File): string {
    "Файл «" + f.name + "» не подходит: только JPG, PNG, WebP до 20 МБ."
  }

  /**
   * `validateFiles`: refuses an empty selection, then one that would pass the
   * limit, then the first refused file; otherwise accepts every file, in
   * order.
   */
  function ValidateFiles(files: seq<File>, existingCount: nat, lower: CaseMap): (v: Validated)
    ensures files == [] ==> v == Rejected(ChooseFilesMessage)
    ensures files != [] && existingCount + |files| > MaxPhotosPerTrip ==> v == Rejected(TooManyMessage(existingCount))
    ensures v.Accepted? <==> files != [] && existingCount + |files| <= MaxPhotosPerTrip
                             && forall i :: 0 <= i < |files| ==> IsAllowedFile(files[i], lower)
    ensures v.Accepted? ==> v.files == files
    ensures files != [] && existingCount + |files| <= MaxPhotosPerTrip && FirstRefused(files, lower).Some? ==>
              v == Rejected(RefusedMessage(files[FirstRefused(files, lower).value]))
  {
    if files == [] then Rejected(ChooseFilesMessage)
    else if existingCount + |files| > MaxPhotosPerTrip then Rejected(TooManyMessage(existingCount))
    else match FirstRefused(files, lower)
         case Some(k) => Rejected(RefusedMessage(files[k]))
         case None => Accepted(files)
  }

  /** What a handler does: nothing, an error toast, or starting the upload of the files. */
  datatype Reaction = Ignore | ShowError(message: string) | StartUpload(files: seq<File>)

  function Outcome(v: Validated): Reaction {
    match v
    case Accepted(fs) => StartUpload(fs)
    case Rejected(msg) => ShowError(msg)
  }

  /** `handleDrop`: nothing at the limit or while an upload runs; otherwise the validation's verdict. */
  function HandleDrop(files: seq<File>, existingCount: nat, uploading: bool, lower: CaseMap): (r: Reaction)
    ensures AtLimit(existingCount) || uploading ==> r == Ignore
    ensures !AtLimit(existingCount) && !uploading ==> r == Outcome(ValidateFiles(files, existingCount, lower))
  {
    if AtLimit(existingCount) || uploading then Ignore else Outcome(ValidateFiles(files, existingCount, lower))
  }

  /** `handleFileInput`: an empty selection is ignored before anything else; then as for a drop. */
  function HandleFileInput(files: seq<File>, existingCount: nat, uploading: bool, lower: CaseMap): (r: Reaction)
    ensures files == [] ==> r == Ignore
    ensures files != [] ==> r == HandleDrop(files, existingCount, uploading, lower)
  {
    if files == [] then Ignore
    else if AtLimit(existingCount) || uploading then Ignore
    else Outcome(ValidateFiles(files, existingCount, lower))
  }

  /** `handleClick`: opens the file picker only below the limit and when no upload runs. */
  function HandleClick(existingCount: nat, uploading: bool): (opens: bool)
    ensures opens <==> existingCount < MaxPhotosPerTrip && !uploading
  {
    !(AtLimit(existingCount) || uploading)
  }

  /** Whatever the handler, an upload starts only with a non-empty batch of allowed files that fits the limit. */
  lemma UploadStartsOnlyWithinLimit(files: seq<File>, existingCount: nat, uploading: bool, lower: CaseMap)
    ensures var r := HandleDrop(files, existingCount, uploading, lower);
            r.StartUpload? ==> !uploading && r.files == files && files != []
                               && existingCount + |r.files| <= MaxPhotosPerTrip
                               && forall i :: 0 <= i < |r.files| ==> IsAllowedFile(r.files[i], lower)
    ensures var r := HandleFileInput(files, existingCount, uploading, lower);
            r.StartUpload? ==> !uploading && existingCount + |r.files| <= MaxPhotosPerTrip
  {
  }

  /** Only an empty selection tells the two handlers apart: a drop reports it, the input ignores it. */
  lemma EmptySelection(existingCount: nat, uploading: bool, lower: CaseMap)
    ensures HandleFileInput([], existingCount, uploading, lower) == Ignore
    ensures !AtLimit(existingCount) && !uploading ==>
              HandleDrop([], existingCount, uploading, lower) == ShowError(ChooseFilesMessage)
  {
  }
}
