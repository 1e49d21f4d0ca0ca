/** The upload page's own logic: the drag-highlight flag, the check a chosen
    file must pass, taking the first dropped or selected file, the simulated
    progress bar, the record sent to `save-upload` once the file is stored,
    and clearing the choice. The page's state is one immutable value; each
    handler maps it to the next. The object-storage upload and the save
    request's answer are inputs. */
module UploadPage {
  import opened Common
  import opened Text
  import opened Session
  import opened Store
  import opened Api
  import SaveUpload

  /** The browser `File` as the page reads it. */
  datatype FileInfo = FileInfo(name: string, mimeType: string, size: nat)

  datatype PageState = PageState(
    dragActive: bool,
    file: Option<FileInfo>,
    error: Option<string>,
    progress: int,
    isProcessing: bool)

  const InitialState: PageState := PageState(false, None, None, 0, false)

  const ExcelMimeTypes: seq<string> := [
    "application/vnd.ms-excel",
    "application/vnd.openxmlformats-officedocument.spreadsheetml.sheet"
  ]
  const ExcelExtensions: seq<string> := [".xls", ".xlsx"]
  const MaxSize: nat := 10 * 1024 * 1024

  const InvalidTypeError: string := "Please select a valid Excel file (.xls or .xlsx)"
  const TooLargeError: string := "File size must be less than 10MB"
  const SaveRecordFailed: string := "Failed to save upload record"
  const UploadFailedFallback: string := "Failed to upload file. Please try again."
  const UploadedStatus: string := "uploaded"

  /** The file claims an Excel MIME type or its lower-cased name ends in an
      Excel extension. */
  predicate LooksLikeExcel(f: FileInfo) {
    || f.mimeType in ExcelMimeTypes
    || exists i :: 0 <= i < |ExcelExtensions| && EndsWith(ToLower(f.name), ExcelExtensions[i])
  }

  /** `validateFile`: no message exactly for an Excel file of at most 10 MiB;
      a wrong type is reported before a size over the limit. */
  function ValidateFile(f: FileInfo): (message: Option<string>)
    ensures message.None? <==> LooksLikeExcel(f) && f.size <= MaxSize
    ensures !LooksLikeExcel(f) ==> message == Some(InvalidTypeError)
    ensures LooksLikeExcel(f) && f.size > MaxSize ==> message == Some(TooLargeError)
  {
    if !LooksLikeExcel(f) then Some(InvalidTypeError)
    else if f.size > MaxSize then Some(TooLargeError)
    else None
  }

  /** The extension test ignores case: `<name>.XLSX` passes like `<name>.xlsx`,
      whatever its MIME type, up to and including exactly 10 MiB. */
  lemma UpperCaseExtensionAccepted(base: string, mimeType: string, size: nat)
    requires size <= MaxSize
    ensures ValidateFile(FileInfo(base + ".XLSX", mimeType, size)) == None
    ensures ValidateFile(FileInfo(base + ".XLS", mimeType, size)) == None
  {
    ToLowerAppend(base, ".XLSX");
    assert ToLower(".XLSX") == ".xlsx";
    assert EndsWith(ToLower(base + ".XLSX"), ExcelExtensions[1]);
    ToLowerAppend(base, ".XLS");
    assert ToLower(".XLS") == ".xls";
    assert EndsWith(ToLower(base + ".XLS"), ExcelExtensions[0]);
  }

  /** The size limit is inclusive: 10 MiB passes, one byte more does not. */
  lemma SizeLimitBoundary(name: string)
    ensures ValidateFile(FileInfo(name, ExcelMimeTypes[0], MaxSize)) == None
    ensures ValidateFile(FileInfo(name, ExcelMimeTypes[0], MaxSize + 1)) == Some(TooLargeError)
  {
  }

  /** `handleDrag`: entering or hovering lights the drop zone, leaving dims
      it, any other event leaves it as it was; nothing else changes. */
  function HandleDrag(s: PageState, eventType: string): (r: PageState)
    ensures r.(dragActive := s.dragActive) == s
    ensures eventType == "dragenter" || eventType == "dragover" ==> r.dragActive
    ensures eventType == "dragleave" ==> !r.dragActive
    ensures eventType != "dragenter" && eventType != "dragover" && eventType != "dragleave" ==>
      r.dragActive == s.dragActive
  {
    if eventType == "dragenter" || eventType == "dragover" then s.(dragActive := true)
    else if eventType == "dragleave" then s.(dragActive := false)
    else s
  }

  /** Takes the first of the offered files: kept when valid, otherwise
      reported and the previous choice kept. No file offered: nothing
      happens. */
  function TakeFirstFile(s: PageState, files: seq<FileInfo>): (r: PageState)
    ensures |files| == 0 ==> r == s
    ensures |files| > 0 && ValidateFile(files[0]).None? ==> r.file == Some(files[0]) && r.error == s.error
    ensures |files| > 0 && ValidateFile(files[0]).Some? ==> r.file == s.file && r.error == ValidateFile(files[0])
    ensures r.(file := s.file, error := s.error) == s
  {
    if |files| == 0 then s
    else
      var message := ValidateFile(files[0]);
      if message.Some? then s.(error := message) else s.(file := Some(files[0]))
  }

  /** `handleDrop`: dims the drop zone, clears the error, takes the first
      dropped file. */
  function HandleDrop(s: PageState, files: seq<FileInfo>): (r: PageState)
    ensures !r.dragActive
    ensures r.error == (if |files| > 0 then ValidateFile(files[0]) else None)
    ensures r.file == (if |files| > 0 && ValidateFile(files[0]).None? then Some(files[0]) else s.file)
    ensures r.progress == s.progress && r.isProcessing == s.isProcessing
  {
    TakeFirstFile(s.(dragActive := false, error := None), files)
  }

  /** `handleFileSelect`: clears the error, takes the first selected file. */
  function HandleFileSelect(s: PageState, files: seq<FileInfo>): (r: PageState)
    ensures r.error == (if |files| > 0 then ValidateFile(files[0]) else None)
    ensures r.file == (if |files| > 0 && ValidateFile(files[0]).None? then Some(files[0]) else s.file)
    ensures r.(file := s.file, error := s.error) == s
  {
    TakeFirstFile(s.(error := None), files)
  }

  /** `removeFile`: drops the file, the error and the progress, and stops
      processing; only the drop-zone highlight is kept. */
  function RemoveFile(s: PageState): (r: PageState)
    ensures r.file.None? && r.error.None? && r.progress == 0 && !r.isProcessing
    ensures r.dragActive == s.dragActive
  {
    s.(file := None, error := None, progress := 0, isProcessing := false)
  }

  /** Clearing the choice brings the page back to how it opened, except
      for the drop-zone highlight. */
  lemma RemoveFileResets(s: PageState)
    ensures RemoveFile(s) == InitialState.(dragActive := s.dragActive)
    ensures RemoveFile(RemoveFile(s)) == RemoveFile(s)
  {
  }

  /** The page only ever holds a file that passed validation. */
  predicate ChosenFileValid(s: PageState) {
    s.file.Some? ==> ValidateFile(s.file.value).None?
  }

  /** Every way of choosing, dropping, dragging or removing keeps the held
      file valid. */
  lemma EventsKeepChosenFileValid(s: PageState, files: seq<FileInfo>, eventType: string)
    requires ChosenFileValid(s)
    ensures ChosenFileValid(HandleDrop(s, files))
    ensures ChosenFileValid(HandleFileSelect(s, files))
    ensures ChosenFileValid(HandleDrag(s, eventType))
    ensures ChosenFileValid(RemoveFile(s))
  {
  }

  const ProgressCap: int := 90
  const ProgressStep: int := 10
  const ProgressDone: int := 100

  /** One tick of the simulated progress timer: below 90 the bar moves on by
      exactly ten, so from a multiple of ten it never passes 90, and from 90
      on it is held at 90. */
  function ProgressTick(p: int): (r: int)
    ensures p < ProgressCap ==> r == p + ProgressStep
    ensures 0 <= p <= ProgressCap && p % ProgressStep == 0 ==>
      p <= r <= ProgressCap && r % ProgressStep == 0 && (p < ProgressCap ==> r > p)
    ensures p >= ProgressCap ==> r == ProgressCap
  {
    if p >= ProgressCap then ProgressCap else p + ProgressStep
  }

  /** Progress after `ticks` timer ticks from 0: ten per tick, held at 90. */
  function ProgressAfter(ticks: nat): (p: int)
    ensures 0 <= p <= ProgressCap
    ensures p == Min(ProgressStep * ticks, ProgressCap)
    decreases ticks
  {
    if ticks == 0 then 0 else ProgressTick(ProgressAfter(ticks - 1))
  }

  /** The name the file is stored under, `<timestamp>_<original name>`: its
      first `_` ends the timestamp's digits and the original name follows,
      whatever `_` the name itself holds. */
  function StoredName(timestamp: nat, name: string): (stored: string)
    ensures '_' in stored
    ensures stored[..IndexOf(stored, '_')] == NatToString(timestamp)
    ensures stored[IndexOf(stored, '_') + 1..] == name
  {
    var digits := NatToString(timestamp);
    assert forall k :: 0 <= k < |digits| ==> IsDigit(digits[k]);
    IndexOfAfterPiece(digits, '_', name);
    var stored := digits + ['_'] + name;
    assert stored[..|digits|] == digits;
    assert stored[|digits| + 1..] == name;
    stored
  }

  /** Reads a stored name back into its timestamp and original name. */
  function ParseStoredName(stored: string): Option<(nat, string)> {
    if '_' !in stored then None
    else
      var i := IndexOf(stored, '_');
      if i == 0 || !AllDigits(stored[..i]) then None
      else Some((ParseNat(stored[..i]), stored[i + 1..]))
  }

  /** The timestamp prefix holds no `_`, so the stored name gives back both
      parts, even when the original name itself contains `_`. */
  lemma StoredNameRoundTrip(timestamp: nat, name: string)
    ensures ParseStoredName(StoredName(timestamp, name)) == Some((timestamp, name))
  {
    ParseNatToString(timestamp);
  }

  /** The body `handleUpload` posts to `save-upload`: the user, a stored
      name that reads back as the timestamp and the original name, the
      original name, the storage URL, the size and the "uploaded" status. */
  function RecordPayload(userId: string, f: FileInfo, timestamp: nat, url: Option<string>): (req: SaveUpload.SaveRequest)
    ensures req.userId == Some(userId) && req.originalFilename == Some(f.name) && req.fileUrl == url
    ensures req.filename == Some(StoredName(timestamp, f.name))
    ensures req.filename.Some? && ParseStoredName(req.filename.value) == Some((timestamp, f.name))
    ensures req.fileSize == Some(f.size as int) && req.status == Some(UploadedStatus)
  {
    StoredNameRoundTrip(timestamp, f.name);
    SaveUpload.SaveRequest(Some(userId), Some(StoredName(timestamp, f.name)), Some(f.name), url,
                           Some(f.size), Some(UploadedStatus))
  }

  /** What the object-storage upload resolves to. */
  datatype Transfer = Transfer(url: Option<string>, error: Option<string>)

  /** The page after `handleUpload`, and the save request it sent, if any. */
  datatype UploadStep = UploadStep(state: PageState, request: Option<SaveUpload.SaveRequest>)

  /** The message the page shows for a caught error: its own message, or a
      generic one when that is empty. */
  function CaughtMessage(message: string): (shown: string)
    ensures shown != ""
    ensures message != "" ==> shown == message
  {
    if message != "" then message else UploadFailedFallback
  }

  /** `handleUpload`, given the signed-in user, the clock, how the storage
      upload settled, and how the save request settled: resolved with
      whether the response was ok, or rejected (the request or reading its
      body failed). A reported upload error, a response that is not ok and
      every rejection end in the same catch: the error is shown, progress
      drops to 0 and processing stops. Otherwise the page shows 100% while
      it waits to move on. */
  function HandleUpload(s: PageState, user: Option<User>, timestamp: nat, transfer: Settled<Transfer>, save: Settled<bool>): (r: UploadStep)
    ensures s.file.None? || user.None? ==> r == UploadStep(s, None)
    // the save request goes out exactly when the storage upload succeeded
    ensures s.file.Some? && user.Some? ==>
      (r.request.Some? <==> transfer.Resolved? && !Truthy(transfer.value.error))
    ensures r.request.Some? ==> r.request == Some(RecordPayload(user.value.id, s.file.value, timestamp, transfer.value.url))
    // the failures
    ensures s.file.Some? && user.Some? && transfer.Rejected? ==>
      r.state == s.(error := Some(CaughtMessage(transfer.message)), progress := 0, isProcessing := false)
    ensures s.file.Some? && user.Some? && transfer.Resolved? && Truthy(transfer.value.error) ==>
      r.state == s.(error := transfer.value.error, progress := 0, isProcessing := false)
    ensures r.request.Some? && save == Resolved(false) ==>
      r.state == s.(error := Some(SaveRecordFailed), progress := 0, isProcessing := false)
    ensures r.request.Some? && save.Rejected? ==>
      r.state == s.(error := Some(CaughtMessage(save.message)), progress := 0, isProcessing := false)
    // success
    ensures r.request.Some? && save == Resolved(true) ==>
      r.state == s.(error := None, progress := ProgressDone, isProcessing := true)
    // whatever happens: the file stays, and a stopped attempt shows a non-empty error
    ensures r.state.file == s.file && r.state.dragActive == s.dragActive
    ensures s.file.Some? && user.Some? ==> (!r.state.isProcessing <==> r.state.error.Some?)
    ensures r.state.error.Some? && r.state != s ==> r.state.error.value != "" && r.state.progress == 0
  {
    if s.file.None? || user.None? then UploadStep(s, None)
    else
      var started := s.(error := None, progress := 0, isProcessing := true);
      var failed := (message: string) => started.(error := Some(CaughtMessage(message)), progress := 0, isProcessing := false);
      match transfer
      case Rejected(message) => UploadStep(failed(message), None)
      case Resolved(result) =>
        var transferred := started.(progress := ProgressDone);
        if Truthy(result.error) then UploadStep(failed(result.error.value), None)
        else
          var request := RecordPayload(user.value.id, s.file.value, timestamp, result.url);
          match save
          case Rejected(message) => UploadStep(failed(message), Some(request))
          case Resolved(ok) =>
            if ok then UploadStep(transferred, Some(request))
            else UploadStep(failed(SaveRecordFailed), Some(request))
  }

  /** Where the page sends the user once the record is saved. */
  function AnalyzePath(uploadId: nat): string {
    "/analyze/" + NatToString(uploadId)
  }

  /** The page's request passes the handler's guards for its own signed-in
      user exactly when the file has a name and the upload gave a URL; the
      stored row then keeps the original name, the "uploaded" status and the
      size, an empty file's size becoming null. */
  lemma PayloadAccepted(session: Option<SessionData>, t: Table, f: FileInfo, timestamp: nat, url: Option<string>, now: int)
    requires Caller(session).Some? && Caller(session).value.id != ""
    ensures var user := Caller(session).value;
      var out := SaveUpload.Handle(session, t, RecordPayload(user.id, f, timestamp, url), false, now);
      && (out.response.status == Created <==> f.name != "" && Truthy(url))
      && (out.response.status == Created ==>
            && out.table[|t|].filename == StoredName(timestamp, f.name)
            && out.table[|t|].originalFilename == f.name
            && out.table[|t|].status == UploadedStatus
            && out.table[|t|].fileSize == (if f.size == 0 then None else Some(f.size as int)))
  {
  }
}
