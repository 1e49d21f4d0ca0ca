/** The `save-upload` handler: records a file that has already landed in
    object storage. It checks, in this order, that a user is signed in
    (401), that the four required fields are present (400) and that the
    caller owns the record or is an administrator (403); then it inserts the
    row, defaulting the size to null and the status to "uploaded", and
    answers 201 with the new id, or 500 when the database fails. */
module SaveUpload {
  import opened Common
  import opened Api
  import opened Session
  import opened Store

  /** The JSON body; an absent field is `None`. */
  datatype SaveRequest = SaveRequest(
    userId: Option<string>,
    filename: Option<string>,
    originalFilename: Option<string>,
    fileUrl: Option<string>,
    fileSize: Option<int>,
    status: Option<string>)

  datatype Saved = Saved(uploadId: nat, message: string)

  /** The table after the call, and the response. */
  datatype SaveOutcome = SaveOutcome(table: Table, response: Response<Saved>)

  const MissingFields: string := "Missing required fields"
  const SaveFailed: string := "Failed to save upload record"
  const SavedMessage: string := "Upload record saved successfully"
  const DefaultStatus: string := "uploaded"

  /** The required-field check: each of the four is present and not "". */
  predicate RequiredFieldsPresent(req: SaveRequest) {
    Truthy(req.userId) && Truthy(req.filename) && Truthy(req.originalFilename) && Truthy(req.fileUrl)
  }

  /** Every guard passes: a signed-in caller, the required fields, and an
      owner-or-admin caller. */
  predicate Admitted(session: Option<SessionData>, req: SaveRequest) {
    Caller(session).Some? && RequiredFieldsPresent(req) && MayActFor(Caller(session).value, req.userId.value)
  }

  /** The row the insert writes: a falsy size (absent or 0) becomes null and
      a falsy status becomes "uploaded". */
  function NewRow(req: SaveRequest): NewUpload
    requires RequiredFieldsPresent(req)
  {
    NewUpload(req.userId.value, req.filename.value, req.originalFilename.value, req.fileUrl.value,
              if TruthyNumber(req.fileSize) then req.fileSize else None,
              if Truthy(req.status) then req.status.value else DefaultStatus)
  }

  /** The handler, with the session, the table, whether the database call
      fails, and the database clock as explicit inputs. */
  function Handle(session: Option<SessionData>, t: Table, req: SaveRequest, storageFails: bool, now: int): (r: SaveOutcome)
    // the guards, in order
    ensures r.response.status == Unauthorized <==> Caller(session).None?
    ensures Caller(session).None? ==> r.response == ErrorReply(Unauthorized, AuthenticationRequired)
    ensures r.response.status == BadRequest <==> Caller(session).Some? && !RequiredFieldsPresent(req)
    ensures r.response.status == BadRequest ==> r.response == ErrorReply(BadRequest, MissingFields)
    ensures r.response.status == Forbidden <==>
      Caller(session).Some? && RequiredFieldsPresent(req) && !MayActFor(Caller(session).value, req.userId.value)
    ensures r.response.status == Forbidden ==> r.response == ErrorReply(Forbidden, AccessDenied)
    ensures r.response.status == ServerError <==> Admitted(session, req) && storageFails
    ensures r.response.status == ServerError ==> r.response == ErrorReply(ServerError, SaveFailed)
    ensures r.response.status == Created <==> Admitted(session, req) && !storageFails
    // a payload is sent exactly with 201, and nothing is written unless the row is
    ensures r.response.PayloadReply? <==> r.response.status == Created
    ensures r.response.ErrorReply? <==> r.table == t
    ensures r.response.PayloadReply? ==> r.response.status == Created && r.response.payload.message == SavedMessage
    // exactly one row is appended, under a fresh id, and no other row changes
    ensures r.response.PayloadReply? ==>
      && |r.table| == |t| + 1
      && r.table[..|t|] == t
      && !HasId(t, r.response.payload.uploadId)
    ensures r.response.PayloadReply? ==> var rec := r.table[|t|];
      && rec.id == r.response.payload.uploadId
      && rec.userId == req.userId.value
      && rec.filename == req.filename.value
      && rec.originalFilename == req.originalFilename.value
      && rec.fileUrl == req.fileUrl.value
      && rec.uploadDate == now
      && (req.fileSize.None? || req.fileSize == Some(0) ==> rec.fileSize == None)
      && (req.fileSize.Some? && req.fileSize.value != 0 ==> rec.fileSize == req.fileSize)
      && (req.status.None? || req.status == Some("") ==> rec.status == DefaultStatus)
      && (req.status.Some? && req.status.value != "" ==> rec.status == req.status.value)
  {
    var caller := Caller(session);
    if caller.None? then
      SaveOutcome(t, ErrorReply(Unauthorized, AuthenticationRequired))
    else if !RequiredFieldsPresent(req) then
      SaveOutcome(t, ErrorReply(BadRequest, MissingFields))
    else if !MayActFor(caller.value, req.userId.value) then
      SaveOutcome(t, ErrorReply(Forbidden, AccessDenied))
    else if storageFails then
      SaveOutcome(t, ErrorReply(ServerError, SaveFailed))
    else
      var ins := Insert(t, NewRow(req), now);
      SaveOutcome(ins.table, PayloadReply(Created, Saved(ins.id, SavedMessage)))
  }

  /** Saving keeps the table's ids unique, whatever the outcome. */
  lemma HandleKeepsIdsUnique(session: Option<SessionData>, t: Table, req: SaveRequest, storageFails: bool, now: int)
    requires UniqueIds(t)
    ensures UniqueIds(Handle(session, t, req, storageFails, now).table)
  {
  }
}
