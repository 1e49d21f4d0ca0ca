/** The `get-user-uploads` handler: lists one user's upload records. It
    checks, in this order, that a user is signed in (401), that `userId` is
    present (400) and that the caller owns the records or is an
    administrator (403); then it answers 200 with that user's rows newest
    first and their count, or 500 when the database fails. It returns no
    table: the handler only reads. */
module GetUserUploads {
  import opened Common
  import opened Api
  import opened Session
  import opened Store
  import SaveUpload

  datatype ListRequest = ListRequest(userId: Option<string>)

  datatype Listed = Listed(uploads: seq<UploadSummary>, count: nat)

  const UserIdRequired: string := "User ID is required"
  const ListFailed: string := "Failed to retrieve uploads"

  predicate Admitted(session: Option<SessionData>, req: ListRequest) {
    Caller(session).Some? && Truthy(req.userId) && MayActFor(Caller(session).value, req.userId.value)
  }

  /** The handler, with the session, the table and whether the database call
      fails as explicit inputs. */
  function Handle(session: Option<SessionData>, t: Table, req: ListRequest, storageFails: bool): (r: Response<Listed>)
    // the guards, in order
    ensures r.status == Unauthorized <==> Caller(session).None?
    ensures Caller(session).None? ==> r == ErrorReply(Unauthorized, AuthenticationRequired)
    ensures r.status == BadRequest <==> Caller(session).Some? && !Truthy(req.userId)
    ensures r.status == BadRequest ==> r == ErrorReply(BadRequest, UserIdRequired)
    ensures r.status == Forbidden <==>
      Caller(session).Some? && Truthy(req.userId) && !MayActFor(Caller(session).value, req.userId.value)
    ensures r.status == Forbidden ==> r == ErrorReply(Forbidden, AccessDenied)
    ensures r.status == ServerError <==> Admitted(session, req) && storageFails
    ensures r.status == ServerError ==> r == ErrorReply(ServerError, ListFailed)
    ensures r.status == Ok <==> Admitted(session, req) && !storageFails
    ensures r.PayloadReply? <==> r.status == Ok
    // the listing: exactly the owner's rows, newest first, counted
    ensures r.PayloadReply? ==>
      && NewestFirst(r.payload.uploads)
      && multiset(r.payload.uploads) == multiset(Summaries(OwnedBy(t, req.userId.value)))
      && r.payload.count == |r.payload.uploads|
    ensures r.PayloadReply? ==> forall s :: s in r.payload.uploads <==>
      exists rec :: rec in t && rec.userId == req.userId.value && Summarize(rec) == s
  {
    var caller := Caller(session);
    if caller.None? then
      ErrorReply(Unauthorized, AuthenticationRequired)
    else if !Truthy(req.userId) then
      ErrorReply(BadRequest, UserIdRequired)
    else if !MayActFor(caller.value, req.userId.value) then
      ErrorReply(Forbidden, AccessDenied)
    else if storageFails then
      ErrorReply(ServerError, ListFailed)
    else
      var uploads := Listing(t, req.userId.value);
      PayloadReply(Ok, Listed(uploads, |uploads|))
  }

  /** An admitted user who owns no rows gets an empty list, count 0, 200. */
  lemma NoRowsListsEmpty(session: Option<SessionData>, t: Table, req: ListRequest)
    requires Admitted(session, req)
    requires forall i :: 0 <= i < |t| ==> t[i].userId != req.userId.value
    ensures Handle(session, t, req, false) == PayloadReply(Ok, Listed([], 0))
  {
  }

  /** A saved record shows up in its owner's listing, for the caller who
      saved it: first when the clock has moved on since every earlier row,
      and the count grows by one. */
  lemma SaveThenList(session: Option<SessionData>, t: Table, req: SaveUpload.SaveRequest, now: int)
    requires forall i :: 0 <= i < |t| ==> t[i].uploadDate < now
    requires SaveUpload.Handle(session, t, req, false, now).response.status == Created
    ensures var saved := SaveUpload.Handle(session, t, req, false, now);
      var before := Handle(session, t, ListRequest(req.userId), false);
      var after := Handle(session, saved.table, ListRequest(req.userId), false);
      && before.PayloadReply? && after.PayloadReply?
      && after.payload.uploads[0] == Summarize(saved.table[|t|])
      && after.payload.uploads[0].id == saved.response.payload.uploadId
      && after.payload.count == before.payload.count + 1
  {
    var saved := SaveUpload.Handle(session, t, req, false, now);
    ListingAfterInsert(t, SaveUpload.NewRow(req), now, req.userId.value);
    var l := Listing(saved.table, req.userId.value);
    assert |l| == |multiset(l)|;
    assert |Listing(t, req.userId.value)| == |multiset(Listing(t, req.userId.value))|;
  }

  /** The round trip on an empty table: one record with the default status
      and the given size comes back. */
  lemma SaveThenListExample(session: Option<SessionData>, now: int)
    requires Caller(session) == Some(User("u1", "u1@example.com", "user"))
    ensures var req := SaveUpload.SaveRequest(Some("u1"), Some("f"), Some("F.xlsx"), Some("https://x/1"), Some(2048), None);
      var saved := SaveUpload.Handle(session, [], req, false, now);
      var listed := Handle(session, saved.table, ListRequest(Some("u1")), false);
      && listed.PayloadReply?
      && listed.payload.count == 1
      && listed.payload.uploads[0].status == "uploaded"
      && listed.payload.uploads[0].fileSize == Some(2048)
      && listed.payload.uploads[0].originalFilename == "F.xlsx"
  {
    var req := SaveUpload.SaveRequest(Some("u1"), Some("f"), Some("F.xlsx"), Some("https://x/1"), Some(2048), None);
    var row := UploadRecord(1, "u1", "f", "F.xlsx", "https://x/1", Some(2048), now, "uploaded");
    var saved := SaveUpload.Handle(session, [], req, false, now);
    assert saved.table == [row];
    assert OwnedBy([row], "u1") == [row];
    var l := Listing([row], "u1");
    assert multiset(l) == multiset{Summarize(row)};
    assert l[0] in multiset(l);
  }
}
