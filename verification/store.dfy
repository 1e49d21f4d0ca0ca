/** The `uploads` table the two handlers read and write, held in memory as
    the sequence of its rows in insertion order. Each new row gets an id no
    row holds (the model picks one more than the largest) and the current
    time as its upload date; the handlers' listing query selects one
    owner's rows, without the owner column, newest first. */
module Store {
  import opened Common

  datatype UploadRecord = UploadRecord(
    id: nat,
    userId: string,
    filename: string,
    originalFilename: string,
    fileUrl: string,
    fileSize: Option<int>,
    uploadDate: int,
    status: string)

  /** A row of the listing: every column the listing query selects. The
      owner column is not among them. */
  datatype UploadSummary = UploadSummary(
    id: nat,
    filename: string,
    originalFilename: string,
    fileUrl: string,
    fileSize: Option<int>,
    uploadDate: int,
    status: string)

  /** The values an insert supplies; id and upload date come from the table. */
  datatype NewUpload = NewUpload(
    userId: string,
    filename: string,
    originalFilename: string,
    fileUrl: string,
    fileSize: Option<int>,
    status: string)

  type Table = seq<UploadRecord>

  /** The table's primary-key invariant. */
  predicate UniqueIds(t: Table) {
    forall i, j :: 0 <= i < j < |t| ==> t[i].id != t[j].id
  }

  predicate HasId(t: Table, id: nat) {
    exists i :: 0 <= i < |t| && t[i].id == id
  }

  /** Largest id in the table, 0 when it is empty. */
  function MaxId(t: Table): (m: nat)
    ensures forall i :: 0 <= i < |t| ==> t[i].id <= m
    decreases |t|
  {
    if |t| == 0 then 0
    else
      var m := MaxId(t[1..]);
      if t[0].id > m then t[0].id else m
  }

  /** The id the model picks for the next row: positive and used by no row. */
  function NextId(t: Table): (id: nat)
    ensures id > 0
    ensures !HasId(t, id)
  {
    MaxId(t) + 1
  }

  datatype Inserted = Inserted(table: Table, id: nat)

  /** `INSERT INTO uploads (...) VALUES (...) RETURNING id` at time `now`. */
  function Insert(t: Table, u: NewUpload, now: int): (r: Inserted)
    ensures |r.table| == |t| + 1
    ensures r.table[..|t|] == t
    ensures !HasId(t, r.id)
    ensures var rec := r.table[|t|];
      && rec.id == r.id
      && rec.userId == u.userId
      && rec.filename == u.filename
      && rec.originalFilename == u.originalFilename
      && rec.fileUrl == u.fileUrl
      && rec.fileSize == u.fileSize
      && rec.status == u.status
      && rec.uploadDate == now
  {
    var id := NextId(t);
    Inserted(t + [UploadRecord(id, u.userId, u.filename, u.originalFilename,
                               u.fileUrl, u.fileSize, now, u.status)], id)
  }

  /** An insert keeps the ids unique. */
  lemma InsertKeepsIdsUnique(t: Table, u: NewUpload, now: int)
    requires UniqueIds(t)
    ensures UniqueIds(Insert(t, u, now).table)
  {
  }

  /** `WHERE user_id = userId`: the rows of one owner, in table order. */
  function OwnedBy(t: Table, userId: string): (r: Table)
    ensures forall rec :: rec in r <==> rec in t && rec.userId == userId
    ensures forall rec :: multiset(r)[rec] == if rec.userId == userId then multiset(t)[rec] else 0
    decreases |t|
  {
    if |t| == 0 then []
    else
      var init := t[..|t| - 1];
      var last := t[|t| - 1];
      assert t == init + [last];
      OwnedBy(init, userId) + (if last.userId == userId then [last] else [])
  }

  function Summarize(rec: UploadRecord): UploadSummary {
    UploadSummary(rec.id, rec.filename, rec.originalFilename, rec.fileUrl,
                  rec.fileSize, rec.uploadDate, rec.status)
  }

  /** The selected columns of each row. */
  function Summaries(t: Table): (r: seq<UploadSummary>)
    ensures |r| == |t|
    ensures forall i :: 0 <= i < |t| ==> r[i] == Summarize(t[i])
  {
    seq(|t|, i requires 0 <= i < |t| => Summarize(t[i]))
  }

  /** `ORDER BY upload_date DESC` holds of a sequence of rows. */
  predicate NewestFirst(s: seq<UploadSummary>) {
    forall i, j :: 0 <= i < j < |s| ==> s[i].uploadDate >= s[j].uploadDate
  }

  /** A row at least as new as the head of a newest-first sequence may go
      in front of it. */
  lemma PrependKeepsNewestFirst(h: UploadSummary, s: seq<UploadSummary>)
    requires NewestFirst(s)
    requires |s| > 0 ==> h.uploadDate >= s[0].uploadDate
    ensures NewestFirst([h] + s)
  {
  }

  /** Places `x` in a newest-first sequence, after the rows at least as new. */
  function InsertByDate(x: UploadSummary, s: seq<UploadSummary>): (r: seq<UploadSummary>)
    requires NewestFirst(s)
    ensures NewestFirst(r)
    ensures multiset(r) == multiset(s) + multiset{x}
    ensures r[0] == x || (|s| > 0 && r[0] == s[0])
    decreases |s|
  {
    if |s| == 0 then [x]
    else if x.uploadDate > s[0].uploadDate then
      PrependKeepsNewestFirst(x, s);
      [x] + s
    else
      var rest := InsertByDate(x, s[1..]);
      assert s == [s[0]] + s[1..];
      PrependKeepsNewestFirst(s[0], rest);
      [s[0]] + rest
  }

  /** Insertion sort on the upload date, newest first. Rows with equal dates
      come out latest-inserted first; the database leaves their order open,
      and this contract does not promise it. */
  function SortNewestFirst(s: seq<UploadSummary>): (r: seq<UploadSummary>)
    ensures NewestFirst(r)
    ensures multiset(r) == multiset(s)
    decreases |s|
  {
    if |s| == 0 then []
    else
      assert s == [s[0]] + s[1..];
      InsertByDate(s[0], SortNewestFirst(s[1..]))
  }

  /** The summaries of a table are the summaries of its rows. */
  lemma InSummaries(t: Table, s: UploadSummary)
    ensures s in Summaries(t) <==> exists rec :: rec in t && Summarize(rec) == s
  {
  }

  /** The listing query: one owner's rows, projected to the selected
      columns, newest first. It holds each of that owner's rows exactly as
      often as the table does, and nothing else. */
  function Listing(t: Table, userId: string): (r: seq<UploadSummary>)
    ensures NewestFirst(r)
    ensures multiset(r) == multiset(Summaries(OwnedBy(t, userId)))
    ensures |r| == |OwnedBy(t, userId)|
    ensures forall s :: s in r <==> exists rec :: rec in t && rec.userId == userId && Summarize(rec) == s
  {
    var owned := OwnedBy(t, userId);
    var r := SortNewestFirst(Summaries(owned));
    assert |r| == |multiset(r)| == |Summaries(owned)|;
    forall s
      ensures s in r <==> exists rec :: rec in t && rec.userId == userId && Summarize(rec) == s
    {
      assert s in r <==> s in multiset(Summaries(owned));
      InSummaries(owned, s);
    }
    r
  }

  /** With unique ids, a row of the owner's is listed, and it is the only
      listed row carrying its id. */
  lemma ListedUnderOwnId(t: Table, owner: string, k: nat)
    requires UniqueIds(t)
    requires k < |t| && t[k].userId == owner
    ensures Summarize(t[k]) in Listing(t, owner)
    ensures forall i :: 0 <= i < |Listing(t, owner)| && Listing(t, owner)[i].id == t[k].id ==>
      Listing(t, owner)[i] == Summarize(t[k])
  {
    var l := Listing(t, owner);
    assert t[k] in t;
    forall i | 0 <= i < |l| && l[i].id == t[k].id
      ensures l[i] == Summarize(t[k])
    {
      assert l[i] in l;
      var other :| other in t && other.userId == owner && Summarize(other) == l[i];
      var j :| 0 <= j < |t| && t[j] == other;
      assert t[j].id == t[k].id;
    }
  }

  /** A row strictly newer than every other row sorts to the front. (Among
      rows of equal date the order is left open, so only a strictly later
      row is promised the first place.) */
  lemma {:induction false} SortPutsLatestFirst(s: seq<UploadSummary>, x: UploadSummary)
    requires forall i :: 0 <= i < |s| ==> s[i].uploadDate < x.uploadDate
    ensures SortNewestFirst(s + [x])[0] == x
    decreases |s|
  {
    if |s| == 0 {
      assert s + [x] == [x];
      assert [x][1..] == [];
    } else {
      assert (s + [x])[1..] == s[1..] + [x];
      SortPutsLatestFirst(s[1..], x);
    }
  }

  /** The owner's rows after an insert: the earlier ones, then the new row
      when it is theirs. */
  lemma OwnedByAfterInsert(t: Table, u: NewUpload, now: int, owner: string)
    ensures var after := Insert(t, u, now).table;
      OwnedBy(after, owner) == OwnedBy(t, owner) + (if owner == u.userId then [after[|t|]] else [])
  {
    var after := Insert(t, u, now).table;
    assert after[..|after| - 1] == t;
  }

  /** The summaries of a sequence with one more row end with that row's. */
  lemma SummariesAppend(t: Table, rec: UploadRecord)
    ensures Summaries(t + [rec]) == Summaries(t) + [Summarize(rec)]
  {
  }

  /** Inserting a row for `userId` at a time later than every existing
      row makes it the first row of that owner's listing, adds exactly that
      row to the listing, and leaves every other owner's listing alone. */
  lemma ListingAfterInsert(t: Table, u: NewUpload, now: int, owner: string)
    requires forall i :: 0 <= i < |t| ==> t[i].uploadDate < now
    ensures var after := Listing(Insert(t, u, now).table, owner);
      var rec := Insert(t, u, now).table[|t|];
      && (owner == u.userId ==> after[0] == Summarize(rec))
      && (owner == u.userId ==> multiset(after) == multiset(Listing(t, owner)) + multiset{Summarize(rec)})
      && (owner != u.userId ==> after == Listing(t, owner))
  {
    var t' := Insert(t, u, now).table;
    var rec := t'[|t|];
    var owned := OwnedBy(t, owner);
    OwnedByAfterInsert(t, u, now, owner);
    if owner == u.userId {
      var sums := Summaries(owned);
      SummariesAppend(owned, rec);
      assert Summaries(OwnedBy(t', owner)) == sums + [Summarize(rec)];
      forall i | 0 <= i < |sums|
        ensures sums[i].uploadDate < now
      {
        assert owned[i] in t;
      }
      SortPutsLatestFirst(sums, Summarize(rec));
      assert multiset(sums + [Summarize(rec)]) == multiset(sums) + multiset{Summarize(rec)};
    } else {
      assert OwnedBy(t', owner) == owned;
    }
  }
}
