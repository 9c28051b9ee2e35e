/**
 * The uploads table and the three endpoints that use it (backend.py):
 * POST /upload inserts one row, GET /uploads lists every row, and
 * GET /file/<id> returns one row's bytes. The table is modelled by what the
 * handlers rely on: rows keyed by an AUTOINCREMENT id.
 */
module Backend {
  import opened Wrappers
  import opened Text
  import opened Requests
  import opened Admission

  /** One row of the uploads table; createdAt is the CURRENT_TIMESTAMP default, kept opaque. */
  datatype Row = Row(
    filename: string, fileType: FileType, fileData: seq<byte>,
    geotag: string, timeSent: string, createdAt: string)

  /** The JSON body of a successful POST /upload. */
  datatype UploadResponse = UploadResponse(
    message: string, id: nat, filename: string, fileType: string,
    geotag: string, timeSent: string, fileUrl: string)

  /** One element of the 'uploads' array of GET /uploads. */
  datatype ListEntry = ListEntry(
    id: nat, filename: string, fileType: string, geotag: string,
    timeSent: string, createdAt: string, fileUrl: string)

  /** What send_file is given by GET /file/<id>: the bytes and the download name. */
  datatype FileReply = FileReply(downloadName: string, data: seq<byte>)

  const FileNotFoundError := HttpError(404, "File not found")

  /**
   * The reply Flask gives when a handler raises: sqlite3's OverflowError for
   * an id it cannot bind, or its OperationalError for an INSERT into a full
   * AUTOINCREMENT table.
   */
  const InternalServerError := HttpError(500, "Internal Server Error")

  /** The largest SQLite rowid, 2^63 - 1; also the largest int sqlite3 binds as an INTEGER. */
  const MaxRowId: nat := 0x7FFF_FFFF_FFFF_FFFF

  /** The id the route /file/<int:file_id> reads from a URL under host_url, if it matches. */
  function RouteFileId(hostUrl: string, url: string): Option<nat> {
    var prefix := hostUrl + "file/";
    if |prefix| <= |url| && url[..|prefix|] == prefix then ParseDecimal(url[|prefix|..]) else None
  }

  /**
   * f"{request.host_url}file/{id}": host_url and "file/" followed by the
   * digits of the id, a URL the /file/<int:file_id> route maps back to id.
   */
  function FileUrl(hostUrl: string, id: nat): (url: string)
    ensures |hostUrl + "file/"| < |url| && url[..|hostUrl + "file/"|] == hostUrl + "file/"
    ensures forall i :: |hostUrl + "file/"| <= i < |url| ==> '0' <= url[i] <= '9'
    ensures RouteFileId(hostUrl, url) == Some(id)
  {
    var prefix := hostUrl + "file/";
    var url := prefix + DecimalString(id);
    assert url[|prefix|..] == DecimalString(id);
    ParseDecimalString(id);
    url
  }

  /** Different ids never share a file_url. */
  lemma FileUrlInjective(hostUrl: string, a: nat, b: nat)
    requires FileUrl(hostUrl, a) == FileUrl(hostUrl, b)
    ensures a == b
  {
    assert RouteFileId(hostUrl, FileUrl(hostUrl, a)) == Some(a);
  }

  /** The row an admitted upload becomes. */
  function RowOf(a: Admitted, createdAt: string): Row {
    Row(a.filename, a.fileType, a.data, a.geotag, a.timeSent, createdAt)
  }

  /**
   * The dictionary built for one row in the listing loop: the row's own
   * columns under its id, with a file_url that routes back to that id.
   */
  function EntryOf(id: nat, row: Row, hostUrl: string): (e: ListEntry)
    ensures e.id == id && e.filename == row.filename && e.geotag == row.geotag
    ensures e.timeSent == row.timeSent && e.createdAt == row.createdAt
    ensures e.fileType == "image" || e.fileType == "video"
    ensures e.fileType == "video" <==> row.fileType == Video
    ensures RouteFileId(hostUrl, e.fileUrl) == Some(id)
  {
    ListEntry(id, row.filename, row.fileType.Name(), row.geotag, row.timeSent, row.createdAt,
              FileUrl(hostUrl, id))
  }

  /** What every stored row satisfies, since only an admitted upload is ever inserted. */
  ghost predicate AdmittedRow(row: Row) {
    row.filename != "" && Allowed(row.filename) && row.fileType == Classify(row.filename)
  }

  /** Mapping EntryOf over an enumeration of the rows lists every row once. */
  lemma ListingCoversRows(
    rows: map<nat, Row>, selected: seq<(nat, Row)>, entries: seq<ListEntry>, hostUrl: string)
    requires |selected| == |rows|
    requires forall i :: 0 <= i < |selected| ==> selected[i].0 in rows && rows[selected[i].0] == selected[i].1
    requires forall i, j :: 0 <= i < j < |selected| ==> selected[i].0 != selected[j].0
    requires forall id :: id in rows ==> exists i :: 0 <= i < |selected| && selected[i].0 == id
    requires |entries| == |selected|
    requires forall k :: 0 <= k < |selected| ==> entries[k] == EntryOf(selected[k].0, selected[k].1, hostUrl)
    ensures |entries| == |rows|
    ensures forall i :: 0 <= i < |entries| ==>
      entries[i].id in rows && entries[i] == EntryOf(entries[i].id, rows[entries[i].id], hostUrl)
    ensures forall i, j :: 0 <= i < j < |entries| ==> entries[i].id != entries[j].id
    ensures forall id :: id in rows ==> exists i :: 0 <= i < |entries| && entries[i].id == id
    ensures forall i :: 0 <= i < |entries| ==> RouteFileId(hostUrl, entries[i].fileUrl) == Some(entries[i].id)
  {
    forall i | 0 <= i < |entries|
      ensures entries[i].id == selected[i].0 && entries[i].id in rows
      ensures entries[i] == EntryOf(entries[i].id, rows[entries[i].id], hostUrl)
      ensures RouteFileId(hostUrl, entries[i].fileUrl) == Some(entries[i].id)
    {
      assert entries[i] == EntryOf(selected[i].0, selected[i].1, hostUrl);
    }
    forall id | id in rows
      ensures exists i :: 0 <= i < |entries| && entries[i].id == id
    {
      var i :| 0 <= i < |selected| && selected[i].0 == id;
      assert entries[i].id == id;
    }
  }

  /** The listing loop: one dictionary per selected row, appended in the rows' order. */
  method BuildListing(selected: seq<(nat, Row)>, hostUrl: string) returns (entries: seq<ListEntry>)
    ensures |entries| == |selected|
    ensures forall k :: 0 <= k < |selected| ==> entries[k] == EntryOf(selected[k].0, selected[k].1, hostUrl)
  {
    entries := [];
    for i := 0 to |selected|
      invariant |entries| == i
      invariant forall k :: 0 <= k < i ==> entries[k] == EntryOf(selected[k].0, selected[k].1, hostUrl)
    {
      entries := entries + [EntryOf(selected[i].0, selected[i].1, hostUrl)];
    }
  }

  class UploadStore {
    /** The table's rows by id. */
    var rows: map<nat, Row>
    /**
     * The next AUTOINCREMENT id: one more than the largest id ever handed
     * out. Once MaxRowId has been handed out it is MaxRowId + 1 and every
     * further INSERT fails with SQLITE_FULL.
     */
    var nextId: nat

    ghost predicate Valid()
      reads this
    {
      && 1 <= nextId <= MaxRowId + 1
      && forall id :: id in rows ==> 1 <= id < nextId && AdmittedRow(rows[id])
    }

    /** The empty table that CREATE TABLE IF NOT EXISTS makes on a fresh database. */
    constructor ()
      ensures Valid()
      ensures rows == map[] && nextId == 1
    {
      rows := map[];
      nextId := 1;
    }

    /**
     * INSERT INTO uploads ... followed by lastrowid: the row gets a fresh id
     * above every id in use, and no other row changes. When MaxRowId has
     * already been used the INSERT fails and the table stays as it was.
     */
    method Insert(a: Admitted, createdAt: string) returns (id: Option<nat>)
      requires Valid()
      requires a.filename != "" && Allowed(a.filename) && a.fileType == Classify(a.filename)
      modifies this
      ensures Valid()
      ensures id.None? <==> old(nextId) > MaxRowId
      ensures id.None? ==> rows == old(rows) && nextId == old(nextId)
      ensures id.Some? ==>
        && id.value == old(nextId) && nextId == id.value + 1
        && id.value !in old(rows) && (forall k :: k in old(rows) ==> k < id.value)
        && rows == old(rows)[id.value := RowOf(a, createdAt)]
    {
      if nextId > MaxRowId {
        return None;
      }
      id := Some(nextId);
      rows := rows[nextId := RowOf(a, createdAt)];
      nextId := nextId + 1;
    }

    /**
     * POST /upload. A refused request leaves the table as it was; an
     * accepted one inserts exactly one row under a fresh id and echoes it,
     * unless the ids are used up, which is a 500 that changes nothing.
     */
    method Upload(req: UploadRequest, hostUrl: string, now: string)
      returns (r: Result<UploadResponse, HttpError>)
      requires Valid()
      modifies this
      ensures Valid()
      ensures Admit(req).Failure? ==>
        r == Failure(Admit(req).error) && rows == old(rows) && nextId == old(nextId)
      ensures Admit(req).Success? && old(nextId) > MaxRowId ==>
        r == Failure(InternalServerError) && rows == old(rows) && nextId == old(nextId)
      ensures Admit(req).Success? && old(nextId) <= MaxRowId ==>
        var a, id := Admit(req).value, old(nextId);
        && id !in old(rows)
        && rows == old(rows)[id := RowOf(a, now)]
        && nextId == id + 1
        && r == Success(UploadResponse(
             a.fileType.Capitalized() + " uploaded successfully", id, a.filename,
             a.fileType.Name(), a.geotag, a.timeSent, FileUrl(hostUrl, id)))
    {
      var admitted := Admit(req);
      if admitted.Failure? {
        return Failure(admitted.error);
      }
      var a := admitted.value;
      var inserted := Insert(a, now);
      if inserted.None? {
        return Failure(InternalServerError);
      }
      var id := inserted.value;
      r := Success(UploadResponse(
        a.fileType.Capitalized() + " uploaded successfully", id, a.filename,
        a.fileType.Name(), a.geotag, a.timeSent, FileUrl(hostUrl, id)));
    }

    /** SELECT ... FROM uploads: every row exactly once, in no promised order. */
    method SelectAll() returns (result: seq<(nat, Row)>)
      ensures |result| == |rows|
      ensures forall i :: 0 <= i < |result| ==> result[i].0 in rows && rows[result[i].0] == result[i].1
      ensures forall i, j :: 0 <= i < j < |result| ==> result[i].0 != result[j].0
      ensures forall id :: id in rows ==> exists i :: 0 <= i < |result| && result[i].0 == id
    {
      var remaining := rows.Keys;
      result := [];
      while remaining != {}
        invariant remaining <= rows.Keys
        invariant |result| + |remaining| == |rows|
        invariant forall i :: 0 <= i < |result| ==>
          result[i].0 in rows && result[i].0 !in remaining && rows[result[i].0] == result[i].1
        invariant forall i, j :: 0 <= i < j < |result| ==> result[i].0 != result[j].0
        invariant forall id :: id in rows && id !in remaining ==>
          exists i :: 0 <= i < |result| && result[i].0 == id
        decreases remaining
      {
        var id :| id in remaining;
        ghost var previous := result;
        result := result + [(id, rows[id])];
        remaining := remaining - {id};
        assert result[|previous|].0 == id;
        assert forall i :: 0 <= i < |previous| ==> result[i] == previous[i];
      }
    }

    /**
     * GET /uploads: one entry per row, carrying that row's fields and a
     * file_url that routes back to the row's id.
     */
    method ListUploads(hostUrl: string) returns (entries: seq<ListEntry>)
      ensures |entries| == |rows|
      ensures forall i :: 0 <= i < |entries| ==>
        entries[i].id in rows && entries[i] == EntryOf(entries[i].id, rows[entries[i].id], hostUrl)
      ensures forall i, j :: 0 <= i < j < |entries| ==> entries[i].id != entries[j].id
      ensures forall id :: id in rows ==> exists i :: 0 <= i < |entries| && entries[i].id == id
      ensures forall i :: 0 <= i < |entries| ==> RouteFileId(hostUrl, entries[i].fileUrl) == Some(entries[i].id)
    {
      var selected := SelectAll();
      entries := BuildListing(selected, hostUrl);
      ListingCoversRows(rows, selected, entries, hostUrl);
    }

    /**
     * GET /file/<id>: the stored bytes under the stored name, 404 for an
     * unknown id, and 500 for an id above MaxRowId, which sqlite3 refuses to
     * bind before any lookup.
     */
    method GetFile(fileId: nat) returns (r: Result<FileReply, HttpError>)
      ensures r.Success? <==> fileId <= MaxRowId && fileId in rows
      ensures fileId <= MaxRowId && fileId in rows ==>
        r.value == FileReply(rows[fileId].filename, rows[fileId].fileData)
      ensures fileId <= MaxRowId && fileId !in rows ==> r.error == FileNotFoundError
      ensures fileId > MaxRowId ==> r.error == InternalServerError
    {
      if fileId > MaxRowId {
        return Failure(InternalServerError);
      }
      if fileId !in rows {
        return Failure(FileNotFoundError);
      }
      var row := rows[fileId];
      r := Success(FileReply(row.filename, row.fileData));
    }
  }

  /**
   * Upload followed by a GET of the returned file_url: the route yields the
   * new id and the reply carries exactly the uploaded name and bytes.
   */
  method UploadThenGet(store: UploadStore, req: UploadRequest, hostUrl: string, now: string)
    returns (reply: Result<FileReply, HttpError>)
    requires store.Valid()
    requires Admit(req).Success? && store.nextId <= MaxRowId
    modifies store
    ensures Get(req.files, "file").Some?
    ensures reply == Success(FileReply(Get(req.files, "file").value.filename, Get(req.files, "file").value.content))
  {
    var up := store.Upload(req, hostUrl, now);
    var id := RouteFileId(hostUrl, up.value.fileUrl);
    reply := store.GetFile(id.value);
  }

  /** A refused upload leaves the listing exactly as it was. */
  method RefusedUploadKeepsListing(store: UploadStore, req: UploadRequest, hostUrl: string, now: string)
    returns (before: seq<ListEntry>, after: seq<ListEntry>)
    requires store.Valid()
    requires Admit(req).Failure?
    modifies store
    ensures |after| == |before|
    ensures forall e :: e in after <==> e in before
  {
    before := store.ListUploads(hostUrl);
    var r := store.Upload(req, hostUrl, now);
    after := store.ListUploads(hostUrl);
    assert r.Failure?;
  }

  /**
   * Upload followed by GET /uploads: the listing holds the new record once,
   * with the fields and the file_url the upload response echoed.
   */
  method UploadThenList(store: UploadStore, req: UploadRequest, hostUrl: string, now: string)
    returns (up: Result<UploadResponse, HttpError>, entries: seq<ListEntry>)
    requires store.Valid()
    requires Admit(req).Success? && store.nextId <= MaxRowId
    modifies store
    ensures up.Success?
    ensures exists i :: 0 <= i < |entries| && entries[i].id == up.value.id
    ensures forall i, j :: 0 <= i < j < |entries| ==> entries[i].id != entries[j].id
    ensures forall i :: 0 <= i < |entries| && entries[i].id == up.value.id ==>
      && entries[i].filename == up.value.filename
      && entries[i].fileType == up.value.fileType
      && entries[i].geotag == up.value.geotag
      && entries[i].timeSent == up.value.timeSent
      && entries[i].fileUrl == up.value.fileUrl
  {
    ghost var a := Admit(req).value;
    up := store.Upload(req, hostUrl, now);
    var id := up.value.id;
    assert store.rows[id] == RowOf(a, now);
    entries := store.ListUploads(hostUrl);
    assert EntryOf(id, store.rows[id], hostUrl).fileUrl == up.value.fileUrl;
  }
}
