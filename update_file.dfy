/** The file-update handler (api/files/update.php): a role gate on the
    requester's profile, normalisation and validation of the JSON body, an
    existence check, an UPDATE of the file row, and, when the body carries a
    non-empty permissions list, a delete-then-insert of the file's permission
    rows. These statements run without a transaction: a statement that
    throws leaves the effects of the earlier ones in place. */
module FileUpdate {
  import opened Common
  import opened Tables

  /** The decoded JSON body. A field that is absent or null is None. A date is
      None when absent or PHP-empty, otherwise its day number.
      `isPermanent` is the truthiness of the `is_permanent` value. */
  datatype UpdateRequest = UpdateRequest(
    id: Option<Id>,
    title: Option<string>,
    description: Option<string>,
    startDate: Option<int>,
    endDate: Option<int>,
    isPermanent: bool,
    status: Option<string>,
    permissions: seq<PermissionTarget>)

  /** The column values the UPDATE writes. */
  datatype Changes = Changes(
    title: string,
    description: Option<string>,
    startDate: Option<int>,
    endDate: Option<int>,
    isPermanent: bool,
    status: string)

  datatype Rejection = MissingField | DatesOutOfOrder

  datatype Checked = Accepted(changes: Changes) | Rejected(reason: Rejection)

  /** Lines 44-70: `id` and `title` must be set; the title is trimmed (and may
      be left empty), a description is trimmed when given, the status defaults
      to `active`, permanence clears both dates, and the dates must be in order. */
  function CheckUpdate(req: UpdateRequest): (c: Checked)
    ensures c == Rejected(MissingField) <==> req.id.None? || req.title.None?
    ensures c == Rejected(DatesOutOfOrder)
            <==> && req.id.Some? && req.title.Some? && !req.isPermanent
                 && req.startDate.Some? && req.endDate.Some? && req.startDate.value > req.endDate.value
    ensures c.Accepted? ==>
              && c.changes.title == Trim(req.title.value, PhpSpace)
              && c.changes.description == (if req.description.Some? then Some(Trim(req.description.value, PhpSpace)) else None)
              && c.changes.isPermanent == req.isPermanent
              && c.changes.status == (if req.status.Some? then req.status.value else ActiveStatus)
              && (c.changes.isPermanent ==> c.changes.startDate.None? && c.changes.endDate.None?)
              && (!c.changes.isPermanent ==> c.changes.startDate == req.startDate && c.changes.endDate == req.endDate)
              && (c.changes.startDate.Some? && c.changes.endDate.Some? ==> c.changes.startDate.value <= c.changes.endDate.value)
  {
    if req.id.None? || req.title.None? then Rejected(MissingField)
    else
      var startDate := if req.isPermanent then None else req.startDate;
      var endDate := if req.isPermanent then None else req.endDate;
      if startDate.Some? && endDate.Some? && startDate.value > endDate.value then Rejected(DatesOutOfOrder)
      else
        Accepted(Changes(
          Trim(req.title.value, PhpSpace),
          if req.description.Some? then Some(Trim(req.description.value, PhpSpace)) else None,
          startDate, endDate, req.isPermanent,
          if req.status.Some? then req.status.value else ActiveStatus))
  }

  /** A row after `UPDATE files SET ..., updated_at = NOW()`. */
  function Applied(f: FileRow, c: Changes, now: int): FileRow {
    f.(title := c.title, description := c.description, startDate := c.startDate, endDate := c.endDate,
       isPermanent := c.isPermanent, status := c.status, updatedAt := Some(now))
  }

  /** The table after the UPDATE: every row with the id is rewritten (a
      soft-deleted row with the same id would be too). */
  function UpdateRows(files: seq<FileRow>, id: Id, c: Changes, now: int): (r: seq<FileRow>)
    ensures |r| == |files|
    ensures forall i :: 0 <= i < |files| ==> r[i] == if files[i].id == id then Applied(files[i], c, now) else files[i]
  {
    if files == [] then []
    else [if files[0].id == id then Applied(files[0], c, now) else files[0]] + UpdateRows(files[1..], id, c, now)
  }

  /** The UPDATE's `rowCount()`: MySQL reports the rows whose values changed. */
  function ChangedRows(files: seq<FileRow>, id: Id, c: Changes, now: int): nat {
    if files == [] then 0
    else (if files[0].id == id && Applied(files[0], c, now) != files[0] then 1 else 0) + ChangedRows(files[1..], id, c, now)
  }

  /** The update keeps the primary key and the stored-window invariant, and
      the rewritten row carries the new values and the update time. */
  lemma {:induction false} UpdateRowsKeepsInvariant(files: seq<FileRow>, id: Id, c: Changes, now: int)
    requires UniqueFileIds(files) && forall i :: 0 <= i < |files| ==> WindowWellFormed(files[i])
    requires c.isPermanent ==> c.startDate.None? && c.endDate.None?
    requires c.startDate.Some? && c.endDate.Some? ==> c.startDate.value <= c.endDate.value
    ensures var r := UpdateRows(files, id, c, now);
            && UniqueFileIds(r) && (forall i :: 0 <= i < |r| ==> WindowWellFormed(r[i]))
            && (forall i :: 0 <= i < |r| ==>
                  r[i].id == files[i].id && r[i].createdAt == files[i].createdAt
                  && r[i].uploadedBy == files[i].uploadedBy && r[i].deletedAt == files[i].deletedAt)
  {
  }

  /** The row count is positive exactly when some row with the id changes. */
  lemma {:induction false} ChangedRowsPositive(files: seq<FileRow>, id: Id, c: Changes, now: int)
    ensures ChangedRows(files, id, c, now) > 0
            <==> exists i :: 0 <= i < |files| && files[i].id == id && Applied(files[i], c, now) != files[i]
  {
    if files != [] {
      ChangedRowsPositive(files[1..], id, c, now);
      if i :| 0 <= i < |files| && files[i].id == id && Applied(files[i], c, now) != files[i] {
        if i > 0 { assert files[1..][i - 1] == files[i]; }
      }
      if i :| 0 <= i < |files[1..]| && files[1..][i].id == id && Applied(files[1..][i], c, now) != files[1..][i] {
        assert files[i + 1] == files[1..][i];
      }
    }
  }

  /** Because `updated_at` is set to the current time, an existing row whose
      last update was at an earlier time always counts as changed. */
  lemma EarlierUpdateAlwaysChanges(files: seq<FileRow>, id: Id, c: Changes, now: int, i: nat)
    requires i < |files| && files[i].id == id && files[i].updatedAt != Some(now)
    ensures ChangedRows(files, id, c, now) > 0
  {
    ChangedRowsPositive(files, id, c, now);
    assert Applied(files[i], c, now).updatedAt != files[i].updatedAt;
  }

  /** Where the handler's statements throw, if anywhere: at the existence
      SELECT, at the UPDATE (both before any write), at the DELETE, or at the
      insert of the `k`-th permission row. */
  datatype UpdateFault = NoFault | LookupFails | UpdateFails | DeleteFails | InsertFails(k: nat)

  /** The fault is reached: the DELETE and inserts run only for a non-empty
      permissions list. */
  predicate FaultHits(fault: UpdateFault, perms: seq<PermissionTarget>) {
    match fault
    case NoFault => false
    case LookupFails => true
    case UpdateFails => true
    case DeleteFails => perms != []
    case InsertFails(k) => k < |perms|
  }

  /** The request passes the role gate, the method check, the body checks
      and the existence check. */
  predicate ReachesWrites(files: seq<FileRow>, requesterRole: Option<Role>, verb: HttpMethod, req: UpdateRequest) {
    && requesterRole != Some(Role.User) && verb == Put && CheckUpdate(req).Accepted?
    && FindLiveFile(files, req.id.value).Some?
  }

  /** The handler, for a requester whose profile role is `requesterRole`
      (None without a profile). */
  method UpdateFile(db: Database, requesterRole: Option<Role>, verb: HttpMethod, req: UpdateRequest,
                    fault: UpdateFault, now: int) returns (status: int)
    requires db.Valid()
    modifies db`files, db`filePermissions
    ensures db.Valid()
    ensures requesterRole == Some(Role.User) ==> status == StatusForbidden
    ensures requesterRole != Some(Role.User) && verb != Put ==> status == StatusMethodNotAllowed
    ensures requesterRole != Some(Role.User) && verb == Put && CheckUpdate(req).Rejected? ==> status == StatusBadRequest
    ensures (&& requesterRole != Some(Role.User) && verb == Put && CheckUpdate(req).Accepted?
             && fault != LookupFails && FindLiveFile(old(db.files), req.id.value).None?) ==> status == StatusNotFound
    ensures (&& requesterRole != Some(Role.User) && verb == Put && CheckUpdate(req).Accepted?
             && fault == LookupFails) ==> status == StatusServerError
    ensures !ReachesWrites(old(db.files), requesterRole, verb, req) || fault == LookupFails || fault == UpdateFails ==>
              db.files == old(db.files) && db.filePermissions == old(db.filePermissions)
    ensures ReachesWrites(old(db.files), requesterRole, verb, req) && fault != LookupFails && fault != UpdateFails ==>
              db.files == UpdateRows(old(db.files), req.id.value, CheckUpdate(req).changes, now)
    ensures ReachesWrites(old(db.files), requesterRole, verb, req) && FaultHits(fault, req.permissions) ==>
              && status == StatusServerError
              && db.filePermissions == if fault.InsertFails?
                                       then ReplacePermissions(old(db.filePermissions), req.id.value, req.permissions[..fault.k])
                                       else old(db.filePermissions)
    ensures ReachesWrites(old(db.files), requesterRole, verb, req) && !FaultHits(fault, req.permissions) ==>
              && db.filePermissions == (if req.permissions == [] then old(db.filePermissions)
                                        else ReplacePermissions(old(db.filePermissions), req.id.value, req.permissions))
              && status == (if ChangedRows(old(db.files), req.id.value, CheckUpdate(req).changes, now) > 0 || req.permissions != []
                            then StatusOk else StatusBadRequest)
  {
    if requesterRole == Some(Role.User) {
      return StatusForbidden;
    }
    if verb != Put {
      return StatusMethodNotAllowed;
    }
    var checked := CheckUpdate(req);
    if checked.Rejected? {
      return StatusBadRequest;
    }
    var id := req.id.value;
    if fault == LookupFails {
      return StatusServerError;
    }
    if FindLiveFile(db.files, id).None? {
      return StatusNotFound;
    }
    status := WriteUpdate(db, id, checked.changes, req.permissions, fault, now);
  }

  /** The statements after the file is found: the UPDATE of the row, then,
      for a non-empty permissions list, their replacement. */
  method WriteUpdate(db: Database, id: Id, c: Changes, perms: seq<PermissionTarget>, fault: UpdateFault, now: int)
    returns (status: int)
    requires db.Valid()
    requires fault != LookupFails
    requires c.isPermanent ==> c.startDate.None? && c.endDate.None?
    requires c.startDate.Some? && c.endDate.Some? ==> c.startDate.value <= c.endDate.value
    modifies db`files, db`filePermissions
    ensures db.Valid()
    ensures fault == UpdateFails ==>
              status == StatusServerError && db.files == old(db.files) && db.filePermissions == old(db.filePermissions)
    ensures fault != UpdateFails ==> db.files == UpdateRows(old(db.files), id, c, now)
    ensures FaultHits(fault, perms) ==>
              && status == StatusServerError
              && db.filePermissions == if fault.InsertFails?
                                       then ReplacePermissions(old(db.filePermissions), id, perms[..fault.k])
                                       else old(db.filePermissions)
    ensures !FaultHits(fault, perms) ==>
              && db.filePermissions == (if perms == [] then old(db.filePermissions)
                                        else ReplacePermissions(old(db.filePermissions), id, perms))
              && status == (if ChangedRows(old(db.files), id, c, now) > 0 || perms != [] then StatusOk else StatusBadRequest)
  {
    if fault == UpdateFails {
      return StatusServerError;
    }
    var changed := ChangedRows(db.files, id, c, now);
    UpdateRowsKeepsInvariant(db.files, id, c, now);
    db.files := UpdateRows(db.files, id, c, now);
    if perms != [] {
      var failed := ReplaceFilePermissions(db, id, perms, fault);
      if failed {
        return StatusServerError;
      }
    }
    status := if changed > 0 || perms != [] then StatusOk else StatusBadRequest;
  }

  /** Lines 106-126: the DELETE of the file's rows, then one INSERT per
      object. Returns whether a statement threw; the rows written before it
      stay. */
  method ReplaceFilePermissions(db: Database, id: Id, perms: seq<PermissionTarget>, fault: UpdateFault)
    returns (failed: bool)
    requires perms != [] && fault != LookupFails
    modifies db`filePermissions
    ensures failed <==> FaultHits(fault, perms) && fault != UpdateFails
    ensures db.filePermissions == if fault == DeleteFails then old(db.filePermissions)
                                  else if failed then ReplacePermissions(old(db.filePermissions), id, perms[..fault.k])
                                  else ReplacePermissions(old(db.filePermissions), id, perms)
  {
    if fault == DeleteFails {
      return true;
    }
    var rows := WithoutFile(db.filePermissions, id);
    var i := 0;
    while i < |perms|
      invariant 0 <= i <= |perms|
      invariant rows == ReplacePermissions(old(db.filePermissions), id, perms[..i])
      invariant forall k :: 0 <= k < i ==> fault != InsertFails(k)
    {
      if fault == InsertFails(i) {
        db.filePermissions := rows;
        return true;
      }
      RowsForPrefix(id, perms, i);
      rows := rows + [PermissionRow(id, perms[i])];
      i := i + 1;
    }
    assert perms[..i] == perms;
    db.filePermissions := rows;
    failed := false;
  }

  /** An interrupted replacement leaves the file with only the rows inserted
      before the failure, and every other file's rows intact. */
  lemma InterruptedReplacement(rows: seq<PermissionRow>, id: Id, perms: seq<PermissionTarget>, k: nat, other: Id)
    requires k <= |perms|
    ensures PermissionsOf(ReplacePermissions(rows, id, perms[..k]), other)
            == if other == id then RowsFor(id, perms[..k]) else PermissionsOf(rows, other)
    ensures other == id ==> |PermissionsOf(ReplacePermissions(rows, id, perms[..k]), other)| == k
  {
    ReplacePermissionsEffect(rows, id, perms[..k], other);
  }
}
