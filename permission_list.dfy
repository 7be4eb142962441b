/** The permission-listing handler (api/files/permissions.php): an ordered
    chain of guards (request method, missing id, missing file, access) followed by a
    read-only select of the file's permission rows. */
module PermissionList {
  import opened Common
  import opened Tables

  /** The status code and, on success, the `data` array of the response. */
  datatype Listing = Listing(status: int, data: seq<PermissionTarget>)

  /** The `(user_id, group_id, category_id)` columns of each row, in order. */
  function Targets(rows: seq<PermissionRow>): (r: seq<PermissionTarget>)
    ensures |r| == |rows|
    ensures forall i :: 0 <= i < |rows| ==> r[i] == rows[i].target
  {
    if rows == [] then [] else [rows[0].target] + Targets(rows[1..])
  }

  /** Only an administrator or the file's uploader may see its permissions.
      A requester without a profile has no role, which is not `admin`. */
  predicate MayViewPermissions(requesterRole: Option<Role>, requester: Id, f: FileRow) {
    requesterRole == Some(Admin) || f.uploadedBy == requester
  }

  /** The handler. `fileId` is the `file_id` query parameter (None when
      absent) and `requesterRole` the requester's profile role, if any. */
  function ListPermissions(verb: HttpMethod, fileId: Option<string>, requester: Id, requesterRole: Option<Role>,
                           files: seq<FileRow>, perms: seq<PermissionRow>): (r: Listing)
    ensures verb != Get ==> r.status == StatusMethodNotAllowed
    ensures verb == Get && PhpEmptyField(fileId) ==> r.status == StatusBadRequest
    ensures r.status == StatusNotFound
            <==> verb == Get && !PhpEmptyField(fileId) && FindLiveFile(files, fileId.value).None?
    ensures r.status == StatusForbidden
            <==> && verb == Get && !PhpEmptyField(fileId) && FindLiveFile(files, fileId.value).Some?
                 && !MayViewPermissions(requesterRole, requester, files[FindLiveFile(files, fileId.value).value])
    ensures r.status == StatusOk ==> forall t :: t in r.data <==> PermissionRow(fileId.value, t) in perms
    ensures r.status != StatusOk ==> r.data == []
  {
    if verb != Get then Listing(StatusMethodNotAllowed, [])
    else if PhpEmptyField(fileId) then Listing(StatusBadRequest, [])
    else match FindLiveFile(files, fileId.value)
      case None => Listing(StatusNotFound, [])
      case Some(k) =>
        if !MayViewPermissions(requesterRole, requester, files[k]) then Listing(StatusForbidden, [])
        else
          var rows := PermissionsOf(perms, fileId.value);
          var data := Targets(rows);
          assert forall t :: t in data ==> PermissionRow(fileId.value, t) in rows by {
            forall t | t in data ensures PermissionRow(fileId.value, t) in rows {
              var i :| 0 <= i < |data| && data[i] == t;
              assert rows[i].fileId == fileId.value;
            }
          }
          assert forall t :: PermissionRow(fileId.value, t) in rows ==> t in data by {
            forall t | PermissionRow(fileId.value, t) in rows ensures t in data {
              var i :| 0 <= i < |rows| && rows[i] == PermissionRow(fileId.value, t);
              assert data[i] == t;
            }
          }
          Listing(StatusOk, data)
  }

  /** Stated over the table with its primary key: the listing succeeds exactly
      for a GET naming a live file the requester may view, and then returns
      every permission row of that file, each as many times as it is stored. */
  lemma ListingSucceedsIffViewable(verb: HttpMethod, fileId: Option<string>, requester: Id, requesterRole: Option<Role>,
                                   files: seq<FileRow>, perms: seq<PermissionRow>)
    requires UniqueFileIds(files)
    ensures var r := ListPermissions(verb, fileId, requester, requesterRole, files, perms);
            r.status == StatusOk
            <==> && verb == Get && !PhpEmptyField(fileId)
                 && exists i :: 0 <= i < |files| && files[i].id == fileId.value && files[i].deletedAt.None?
                                && MayViewPermissions(requesterRole, requester, files[i])
    ensures var r := ListPermissions(verb, fileId, requester, requesterRole, files, perms);
            r.status == StatusOk ==> r.data == Targets(PermissionsOf(perms, fileId.value))
  {
    if verb == Get && !PhpEmptyField(fileId) {
      var k := FindLiveFile(files, fileId.value);
      if i :| 0 <= i < |files| && files[i].id == fileId.value && files[i].deletedAt.None?
                                && MayViewPermissions(requesterRole, requester, files[i]) {
        assert k.Some?;
        assert k.value == i;
      }
    }
  }
}
