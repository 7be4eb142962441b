/** The relational schema the handlers read and write, as records, and the
    `Database` object holding one value per table. Rows are kept in the
    order they were inserted. A SELECT without ORDER BY is taken to return
    them in that order, which SQL itself does not promise. */
module Tables {
  import opened Common

  /** A row of `users`. */
  datatype User = User(
    id: Id,
    email: string,
    passwordHash: string,
    resetToken: Option<string>,
    resetTokenExpires: Option<int>)

  /** A row of `profiles`, keyed by its `user_id`. */
  datatype Profile = Profile(
    fullName: string,
    whatsapp: Option<string>,
    receiveNotifications: bool,
    role: Role,
    active: bool)

  /** A row of `files`. `status` is free text: the update handler stores
      whatever the client sends. Dates are day numbers, timestamps seconds. */
  datatype FileRow = FileRow(
    id: Id,
    title: string,
    description: Option<string>,
    fileUrl: string,
    fileType: string,
    fileSize: int,
    uploadedBy: Id,
    startDate: Option<int>,
    endDate: Option<int>,
    isPermanent: bool,
    status: string,
    createdAt: int,
    updatedAt: Option<int>,
    deletedAt: Option<int>)

  const ActiveStatus: string := "active"

  /** The target columns of a `file_permissions` row; also the shape of one
      entry of a request's `permissions` list, where a missing key is null. */
  datatype PermissionTarget = PermissionTarget(
    userId: Option<Id>,
    groupId: Option<Id>,
    categoryId: Option<Id>)

  /** A row of `file_permissions` (its own random id and timestamp left out). */
  datatype PermissionRow = PermissionRow(fileId: Id, target: PermissionTarget)

  /** A row of `user_groups`. */
  datatype Membership = Membership(groupId: Id, userId: Id, addedBy: Id)

  /** A row of `user_categories`. */
  datatype Subscription = Subscription(userId: Id, categoryId: Id)

  /** A row of `downloads`. */
  datatype Download = Download(userId: Id, fileId: Id, downloadedAt: int)

  /** `user_groups` holds a row for this (group, user) pair. */
  predicate InGroup(memberships: seq<Membership>, groupId: Id, userId: Id) {
    exists m :: m in memberships && m.groupId == groupId && m.userId == userId
  }

  /** `user_categories` holds a row for this (user, category) pair. */
  predicate Subscribed(subscriptions: seq<Subscription>, categoryId: Id, userId: Id) {
    exists s :: s in subscriptions && s.categoryId == categoryId && s.userId == userId
  }

  predicate UniqueFileIds(files: seq<FileRow>) {
    forall i, j :: 0 <= i < j < |files| ==> files[i].id != files[j].id
  }

  /** What the write handlers guarantee of a stored validity window: a
      permanent file has no dates, and a start date is not after the end date. */
  predicate WindowWellFormed(f: FileRow) {
    && (f.isPermanent ==> f.startDate.None? && f.endDate.None?)
    && (f.startDate.Some? && f.endDate.Some? ==> f.startDate.value <= f.endDate.value)
  }

  /** The permission rows of one file, in table order. */
  function PermissionsOf(rows: seq<PermissionRow>, fileId: Id): (r: seq<PermissionRow>)
    ensures forall p :: p in r <==> p in rows && p.fileId == fileId
    ensures |r| <= |rows|
  {
    if rows == [] then []
    else if rows[0].fileId == fileId then [rows[0]] + PermissionsOf(rows[1..], fileId)
    else PermissionsOf(rows[1..], fileId)
  }

  /** The rows left after `DELETE FROM file_permissions WHERE file_id = ?`. */
  function WithoutFile(rows: seq<PermissionRow>, fileId: Id): (r: seq<PermissionRow>)
    ensures forall p :: p in r <==> p in rows && p.fileId != fileId
  {
    if rows == [] then []
    else if rows[0].fileId == fileId then WithoutFile(rows[1..], fileId)
    else [rows[0]] + WithoutFile(rows[1..], fileId)
  }

  /** One row per submitted permission object, in submission order. */
  function RowsFor(fileId: Id, perms: seq<PermissionTarget>): (r: seq<PermissionRow>)
    ensures |r| == |perms|
    ensures forall i :: 0 <= i < |perms| ==> r[i] == PermissionRow(fileId, perms[i])
  {
    if perms == [] then [] else [PermissionRow(fileId, perms[0])] + RowsFor(fileId, perms[1..])
  }

  lemma {:induction false} RowsForPrefix(fileId: Id, perms: seq<PermissionTarget>, k: nat)
    requires k < |perms|
    ensures RowsFor(fileId, perms[..k + 1]) == RowsFor(fileId, perms[..k]) + [PermissionRow(fileId, perms[k])]
  {
    var a := RowsFor(fileId, perms[..k + 1]);
    var b := RowsFor(fileId, perms[..k]) + [PermissionRow(fileId, perms[k])];
    assert |a| == |b|;
    forall i | 0 <= i < |a| ensures a[i] == b[i] {}
  }

  /** Selecting one file's rows distributes over concatenation. */
  lemma {:induction false} PermissionsOfConcat(xs: seq<PermissionRow>, ys: seq<PermissionRow>, fileId: Id)
    ensures PermissionsOf(xs + ys, fileId) == PermissionsOf(xs, fileId) + PermissionsOf(ys, fileId)
  {
    if xs != [] {
      assert (xs + ys)[1..] == xs[1..] + ys;
      PermissionsOfConcat(xs[1..], ys, fileId);
    } else {
      assert xs + ys == ys;
    }
  }

  /** Rows written for a file are all that file's rows among them. */
  lemma {:induction false} PermissionsOfRowsFor(fileId: Id, other: Id, perms: seq<PermissionTarget>)
    ensures PermissionsOf(RowsFor(fileId, perms), other) == if other == fileId then RowsFor(fileId, perms) else []
  {
    if perms != [] {
      PermissionsOfRowsFor(fileId, other, perms[1..]);
    }
  }

  /** After deleting a file's rows none of them is left; other files keep all of theirs. */
  lemma {:induction false} PermissionsOfWithoutFile(rows: seq<PermissionRow>, fileId: Id, other: Id)
    ensures PermissionsOf(WithoutFile(rows, fileId), other) == if other == fileId then [] else PermissionsOf(rows, other)
  {
    if rows != [] {
      PermissionsOfWithoutFile(rows[1..], fileId, other);
    }
  }

  /** The `file_permissions` table after a file's rows are replaced by one row
      per submitted object (the delete-then-insert of the update handler). */
  function ReplacePermissions(rows: seq<PermissionRow>, fileId: Id, perms: seq<PermissionTarget>): seq<PermissionRow> {
    WithoutFile(rows, fileId) + RowsFor(fileId, perms)
  }

  /** Replacement gives the file exactly the submitted rows and leaves every
      other file's rows, and their order, as they were. */
  lemma ReplacePermissionsEffect(rows: seq<PermissionRow>, fileId: Id, perms: seq<PermissionTarget>, other: Id)
    ensures PermissionsOf(ReplacePermissions(rows, fileId, perms), other)
         == if other == fileId then RowsFor(fileId, perms) else PermissionsOf(rows, other)
  {
    PermissionsOfConcat(WithoutFile(rows, fileId), RowsFor(fileId, perms), other);
    PermissionsOfWithoutFile(rows, fileId, other);
    PermissionsOfRowsFor(fileId, other, perms);
  }

  /** The first live (not soft-deleted) row with the given id, as
      `SELECT ... FROM files WHERE id = ? AND deleted_at IS NULL` fetches it. */
  function FindLiveFile(files: seq<FileRow>, id: Id): (r: Option<nat>)
    ensures r.Some? ==> r.value < |files| && files[r.value].id == id && files[r.value].deletedAt.None?
    ensures r.Some? ==> forall j :: 0 <= j < r.value ==> !(files[j].id == id && files[j].deletedAt.None?)
    ensures r.None? ==> forall j :: 0 <= j < |files| ==> !(files[j].id == id && files[j].deletedAt.None?)
  {
    if files == [] then None
    else if files[0].id == id && files[0].deletedAt.None? then Some(0)
    else match FindLiveFile(files[1..], id)
      case None => None
      case Some(k) => Some(k + 1)
  }

  /** The database: one field per table the modelled handlers touch, plus the
      stored upload binaries (file names under the uploads directory). */
  class Database {
    var users: seq<User>
    var profiles: map<Id, Profile>
    var files: seq<FileRow>
    var filePermissions: seq<PermissionRow>
    var groups: map<Id, Id>          // group id -> created_by
    var userGroups: seq<Membership>
    var userCategories: seq<Subscription>
    var categories: map<Id, string>  // category id -> name
    var downloads: seq<Download>
    var uploads: set<string>

    /** `files.id` is a primary key, and every stored window is well formed. */
    ghost predicate Valid()
      reads this`files
    {
      && UniqueFileIds(files)
      && forall i :: 0 <= i < |files| ==> WindowWellFormed(files[i])
    }

    constructor ()
      ensures Valid()
      ensures users == [] && profiles == map[] && files == [] && filePermissions == []
      ensures groups == map[] && userGroups == [] && userCategories == []
      ensures categories == map[] && downloads == [] && uploads == {}
    {
      users, profiles, files, filePermissions := [], map[], [], [];
      groups, userGroups, userCategories := map[], [], [];
      categories, downloads, uploads := map[], [], {};
    }
  }
}
