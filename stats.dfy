/** The dashboard statistics handler (api/reports/stats.php). For a requester
    whose token role is `user` it counts, and lists the three newest of, the
    files visible to them; for the other roles it counts every file that is
    not soft-deleted.

    The visibility query is modelled twice: `Joined`/`Where`/`SelectedIds`
    follow the SQL as written (LEFT JOINs, then the WHERE clause, then
    DISTINCT), and `Visible` is the rule stated declaratively. The lemma
    `SelectedIdsAreVisibleIds` proves the two agree. */
module Stats {
  import opened Common
  import opened Tables

  /** The temporal clause: permanence overrides the dates; both bounds are
      inclusive and a missing bound does not restrict. */
  predicate InWindow(f: FileRow, today: int) {
    f.isPermanent
    || ((f.startDate.None? || f.startDate.value <= today)
        && (f.endDate.None? || f.endDate.value >= today))
  }

  /** A permission row grants `user` access: it names them, a group they
      belong to, or a category they subscribe to. */
  predicate RowGrants(p: PermissionTarget, memberships: seq<Membership>, subscriptions: seq<Subscription>, user: Id) {
    || p.userId == Some(user)
    || (p.groupId.Some? && InGroup(memberships, p.groupId.value, user))
    || (p.categoryId.Some? && Subscribed(subscriptions, p.categoryId.value, user))
  }

  /** The requester uploaded the file or one of its permission rows grants it. */
  predicate Granted(f: FileRow, perms: seq<PermissionRow>, memberships: seq<Membership>,
                    subscriptions: seq<Subscription>, user: Id) {
    || f.uploadedBy == user
    || exists p :: p in perms && p.fileId == f.id && RowGrants(p.target, memberships, subscriptions, user)
  }

  /** The visibility rule for a `user`-role requester on day `today`. */
  predicate Visible(f: FileRow, perms: seq<PermissionRow>, memberships: seq<Membership>,
                    subscriptions: seq<Subscription>, user: Id, today: int) {
    && f.deletedAt.None?
    && f.status == ActiveStatus
    && Granted(f, perms, memberships, subscriptions, user)
    && InWindow(f, today)
  }

  // ---------------------------------------------------------------------------
  // The query as written

  /** One row of `files LEFT JOIN file_permissions LEFT JOIN user_groups LEFT
      JOIN user_categories`: the permission row, or NULL when the file has
      none, and whether the group and category joins (restricted to the
      requester) found a row. Several matching membership rows would repeat
      the row; DISTINCT removes such repeats, so one row stands for them. */
  datatype JoinRow = JoinRow(file: FileRow, perm: Option<PermissionTarget>, groupHit: bool, categoryHit: bool)

  function JoinPermission(f: FileRow, p: PermissionTarget, memberships: seq<Membership>,
                          subscriptions: seq<Subscription>, user: Id): JoinRow {
    JoinRow(f, Some(p),
            p.groupId.Some? && InGroup(memberships, p.groupId.value, user),
            p.categoryId.Some? && Subscribed(subscriptions, p.categoryId.value, user))
  }

  function JoinPermissions(f: FileRow, fps: seq<PermissionRow>, memberships: seq<Membership>,
                           subscriptions: seq<Subscription>, user: Id): (r: seq<JoinRow>)
    ensures |r| == |fps|
    ensures forall i :: 0 <= i < |fps| ==> r[i] == JoinPermission(f, fps[i].target, memberships, subscriptions, user)
  {
    if fps == [] then []
    else [JoinPermission(f, fps[0].target, memberships, subscriptions, user)]
         + JoinPermissions(f, fps[1..], memberships, subscriptions, user)
  }

  /** The joined rows of one file: a LEFT JOIN keeps a file without
      permission rows as a single row whose permission columns are NULL. */
  function FileJoin(f: FileRow, perms: seq<PermissionRow>, memberships: seq<Membership>,
                    subscriptions: seq<Subscription>, user: Id): seq<JoinRow> {
    var fps := PermissionsOf(perms, f.id);
    if fps == [] then [JoinRow(f, None, false, false)]
    else JoinPermissions(f, fps, memberships, subscriptions, user)
  }

  function Joined(files: seq<FileRow>, perms: seq<PermissionRow>, memberships: seq<Membership>,
                  subscriptions: seq<Subscription>, user: Id): seq<JoinRow> {
    if files == [] then []
    else FileJoin(files[0], perms, memberships, subscriptions, user)
         + Joined(files[1..], perms, memberships, subscriptions, user)
  }

  /** The WHERE clause of both user-role queries (stats.php:40-45). A NULL
      `fp.user_id` never equals the requester. */
  predicate Where(r: JoinRow, user: Id, today: int) {
    && r.file.deletedAt.None?
    && r.file.status == ActiveStatus
    && (|| r.file.uploadedBy == user
        || (r.perm.Some? && r.perm.value.userId == Some(user))
        || r.groupHit
        || r.categoryHit)
    && InWindow(r.file, today)
  }

  /** The ids `SELECT DISTINCT f.id ... WHERE ...` yields. */
  function SelectedIds(files: seq<FileRow>, perms: seq<PermissionRow>, memberships: seq<Membership>,
                       subscriptions: seq<Subscription>, user: Id, today: int): set<Id> {
    set r | r in Joined(files, perms, memberships, subscriptions, user) && Where(r, user, today) :: r.file.id
  }

  /** `total_files` for a `user` requester: `COUNT(DISTINCT f.id)`. */
  function TotalFilesForUser(files: seq<FileRow>, perms: seq<PermissionRow>, memberships: seq<Membership>,
                             subscriptions: seq<Subscription>, user: Id, today: int): nat {
    |SelectedIds(files, perms, memberships, subscriptions, user, today)|
  }

  // ---------------------------------------------------------------------------
  // The declarative rule and its agreement with the query

  /** The visible files, in table order. */
  function VisibleFiles(files: seq<FileRow>, perms: seq<PermissionRow>, memberships: seq<Membership>,
                        subscriptions: seq<Subscription>, user: Id, today: int): (r: seq<FileRow>)
    ensures forall f :: f in r <==> f in files && Visible(f, perms, memberships, subscriptions, user, today)
    ensures |r| <= |files|
  {
    if files == [] then []
    else if Visible(files[0], perms, memberships, subscriptions, user, today)
    then [files[0]] + VisibleFiles(files[1..], perms, memberships, subscriptions, user, today)
    else VisibleFiles(files[1..], perms, memberships, subscriptions, user, today)
  }

  /** A file's joined rows pass the WHERE clause exactly when it is visible. */
  lemma FileJoinSelects(f: FileRow, perms: seq<PermissionRow>, memberships: seq<Membership>,
                        subscriptions: seq<Subscription>, user: Id, today: int)
    ensures forall r :: r in FileJoin(f, perms, memberships, subscriptions, user) ==> r.file == f
    ensures (exists r :: r in FileJoin(f, perms, memberships, subscriptions, user) && Where(r, user, today))
            <==> Visible(f, perms, memberships, subscriptions, user, today)
  {
    var fps := PermissionsOf(perms, f.id);
    var rows := FileJoin(f, perms, memberships, subscriptions, user);
    if fps != [] {
      if Visible(f, perms, memberships, subscriptions, user, today) {
        if f.uploadedBy == user {
          assert rows[0] in rows && Where(rows[0], user, today);
        } else {
          var p :| p in perms && p.fileId == f.id && RowGrants(p.target, memberships, subscriptions, user);
          assert p in fps;
          var i :| 0 <= i < |fps| && fps[i] == p;
          assert rows[i] in rows && Where(rows[i], user, today);
        }
      }
      if r :| r in rows && Where(r, user, today) {
        var i :| 0 <= i < |rows| && rows[i] == r;
        assert fps[i] in perms && fps[i].fileId == f.id;
      }
    }
  }

  /** Every joined row belongs to a file of the table, and a file has a row
      passing the WHERE clause exactly when it is visible. */
  lemma {:induction false} JoinedSelects(files: seq<FileRow>, perms: seq<PermissionRow>, memberships: seq<Membership>,
                                         subscriptions: seq<Subscription>, user: Id, today: int)
    ensures forall r :: r in Joined(files, perms, memberships, subscriptions, user) ==> r.file in files
    ensures forall f :: f in files ==>
              ((exists r :: r in Joined(files, perms, memberships, subscriptions, user) && Where(r, user, today) && r.file == f)
               <==> Visible(f, perms, memberships, subscriptions, user, today))
  {
    if files != [] {
      var head := FileJoin(files[0], perms, memberships, subscriptions, user);
      var tail := Joined(files[1..], perms, memberships, subscriptions, user);
      JoinedSelects(files[1..], perms, memberships, subscriptions, user, today);
      FileJoinSelects(files[0], perms, memberships, subscriptions, user, today);
      assert Joined(files, perms, memberships, subscriptions, user) == head + tail;
      forall f | f in files
        ensures (exists r :: r in head + tail && Where(r, user, today) && r.file == f)
                <==> Visible(f, perms, memberships, subscriptions, user, today)
      {
        if f == files[0] && Visible(f, perms, memberships, subscriptions, user, today) {
          var r :| r in head && Where(r, user, today);
          assert r in head + tail;
        } else if f != files[0] && Visible(f, perms, memberships, subscriptions, user, today) {
          var r :| r in tail && Where(r, user, today) && r.file == f;
          assert r in head + tail;
        }
      }
    }
  }

  /** The query's DISTINCT ids are exactly the ids of the visible files. */
  lemma SelectedIdsAreVisibleIds(files: seq<FileRow>, perms: seq<PermissionRow>, memberships: seq<Membership>,
                                 subscriptions: seq<Subscription>, user: Id, today: int)
    ensures SelectedIds(files, perms, memberships, subscriptions, user, today)
         == set f | f in VisibleFiles(files, perms, memberships, subscriptions, user, today) :: f.id
  {
    JoinedSelects(files, perms, memberships, subscriptions, user, today);
    var vis := VisibleFiles(files, perms, memberships, subscriptions, user, today);
    var joined := Joined(files, perms, memberships, subscriptions, user);
    forall id | id in set f | f in vis :: f.id
      ensures id in SelectedIds(files, perms, memberships, subscriptions, user, today)
    {
      var f :| f in vis && f.id == id;
      var r :| r in joined && Where(r, user, today) && r.file == f;
    }
    forall id | id in SelectedIds(files, perms, memberships, subscriptions, user, today)
      ensures id in set f | f in vis :: f.id
    {
      var r :| r in joined && Where(r, user, today) && r.file.id == id;
      assert r.file in files;
      assert r.file in vis;
    }
  }

  lemma {:induction false} VisibleFilesUnique(files: seq<FileRow>, perms: seq<PermissionRow>, memberships: seq<Membership>,
                                              subscriptions: seq<Subscription>, user: Id, today: int)
    requires UniqueFileIds(files)
    ensures UniqueFileIds(VisibleFiles(files, perms, memberships, subscriptions, user, today))
  {
    if files != [] {
      VisibleFilesUnique(files[1..], perms, memberships, subscriptions, user, today);
      var rest := VisibleFiles(files[1..], perms, memberships, subscriptions, user, today);
      forall g | g in rest ensures g.id != files[0].id {
        var j :| 0 <= j < |files[1..]| && files[1..][j] == g;
        assert files[j + 1] == g;
      }
    }
  }

  /** With unique ids, the number of distinct ids is the number of rows. */
  lemma {:induction false} IdCount(s: seq<FileRow>)
    requires UniqueFileIds(s)
    ensures |set f | f in s :: f.id| == |s|
  {
    if s != [] {
      IdCount(s[1..]);
      var tail := set f | f in s[1..] :: f.id;
      forall g | g in s[1..] ensures g.id != s[0].id {
        var j :| 0 <= j < |s[1..]| && s[1..][j] == g;
        assert s[j + 1] == g;
      }
      assert s[0].id !in tail;
      forall f | f in s ensures f == s[0] || f in s[1..] {
        var j :| 0 <= j < |s| && s[j] == f;
        if j > 0 { assert s[1..][j - 1] == f; }
      }
      assert (set f | f in s :: f.id) == {s[0].id} + tail;
    }
  }

  /** `total_files` counts each visible file once, however many permission
      rows match it. */
  lemma TotalFilesCountsVisibleFiles(files: seq<FileRow>, perms: seq<PermissionRow>, memberships: seq<Membership>,
                                     subscriptions: seq<Subscription>, user: Id, today: int)
    requires UniqueFileIds(files)
    ensures TotalFilesForUser(files, perms, memberships, subscriptions, user, today)
         == |VisibleFiles(files, perms, memberships, subscriptions, user, today)|
  {
    SelectedIdsAreVisibleIds(files, perms, memberships, subscriptions, user, today);
    VisibleFilesUnique(files, perms, memberships, subscriptions, user, today);
    IdCount(VisibleFiles(files, perms, memberships, subscriptions, user, today));
  }

  /** A soft-deleted file is never counted for a `user` requester, not even
      for its uploader. */
  lemma DeletedFileNeverSelected(files: seq<FileRow>, perms: seq<PermissionRow>, memberships: seq<Membership>,
                                 subscriptions: seq<Subscription>, user: Id, today: int, i: nat)
    requires UniqueFileIds(files) && i < |files| && files[i].deletedAt.Some?
    ensures files[i].id !in SelectedIds(files, perms, memberships, subscriptions, user, today)
  {
    SelectedIdsAreVisibleIds(files, perms, memberships, subscriptions, user, today);
    var vis := VisibleFiles(files, perms, memberships, subscriptions, user, today);
    forall f | f in vis ensures f.id != files[i].id {
      var j :| 0 <= j < |files| && files[j] == f;
    }
  }

  /** A file that is not `active` is never counted for a `user` requester. */
  lemma InactiveFileNeverSelected(files: seq<FileRow>, perms: seq<PermissionRow>, memberships: seq<Membership>,
                                  subscriptions: seq<Subscription>, user: Id, today: int, i: nat)
    requires UniqueFileIds(files) && i < |files| && files[i].status != ActiveStatus
    ensures files[i].id !in SelectedIds(files, perms, memberships, subscriptions, user, today)
  {
    SelectedIdsAreVisibleIds(files, perms, memberships, subscriptions, user, today);
    var vis := VisibleFiles(files, perms, memberships, subscriptions, user, today);
    forall f | f in vis ensures f.id != files[i].id {
      var j :| 0 <= j < |files| && files[j] == f;
    }
  }

  /** A file without permission rows is counted only for its uploader (the
      LEFT JOIN leaves its permission columns NULL). */
  lemma UngatedFileOnlyForUploader(files: seq<FileRow>, perms: seq<PermissionRow>, memberships: seq<Membership>,
                                   subscriptions: seq<Subscription>, user: Id, today: int, i: nat)
    requires UniqueFileIds(files) && i < |files|
    requires PermissionsOf(perms, files[i].id) == []
    ensures files[i].id in SelectedIds(files, perms, memberships, subscriptions, user, today)
            <==> && files[i].uploadedBy == user && files[i].deletedAt.None?
                 && files[i].status == ActiveStatus && InWindow(files[i], today)
  {
    SelectedIdsAreVisibleIds(files, perms, memberships, subscriptions, user, today);
    var vis := VisibleFiles(files, perms, memberships, subscriptions, user, today);
    var f := files[i];
    assert forall p :: p in perms && p.fileId == f.id ==> p in PermissionsOf(perms, f.id);
    if Visible(f, perms, memberships, subscriptions, user, today) {
      assert f in vis;
    }
    if g :| g in vis && g.id == f.id {
      var j :| 0 <= j < |files| && files[j] == g;
    }
  }

  /** A permission row naming the requester makes a live, active, in-window
      file count, whatever their groups and categories are. */
  lemma DirectGrantSelected(files: seq<FileRow>, perms: seq<PermissionRow>, memberships: seq<Membership>,
                            subscriptions: seq<Subscription>, user: Id, today: int, i: nat, p: PermissionRow)
    requires i < |files| && p in perms && p.fileId == files[i].id && p.target.userId == Some(user)
    requires files[i].deletedAt.None? && files[i].status == ActiveStatus && InWindow(files[i], today)
    ensures files[i].id in SelectedIds(files, perms, memberships, subscriptions, user, today)
  {
    SelectedIdsAreVisibleIds(files, perms, memberships, subscriptions, user, today);
    assert files[i] in VisibleFiles(files, perms, memberships, subscriptions, user, today);
  }

  // ---------------------------------------------------------------------------
  // recent_files: ORDER BY created_at DESC LIMIT 3

  /** Index of the newest file; among equally new ones, the first. */
  function LatestIndex(s: seq<FileRow>): (i: nat)
    requires s != []
    ensures i < |s|
    ensures forall j :: 0 <= j < |s| ==> s[j].createdAt <= s[i].createdAt
    ensures forall j :: 0 <= j < i ==> s[j].createdAt < s[i].createdAt
  {
    if |s| == 1 then 0
    else
      var k := LatestIndex(s[1..]) + 1;
      if s[0].createdAt >= s[k].createdAt then 0 else k
  }

  /** Removing the entry at `i` removes exactly one occurrence of it. */
  lemma RemoveAtMultiset(s: seq<FileRow>, i: nat)
    requires i < |s|
    ensures multiset(s) == multiset(s[..i] + s[i + 1..]) + multiset{s[i]}
  {
    assert s == s[..i] + [s[i]] + s[i + 1..];
  }

  /** Each entry is at most as new as the one before it. */
  predicate NewestFirst(r: seq<FileRow>) {
    forall i, j :: 0 <= i < j < |r| ==> r[j].createdAt <= r[i].createdAt
  }

  /** No entry of `s` missing from the selection `r` is newer than one in it. */
  predicate NothingNewerLeftOut(s: seq<FileRow>, r: seq<FileRow>) {
    forall x, y :: x in multiset(s) - multiset(r) && y in r ==> x.createdAt <= y.createdAt
  }

  /** The newest entry in front of a newest-first selection from the rest
      keeps the order. */
  lemma NewestFirstStep(s: seq<FileRow>, i: nat, tail: seq<FileRow>)
    requires i < |s|
    requires forall j :: 0 <= j < |s| ==> s[j].createdAt <= s[i].createdAt
    requires multiset(tail) <= multiset(s[..i] + s[i + 1..])
    requires NewestFirst(tail)
    ensures NewestFirst([s[i]] + tail)
  {
    var rest := s[..i] + s[i + 1..];
    var r := [s[i]] + tail;
    forall a, b | 0 <= a < b < |r| ensures r[b].createdAt <= r[a].createdAt {
      if a == 0 {
        assert r[b] == tail[b - 1];
        assert r[b] in multiset(rest);
        assert r[b] in s;
      }
    }
  }

  /** Taking the newest entry of `s` and a selection from the rest that
      leaves nothing newer out leaves nothing newer out of `s`. */
  lemma NothingNewerStep(s: seq<FileRow>, i: nat, tail: seq<FileRow>)
    requires i < |s|
    requires forall j :: 0 <= j < |s| ==> s[j].createdAt <= s[i].createdAt
    requires multiset(s) == multiset(s[..i] + s[i + 1..]) + multiset{s[i]}
    requires multiset(tail) <= multiset(s[..i] + s[i + 1..])
    requires NothingNewerLeftOut(s[..i] + s[i + 1..], tail)
    ensures NothingNewerLeftOut(s, [s[i]] + tail)
  {
    var rest := s[..i] + s[i + 1..];
    assert multiset([s[i]] + tail) == multiset{s[i]} + multiset(tail);
    assert multiset(s) - multiset([s[i]] + tail) == multiset(rest) - multiset(tail);
    forall x, y | x in multiset(s) - multiset([s[i]] + tail) && y in [s[i]] + tail
      ensures x.createdAt <= y.createdAt
    {
      assert x in multiset(s);
      assert x in s;
      if y != s[i] {
        assert y in tail;
      }
    }
  }

  /** The `k` newest entries of `s`, newest first. Ties among equal
      timestamps, which SQL leaves unordered, are broken by table order. */
  function MostRecent(s: seq<FileRow>, k: nat): (r: seq<FileRow>)
    ensures |r| == if |s| < k then |s| else k
    ensures multiset(r) <= multiset(s)
    ensures NewestFirst(r)
    ensures NothingNewerLeftOut(s, r)
    decreases k
  {
    if k == 0 || s == [] then []
    else
      var i := LatestIndex(s);
      var tail := MostRecent(s[..i] + s[i + 1..], k - 1);
      RemoveAtMultiset(s, i);
      assert multiset([s[i]] + tail) == multiset{s[i]} + multiset(tail);
      NewestFirstStep(s, i, tail);
      NothingNewerStep(s, i, tail);
      [s[i]] + tail
  }

  /** `recent_files` for a `user` requester. */
  function RecentFilesForUser(files: seq<FileRow>, perms: seq<PermissionRow>, memberships: seq<Membership>,
                              subscriptions: seq<Subscription>, user: Id, today: int): seq<FileRow> {
    MostRecent(VisibleFiles(files, perms, memberships, subscriptions, user, today), 3)
  }

  /** At most three recent files, newest first, each of them visible, and no
      visible file left out is newer than one listed. */
  lemma RecentFilesAreNewestVisible(files: seq<FileRow>, perms: seq<PermissionRow>, memberships: seq<Membership>,
                                    subscriptions: seq<Subscription>, user: Id, today: int)
    ensures var r := RecentFilesForUser(files, perms, memberships, subscriptions, user, today);
            && |r| <= 3
            && (forall i, j :: 0 <= i < j < |r| ==> r[j].createdAt <= r[i].createdAt)
            && (forall x :: x in r ==> x in files && Visible(x, perms, memberships, subscriptions, user, today))
            && (forall x, y :: (x in files && Visible(x, perms, memberships, subscriptions, user, today)
                                && x !in r && y in r) ==> x.createdAt <= y.createdAt)
  {
    var vis := VisibleFiles(files, perms, memberships, subscriptions, user, today);
    var r := RecentFilesForUser(files, perms, memberships, subscriptions, user, today);
    forall x | x in r ensures x in vis {
      assert x in multiset(r);
    }
    forall x, y | x in files && Visible(x, perms, memberships, subscriptions, user, today) && x !in r && y in r
      ensures x.createdAt <= y.createdAt
    {
      assert x in vis;
      assert multiset(r)[x] == 0;
      assert x in multiset(vis) - multiset(r);
    }
  }

  // ---------------------------------------------------------------------------
  // Counts for the other roles, and the report

  /** `SELECT COUNT(*) FROM files WHERE deleted_at IS NULL`. */
  function CountLive(files: seq<FileRow>): nat {
    if files == [] then 0
    else (if files[0].deletedAt.None? then 1 else 0) + CountLive(files[1..])
  }

  /** A `user` requester never counts more files than an administrator does. */
  lemma {:induction false} UserCountAtMostLiveCount(files: seq<FileRow>, perms: seq<PermissionRow>, memberships: seq<Membership>,
                                                    subscriptions: seq<Subscription>, user: Id, today: int)
    requires UniqueFileIds(files)
    ensures TotalFilesForUser(files, perms, memberships, subscriptions, user, today) <= CountLive(files)
  {
    TotalFilesCountsVisibleFiles(files, perms, memberships, subscriptions, user, today);
    VisibleAtMostLive(files, perms, memberships, subscriptions, user, today);
  }

  lemma {:induction false} VisibleAtMostLive(files: seq<FileRow>, perms: seq<PermissionRow>, memberships: seq<Membership>,
                                             subscriptions: seq<Subscription>, user: Id, today: int)
    ensures |VisibleFiles(files, perms, memberships, subscriptions, user, today)| <= CountLive(files)
  {
    if files != [] {
      VisibleAtMostLive(files[1..], perms, memberships, subscriptions, user, today);
    }
  }

  function CountDownloadsBy(downloads: seq<Download>, user: Id): nat {
    if downloads == [] then 0
    else (if downloads[0].userId == user then 1 else 0) + CountDownloadsBy(downloads[1..], user)
  }

  datatype StatsReport =
    | UserReport(totalFiles: nat, totalDownloads: nat, recentFiles: seq<FileRow>)
    | StaffReport(totalFiles: nat, totalDownloads: nat)

  /** The report of stats.php for a requester with token role `role`. */
  function Report(role: Role, user: Id, today: int, files: seq<FileRow>, perms: seq<PermissionRow>,
                  memberships: seq<Membership>, subscriptions: seq<Subscription>,
                  downloads: seq<Download>): (r: StatsReport)
    ensures r.UserReport? <==> role == Role.User
    ensures role == Role.User && UniqueFileIds(files) ==>
              r.totalFiles == |VisibleFiles(files, perms, memberships, subscriptions, user, today)|
              && r.totalFiles <= CountLive(files)
              && |r.recentFiles| <= 3 && |r.recentFiles| <= r.totalFiles
    ensures role == Role.User ==>
              && r.recentFiles == RecentFilesForUser(files, perms, memberships, subscriptions, user, today)
              && r.totalDownloads == CountDownloadsBy(downloads, user)
    ensures role != Role.User ==> r.totalFiles == CountLive(files) && r.totalDownloads == |downloads|
  {
    if role == Role.User then
      var r := UserReport(TotalFilesForUser(files, perms, memberships, subscriptions, user, today),
                          CountDownloadsBy(downloads, user),
                          RecentFilesForUser(files, perms, memberships, subscriptions, user, today));
      if UniqueFileIds(files) then
        TotalFilesCountsVisibleFiles(files, perms, memberships, subscriptions, user, today);
        UserCountAtMostLiveCount(files, perms, memberships, subscriptions, user, today);
        r
      else r
    else
      StaffReport(CountLive(files), |downloads|)
  }
}
