/** The edit-file dialog (src/components/dialogs/EditFileDialog.tsx): a form
    whose state is filled from the file being edited and from its permission
    rows, changed by the permanence checkbox, and turned into the PUT body
    the file-update handler receives. */
module EditFileDialog {
  import opened Common
  import opened Tables
  import PermissionList

  /** The `file` prop. Dates are the ISO strings the API returns. */
  datatype FileProp = FileProp(
    id: Id,
    title: string,
    description: Option<string>,
    startDate: Option<string>,
    endDate: Option<string>,
    status: Option<string>,
    isPermanent: Option<bool>)

  /** The JSON body `handleSubmit` sends. */
  datatype Payload = Payload(
    id: Id,
    title: string,
    description: string,
    startDate: Option<string>,
    endDate: Option<string>,
    isPermanent: bool,
    status: string,
    permissions: seq<PermissionTarget>)

  // ---------------------------------------------------------------------------
  // Dates

  /** `s.split('T')[0]`: the text before the first `T`, all of it when there is none. */
  function DatePart(s: string): (r: string)
    ensures |r| <= |s| && r == s[..|r|]
    ensures 'T' !in r
    ensures |r| < |s| ==> s[|r|] == 'T'
  {
    if s == [] || s[0] == 'T' then [] else [s[0]] + DatePart(s[1..])
  }

  /** A date already cut at its `T` is kept whole when loaded again. */
  lemma {:induction false} DatePartIdempotent(s: string)
    ensures DatePart(DatePart(s)) == DatePart(s)
  {
    if s != [] && s[0] != 'T' {
      DatePartIdempotent(s[1..]);
    }
  }

  /** `file.x ? file.x.split('T')[0] : ""`. */
  function LoadedDate(d: Option<string>): string {
    if JsTruthy(d) then DatePart(d.value) else ""
  }

  /** `isPermanent ? null : (date || null)`. */
  function SentDate(isPermanent: bool, date: string): (r: Option<string>)
    ensures r.None? <==> isPermanent || date == ""
    ensures r.Some? ==> r.value == date
  {
    if isPermanent || date == "" then None else Some(date)
  }

  // ---------------------------------------------------------------------------
  // Permissions: split on load, concatenated on submit

  /** `permissions.filter(p => p.user_id).map(p => p.user_id)`. */
  function UserIdsOf(perms: seq<PermissionTarget>): (r: seq<Id>)
    ensures NonEmptyIds(r)
    ensures |r| <= |perms|
  {
    if perms == [] then []
    else (if JsTruthy(perms[0].userId) then [perms[0].userId.value] else []) + UserIdsOf(perms[1..])
  }

  /** `permissions.filter(p => p.group_id).map(p => p.group_id)`. */
  function GroupIdsOf(perms: seq<PermissionTarget>): (r: seq<Id>)
    ensures NonEmptyIds(r)
    ensures |r| <= |perms|
  {
    if perms == [] then []
    else (if JsTruthy(perms[0].groupId) then [perms[0].groupId.value] else []) + GroupIdsOf(perms[1..])
  }

  /** `permissions.filter(p => p.category_id).map(p => p.category_id)`. */
  function CategoryIdsOf(perms: seq<PermissionTarget>): (r: seq<Id>)
    ensures NonEmptyIds(r)
    ensures |r| <= |perms|
  {
    if perms == [] then []
    else (if JsTruthy(perms[0].categoryId) then [perms[0].categoryId.value] else []) + CategoryIdsOf(perms[1..])
  }

  /** An id is selected exactly when it is non-empty and some loaded row
      names it in the matching column. */
  lemma {:induction false} SplitMembers(perms: seq<PermissionTarget>, id: Id)
    ensures id in UserIdsOf(perms) <==> id != "" && exists i :: 0 <= i < |perms| && perms[i].userId == Some(id)
    ensures id in GroupIdsOf(perms) <==> id != "" && exists i :: 0 <= i < |perms| && perms[i].groupId == Some(id)
    ensures id in CategoryIdsOf(perms) <==> id != "" && exists i :: 0 <= i < |perms| && perms[i].categoryId == Some(id)
  {
    if perms != [] {
      SplitMembers(perms[1..], id);
      var p := perms[0];
      if exists i :: 0 <= i < |perms| && perms[i].userId == Some(id) {
        var i :| 0 <= i < |perms| && perms[i].userId == Some(id);
        if i > 0 { assert perms[1..][i - 1] == perms[i]; }
      }
      if exists i :: 0 <= i < |perms| && perms[i].groupId == Some(id) {
        var i :| 0 <= i < |perms| && perms[i].groupId == Some(id);
        if i > 0 { assert perms[1..][i - 1] == perms[i]; }
      }
      if exists i :: 0 <= i < |perms| && perms[i].categoryId == Some(id) {
        var i :| 0 <= i < |perms| && perms[i].categoryId == Some(id);
        if i > 0 { assert perms[1..][i - 1] == perms[i]; }
      }
      forall i | 0 <= i < |perms[1..]| ensures perms[1..][i] == perms[i + 1] { }
    }
  }

  function UserTargets(ids: seq<Id>): (r: seq<PermissionTarget>)
    ensures |r| == |ids|
    ensures forall i :: 0 <= i < |ids| ==> r[i] == PermissionTarget(Some(ids[i]), None, None)
  {
    if ids == [] then [] else [PermissionTarget(Some(ids[0]), None, None)] + UserTargets(ids[1..])
  }

  function GroupTargets(ids: seq<Id>): (r: seq<PermissionTarget>)
    ensures |r| == |ids|
    ensures forall i :: 0 <= i < |ids| ==> r[i] == PermissionTarget(None, Some(ids[i]), None)
  {
    if ids == [] then [] else [PermissionTarget(None, Some(ids[0]), None)] + GroupTargets(ids[1..])
  }

  function CategoryTargets(ids: seq<Id>): (r: seq<PermissionTarget>)
    ensures |r| == |ids|
    ensures forall i :: 0 <= i < |ids| ==> r[i] == PermissionTarget(None, None, Some(ids[i]))
  {
    if ids == [] then [] else [PermissionTarget(None, None, Some(ids[0]))] + CategoryTargets(ids[1..])
  }

  /** The submitted `permissions` array: user entries, then groups, then categories. */
  function BuildPermissions(users: seq<Id>, groups: seq<Id>, categories: seq<Id>): (r: seq<PermissionTarget>)
    ensures |r| == |users| + |groups| + |categories|
    ensures forall i :: 0 <= i < |users| ==> r[i] == PermissionTarget(Some(users[i]), None, None)
    ensures forall i :: |users| <= i < |users| + |groups| ==>
              r[i] == PermissionTarget(None, Some(groups[i - |users|]), None)
    ensures forall i :: |users| + |groups| <= i < |r| ==>
              r[i] == PermissionTarget(None, None, Some(categories[i - |users| - |groups|]))
  {
    UserTargets(users) + GroupTargets(groups) + CategoryTargets(categories)
  }

  /** No id is the empty string (which JavaScript would drop as falsy). */
  predicate NonEmptyIds(ids: seq<Id>) {
    forall i :: 0 <= i < |ids| ==> ids[i] != ""
  }

  lemma {:induction false} UserIdsOfConcat(a: seq<PermissionTarget>, b: seq<PermissionTarget>)
    ensures UserIdsOf(a + b) == UserIdsOf(a) + UserIdsOf(b)
  {
    if a == [] {
      assert a + b == b;
    } else {
      assert (a + b)[0] == a[0] && (a + b)[1..] == a[1..] + b;
      UserIdsOfConcat(a[1..], b);
    }
  }

  lemma {:induction false} GroupIdsOfConcat(a: seq<PermissionTarget>, b: seq<PermissionTarget>)
    ensures GroupIdsOf(a + b) == GroupIdsOf(a) + GroupIdsOf(b)
  {
    if a == [] {
      assert a + b == b;
    } else {
      assert (a + b)[0] == a[0] && (a + b)[1..] == a[1..] + b;
      GroupIdsOfConcat(a[1..], b);
    }
  }

  lemma {:induction false} CategoryIdsOfConcat(a: seq<PermissionTarget>, b: seq<PermissionTarget>)
    ensures CategoryIdsOf(a + b) == CategoryIdsOf(a) + CategoryIdsOf(b)
  {
    if a == [] {
      assert a + b == b;
    } else {
      assert (a + b)[0] == a[0] && (a + b)[1..] == a[1..] + b;
      CategoryIdsOfConcat(a[1..], b);
    }
  }

  /** Each kind of entry reads back only its own ids. */
  lemma {:induction false} UserTargetsSplit(ids: seq<Id>)
    requires NonEmptyIds(ids)
    ensures UserIdsOf(UserTargets(ids)) == ids && GroupIdsOf(UserTargets(ids)) == []
    ensures CategoryIdsOf(UserTargets(ids)) == []
  {
    if ids != [] {
      var t := UserTargets(ids);
      assert t[1..] == UserTargets(ids[1..]);
      UserTargetsSplit(ids[1..]);
      assert ids == [ids[0]] + ids[1..];
    }
  }

  lemma {:induction false} GroupTargetsSplit(ids: seq<Id>)
    requires NonEmptyIds(ids)
    ensures GroupIdsOf(GroupTargets(ids)) == ids && UserIdsOf(GroupTargets(ids)) == []
    ensures CategoryIdsOf(GroupTargets(ids)) == []
  {
    if ids != [] {
      var t := GroupTargets(ids);
      assert t[1..] == GroupTargets(ids[1..]);
      GroupTargetsSplit(ids[1..]);
      assert ids == [ids[0]] + ids[1..];
    }
  }

  lemma {:induction false} CategoryTargetsSplit(ids: seq<Id>)
    requires NonEmptyIds(ids)
    ensures CategoryIdsOf(CategoryTargets(ids)) == ids && UserIdsOf(CategoryTargets(ids)) == []
    ensures GroupIdsOf(CategoryTargets(ids)) == []
  {
    if ids != [] {
      var t := CategoryTargets(ids);
      assert t[0] == PermissionTarget(None, None, Some(ids[0])) && t[1..] == CategoryTargets(ids[1..]);
      CategoryTargetsSplit(ids[1..]);
      assert CategoryIdsOf(t) == [ids[0]] + CategoryIdsOf(t[1..]);
      assert UserIdsOf(t) == UserIdsOf(t[1..]);
      assert GroupIdsOf(t) == GroupIdsOf(t[1..]);
      assert ids == [ids[0]] + ids[1..];
    }
  }

  /** Splitting the submitted list gives back the three selections, in
      order and with repeats, when no id is empty. */
  lemma SplitBuildRoundTrip(users: seq<Id>, groups: seq<Id>, categories: seq<Id>)
    requires NonEmptyIds(users) && NonEmptyIds(groups) && NonEmptyIds(categories)
    ensures var perms := BuildPermissions(users, groups, categories);
            UserIdsOf(perms) == users && GroupIdsOf(perms) == groups && CategoryIdsOf(perms) == categories
  {
    var u, g, c := UserTargets(users), GroupTargets(groups), CategoryTargets(categories);
    UserTargetsSplit(users);
    GroupTargetsSplit(groups);
    CategoryTargetsSplit(categories);
    UserIdsOfConcat(u + g, c);
    UserIdsOfConcat(u, g);
    GroupIdsOfConcat(u + g, c);
    GroupIdsOfConcat(u, g);
    CategoryIdsOfConcat(u + g, c);
    CategoryIdsOfConcat(u, g);
  }

  lemma SplitBuildWhenNonEmpty(users: seq<Id>, groups: seq<Id>, categories: seq<Id>)
    ensures NonEmptyIds(users) && NonEmptyIds(groups) && NonEmptyIds(categories) ==>
              var perms := BuildPermissions(users, groups, categories);
              UserIdsOf(perms) == users && GroupIdsOf(perms) == groups && CategoryIdsOf(perms) == categories
  {
    if NonEmptyIds(users) && NonEmptyIds(groups) && NonEmptyIds(categories) {
      SplitBuildRoundTrip(users, groups, categories);
    }
  }

  /** Saving a non-empty selection and opening the dialog again shows the
      same selection: the update handler replaces the file's rows with one
      row per submitted entry, the listing returns those rows, and the split
      recovers the three lists. (An empty selection is not stored at all; see
      `SaveNeverClearsPermissions`.) */
  lemma SaveThenReloadShowsSelection(rows: seq<PermissionRow>, fileId: Id,
                                     users: seq<Id>, groups: seq<Id>, categories: seq<Id>)
    requires NonEmptyIds(users) && NonEmptyIds(groups) && NonEmptyIds(categories)
    requires |users| + |groups| + |categories| > 0
    ensures var stored := ReplacePermissions(rows, fileId, BuildPermissions(users, groups, categories));
            var listed := PermissionList.Targets(PermissionsOf(stored, fileId));
            UserIdsOf(listed) == users && GroupIdsOf(listed) == groups && CategoryIdsOf(listed) == categories
  {
    var perms := BuildPermissions(users, groups, categories);
    ReplacePermissionsEffect(rows, fileId, perms, fileId);
    var listed := PermissionList.Targets(RowsFor(fileId, perms));
    assert listed == perms;
    SplitBuildRoundTrip(users, groups, categories);
  }

  /** The update handler skips the permission rewrite when the submitted
      list is empty, so saving with nothing selected leaves the file's
      permissions as they were, and no save from the dialog takes a file's
      last permission away. */
  lemma SaveNeverClearsPermissions(rows: seq<PermissionRow>, fileId: Id,
                                   users: seq<Id>, groups: seq<Id>, categories: seq<Id>)
    ensures var perms := BuildPermissions(users, groups, categories);
            var stored := if perms == [] then rows else ReplacePermissions(rows, fileId, perms);
            && (|users| + |groups| + |categories| == 0 ==> PermissionsOf(stored, fileId) == PermissionsOf(rows, fileId))
            && (PermissionsOf(rows, fileId) != [] ==> PermissionsOf(stored, fileId) != [])
  {
    var perms := BuildPermissions(users, groups, categories);
    if perms != [] {
      ReplacePermissionsEffect(rows, fileId, perms, fileId);
    }
  }

  // ---------------------------------------------------------------------------
  // The form

  /** The dialog's `useState` fields (the two loading flags are not part of
      this model). */
  class EditForm {
    var title: string
    var description: string
    var startDate: string
    var endDate: string
    var isPermanent: bool
    var status: string
    var selectedUsers: seq<Id>
    var selectedGroups: seq<Id>
    var selectedCategories: seq<Id>

    /** The initial state of each `useState`. */
    constructor ()
      ensures title == "" && description == "" && startDate == "" && endDate == ""
      ensures !isPermanent && status == ActiveStatus
      ensures selectedUsers == [] && selectedGroups == [] && selectedCategories == []
    {
      title, description, startDate, endDate := "", "", "", "";
      isPermanent, status := false, ActiveStatus;
      selectedUsers, selectedGroups, selectedCategories := [], [], [];
    }

    /** The effect run when `file` changes: each field from the file, with
        defaults for missing values and dates cut at their `T`. A null file
        leaves the form as it is. */
    method Load(file: Option<FileProp>)
      modifies this`title, this`description, this`startDate, this`endDate, this`isPermanent, this`status
      ensures file.None? ==> title == old(title) && description == old(description)
                             && startDate == old(startDate) && endDate == old(endDate)
                             && isPermanent == old(isPermanent) && status == old(status)
      ensures file.Some? ==>
                && title == file.value.title
                && description == (if file.value.description.Some? then file.value.description.value else "")
                && startDate == LoadedDate(file.value.startDate) && endDate == LoadedDate(file.value.endDate)
                && isPermanent == (file.value.isPermanent == Some(true))
                && status == (if JsTruthy(file.value.status) then file.value.status.value else ActiveStatus)
                && 'T' !in startDate && 'T' !in endDate
    {
      if file.Some? {
        var f := file.value;
        title := f.title;
        description := if f.description.Some? then f.description.value else "";
        startDate := LoadedDate(f.startDate);
        endDate := LoadedDate(f.endDate);
        isPermanent := f.isPermanent == Some(true);
        status := if JsTruthy(f.status) then f.status.value else ActiveStatus;
      }
    }

    /** `loadFilePermissions`: the listing's `data` split into the three
        selections; a failed request (None) leaves them as they were. */
    method LoadPermissions(data: Option<seq<PermissionTarget>>)
      modifies this`selectedUsers, this`selectedGroups, this`selectedCategories
      ensures data.None? ==> selectedUsers == old(selectedUsers) && selectedGroups == old(selectedGroups)
                             && selectedCategories == old(selectedCategories)
      ensures data.Some? ==> selectedUsers == UserIdsOf(data.value) && selectedGroups == GroupIdsOf(data.value)
                             && selectedCategories == CategoryIdsOf(data.value)
      ensures data.Some? ==> NonEmptyIds(selectedUsers) && NonEmptyIds(selectedGroups) && NonEmptyIds(selectedCategories)
    {
      if data.Some? {
        selectedUsers := UserIdsOf(data.value);
        selectedGroups := GroupIdsOf(data.value);
        selectedCategories := CategoryIdsOf(data.value);
      }
    }

    /** The permanence checkbox: ticking it clears both dates; unticking
        keeps them as they are. */
    method SetPermanent(checked: bool)
      modifies this`isPermanent, this`startDate, this`endDate
      ensures isPermanent == checked
      ensures checked ==> startDate == "" && endDate == ""
      ensures !checked ==> startDate == old(startDate) && endDate == old(endDate)
    {
      isPermanent := checked;
      if checked {
        startDate := "";
        endDate := "";
      }
    }

    /** The submit button is enabled only while the trimmed title is not
        empty (the in-flight flag is not part of this model). */
    predicate CanSubmit()
      reads this`title
    {
      Trim(title, JsSpace) != ""
    }

    /** `handleSubmit`'s body: trimmed title and description, null dates when
        permanent or left empty, and the three selections as one list that
        splits back into them. */
    function BuildPayload(fileId: Id): (p: Payload)
      reads this
      ensures p.id == fileId && p.isPermanent == isPermanent && p.status == status
      ensures p.title == Trim(title, JsSpace) && p.description == Trim(description, JsSpace)
      ensures p.startDate == SentDate(isPermanent, startDate) && p.endDate == SentDate(isPermanent, endDate)
      ensures isPermanent ==> p.startDate.None? && p.endDate.None?
      ensures |p.permissions| == |selectedUsers| + |selectedGroups| + |selectedCategories|
      ensures NonEmptyIds(selectedUsers) && NonEmptyIds(selectedGroups) && NonEmptyIds(selectedCategories) ==>
                && UserIdsOf(p.permissions) == selectedUsers
                && GroupIdsOf(p.permissions) == selectedGroups
                && CategoryIdsOf(p.permissions) == selectedCategories
      ensures CanSubmit() ==> p.title != ""
    {
      var perms := BuildPermissions(selectedUsers, selectedGroups, selectedCategories);
      SplitBuildWhenNonEmpty(selectedUsers, selectedGroups, selectedCategories);
      Payload(fileId, Trim(title, JsSpace), Trim(description, JsSpace),
              SentDate(isPermanent, startDate), SentDate(isPermanent, endDate), isPermanent, status, perms)
    }
  }
}
