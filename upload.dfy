/** The upload handler (api/files/upload.php): a role gate, normalisation and
    validation of the posted fields, storage of the binary, an all-or-nothing
    insert of the file row and one permission row per submitted object, then
    the notification recipients and the category names of the announcement.

    The stored name (`uniqid`), the new file id (`random_bytes`), the clock,
    the outcome of moving the binary and the statement at which the database
    throws, if any, are parameters. */
module Upload {
  import opened Common
  import opened Tables

  // ---------------------------------------------------------------------------
  // Request normalisation and validation

  /** The multipart request. `hasFile` is whether a `file` part is present and
      `fileAccepted` the verdict of the file validator, which is not part of
      this model. A date is None when the field is absent or PHP-empty; a
      present date is its day number. `isPermanent` is the raw field. */
  datatype UploadRequest = UploadRequest(
    hasFile: bool,
    fileAccepted: bool,
    fileType: string,
    fileSize: int,
    title: Option<string>,
    description: Option<string>,
    startDate: Option<int>,
    endDate: Option<int>,
    isPermanent: Option<string>,
    permissions: seq<PermissionTarget>)

  /** The fields as they will be stored. */
  datatype Fields = Fields(title: string, description: string, startDate: Option<int>, endDate: Option<int>, isPermanent: bool)

  /** Why a request is refused with 400, in the order the checks run. */
  datatype Rejection = NoFile | InvalidFile | DatesOutOfOrder | MissingTitle

  datatype Checked = Accepted(fields: Fields) | Rejected(reason: Rejection)

  /** The flag is set only by the exact string "1". */
  predicate PermanentFlag(raw: Option<string>) {
    raw == Some("1")
  }

  predicate DatesOutOfOrderIn(startDate: Option<int>, endDate: Option<int>) {
    startDate.Some? && endDate.Some? && startDate.value > endDate.value
  }

  /** Lines 44-84: file presence and validity, then normalisation (a missing
      title or description becomes "", permanence clears both dates), then
      the date order, then the title. */
  function CheckUpload(req: UploadRequest): (c: Checked)
    ensures c == Rejected(NoFile) <==> !req.hasFile
    ensures c == Rejected(InvalidFile) <==> req.hasFile && !req.fileAccepted
    ensures c.Accepted?
            <==> && req.hasFile && req.fileAccepted
                 && !(!PermanentFlag(req.isPermanent) && DatesOutOfOrderIn(req.startDate, req.endDate))
                 && !PhpEmptyField(req.title)
    ensures c.Accepted? ==> c.fields.description == if req.description.Some? then req.description.value else ""
    ensures c.Accepted? ==> (c.fields.isPermanent <==> PermanentFlag(req.isPermanent))
    ensures c.Accepted? && c.fields.isPermanent ==> c.fields.startDate.None? && c.fields.endDate.None?
    ensures c.Accepted? && !c.fields.isPermanent ==> c.fields.startDate == req.startDate && c.fields.endDate == req.endDate
    ensures c.Accepted? ==> !DatesOutOfOrderIn(c.fields.startDate, c.fields.endDate)
    ensures c.Accepted? ==> !PhpEmpty(c.fields.title) && req.title == Some(c.fields.title)
    ensures c == Rejected(DatesOutOfOrder)
            <==> && req.hasFile && req.fileAccepted && !PermanentFlag(req.isPermanent)
                 && DatesOutOfOrderIn(req.startDate, req.endDate)
    ensures c == Rejected(MissingTitle)
            <==> && req.hasFile && req.fileAccepted
                 && !(!PermanentFlag(req.isPermanent) && DatesOutOfOrderIn(req.startDate, req.endDate))
                 && PhpEmptyField(req.title)
  {
    if !req.hasFile then Rejected(NoFile)
    else if !req.fileAccepted then Rejected(InvalidFile)
    else
      var title := if req.title.Some? then req.title.value else "";
      var description := if req.description.Some? then req.description.value else "";
      var permanent := PermanentFlag(req.isPermanent);
      var startDate := if permanent then None else req.startDate;
      var endDate := if permanent then None else req.endDate;
      if DatesOutOfOrderIn(startDate, endDate) then Rejected(DatesOutOfOrder)
      else if PhpEmpty(title) then Rejected(MissingTitle)
      else Accepted(Fields(title, description, startDate, endDate, permanent))
  }

  /** A window of equal dates is accepted. */
  lemma EqualDatesAccepted(req: UploadRequest, day: int)
    requires req.hasFile && req.fileAccepted && req.startDate == Some(day) && req.endDate == Some(day)
    requires req.title.Some? && !PhpEmpty(req.title.value)
    ensures CheckUpload(req).Accepted?
    ensures PermanentFlag(req.isPermanent) || CheckUpload(req).fields.startDate == Some(day)
  {
  }

  /** Any other spelling of "true" leaves the file non-permanent. */
  lemma OnlyExactOneIsPermanent(req: UploadRequest, raw: string)
    requires raw != "1" && req.isPermanent == Some(raw)
    ensures CheckUpload(req).Accepted? ==> !CheckUpload(req).fields.isPermanent
  {
  }

  /** The `files` row written for an accepted request. Status is not in the
      INSERT; the column's default, `active`, applies. */
  function NewFileRow(id: Id, fields: Fields, req: UploadRequest, storedName: string, uploader: Id, now: int): FileRow {
    FileRow(id, fields.title, Some(fields.description), "uploads/" + storedName, req.fileType, req.fileSize,
            uploader, fields.startDate, fields.endDate, fields.isPermanent, ActiveStatus, now, None, None)
  }

  /** Every row an accepted request writes has a well-formed window. */
  lemma AcceptedRowWellFormed(req: UploadRequest, id: Id, storedName: string, uploader: Id, now: int)
    requires CheckUpload(req).Accepted?
    ensures WindowWellFormed(NewFileRow(id, CheckUpload(req).fields, req, storedName, uploader, now))
  {
  }

  // ---------------------------------------------------------------------------
  // Notification recipients: an email-keyed PHP array

  /** One entry of `$notification_users`: email => full name. */
  datatype Recipient = Recipient(email: string, name: string)

  /** The keys of the array, in order. */
  function Keys(m: seq<Recipient>): (k: seq<string>)
    ensures |k| == |m|
    ensures forall i :: 0 <= i < |m| ==> k[i] == m[i].email
  {
    if m == [] then [] else [m[0].email] + Keys(m[1..])
  }

  lemma KeysConcat(a: seq<Recipient>, b: seq<Recipient>)
    ensures Keys(a + b) == Keys(a) + Keys(b)
  {
    assert |Keys(a + b)| == |Keys(a) + Keys(b)|;
    forall i | 0 <= i < |a + b| ensures Keys(a + b)[i] == (Keys(a) + Keys(b))[i] {
      if i >= |a| { assert (a + b)[i] == b[i - |a|]; }
    }
  }

  /** Position of the first entry with key `e`. */
  function KeyIndex(m: seq<Recipient>, e: string): (i: nat)
    requires e in Keys(m)
    ensures i < |m| && m[i].email == e
  {
    if m[0].email == e then 0
    else
      assert Keys(m)[1..] == Keys(m[1..]);
      KeyIndex(m[1..], e) + 1
  }

  /** `$m[$email] = $name`: an existing key keeps its place and takes the new
      name; a new key is appended at the end. */
  function Put(m: seq<Recipient>, r: Recipient): seq<Recipient> {
    if r.email in Keys(m) then m[KeyIndex(m, r.email) := r] else m + [r]
  }

  /** An assignment adds its key once: the keys stay distinct, and the entry
      under that key carries the name just assigned. */
  lemma PutKeys(m: seq<Recipient>, r: Recipient)
    ensures Keys(Put(m, r)) == if r.email in Keys(m) then Keys(m) else Keys(m) + [r.email]
    ensures r in Put(m, r)
    ensures Distinct(Keys(m)) ==> Distinct(Keys(Put(m, r)))
  {
    var m' := Put(m, r);
    if r.email in Keys(m) {
      var i := KeyIndex(m, r.email);
      assert m'[i] == r;
      assert |Keys(m')| == |Keys(m)|;
      forall j | 0 <= j < |m| ensures Keys(m')[j] == Keys(m)[j] {
        if j != i { assert m'[j] == m[j]; }
      }
    } else {
      assert m'[|m|] == r;
      KeysConcat(m, [r]);
      assert Keys([r]) == [r.email];
      var k := Keys(m');
      if Distinct(Keys(m)) {
        forall a, b | 0 <= a < b < |k| ensures k[a] != k[b] {
          if b == |m| {
            assert k[a] == Keys(m)[a];
          } else {
            assert k[a] == Keys(m)[a] && k[b] == Keys(m)[b];
          }
        }
      }
    }
  }

  /** Assigning each fetched row in turn. */
  function PutAll(m: seq<Recipient>, rows: seq<Recipient>): seq<Recipient> {
    if rows == [] then m
    else Put(PutAll(m, rows[..|rows| - 1]), rows[|rows| - 1])
  }

  /** After the assignments the keys are the old keys and the fetched
      emails. */
  lemma {:induction false} PutAllKeys(m: seq<Recipient>, rows: seq<Recipient>)
    ensures forall e :: e in Keys(PutAll(m, rows)) <==> e in Keys(m) || e in Keys(rows)
  {
    if rows != [] {
      var front := rows[..|rows| - 1];
      var last := rows[|rows| - 1];
      PutAllKeys(m, front);
      PutKeys(PutAll(m, front), last);
      assert rows == front + [last];
      KeysConcat(front, [last]);
    }
  }

  /** No key appears twice after the assignments. */
  lemma {:induction false} PutAllDistinct(m: seq<Recipient>, rows: seq<Recipient>)
    requires Distinct(Keys(m))
    ensures Distinct(Keys(PutAll(m, rows)))
  {
    if rows != [] {
      PutAllDistinct(m, rows[..|rows| - 1]);
      PutKeys(PutAll(m, rows[..|rows| - 1]), rows[|rows| - 1]);
    }
  }

  lemma {:induction false} PutAllConcat(m: seq<Recipient>, a: seq<Recipient>, b: seq<Recipient>)
    ensures PutAll(m, a + b) == PutAll(PutAll(m, a), b)
    decreases |b|
  {
    if b == [] {
      assert a + b == a;
    } else {
      assert (a + b)[..|a + b| - 1] == a + b[..|b| - 1];
      PutAllConcat(m, a, b[..|b| - 1]);
    }
  }

  /** Whom one SELECT of the notification phase fetches. */
  datatype Audience = OneUser(userId: Id) | GroupMembers(groupId: Id) | Everyone

  /** A user with a profile that has notifications on (the JOIN with
      `profiles` drops users without one). Every stored role is one of the
      three the category query lists. */
  predicate Notifiable(profiles: map<Id, Profile>, u: User) {
    u.id in profiles && profiles[u.id].receiveNotifications
  }

  predicate InAudience(a: Audience, u: User, memberships: seq<Membership>) {
    match a
    case OneUser(id) => u.id == id
    case GroupMembers(g) => InGroup(memberships, g, u.id)
    case Everyone => true
  }

  /** The query for `a` returns a row with email `e`. */
  predicate Fetches(users: seq<User>, profiles: map<Id, Profile>, memberships: seq<Membership>, a: Audience, e: string) {
    exists u :: u in users && u.email == e && Notifiable(profiles, u) && InAudience(a, u, memberships)
  }

  /** The (email, full name) rows one query returns, in `users` order. */
  function AudienceRows(users: seq<User>, profiles: map<Id, Profile>, memberships: seq<Membership>, a: Audience): (r: seq<Recipient>)
    ensures forall e :: e in Keys(r) <==> Fetches(users, profiles, memberships, a, e)
  {
    if users == [] then []
    else
      var u := users[0];
      var rest := AudienceRows(users[1..], profiles, memberships, a);
      assert forall v :: v in users <==> v == u || v in users[1..];
      if Notifiable(profiles, u) && InAudience(a, u, memberships) then
        KeysConcat([Recipient(u.email, profiles[u.id].fullName)], rest);
        [Recipient(u.email, profiles[u.id].fullName)] + rest
      else rest
  }

  /** The queries one permission object triggers, in the order they run:
      a non-empty `user_id`, a non-empty `group_id`, a non-empty
      `category_id` (which fetches every notifiable user). */
  function Audiences(p: PermissionTarget): seq<Audience> {
    (if !PhpEmptyField(p.userId) then [OneUser(p.userId.value)] else [])
    + (if !PhpEmptyField(p.groupId) then [GroupMembers(p.groupId.value)] else [])
    + (if !PhpEmptyField(p.categoryId) then [Everyone] else [])
  }

  /** The array after the queries for `auds`, in order. */
  function PutAudiences(m: seq<Recipient>, users: seq<User>, profiles: map<Id, Profile>, memberships: seq<Membership>,
                        auds: seq<Audience>): seq<Recipient>
    decreases |auds|
  {
    if auds == [] then m
    else PutAudiences(PutAll(m, AudienceRows(users, profiles, memberships, auds[0])), users, profiles, memberships, auds[1..])
  }

  /** `$notification_users` after the loop over the objects `perms`. */
  function Collected(users: seq<User>, profiles: map<Id, Profile>, memberships: seq<Membership>,
                     perms: seq<PermissionTarget>): seq<Recipient> {
    if perms == [] then []
    else PutAudiences(Collected(users, profiles, memberships, perms[..|perms| - 1]),
                      users, profiles, memberships, Audiences(perms[|perms| - 1]))
  }

  lemma {:induction false} PutAudiencesKeys(m: seq<Recipient>, users: seq<User>, profiles: map<Id, Profile>,
                                            memberships: seq<Membership>, auds: seq<Audience>)
    decreases |auds|
    ensures Distinct(Keys(m)) ==> Distinct(Keys(PutAudiences(m, users, profiles, memberships, auds)))
    ensures forall e :: e in Keys(PutAudiences(m, users, profiles, memberships, auds))
                        <==> e in Keys(m) || exists a :: a in auds && Fetches(users, profiles, memberships, a, e)
  {
    if auds != [] {
      var m1 := PutAll(m, AudienceRows(users, profiles, memberships, auds[0]));
      PutAllKeys(m, AudienceRows(users, profiles, memberships, auds[0]));
      if Distinct(Keys(m)) {
        PutAllDistinct(m, AudienceRows(users, profiles, memberships, auds[0]));
      }
      PutAudiencesKeys(m1, users, profiles, memberships, auds[1..]);
      assert forall a :: a in auds <==> a == auds[0] || a in auds[1..];
    }
  }

  /** The object `p` makes user `u` a recipient. */
  predicate Reaches(p: PermissionTarget, u: User, profiles: map<Id, Profile>, memberships: seq<Membership>) {
    && Notifiable(profiles, u)
    && (|| (!PhpEmptyField(p.userId) && u.id == p.userId.value)
        || (!PhpEmptyField(p.groupId) && InGroup(memberships, p.groupId.value, u.id))
        || !PhpEmptyField(p.categoryId))
  }

  /** Some user with email `e` is reached by `p`. */
  predicate ReachesEmail(users: seq<User>, profiles: map<Id, Profile>, memberships: seq<Membership>,
                         p: PermissionTarget, e: string) {
    exists u :: u in users && u.email == e && Reaches(p, u, profiles, memberships)
  }

  /** The queries of one object fetch exactly the users it reaches. */
  lemma AudiencesFetch(users: seq<User>, profiles: map<Id, Profile>, memberships: seq<Membership>,
                       p: PermissionTarget, e: string)
    ensures (exists a :: a in Audiences(p) && Fetches(users, profiles, memberships, a, e))
            <==> ReachesEmail(users, profiles, memberships, p, e)
  {
    if ReachesEmail(users, profiles, memberships, p, e) {
      var u :| u in users && u.email == e && Reaches(p, u, profiles, memberships);
      if !PhpEmptyField(p.userId) && u.id == p.userId.value {
        assert OneUser(p.userId.value) in Audiences(p);
        assert InAudience(OneUser(p.userId.value), u, memberships);
      } else if !PhpEmptyField(p.groupId) && InGroup(memberships, p.groupId.value, u.id) {
        assert GroupMembers(p.groupId.value) in Audiences(p);
        assert InAudience(GroupMembers(p.groupId.value), u, memberships);
      } else {
        assert Everyone in Audiences(p);
      }
    }
  }

  /** The recipient array lists each email once, and an email is in it exactly
      when some submitted object reaches a notifiable user with that email. */
  lemma {:induction false} CollectedRecipients(users: seq<User>, profiles: map<Id, Profile>, memberships: seq<Membership>,
                                               perms: seq<PermissionTarget>)
    ensures Distinct(Keys(Collected(users, profiles, memberships, perms)))
    ensures forall e :: e in Keys(Collected(users, profiles, memberships, perms))
                        <==> exists k :: 0 <= k < |perms| && ReachesEmail(users, profiles, memberships, perms[k], e)
  {
    if perms != [] {
      var prefix := perms[..|perms| - 1];
      var last := perms[|perms| - 1];
      var prev := Collected(users, profiles, memberships, prefix);
      CollectedRecipients(users, profiles, memberships, prefix);
      PutAudiencesKeys(prev, users, profiles, memberships, Audiences(last));
      forall e ensures e in Keys(Collected(users, profiles, memberships, perms))
                       <==> exists k :: 0 <= k < |perms| && ReachesEmail(users, profiles, memberships, perms[k], e)
      {
        AudiencesFetch(users, profiles, memberships, last, e);
        if k :| 0 <= k < |perms| && ReachesEmail(users, profiles, memberships, perms[k], e) {
          if k < |perms| - 1 {
            assert prefix[k] == perms[k];
          }
        }
        if k :| 0 <= k < |prefix| && ReachesEmail(users, profiles, memberships, prefix[k], e) {
          assert perms[k] == prefix[k];
        }
      }
    }
  }

  /** A category permission notifies every user whose profile has
      notifications on, whether or not they subscribe to that category. */
  lemma CategoryPermissionNotifiesEveryone(users: seq<User>, profiles: map<Id, Profile>, memberships: seq<Membership>,
                                           perms: seq<PermissionTarget>, k: nat, u: User)
    requires k < |perms| && !PhpEmptyField(perms[k].categoryId)
    requires u in users && Notifiable(profiles, u)
    ensures u.email in Keys(Collected(users, profiles, memberships, perms))
  {
    CollectedRecipients(users, profiles, memberships, perms);
    assert Reaches(perms[k], u, profiles, memberships);
  }

  /** A user, group or category permission reaches no one whose profile has
      notifications off: an email held only by such users is never collected. */
  lemma SilentUsersNotCollected(users: seq<User>, profiles: map<Id, Profile>, memberships: seq<Membership>,
                                perms: seq<PermissionTarget>, e: string)
    requires forall u :: u in users && u.email == e ==> !Notifiable(profiles, u)
    ensures e !in Keys(Collected(users, profiles, memberships, perms))
  {
    CollectedRecipients(users, profiles, memberships, perms);
  }

  /** The notifications sent: every collected entry except the one keyed by
      the uploader's own email, in array order. */
  function Outbox(m: seq<Recipient>, uploaderEmail: string): (r: seq<Recipient>)
    ensures forall e :: e in Keys(r) <==> e in Keys(m) && e != uploaderEmail
    ensures IsSubsequence(r, m)
  {
    if m == [] then []
    else
      var rest := Outbox(m[1..], uploaderEmail);
      assert Keys(m) == [m[0].email] + Keys(m[1..]);
      if m[0].email == uploaderEmail then
        SubsequenceSkip(rest, m[1..], m[0]);
        assert [m[0]] + m[1..] == m;
        rest
      else
        KeysConcat([m[0]], rest);
        assert ([m[0]] + rest)[1..] == rest;
        [m[0]] + rest
  }

  /** Leaving entries out keeps the keys distinct. */
  lemma {:induction false} OutboxDistinct(m: seq<Recipient>, uploaderEmail: string)
    requires Distinct(Keys(m))
    ensures Distinct(Keys(Outbox(m, uploaderEmail)))
  {
    if m != [] {
      var rest := Outbox(m[1..], uploaderEmail);
      assert Keys(m) == [m[0].email] + Keys(m[1..]);
      forall j | 0 <= j < |m| - 1 ensures Keys(m[1..])[j] != m[0].email {
        assert Keys(m)[j + 1] == Keys(m[1..])[j];
      }
      OutboxDistinct(m[1..], uploaderEmail);
      if m[0].email != uploaderEmail {
        var k := Keys([m[0]] + rest);
        KeysConcat([m[0]], rest);
        assert k == [m[0].email] + Keys(rest);
        assert m[0].email !in Keys(rest);
        forall a, b | 0 <= a < b < |k| ensures k[a] != k[b] {
          assert k[b] == Keys(rest)[b - 1];
          if a > 0 { assert k[a] == Keys(rest)[a - 1]; }
        }
      }
    }
  }

  /** Each notified address gets one email, the uploader gets none, and the
      others are exactly the addresses the permissions reach. */
  lemma OutboxExcludesUploader(users: seq<User>, profiles: map<Id, Profile>, memberships: seq<Membership>,
                               perms: seq<PermissionTarget>, uploaderEmail: string)
    ensures var out := Outbox(Collected(users, profiles, memberships, perms), uploaderEmail);
            && Distinct(Keys(out))
            && uploaderEmail !in Keys(out)
            && forall e :: e in Keys(out)
                           <==> e != uploaderEmail
                                && exists k :: 0 <= k < |perms| && ReachesEmail(users, profiles, memberships, perms[k], e)
  {
    CollectedRecipients(users, profiles, memberships, perms);
    OutboxDistinct(Collected(users, profiles, memberships, perms), uploaderEmail);
  }

  // ---------------------------------------------------------------------------
  // Category names of the announcement

  /** The name of each object's non-empty `category_id`, in order, for the
      ids the `categories` table knows. Repeats are kept. */
  function CategoryNames(categories: map<Id, string>, perms: seq<PermissionTarget>): (names: seq<string>)
    ensures |names| <= |perms|
    ensures forall n :: n in names <==> exists k :: 0 <= k < |perms| && !PhpEmptyField(perms[k].categoryId)
                                                    && perms[k].categoryId.value in categories
                                                    && categories[perms[k].categoryId.value] == n
  {
    if perms == [] then []
    else
      var prefix := perms[..|perms| - 1];
      var p := perms[|perms| - 1];
      var prev := CategoryNames(categories, prefix);
      assert forall k :: 0 <= k < |prefix| ==> prefix[k] == perms[k];
      if !PhpEmptyField(p.categoryId) && p.categoryId.value in categories then
        prev + [categories[p.categoryId.value]]
      else prev
  }

  /** Lines 200-212, one lookup per object. */
  method CategoryNamesFor(db: Database, perms: seq<PermissionTarget>) returns (names: seq<string>)
    ensures names == CategoryNames(db.categories, perms)
  {
    names := [];
    var i := 0;
    while i < |perms|
      invariant 0 <= i <= |perms|
      invariant names == CategoryNames(db.categories, perms[..i])
    {
      var p := perms[i];
      assert perms[..i + 1][..i] == perms[..i];
      if !PhpEmptyField(p.categoryId) && p.categoryId.value in db.categories {
        names := names + [db.categories[p.categoryId.value]];
      }
      i := i + 1;
    }
    assert perms[..i] == perms;
  }

  /** Lines 151-197: the nested loops over the objects, the queries each one
      triggers, and the rows each query returns. */
  method CollectRecipients(db: Database, perms: seq<PermissionTarget>) returns (m: seq<Recipient>)
    ensures m == Collected(db.users, db.profiles, db.userGroups, perms)
  {
    m := [];
    var i := 0;
    while i < |perms|
      invariant 0 <= i <= |perms|
      invariant m == Collected(db.users, db.profiles, db.userGroups, perms[..i])
    {
      assert perms[..i + 1][..i] == perms[..i];
      var auds := Audiences(perms[i]);
      ghost var start := m;
      var j := 0;
      while j < |auds|
        invariant 0 <= j <= |auds|
        invariant PutAudiences(m, db.users, db.profiles, db.userGroups, auds[j..])
               == PutAudiences(start, db.users, db.profiles, db.userGroups, auds)
      {
        var rows := AudienceRows(db.users, db.profiles, db.userGroups, auds[j]);
        ghost var before := m;
        var k := 0;
        while k < |rows|
          invariant 0 <= k <= |rows|
          invariant m == PutAll(before, rows[..k])
        {
          assert rows[..k + 1][..k] == rows[..k];
          m := Put(m, rows[k]);
          k := k + 1;
        }
        assert rows[..k] == rows;
        assert auds[j..][1..] == auds[j + 1..];
        j := j + 1;
      }
      assert auds[j..] == [];
      i := i + 1;
    }
    assert perms[..i] == perms;
  }

  // ---------------------------------------------------------------------------
  // The handler

  /** The database statement that throws, if any: 0 is the file insert and
      `k + 1` the insert of the `k`-th permission row. A file id already in
      the table makes the file insert throw as well. */
  predicate TransactionFails(files: seq<FileRow>, newId: Id, dbFault: Option<nat>, permissionCount: nat) {
    || (dbFault.Some? && dbFault.value <= permissionCount)
    || exists i :: 0 <= i < |files| && files[i].id == newId
  }

  /** The request passes every guard up to moving the binary. */
  predicate ReachesStorage(role: Role, verb: HttpMethod, req: UploadRequest) {
    role != Role.User && verb == Post && CheckUpload(req).Accepted?
  }

  /** A row whose id the table does not hold keeps the ids unique. */
  lemma AppendKeepsIdsUnique(files: seq<FileRow>, row: FileRow)
    requires UniqueFileIds(files)
    requires forall i :: 0 <= i < |files| ==> files[i].id != row.id
    ensures UniqueFileIds(files + [row])
  {
    var r := files + [row];
    forall a, b | 0 <= a < b < |r| ensures r[a].id != r[b].id {
      assert r[a] == files[a];
    }
  }

  /** The inserts between `beginTransaction` and `commit`, on copies of the
      two tables: the file row, then one permission row per object. A throw
      rolls both back; otherwise the copies hold the new rows. */
  method InsertFile(files: seq<FileRow>, permissionRows: seq<PermissionRow>, row: FileRow,
                    perms: seq<PermissionTarget>, dbFault: Option<nat>)
    returns (committed: bool, newFiles: seq<FileRow>, newRows: seq<PermissionRow>)
    ensures committed <==> !TransactionFails(files, row.id, dbFault, |perms|)
    ensures committed ==> newFiles == files + [row] && newRows == permissionRows + RowsFor(row.id, perms)
  {
    newFiles, newRows := files, permissionRows;
    var clash := exists i :: 0 <= i < |files| && files[i].id == row.id;
    if clash || dbFault == Some(0) {
      return false, newFiles, newRows;
    }
    newFiles := files + [row];
    var i := 0;
    while i < |perms|
      invariant 0 <= i <= |perms|
      invariant newRows == permissionRows + RowsFor(row.id, perms[..i])
      invariant forall k :: 1 <= k <= i ==> dbFault != Some(k)
    {
      if dbFault == Some(i + 1) {
        return false, newFiles, newRows;
      }
      RowsForPrefix(row.id, perms, i);
      newRows := newRows + [PermissionRow(row.id, perms[i])];
      i := i + 1;
    }
    assert perms[..i] == perms;
    committed := true;
  }

  /** The handler for a requester with token role `role` and email
      `requesterEmail`. It returns the status, the notifications sent, and
      the category names they carry. */
  method UploadFile(db: Database, requester: Id, requesterEmail: string, role: Role, verb: HttpMethod,
                    req: UploadRequest, storedName: string, newId: Id, moved: bool,
                    dbFault: Option<nat>, now: int)
    returns (status: int, outbox: seq<Recipient>, categoryNames: seq<string>)
    requires db.Valid()
    modifies db`files, db`filePermissions, db`uploads
    ensures db.Valid()
    ensures role == Role.User ==> status == StatusForbidden
    ensures role != Role.User && verb != Post ==> status == StatusMethodNotAllowed
    ensures role != Role.User && verb == Post && CheckUpload(req).Rejected? ==> status == StatusBadRequest
    ensures status == StatusCreated
            <==> ReachesStorage(role, verb, req) && moved
                 && !TransactionFails(old(db.files), newId, dbFault, |req.permissions|)
    ensures status == StatusCreated ==>
              && db.files == old(db.files) + [NewFileRow(newId, CheckUpload(req).fields, req, storedName, requester, now)]
              && db.filePermissions == old(db.filePermissions) + RowsFor(newId, req.permissions)
              && db.uploads == old(db.uploads) + {storedName}
              && outbox == Outbox(Collected(db.users, db.profiles, db.userGroups, req.permissions), requesterEmail)
              && categoryNames == CategoryNames(db.categories, req.permissions)
    ensures ReachesStorage(role, verb, req) && status != StatusCreated ==> status == StatusServerError
    ensures status != StatusCreated ==>
              && db.files == old(db.files) && db.filePermissions == old(db.filePermissions)
              && outbox == [] && categoryNames == []
              && db.uploads == if ReachesStorage(role, verb, req) && moved
                               then old(db.uploads) - {storedName} else old(db.uploads)
  {
    outbox, categoryNames := [], [];
    if role == Role.User {
      return StatusForbidden, outbox, categoryNames;
    }
    if verb != Post {
      return StatusMethodNotAllowed, outbox, categoryNames;
    }
    var checked := CheckUpload(req);
    if checked.Rejected? {
      return StatusBadRequest, outbox, categoryNames;
    }
    if !moved {
      return StatusServerError, outbox, categoryNames;
    }
    db.uploads := db.uploads + {storedName};

    // The transaction works on copies that are written back on commit.
    var row := NewFileRow(newId, checked.fields, req, storedName, requester, now);
    var committed, files, rows := InsertFile(db.files, db.filePermissions, row, req.permissions, dbFault);
    if !committed {
      db.uploads := db.uploads - {storedName};
      return StatusServerError, outbox, categoryNames;
    }
    AcceptedRowWellFormed(req, newId, storedName, requester, now);
    AppendKeepsIdsUnique(db.files, row);
    db.files, db.filePermissions := files, rows;

    var perms := req.permissions;
    var collected := CollectRecipients(db, perms);
    categoryNames := CategoryNamesFor(db, perms);
    outbox := Outbox(collected, requesterEmail);
    status := StatusCreated;
  }
}
