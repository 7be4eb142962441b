/** The profile upsert (api/users/update.php): the authenticated user's
    `profiles` row is updated in place when it exists and inserted with the
    default role and active flag otherwise, inside one transaction. */
module ProfileUpdate {
  import opened Common
  import opened Tables

  /** The decoded PUT body; an absent or null field is None. */
  datatype ProfileBody = ProfileBody(fullName: Option<string>, whatsapp: Option<string>,
                                     receiveNotifications: Option<bool>)

  /** The three columns the handler writes. */
  datatype ProfileFields = ProfileFields(fullName: string, whatsapp: Option<string>, receiveNotifications: bool)

  /** A string PHP's `trim` has nothing left to remove from. */
  predicate Trimmed(s: string) {
    s == [] || (s[0] !in PhpSpace && s[|s| - 1] !in PhpSpace)
  }

  /** The fields as the handler stores them: `full_name` is required and
      trimmed, `whatsapp` trimmed when given and NULL otherwise, and
      `receive_notifications` true unless given. */
  function ProfileFieldsOf(body: ProfileBody): (r: Option<ProfileFields>)
    ensures r.Some? <==> body.fullName.Some?
    ensures r.Some? ==> && r.value.fullName == Trim(body.fullName.value, PhpSpace)
                        && (body.whatsapp.Some? ==> r.value.whatsapp == Some(Trim(body.whatsapp.value, PhpSpace)))
                        && Trimmed(r.value.fullName)
                        && (r.value.whatsapp.Some? <==> body.whatsapp.Some?)
                        && (r.value.whatsapp.Some? ==> Trimmed(r.value.whatsapp.value))
                        && (body.receiveNotifications.None? ==> r.value.receiveNotifications)
                        && (body.receiveNotifications.Some? ==>
                              r.value.receiveNotifications == body.receiveNotifications.value)
  {
    if body.fullName.None? then None
    else
      var whatsapp := if body.whatsapp.Some? then Some(Trim(body.whatsapp.value, PhpSpace)) else None;
      var notify := if body.receiveNotifications.Some? then body.receiveNotifications.value else true;
      Some(ProfileFields(Trim(body.fullName.value, PhpSpace), whatsapp, notify))
  }

  /** Trimming a field the client already trimmed changes nothing, so
      resubmitting what the handler stored stores the same thing. */
  lemma ResubmitStoresSame(body: ProfileBody)
    requires ProfileFieldsOf(body).Some?
    ensures var f := ProfileFieldsOf(body).value;
            ProfileFieldsOf(ProfileBody(Some(f.fullName), f.whatsapp, Some(f.receiveNotifications))) == Some(f)
  {
    var f := ProfileFieldsOf(body).value;
    TrimIdempotent(body.fullName.value, PhpSpace);
    if body.whatsapp.Some? {
      TrimIdempotent(body.whatsapp.value, PhpSpace);
    }
  }

  /** The UPDATE-or-INSERT on `profiles`. An existing row keeps its role and
      active flag; a new one gets role `user` and active 1. */
  function Upsert(profiles: map<Id, Profile>, userId: Id, f: ProfileFields): map<Id, Profile> {
    if userId in profiles then
      profiles[userId := profiles[userId].(fullName := f.fullName, whatsapp := f.whatsapp,
                                           receiveNotifications := f.receiveNotifications)]
    else
      profiles[userId := Profile(f.fullName, f.whatsapp, f.receiveNotifications, Role.User, true)]
  }

  /** After the upsert the user has a profile carrying the three submitted
      columns; its role and active flag are the old ones, or `user` and
      active for a new row; every other user's profile is as it was. */
  lemma UpsertEffect(profiles: map<Id, Profile>, userId: Id, f: ProfileFields)
    ensures var p := Upsert(profiles, userId, f);
            && userId in p
            && p[userId].fullName == f.fullName && p[userId].whatsapp == f.whatsapp
            && p[userId].receiveNotifications == f.receiveNotifications
            && (userId in profiles ==> p[userId].role == profiles[userId].role
                                       && p[userId].active == profiles[userId].active)
            && (userId !in profiles ==> p[userId].role == Role.User && p[userId].active)
            && p.Keys == profiles.Keys + {userId}
            && forall other :: other in profiles && other != userId ==> p[other] == profiles[other]
  {
  }

  /** Submitting the same fields twice leaves the table as one submission did. */
  lemma UpsertIdempotent(profiles: map<Id, Profile>, userId: Id, f: ProfileFields)
    ensures Upsert(Upsert(profiles, userId, f), userId, f) == Upsert(profiles, userId, f)
  {
    var once := Upsert(profiles, userId, f);
    assert once[userId := once[userId].(fullName := f.fullName, whatsapp := f.whatsapp,
                                        receiveNotifications := f.receiveNotifications)] == once;
  }

  /** The handler, for the authenticated user `userId`. `fault` stands for a
      statement inside the transaction that throws; the rollback then leaves
      `profiles` as it was. */
  method UpdateProfile(db: Database, userId: Id, verb: HttpMethod, body: ProfileBody, fault: bool)
    returns (status: int)
    modifies db`profiles
    ensures verb != Put ==> status == StatusMethodNotAllowed && db.profiles == old(db.profiles)
    ensures verb == Put && body.fullName.None? ==> status == StatusBadRequest && db.profiles == old(db.profiles)
    ensures verb == Put && body.fullName.Some? && fault ==>
              status == StatusServerError && db.profiles == old(db.profiles)
    ensures verb == Put && body.fullName.Some? && !fault ==>
              status == StatusOk && db.profiles == Upsert(old(db.profiles), userId, ProfileFieldsOf(body).value)
  {
    if verb != Put {
      return StatusMethodNotAllowed;
    }
    var fields := ProfileFieldsOf(body);
    if fields.None? {
      return StatusBadRequest;
    }
    if fault {
      return StatusServerError;
    }
    StoreProfile(db, userId, fields.value);
    status := StatusOk;
  }

  /** The statements inside the transaction: the SELECT for an existing
      row, then its UPDATE or the INSERT of a new one. */
  method StoreProfile(db: Database, userId: Id, f: ProfileFields)
    modifies db`profiles
    ensures db.profiles == Upsert(old(db.profiles), userId, f)
  {
    if userId in db.profiles {
      db.profiles := db.profiles[userId := db.profiles[userId].(fullName := f.fullName, whatsapp := f.whatsapp,
                                                                 receiveNotifications := f.receiveNotifications)];
    } else {
      db.profiles := db.profiles[userId := Profile(f.fullName, f.whatsapp, f.receiveNotifications, Role.User, true)];
    }
  }
}
