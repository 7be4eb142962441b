/** The group-membership handler (api/groups/manage-members.php): POST with an
    `action` of `set`, `add` or `remove` rewrites the `user_groups` rows of one
    group inside a transaction; GET checks the group exists. Also the UUID
    formatter the handler uses for new row ids. */
module GroupMembers {
  import opened Common
  import opened Tables

  // ---------------------------------------------------------------------------
  // The relation and its per-group views

  /** The rows of group `g`, in table order. */
  function GroupRows(rows: seq<Membership>, g: Id): (r: seq<Membership>)
    ensures forall m :: m in r <==> m in rows && m.groupId == g
  {
    if rows == [] then []
    else if rows[0].groupId == g then [rows[0]] + GroupRows(rows[1..], g)
    else GroupRows(rows[1..], g)
  }

  /** The user ids of group `g`'s rows, in table order. */
  function MemberIds(rows: seq<Membership>, g: Id): seq<Id> {
    if rows == [] then []
    else if rows[0].groupId == g then [rows[0].userId] + MemberIds(rows[1..], g)
    else MemberIds(rows[1..], g)
  }

  lemma {:induction false} GroupRowsConcat(a: seq<Membership>, b: seq<Membership>, g: Id)
    ensures GroupRows(a + b, g) == GroupRows(a, g) + GroupRows(b, g)
  {
    if a == [] {
      assert a + b == b;
    } else {
      assert (a + b)[1..] == a[1..] + b;
      GroupRowsConcat(a[1..], b, g);
    }
  }

  lemma {:induction false} MemberIdsConcat(a: seq<Membership>, b: seq<Membership>, g: Id)
    ensures MemberIds(a + b, g) == MemberIds(a, g) + MemberIds(b, g)
  {
    if a == [] {
      assert a + b == b;
    } else {
      assert (a + b)[1..] == a[1..] + b;
      MemberIdsConcat(a[1..], b, g);
    }
  }

  /** `DELETE FROM user_groups WHERE group_id = g`. */
  function WithoutGroup(rows: seq<Membership>, g: Id): (r: seq<Membership>)
    ensures forall m :: m in r <==> m in rows && m.groupId != g
  {
    if rows == [] then []
    else if rows[0].groupId == g then WithoutGroup(rows[1..], g)
    else [rows[0]] + WithoutGroup(rows[1..], g)
  }

  /** One new row per listed user, added by `adder`. */
  function NewRows(g: Id, users: seq<Id>, adder: Id): (r: seq<Membership>)
    ensures |r| == |users|
    ensures forall i :: 0 <= i < |users| ==> r[i] == Membership(g, users[i], adder)
  {
    if users == [] then [] else [Membership(g, users[0], adder)] + NewRows(g, users[1..], adder)
  }

  lemma {:induction false} NewRowsPrefix(g: Id, users: seq<Id>, adder: Id, k: nat)
    requires k < |users|
    ensures NewRows(g, users[..k + 1], adder) == NewRows(g, users[..k], adder) + [Membership(g, users[k], adder)]
  {
    var a := NewRows(g, users[..k + 1], adder);
    var b := NewRows(g, users[..k], adder) + [Membership(g, users[k], adder)];
    assert |a| == |b|;
    forall i | 0 <= i < |a| ensures a[i] == b[i] {}
  }

  lemma {:induction false} GroupRowsWithoutGroup(rows: seq<Membership>, g: Id, h: Id)
    ensures GroupRows(WithoutGroup(rows, g), h) == if h == g then [] else GroupRows(rows, h)
    ensures MemberIds(WithoutGroup(rows, g), h) == if h == g then [] else MemberIds(rows, h)
  {
    if rows != [] {
      GroupRowsWithoutGroup(rows[1..], g, h);
    }
  }

  lemma {:induction false} GroupRowsNewRows(g: Id, users: seq<Id>, adder: Id, h: Id)
    ensures GroupRows(NewRows(g, users, adder), h) == if h == g then NewRows(g, users, adder) else []
    ensures MemberIds(NewRows(g, users, adder), h) == if h == g then users else []
  {
    if users != [] {
      GroupRowsNewRows(g, users[1..], adder, h);
    }
  }

  /** No (group, user) pair appears twice. */
  predicate DistinctPairs(rows: seq<Membership>) {
    forall i, j :: 0 <= i < j < |rows| ==> !(rows[i].groupId == rows[j].groupId && rows[i].userId == rows[j].userId)
  }

  // ---------------------------------------------------------------------------
  // The three actions, as functions of the table

  /** `set`: the group's rows are deleted, then one row is inserted per listed
      user (repeats included). */
  function SetMembers(rows: seq<Membership>, g: Id, users: seq<Id>, adder: Id): seq<Membership> {
    WithoutGroup(rows, g) + NewRows(g, users, adder)
  }

  /** `add`: each listed user not yet in the group is inserted, in order; a
      user already there (or inserted earlier in the same request) is skipped. */
  function AddMissing(rows: seq<Membership>, g: Id, users: seq<Id>, adder: Id): seq<Membership> {
    if users == [] then rows
    else
      var prev := AddMissing(rows, g, users[..|users| - 1], adder);
      var u := users[|users| - 1];
      if InGroup(prev, g, u) then prev else prev + [Membership(g, u, adder)]
  }

  /** `remove`: every row pairing the group with a listed user is deleted. */
  function WithoutAny(rows: seq<Membership>, g: Id, users: seq<Id>): (r: seq<Membership>)
    ensures forall m :: m in r <==> m in rows && !(m.groupId == g && m.userId in users)
  {
    if rows == [] then []
    else if rows[0].groupId == g && rows[0].userId in users then WithoutAny(rows[1..], g, users)
    else [rows[0]] + WithoutAny(rows[1..], g, users)
  }

  /** Deleting the rows of no user deletes nothing. */
  lemma {:induction false} WithoutNone(rows: seq<Membership>, g: Id)
    ensures WithoutAny(rows, g, []) == rows
  {
    if rows != [] {
      WithoutNone(rows[1..], g);
    }
  }

  /** Deleting one more user's rows. */
  lemma {:induction false} WithoutAnyStep(rows: seq<Membership>, g: Id, users: seq<Id>, u: Id)
    ensures WithoutAny(WithoutAny(rows, g, users), g, [u]) == WithoutAny(rows, g, users + [u])
  {
    if rows != [] {
      WithoutAnyStep(rows[1..], g, users, u);
    }
  }

  /** After `set` the group's members are exactly the listed users, in order
      and with repeats, and every other group keeps its rows. */
  lemma SetMembersEffect(rows: seq<Membership>, g: Id, users: seq<Id>, adder: Id, h: Id)
    ensures MemberIds(SetMembers(rows, g, users, adder), g) == users
    ensures h != g ==> GroupRows(SetMembers(rows, g, users, adder), h) == GroupRows(rows, h)
  {
    MemberIdsConcat(WithoutGroup(rows, g), NewRows(g, users, adder), g);
    GroupRowsConcat(WithoutGroup(rows, g), NewRows(g, users, adder), h);
    GroupRowsWithoutGroup(rows, g, g);
    GroupRowsWithoutGroup(rows, g, h);
    GroupRowsNewRows(g, users, adder, g);
    GroupRowsNewRows(g, users, adder, h);
  }

  /** `add` keeps every existing row in place and appends rows of group `g`
      only; afterwards a user is a member exactly when they were before or
      are listed; and it never creates a duplicate pair. */
  lemma {:induction false} AddMissingEffect(rows: seq<Membership>, g: Id, users: seq<Id>, adder: Id)
    ensures var r := AddMissing(rows, g, users, adder);
            && |rows| <= |r| && r[..|rows|] == rows
            && (forall i :: |rows| <= i < |r| ==> r[i].groupId == g && r[i].addedBy == adder)
            && (forall u :: InGroup(r, g, u) <==> InGroup(rows, g, u) || u in users)
            && (DistinctPairs(rows) ==> DistinctPairs(r))
  {
    if users != [] {
      var front := users[..|users| - 1];
      var u := users[|users| - 1];
      var prev := AddMissing(rows, g, front, adder);
      AddMissingEffect(rows, g, front, adder);
      assert forall v :: v in users <==> v in front || v == u by {
        assert users == front + [u];
      }
      if !InGroup(prev, g, u) {
        var r := prev + [Membership(g, u, adder)];
        assert r[..|rows|] == prev[..|rows|];
        assert InGroup(r, g, u) by { assert r[|prev|] in r; }
        forall v | InGroup(r, g, v) ensures InGroup(prev, g, v) || v == u {
          var m :| m in r && m.groupId == g && m.userId == v;
          if m != Membership(g, u, adder) {
            assert m in prev;
          }
        }
        forall v | InGroup(prev, g, v) ensures InGroup(r, g, v) {
          var m :| m in prev && m.groupId == g && m.userId == v;
          assert m in r;
        }
        if DistinctPairs(prev) {
          forall i, j | 0 <= i < j < |r| ensures !(r[i].groupId == r[j].groupId && r[i].userId == r[j].userId) {
            if j == |prev| {
              assert r[i] in prev;
            } else {
              assert r[i] == prev[i] && r[j] == prev[j];
            }
          }
        }
      }
    }
  }

  /** After `remove` a user is a member exactly when they were and are not
      listed; only rows of group `g` go, and the rest keep their order. */
  lemma RemoveEffect(rows: seq<Membership>, g: Id, users: seq<Id>, h: Id)
    ensures forall u :: InGroup(WithoutAny(rows, g, users), g, u) <==> InGroup(rows, g, u) && u !in users
    ensures h != g ==> GroupRows(WithoutAny(rows, g, users), h) == GroupRows(rows, h)
  {
    RemoveKeepsOtherGroups(rows, g, users, h);
  }

  lemma {:induction false} RemoveKeepsOtherGroups(rows: seq<Membership>, g: Id, users: seq<Id>, h: Id)
    ensures h != g ==> GroupRows(WithoutAny(rows, g, users), h) == GroupRows(rows, h)
  {
    if rows != [] {
      RemoveKeepsOtherGroups(rows[1..], g, users, h);
    }
  }

  /** The table after a committed request with the given action (`set` when
      absent); an unrecognised action changes nothing. */
  function Apply(rows: seq<Membership>, g: Id, users: seq<Id>, action: string, adder: Id): seq<Membership> {
    if action == "set" then SetMembers(rows, g, users, adder)
    else if action == "add" then AddMissing(rows, g, users, adder)
    else if action == "remove" then WithoutAny(rows, g, users)
    else rows
  }

  /** No action touches the rows of another group. */
  lemma ApplyKeepsOtherGroups(rows: seq<Membership>, g: Id, users: seq<Id>, action: string, adder: Id, h: Id)
    requires h != g
    ensures GroupRows(Apply(rows, g, users, action, adder), h) == GroupRows(rows, h)
  {
    if action == "set" {
      SetMembersEffect(rows, g, users, adder, h);
    } else if action == "add" {
      AddMissingEffect(rows, g, users, adder);
      AppendedGroupRows(rows, AddMissing(rows, g, users, adder), g, h);
    } else if action == "remove" {
      RemoveKeepsOtherGroups(rows, g, users, h);
    }
  }

  /** Rows appended to a table, all of group `g`, leave group `h`'s rows as
      they were. */
  lemma AppendedGroupRows(rows: seq<Membership>, r: seq<Membership>, g: Id, h: Id)
    requires h != g && |rows| <= |r| && r[..|rows|] == rows
    requires forall i :: |rows| <= i < |r| ==> r[i].groupId == g
    ensures GroupRows(r, h) == GroupRows(rows, h)
  {
    var tail := r[|rows|..];
    assert r == rows + tail;
    GroupRowsConcat(rows, tail, h);
    NoRowsOfGroup(tail, h);
  }

  lemma {:induction false} NoRowsOfGroup(rows: seq<Membership>, h: Id)
    requires forall i :: 0 <= i < |rows| ==> rows[i].groupId != h
    ensures GroupRows(rows, h) == []
  {
    if rows != [] {
      NoRowsOfGroup(rows[1..], h);
    }
  }

  // ---------------------------------------------------------------------------
  // The handler

  /** The decoded POST body; a field that is absent or null is None. */
  datatype MembersBody = MembersBody(groupId: Option<Id>, userIds: Option<seq<Id>>, action: Option<string>)

  /** The action, `set` when the body carries none. */
  function ActionOf(body: MembersBody): string {
    if body.action.Some? then body.action.value else "set"
  }

  /** The POST body names a group and a user list. A body that does not
      decode, or decodes to an empty array, is None. */
  predicate WellFormedBody(body: Option<MembersBody>) {
    body.Some? && body.value.groupId.Some? && body.value.userIds.Some?
  }

  /** Where a statement of the handler throws, if anywhere.
      - `LookupFails`: a SELECT before the transaction (the group lookup of
        either verb, or the GET member listing).
      - `BeforeLoopFails`: a statement inside the transaction before the
        loop over `user_ids` (the `set` DELETE or the schema queries).
      - `IterationFails(k)`: the statement of iteration `k` of that loop. */
  datatype MembersFault = NoFault | LookupFails | BeforeLoopFails | IterationFails(k: nat)

  /** The handler. `query` is the GET `group_id` parameter. The access
      check and rate limit the handler calls are not part of this model and
      are taken to pass. */
  method ManageMembers(db: Database, requester: Id, verb: HttpMethod, query: Option<string>,
                       body: Option<MembersBody>, fault: MembersFault) returns (status: int)
    modifies db`userGroups
    ensures verb == Get ==> db.userGroups == old(db.userGroups)
    ensures verb == Get ==> status == if PhpEmptyField(query) then StatusBadRequest
                                      else if fault == LookupFails then StatusServerError
                                      else if query.value !in db.groups then StatusNotFound
                                      else StatusOk
    ensures verb != Get && verb != Post ==> status == StatusOk && db.userGroups == old(db.userGroups)
    ensures verb == Post && !WellFormedBody(body) ==> status == StatusBadRequest && db.userGroups == old(db.userGroups)
    ensures verb == Post && WellFormedBody(body) && fault == LookupFails ==>
              status == StatusServerError && db.userGroups == old(db.userGroups)
    ensures verb == Post && WellFormedBody(body) && fault != LookupFails && body.value.groupId.value !in db.groups ==>
              status == StatusNotFound && db.userGroups == old(db.userGroups)
    ensures verb == Post && WellFormedBody(body) && fault != LookupFails && body.value.groupId.value in db.groups ==>
              if FaultReached(body.value.userIds.value, ActionOf(body.value), fault)
              then status == StatusServerError && db.userGroups == old(db.userGroups)
              else status == StatusOk
                   && db.userGroups == Apply(old(db.userGroups), body.value.groupId.value, body.value.userIds.value,
                                             ActionOf(body.value), requester)
  {
    if verb == Get {
      if PhpEmptyField(query) {
        return StatusBadRequest;
      }
      if fault == LookupFails {
        return StatusServerError;
      }
      return if query.value !in db.groups then StatusNotFound else StatusOk;
    }
    if verb != Post {
      return StatusOk;
    }
    if !WellFormedBody(body) {
      return StatusBadRequest;
    }
    var g := body.value.groupId.value;
    var users := body.value.userIds.value;
    var action := ActionOf(body.value);
    if fault == LookupFails {
      return StatusServerError;
    }
    if g !in db.groups {
      return StatusNotFound;
    }
    // The transaction works on a copy that is written back on commit.
    var committed, rows := MembersTransaction(db.userGroups, g, users, action, requester, fault);
    if !committed {
      return StatusServerError;
    }
    db.userGroups := rows;
    status := StatusOk;
  }

  /** Whether the transaction meets the throw `fault` names: any action
      reaches the statements before the loop, and only the three known
      actions loop over `user_ids`. */
  predicate FaultReached(users: seq<Id>, action: string, fault: MembersFault) {
    || fault == BeforeLoopFails
    || (fault.IterationFails? && fault.k < |users| && action in {"set", "add", "remove"})
  }

  /** The statements between `beginTransaction` and `commit`, on a copy of
      the table. A throw anywhere in them rolls the whole transaction back;
      otherwise the copy is the action applied to the table. */
  method MembersTransaction(table: seq<Membership>, g: Id, users: seq<Id>, action: string, adder: Id,
                            fault: MembersFault) returns (committed: bool, rows: seq<Membership>)
    requires fault != LookupFails
    ensures committed <==> !FaultReached(users, action, fault)
    ensures committed ==> rows == Apply(table, g, users, action, adder)
  {
    rows := table;
    if fault == BeforeLoopFails {
      return false, rows;
    }
    var step := if fault.IterationFails? then Some(fault.k) else None;
    if action == "set" || action == "add" {
      committed, rows := InsertMembers(table, g, users, action == "set", adder, step);
    } else if action == "remove" {
      committed, rows := RemoveMembers(table, g, users, step);
    } else {
      committed := true;
    }
  }

  /** What the insert loop leaves once it has handled `users`: `set` or `add`. */
  function Inserted(table: seq<Membership>, g: Id, users: seq<Id>, replace: bool, adder: Id): seq<Membership> {
    if replace then SetMembers(table, g, users, adder) else AddMissing(table, g, users, adder)
  }

  /** One more user handled by the insert loop. */
  lemma InsertedStep(table: seq<Membership>, g: Id, users: seq<Id>, replace: bool, adder: Id, k: nat)
    requires k < |users|
    ensures var prev := Inserted(table, g, users[..k], replace, adder);
            Inserted(table, g, users[..k + 1], replace, adder)
              == if !replace && InGroup(prev, g, users[k]) then prev else prev + [Membership(g, users[k], adder)]
  {
    assert users[..k + 1][..k] == users[..k];
    if replace {
      NewRowsPrefix(g, users, adder, k);
    }
  }

  /** `set` (after deleting the group's rows) and `add`: one INSERT per
      listed user, skipped under `add` when the user is already a member. */
  method InsertMembers(table: seq<Membership>, g: Id, users: seq<Id>, replace: bool, adder: Id,
                       fault: Option<nat>) returns (committed: bool, rows: seq<Membership>)
    ensures committed <==> !(fault.Some? && fault.value < |users|)
    ensures committed ==> rows == Inserted(table, g, users, replace, adder)
  {
    rows := if replace then WithoutGroup(table, g) else table;
    assert users[..0] == [];
    var i := 0;
    while i < |users|
      invariant 0 <= i <= |users|
      invariant rows == Inserted(table, g, users[..i], replace, adder)
      invariant fault.Some? ==> i <= fault.value
    {
      if fault == Some(i) {
        return false, rows;
      }
      InsertedStep(table, g, users, replace, adder, i);
      if !(!replace && InGroup(rows, g, users[i])) {
        rows := rows + [Membership(g, users[i], adder)];
      }
      i := i + 1;
    }
    assert users[..i] == users;
    committed := true;
  }

  /** `remove`: one DELETE per listed user. */
  method RemoveMembers(table: seq<Membership>, g: Id, users: seq<Id>, fault: Option<nat>)
    returns (committed: bool, rows: seq<Membership>)
    ensures committed <==> !(fault.Some? && fault.value < |users|)
    ensures committed ==> rows == WithoutAny(table, g, users)
  {
    rows := table;
    WithoutNone(table, g);
    var i := 0;
    while i < |users|
      invariant 0 <= i <= |users|
      invariant rows == WithoutAny(table, g, users[..i])
      invariant forall k :: 0 <= k < i ==> fault != Some(k)
    {
      if fault == Some(i) {
        return false, rows;
      }
      WithoutAnyStep(table, g, users[..i], users[i]);
      assert users[..i + 1] == users[..i] + [users[i]];
      rows := WithoutAny(rows, g, [users[i]]);
      i := i + 1;
    }
    assert users[..i] == users;
    committed := true;
  }

  // ---------------------------------------------------------------------------
  // generateUUID (section 4.4 of RFC 4122)

  /** `%04x` of a value below 0x10000: four lower-case digits, most
      significant first. */
  function Hex4(n: nat): (s: string)
    requires n < 0x1_0000
    ensures |s| == 4 && forall i :: 0 <= i < 4 ==> s[i] in HexDigits
    ensures s[0] == HexDigit(n / 0x1000)
  {
    var low := n % 0x1000;
    [HexDigit(n / 0x1000), HexDigit(low / 0x100), HexDigit(low % 0x100 / 16), HexDigit(low % 16)]
  }

  /** The value of four hexadecimal digits. */
  function ParseHex4(s: string): nat
    requires |s| == 4
  {
    HexValue(s[0]) * 0x1000 + HexValue(s[1]) * 0x100 + HexValue(s[2]) * 16 + HexValue(s[3])
  }

  /** Printing a value below 0x10000 and reading it back gives the value. */
  lemma Hex4RoundTrip(n: nat)
    requires n < 0x1_0000
    ensures ParseHex4(Hex4(n)) == n
  {
    var low := n % 0x1000;
    assert n == (n / 0x1000) * 0x1000 + low;
    assert low == (low / 0x100) * 0x100 + low % 0x100;
    assert low % 0x100 == (low % 0x100 / 16) * 16 + low % 16;
    HexDigitRoundTrip(n / 0x1000);
    HexDigitRoundTrip(low / 0x100);
    HexDigitRoundTrip(low % 0x100 / 16);
    HexDigitRoundTrip(low % 16);
  }

  /** The eight `mt_rand` draws, each within the range the call asks for. */
  predicate DrawsInRange(r: seq<nat>) {
    && |r| == 8
    && r[0] <= 0xffff && r[1] <= 0xffff && r[2] <= 0xffff
    && r[3] <= 0x0fff && r[4] <= 0x3fff
    && r[5] <= 0xffff && r[6] <= 0xffff && r[7] <= 0xffff
  }

  /** PHP's `|` on non-negative integers, bit by bit from the lowest. */
  function BitOr(a: nat, b: nat): nat
    decreases a + b
  {
    if a == 0 then b
    else if b == 0 then a
    else 2 * BitOr(a / 2, b / 2) + (if a % 2 == 1 || b % 2 == 1 then 1 else 0)
  }

  function Pow2(k: nat): (p: nat)
    ensures p >= 1
  {
    if k == 0 then 1 else 2 * Pow2(k - 1)
  }

  /** OR-ing in a multiple of 2^k to a value below 2^k adds it: the two have
      no set bit in common. */
  lemma {:induction false} BitOrDisjoint(a: nat, m: nat, k: nat)
    requires a < Pow2(k)
    ensures BitOr(a, m * Pow2(k)) == a + m * Pow2(k)
    decreases k
  {
    if a != 0 && m != 0 {
      assert k > 0;
      var t := m * Pow2(k - 1);
      assert m * Pow2(k) == 2 * t;
      assert t > 0;
      BitOrDisjoint(a / 2, m, k - 1);
      assert BitOr(a, 2 * t) == 2 * BitOr(a / 2, t) + a % 2;
    }
  }

  /** The version and variant masks add to the draws they are OR-ed with. */
  lemma MaskedDraws(r: seq<nat>)
    requires DrawsInRange(r)
    ensures BitOr(r[3], 0x4000) == r[3] + 0x4000
    ensures BitOr(r[4], 0x8000) == r[4] + 0x8000
  {
    assert Pow2(12) == 0x1000 && Pow2(14) == 0x4000;
    BitOrDisjoint(r[3], 4, 12);
    BitOrDisjoint(r[4], 2, 14);
  }

  /** The format string `%04x%04x-%04x-%04x-%04x-%04x%04x%04x` filled with
      eight groups of digits. */
  function UuidText(g0: string, g1: string, g2: string, g3: string,
                    g4: string, g5: string, g6: string, g7: string): string {
    g0 + g1 + "-" + g2 + "-" + g3 + "-" + g4 + "-" + g5 + g6 + g7
  }

  /** Where each group of four characters lands in the text. */
  lemma UuidTextLayout(g0: string, g1: string, g2: string, g3: string,
                       g4: string, g5: string, g6: string, g7: string)
    requires |g0| == 4 && |g1| == 4 && |g2| == 4 && |g3| == 4
    requires |g4| == 4 && |g5| == 4 && |g6| == 4 && |g7| == 4
    ensures var s := UuidText(g0, g1, g2, g3, g4, g5, g6, g7);
            && |s| == 36
            && s[8] == '-' && s[13] == '-' && s[18] == '-' && s[23] == '-'
            && s[0..4] == g0 && s[4..8] == g1 && s[9..13] == g2 && s[14..18] == g3
            && s[19..23] == g4 && s[24..28] == g5 && s[28..32] == g6 && s[32..36] == g7
  {
    var p8 := g0 + g1;
    var p13 := p8 + "-" + g2;
    var p18 := p13 + "-" + g3;
    var p23 := p18 + "-" + g4;
    var p28 := p23 + "-" + g5;
    var p32 := p28 + g6;
    var s := p32 + g7;
    assert s == UuidText(g0, g1, g2, g3, g4, g5, g6, g7);
    assert s[..32] == p32 && s[32..36] == g7;
    assert s[..28] == p28 && s[28..32] == g6;
    assert s[..23] == p23 && s[23] == '-' && s[24..28] == g5;
    assert s[..18] == p18 && s[18] == '-' && s[19..23] == g4;
    assert s[..13] == p13 && s[13] == '-' && s[14..18] == g3;
    assert s[..8] == p8 && s[8] == '-' && s[9..13] == g2;
    assert s[0..4] == g0 && s[4..8] == g1;
  }

  /** generateUUID: the eight draws formatted, with the version bits
      (`| 0x4000`) and variant bits (`| 0x8000`) set. */
  function GenerateUuid(r: seq<nat>): (s: string)
    requires DrawsInRange(r)
    ensures |s| == 36
  {
    MaskedDraws(r);
    UuidText(Hex4(r[0]), Hex4(r[1]), Hex4(r[2]), Hex4(BitOr(r[3], 0x4000)),
             Hex4(BitOr(r[4], 0x8000)), Hex4(r[5]), Hex4(r[6]), Hex4(r[7]))
  }

  /** Where each group of four digits lands in the UUID. */
  lemma UuidGroups(r: seq<nat>)
    requires DrawsInRange(r)
    ensures var s := GenerateUuid(r);
            && |s| == 36
            && s[8] == '-' && s[13] == '-' && s[18] == '-' && s[23] == '-'
            && s[0..4] == Hex4(r[0]) && s[4..8] == Hex4(r[1]) && s[9..13] == Hex4(r[2])
            && s[14..18] == Hex4(r[3] + 0x4000) && s[19..23] == Hex4(r[4] + 0x8000)
            && s[24..28] == Hex4(r[5]) && s[28..32] == Hex4(r[6]) && s[32..36] == Hex4(r[7])
  {
    MaskedDraws(r);
    UuidTextLayout(Hex4(r[0]), Hex4(r[1]), Hex4(r[2]), Hex4(r[3] + 0x4000),
                   Hex4(r[4] + 0x8000), Hex4(r[5]), Hex4(r[6]), Hex4(r[7]));
  }

  lemma UuidTextDigits(g0: string, g1: string, g2: string, g3: string,
                       g4: string, g5: string, g6: string, g7: string)
    requires |g0| == 4 && |g1| == 4 && |g2| == 4 && |g3| == 4
    requires |g4| == 4 && |g5| == 4 && |g6| == 4 && |g7| == 4
    requires AllHex(g0) && AllHex(g1) && AllHex(g2) && AllHex(g3)
    requires AllHex(g4) && AllHex(g5) && AllHex(g6) && AllHex(g7)
    ensures var s := UuidText(g0, g1, g2, g3, g4, g5, g6, g7);
            |s| == 36 && forall i :: 0 <= i < 36 && i != 8 && i != 13 && i != 18 && i != 23 ==> s[i] in HexDigits
  {
    UuidTextLayout(g0, g1, g2, g3, g4, g5, g6, g7);
    var s := UuidText(g0, g1, g2, g3, g4, g5, g6, g7);
    forall i | 0 <= i < 36 && i != 8 && i != 13 && i != 18 && i != 23 ensures s[i] in HexDigits {
      if i < 4 { assert s[i] == s[0..4][i]; }
      else if i < 8 { assert s[i] == s[4..8][i - 4]; }
      else if i < 13 { assert s[i] == s[9..13][i - 9]; }
      else if i < 18 { assert s[i] == s[14..18][i - 14]; }
      else if i < 23 { assert s[i] == s[19..23][i - 19]; }
      else if i < 28 { assert s[i] == s[24..28][i - 24]; }
      else if i < 32 { assert s[i] == s[28..32][i - 28]; }
      else { assert s[i] == s[32..36][i - 32]; }
    }
  }

  /** Every character outside the four hyphens is a lower-case hex digit. */
  lemma UuidDigits(r: seq<nat>)
    requires DrawsInRange(r)
    ensures var s := GenerateUuid(r);
            |s| == 36 && forall i :: 0 <= i < 36 && i != 8 && i != 13 && i != 18 && i != 23 ==> s[i] in HexDigits
  {
    MaskedDraws(r);
    UuidTextDigits(Hex4(r[0]), Hex4(r[1]), Hex4(r[2]), Hex4(r[3] + 0x4000),
                   Hex4(r[4] + 0x8000), Hex4(r[5]), Hex4(r[6]), Hex4(r[7]));
  }

  /** The version digit is `4` and the variant digit one of `8`, `9`, `a`,
      `b`, as section 4.4 of RFC 4122 prescribes for random UUIDs. */
  lemma UuidVersionAndVariant(r: seq<nat>)
    requires DrawsInRange(r)
    ensures var s := GenerateUuid(r);
            |s| == 36 && s[14] == '4' && s[19] in "89ab"
  {
    UuidGroups(r);
    VersionDigit(r[3]);
    VariantDigit(r[4]);
    var s := GenerateUuid(r);
    assert s[14] == s[14..18][0];
    assert s[19] == s[19..23][0];
  }

  /** A twelve-bit draw with `0x4000` added prints `4` first. */
  lemma VersionDigit(x: nat)
    requires x <= 0x0fff
    ensures Hex4(x + 0x4000)[0] == '4'
  {
    assert (x + 0x4000) / 0x1000 == 4;
    assert HexDigit(4) == HexDigits[4];
  }

  /** A fourteen-bit draw with `0x8000` added prints `8`, `9`, `a` or `b` first. */
  lemma VariantDigit(x: nat)
    requires x <= 0x3fff
    ensures Hex4(x + 0x8000)[0] in "89ab"
  {
    var v := (x + 0x8000) / 0x1000;
    assert 8 <= v <= 11;
    assert HexDigit(v) == HexDigits[v];
  }

  /** Reads the eight four-digit groups of a 36-character UUID back as numbers. */
  function UuidFields(s: string): seq<nat>
    requires |s| == 36
  {
    [ParseHex4(s[0..4]), ParseHex4(s[4..8]), ParseHex4(s[9..13]), ParseHex4(s[14..18]),
     ParseHex4(s[19..23]), ParseHex4(s[24..28]), ParseHex4(s[28..32]), ParseHex4(s[32..36])]
  }

  /** Each draw can be read back from its group of digits, the version and
      variant bits added. */
  lemma UuidDraws(r: seq<nat>)
    requires DrawsInRange(r)
    ensures UuidFields(GenerateUuid(r)) == [r[0], r[1], r[2], r[3] + 0x4000, r[4] + 0x8000, r[5], r[6], r[7]]
  {
    UuidGroups(r);
    Hex4RoundTrip(r[0]);
    Hex4RoundTrip(r[1]);
    Hex4RoundTrip(r[2]);
    Hex4RoundTrip(r[3] + 0x4000);
    Hex4RoundTrip(r[4] + 0x8000);
    Hex4RoundTrip(r[5]);
    Hex4RoundTrip(r[6]);
    Hex4RoundTrip(r[7]);
  }
}
