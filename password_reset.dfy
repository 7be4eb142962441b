/** The password-reset token lifecycle (api/auth/forgot-password.php and
    api/auth/reset-password.php). Per user it is a two-state machine: no
    token, or a token with an expiry. Issuing stores a fresh token valid for
    an hour on every account with the email; using it replaces the password
    hash and clears both fields, so a token works once. */
module PasswordReset {
  import opened Common
  import opened Tables

  /** A byte, as `random_bytes` returns them. */
  type Byte = b: int | 0 <= b < 256

  /** Seconds a token stays valid: `time() + 3600`. */
  const TokenLifetime: int := 3600

  // ---------------------------------------------------------------------------
  // bin2hex

  /** `bin2hex`: two lower-case digits per byte, high nibble first. */
  function Bin2Hex(bytes: seq<Byte>): (s: string)
    ensures |s| == 2 * |bytes|
    ensures AllHex(s)
  {
    if bytes == [] then []
    else [HexDigit(bytes[0] / 16), HexDigit(bytes[0] % 16)] + Bin2Hex(bytes[1..])
  }

  /** The byte two hexadecimal digits spell, high nibble first. */
  function PairValue(hi: char, lo: char): Byte {
    HexValue(hi) * 16 + HexValue(lo)
  }

  /** `hex2bin` on an even-length string of digits. */
  function Hex2Bin(s: string): (bytes: seq<Byte>)
    requires |s| % 2 == 0
    ensures |bytes| == |s| / 2
  {
    if s == [] then [] else [PairValue(s[0], s[1])] + Hex2Bin(s[2..])
  }

  /** One byte printed and read back. */
  lemma ByteRoundTrip(b: Byte)
    ensures PairValue(HexDigit(b / 16), HexDigit(b % 16)) == b
  {
    HexDigitRoundTrip(b / 16);
    HexDigitRoundTrip(b % 16);
  }

  /** The printed token determines the bytes drawn. */
  lemma Hex2BinCons(x: char, y: char, rest: string)
    requires |rest| % 2 == 0
    ensures Hex2Bin([x, y] + rest) == [PairValue(x, y)] + Hex2Bin(rest)
  {
    var s := [x, y] + rest;
    assert s != [] && s[0] == x && s[1] == y && s[2..] == rest;
  }

  lemma {:induction false} Bin2HexRoundTrip(bytes: seq<Byte>)
    ensures Hex2Bin(Bin2Hex(bytes)) == bytes
  {
    if bytes != [] {
      var b := bytes[0];
      var rest := Bin2Hex(bytes[1..]);
      assert Bin2Hex(bytes) == [HexDigit(b / 16), HexDigit(b % 16)] + rest;
      Hex2BinCons(HexDigit(b / 16), HexDigit(b % 16), rest);
      ByteRoundTrip(b);
      Bin2HexRoundTrip(bytes[1..]);
      assert bytes == [b] + bytes[1..];
    }
  }

  /** A token drawn from 32 bytes is 64 hexadecimal characters. */
  lemma TokenShape(bytes: seq<Byte>)
    requires |bytes| == 32
    ensures |Bin2Hex(bytes)| == 64 && AllHex(Bin2Hex(bytes))
  {
  }

  // ---------------------------------------------------------------------------
  // The `users` table operations

  /** `SELECT id FROM users WHERE email = :email` finds a row. */
  predicate HasEmail(users: seq<User>, email: string) {
    exists i :: 0 <= i < |users| && users[i].email == email
  }

  /** `UPDATE users SET reset_token = …, reset_token_expires = … WHERE email = …`. */
  function IssueTo(users: seq<User>, email: string, token: string, expires: int): (r: seq<User>)
    ensures |r| == |users|
    ensures forall i :: 0 <= i < |users| && users[i].email == email ==>
              r[i] == users[i].(resetToken := Some(token), resetTokenExpires := Some(expires))
    ensures forall i :: 0 <= i < |users| && users[i].email != email ==> r[i] == users[i]
  {
    if users == [] then []
    else
      var u := users[0];
      var u' := if u.email == email then u.(resetToken := Some(token), resetTokenExpires := Some(expires)) else u;
      [u'] + IssueTo(users[1..], email, token, expires)
  }

  /** `SELECT … FROM users WHERE reset_token = :token`, first row. */
  function FindByToken(users: seq<User>, token: string): (k: Option<nat>)
    ensures k.Some? ==> k.value < |users| && users[k.value].resetToken == Some(token)
                        && forall j :: 0 <= j < k.value ==> users[j].resetToken != Some(token)
    ensures k.None? ==> forall j :: 0 <= j < |users| ==> users[j].resetToken != Some(token)
  {
    if users == [] then None
    else if users[0].resetToken == Some(token) then Some(0)
    else match FindByToken(users[1..], token)
      case None => None
      case Some(k) => Some(k + 1)
  }

  /** `strtotime($expires) < time()`. A NULL expiry reads as `false`, which
      compares as 0, so it counts as expired. */
  predicate Expired(expires: Option<int>, now: int) {
    expires.None? || expires.value < now
  }

  /** What a presented token amounts to. */
  datatype TokenCheck = Unknown | Stale | Usable(index: nat)

  function CheckToken(users: seq<User>, token: string, now: int): (c: TokenCheck)
    ensures c.Usable? <==> exists i :: 0 <= i < |users| && users[i].resetToken == Some(token)
                                     && FindByToken(users, token) == Some(i)
                                     && !Expired(users[i].resetTokenExpires, now)
    ensures c.Usable? ==> c.index < |users| && users[c.index].resetToken == Some(token)
    ensures c.Unknown? <==> forall j :: 0 <= j < |users| ==> users[j].resetToken != Some(token)
  {
    match FindByToken(users, token)
      case None => Unknown
      case Some(k) => if Expired(users[k].resetTokenExpires, now) then Stale else Usable(k)
  }

  /** `UPDATE users SET password_hash = …, reset_token = NULL,
      reset_token_expires = NULL WHERE id = :id`. */
  function Consume(users: seq<User>, id: Id, newHash: string): (r: seq<User>)
    ensures |r| == |users|
    ensures forall i :: 0 <= i < |users| && users[i].id == id ==>
              r[i] == users[i].(passwordHash := newHash, resetToken := None, resetTokenExpires := None)
    ensures forall i :: 0 <= i < |users| && users[i].id != id ==> r[i] == users[i]
  {
    if users == [] then []
    else
      var u := users[0];
      var u' := if u.id == id then u.(passwordHash := newHash, resetToken := None, resetTokenExpires := None) else u;
      [u'] + Consume(users[1..], id, newHash)
  }

  // ---------------------------------------------------------------------------
  // Lifecycle properties

  /** A freshly issued token, held by no account before, is accepted exactly
      up to and including its expiry second, and it opens an account with
      the email it was sent to. */
  lemma IssuedTokenAcceptedUntilExpiry(users: seq<User>, email: string, token: string, issuedAt: int, now: int)
    requires HasEmail(users, email)
    requires forall j :: 0 <= j < |users| ==> users[j].resetToken != Some(token)
    ensures var c := CheckToken(IssueTo(users, email, token, issuedAt + TokenLifetime), token, now);
            && (c.Usable? <==> now <= issuedAt + TokenLifetime)
            && !c.Unknown?
            && (c.Usable? ==> users[c.index].email == email)
  {
    var r := IssueTo(users, email, token, issuedAt + TokenLifetime);
    var i :| 0 <= i < |users| && users[i].email == email;
    assert r[i].resetToken == Some(token);
    var k := FindByToken(r, token);
    assert k.Some?;
    var n := k.value;
    assert users[n].email == email;
    assert r[n].resetTokenExpires == Some(issuedAt + TokenLifetime);
    assert CheckToken(r, token, now) == if now <= issuedAt + TokenLifetime then Usable(n) else Stale;
  }

  /** Using a token clears it on the account it opened: when no other
      account holds the same token, presenting it again is refused as
      unknown, whatever the clock says. */
  lemma TokenSingleUse(users: seq<User>, token: string, newHash: string, now: int, later: int)
    requires CheckToken(users, token, now).Usable?
    requires forall i, j :: (0 <= i < |users| && 0 <= j < |users| && users[i].resetToken == Some(token)
                             && users[j].resetToken == Some(token)) ==> i == j
    ensures CheckToken(Consume(users, users[CheckToken(users, token, now).index].id, newHash), token, later).Unknown?
  {
    var k := CheckToken(users, token, now).index;
    var r := Consume(users, users[k].id, newHash);
    forall j | 0 <= j < |r| ensures r[j].resetToken != Some(token) {
      if users[j].id != users[k].id {
        assert j != k;
      }
    }
  }

  /** Issuing to an unknown email changes no account. */
  lemma IssueToUnknownEmail(users: seq<User>, email: string, token: string, expires: int)
    requires !HasEmail(users, email)
    ensures IssueTo(users, email, token, expires) == users
  {
    var r := IssueTo(users, email, token, expires);
    assert forall i :: 0 <= i < |users| ==> r[i] == users[i];
  }

  // ---------------------------------------------------------------------------
  // The handlers

  /** The response: status and what the body carries. */
  datatype Body = Message(text: string) | Error(text: string) | ExpiredPage | ResetForm(token: string)

  datatype Response = Response(status: int, body: Body)

  /** The one message forgot-password answers with, found or not. */
  const ResetNotice: string := "Se o email existir, um link de recuperação foi enviado"
  const ResetDone: string := "Senha atualizada com sucesso"
  const InvalidToken: string := "Token inválido"
  const ExpiredToken: string := "Token expirado"
  const MissingEmail: string := "Email é obrigatório"
  const MissingFields: string := "Token e nova senha são obrigatórios"
  const NotAllowed: string := "Método não permitido"
  const InternalError: string := "Erro interno do servidor"

  /** Where forgot-password's database work throws, if it does. */
  datatype ForgotFault = NoFault | LookupFails | UpdateFails | NameLookupFails

  /** forgot-password. `email` is the decoded `email` field (None when
      absent or null), `tokenBytes` the 32 bytes `random_bytes` returns and
      `now` the clock. Sending the email is not part of this model. */
  method ForgotPassword(db: Database, verb: HttpMethod, email: Option<string>, tokenBytes: seq<Byte>,
                        now: int, fault: ForgotFault) returns (r: Response)
    requires |tokenBytes| == 32
    modifies db`users
    ensures verb != Post ==> r == Response(StatusMethodNotAllowed, Error(NotAllowed)) && db.users == old(db.users)
    ensures verb == Post && (email.None? || PhpEmpty(Trim(email.value, PhpSpace))) ==>
              r == Response(StatusBadRequest, Error(MissingEmail)) && db.users == old(db.users)
    ensures verb == Post && email.Some? && !PhpEmpty(Trim(email.value, PhpSpace)) ==>
              var e := Trim(email.value, PhpSpace);
              && (fault == LookupFails || (HasEmail(old(db.users), e) && fault == UpdateFails) ==>
                    r.status == StatusServerError && db.users == old(db.users))
              && (!HasEmail(old(db.users), e) && fault != LookupFails ==>
                    r == Response(StatusOk, Message(ResetNotice)) && db.users == old(db.users))
              && (HasEmail(old(db.users), e) && fault in {NoFault, NameLookupFails} ==>
                    && db.users == IssueTo(old(db.users), e, Bin2Hex(tokenBytes), now + TokenLifetime)
                    && r == if fault == NoFault then Response(StatusOk, Message(ResetNotice))
                            else Response(StatusServerError, Error(InternalError)))
  {
    if verb != Post {
      return Response(StatusMethodNotAllowed, Error(NotAllowed));
    }
    if email.None? || PhpEmpty(Trim(email.value, PhpSpace)) {
      return Response(StatusBadRequest, Error(MissingEmail));
    }
    var e := Trim(email.value, PhpSpace);
    if fault == LookupFails {
      return Response(StatusServerError, Error(InternalError));
    }
    if !HasEmail(db.users, e) {
      return Response(StatusOk, Message(ResetNotice));
    }
    if fault == UpdateFails {
      return Response(StatusServerError, Error(InternalError));
    }
    var token := Bin2Hex(tokenBytes);
    db.users := IssueTo(db.users, e, token, now + TokenLifetime);
    if fault == NameLookupFails {
      return Response(StatusServerError, Error(InternalError));
    }
    r := Response(StatusOk, Message(ResetNotice));
  }

  /** reset-password. On POST `token` and `password` are the decoded body
      fields; on GET `token` is the query parameter. `newHash` stands for
      `password_hash` of the trimmed password, and `fault` for a database
      statement that throws. */
  method ResetPassword(db: Database, verb: HttpMethod, token: Option<string>, password: Option<string>,
                       newHash: string, now: int, fault: bool) returns (r: Response)
    modifies db`users
    ensures verb != Post ==> db.users == old(db.users)
    ensures verb != Post && verb != Get ==> r == Response(StatusMethodNotAllowed, Error(NotAllowed))
    ensures verb == Post && (token.None? || password.None? || PhpEmpty(Trim(token.value, PhpSpace))
                             || PhpEmpty(Trim(password.value, PhpSpace))) ==>
              r == Response(StatusBadRequest, Error(MissingFields)) && db.users == old(db.users)
    ensures verb == Post && token.Some? && password.Some? && !PhpEmpty(Trim(token.value, PhpSpace))
            && !PhpEmpty(Trim(password.value, PhpSpace)) ==>
              var c := CheckToken(old(db.users), Trim(token.value, PhpSpace), now);
              if fault then r.status == StatusServerError && db.users == old(db.users)
              else match c
                case Unknown => r == Response(StatusBadRequest, Error(InvalidToken)) && db.users == old(db.users)
                case Stale => r == Response(StatusBadRequest, Error(ExpiredToken)) && db.users == old(db.users)
                case Usable(k) => r == Response(StatusOk, Message(ResetDone))
                                  && db.users == Consume(old(db.users), old(db.users)[k].id, newHash)
    ensures verb == Get ==>
              var t := if token.Some? then token.value else "";
              r == if PhpEmpty(t) then Response(StatusBadRequest, Error(InvalidToken))
                   else if fault then Response(StatusServerError, Error(InternalError))
                   else if CheckToken(db.users, t, now).Usable? then Response(StatusOk, ResetForm(t))
                   else Response(StatusOk, ExpiredPage)
  {
    if verb == Get {
      var t := if token.Some? then token.value else "";
      if PhpEmpty(t) {
        return Response(StatusBadRequest, Error(InvalidToken));
      }
      if fault {
        return Response(StatusServerError, Error(InternalError));
      }
      return if CheckToken(db.users, t, now).Usable? then Response(StatusOk, ResetForm(t)) else Response(StatusOk, ExpiredPage);
    }
    if verb != Post {
      return Response(StatusMethodNotAllowed, Error(NotAllowed));
    }
    if token.None? || password.None? || PhpEmpty(Trim(token.value, PhpSpace)) || PhpEmpty(Trim(password.value, PhpSpace)) {
      return Response(StatusBadRequest, Error(MissingFields));
    }
    if fault {
      return Response(StatusServerError, Error(InternalError));
    }
    var t := Trim(token.value, PhpSpace);
    match CheckToken(db.users, t, now)
    case Unknown =>
      return Response(StatusBadRequest, Error(InvalidToken));
    case Stale =>
      return Response(StatusBadRequest, Error(ExpiredToken));
    case Usable(k) =>
      db.users := Consume(db.users, db.users[k].id, newHash);
      return Response(StatusOk, Message(ResetDone));
  }
}
