/**
 * The request handlers `create_user`, `login` and `logout`: a state machine over
 * the `users` and `tokens` tables.
 *
 * Every body below opens with a `hide` of the codec and digest definitions
 * (`Jwt.Mint`, `Jwt.Decode`, `Jwt.Claims`, `Bcrypt.Hash`, `Bcrypt.Verify`), and
 * the methods also hide the invariant's parts. No proof here needs to unfold
 * the codec or the digest: the handlers reason only through the contracts of
 * those functions and the lemmas of `Jwt` and `Bcrypt`. Hiding the bodies
 * keeps each verification condition small and cheap.
 */
module Apis {
  import opened Wrappers
  import Bcrypt
  import Jwt
  import opened Models

  /** Why a request is rejected; `Fields` gives the field names the response reports. */
  datatype Error = UsernameTaken | EmailTaken | UnknownUsername | Inactive | WrongPassword | TokenNotFound
  {
    function Fields(): seq<string> {
      match this
      case UsernameTaken => ["username"]
      case EmailTaken => ["email"]
      case UnknownUsername => ["username"]
      case Inactive => ["tatus"]  // sic: the response names the status field this way
      case WrongPassword => ["password"]
      case TokenNotFound => ["id_user", "token"]
    }
  }

  /** A successful login's response: the token and its remaining uses. */
  datatype Granted = Granted(token: string, uses: int)

  /** Whom a stored token was minted for and when: the arguments of its `create_token` call. */
  datatype Issue = Issue(userId: nat, username: string, at: nat)

  /** Some record in `tokens` belongs to user `id`. */
  ghost predicate HasRecord(tokens: map<string, TokenRow>, id: int) {
    exists t :: t in tokens && tokens[t].idUser == id
  }

  ghost predicate EmailInUse(users: map<string, UserRow>, email: string) {
    exists n :: n in users && users[n].email == email
  }

  /** Some stored user has id `id`. */
  ghost predicate IsUserId(users: map<string, UserRow>, id: int) {
    exists n :: n in users && users[n].idUser == id
  }

  /**
   * Every stored token is the token minted, under `key`, for its issue record,
   * and that record names the stored record's user.
   */
  ghost predicate Issued(key: string, tokens: map<string, TokenRow>, issues: map<string, Issue>) {
    && tokens.Keys == issues.Keys
    && forall t :: t in tokens ==>
         && t == Jwt.Mint(key, issues[t].userId, issues[t].username, issues[t].at)
         && issues[t].userId == tokens[t].idUser
  }

  /** No user has two records. */
  ghost predicate OnePerUser(tokens: map<string, TokenRow>) {
    forall t, s :: t in tokens && s in tokens && t != s ==> tokens[t].idUser != tokens[s].idUser
  }

  /** User ids are below the next id the database assigns; ids and emails are distinct. */
  ghost predicate UsersInv(users: map<string, UserRow>, nextId: nat) {
    && (forall n :: n in users ==> users[n].idUser < nextId)
    && (forall n, m :: n in users && m in users && n != m ==>
          users[n].idUser != users[m].idUser && users[n].email != users[m].email)
  }

  /** Every record has between 0 and 50 uses and belongs to a stored user. */
  ghost predicate RecordsInv(users: map<string, UserRow>, tokens: map<string, TokenRow>) {
    forall t :: t in tokens ==> 0 <= tokens[t].uses <= DefaultUses && IsUserId(users, tokens[t].idUser)
  }

  /**
   * The tables' invariant: the users table is consistent, every record is in
   * range and belongs to a stored user, every stored token was minted for its
   * record's user, and no user has two records.
   */
  ghost predicate Inv(key: string, users: map<string, UserRow>, tokens: map<string, TokenRow>,
                      issues: map<string, Issue>, nextId: nat)
  {
    && UsersInv(users, nextId)
    && RecordsInv(users, tokens)
    && Issued(key, tokens, issues)
    && OnePerUser(tokens)
  }

  /**
   * A freshly minted token can coincide only with a stored token of the same
   * user: the issue records name the user, and minting is injective.
   */
  lemma MintedClashesOnlyWithOwn(key: string, tokens: map<string, TokenRow>, issues: map<string, Issue>,
                                 userId: nat, username: string, now: nat)
    requires Issued(key, tokens, issues)
    ensures var minted := Jwt.Mint(key, userId, username, now);
      minted in tokens ==> tokens[minted].idUser == userId && issues[minted] == Issue(userId, username, now)
  {
    hide Jwt.Mint, Jwt.Decode, Jwt.Claims, Bcrypt.Hash, Bcrypt.Verify;
    var minted := Jwt.Mint(key, userId, username, now);
    if minted in tokens {
      var i := issues[minted];
      Jwt.MintInjective(key, i.userId, i.username, i.at, userId, username, now);
    }
  }

  /** Deleting a record keeps the invariant, and its user is left without a record. */
  lemma DeleteKeepsInv(key: string, users: map<string, UserRow>, tokens: map<string, TokenRow>,
                       issues: map<string, Issue>, nextId: nat, t: string)
    requires Inv(key, users, tokens, issues, nextId)
    ensures Inv(key, users, tokens - {t}, issues - {t}, nextId)
    ensures t in tokens ==> !HasRecord(tokens - {t}, tokens[t].idUser)
  {
    hide Jwt.Mint, Jwt.Decode, Jwt.Claims, Bcrypt.Hash, Bcrypt.Verify, UsersInv, IsUserId;
    var tokens' := tokens - {t};
    assert tokens'.Keys == issues.Keys - {t};
    if t in tokens {
      forall s | s in tokens' ensures tokens'[s].idUser != tokens[t].idUser {
        assert s != t;
      }
    }
  }

  /**
   * Giving a stored user without a record a freshly minted token keeps the
   * invariant, and the token is held by no record.
   */
  lemma InsertKeepsInv(key: string, users: map<string, UserRow>, tokens: map<string, TokenRow>,
                       issues: map<string, Issue>, nextId: nat, id: nat, username: string, now: nat)
    requires Inv(key, users, tokens, issues, nextId)
    requires IsUserId(users, id) && !HasRecord(tokens, id)
    ensures var minted := Jwt.Mint(key, id, username, now);
      && minted !in tokens
      && Inv(key, users, tokens[minted := TokenRow(id, DefaultUses)], issues[minted := Issue(id, username, now)], nextId)
  {
    hide Jwt.Mint, Jwt.Decode, Jwt.Claims, Bcrypt.Hash, Bcrypt.Verify, UsersInv, IsUserId;
    MintedClashesOnlyWithOwn(key, tokens, issues, id, username, now);
    var minted := Jwt.Mint(key, id, username, now);
    var tokens' := tokens[minted := TokenRow(id, DefaultUses)];
    var issues' := issues[minted := Issue(id, username, now)];
    forall s | s in tokens' ensures s == Jwt.Mint(key, issues'[s].userId, issues'[s].username, issues'[s].at) {
      if s != minted {
        assert s in tokens;
      }
    }
    forall s | s in tokens' && s != minted ensures tokens'[s].idUser != id {
      assert s in tokens;
    }
  }

  /** Storing a new user and its first token keeps the invariant; the token is fresh. */
  lemma CreateKeepsInv(key: string, users: map<string, UserRow>, tokens: map<string, TokenRow>,
                       issues: map<string, Issue>, nextId: nat,
                       username: string, email: string, hash: Bcrypt.Digest, now: nat)
    requires Inv(key, users, tokens, issues, nextId)
    requires username !in users && !EmailInUse(users, email)
    ensures var minted := Jwt.Mint(key, nextId, username, now);
      && minted !in tokens
      && Inv(key, users[username := UserRow(nextId, email, hash, true)],
             tokens[minted := TokenRow(nextId, DefaultUses)],
             issues[minted := Issue(nextId, username, now)], nextId + 1)
  {
    hide Jwt.Mint, Jwt.Decode, Jwt.Claims, Bcrypt.Hash, Bcrypt.Verify, Issued, OnePerUser;
    var users' := users[username := UserRow(nextId, email, hash, true)];
    assert !HasRecord(tokens, nextId) by {
      forall t | t in tokens ensures tokens[t].idUser != nextId {
        assert IsUserId(users, tokens[t].idUser);
      }
    }
    forall id | IsUserId(users, id) ensures IsUserId(users', id) {
      var n :| n in users && users[n].idUser == id;
      assert users'[n] == users[n];
    }
    assert IsUserId(users', nextId) by {
      assert users'[username].idUser == nextId;
    }
    assert UsersInv(users', nextId + 1);
    assert Inv(key, users', tokens, issues, nextId + 1);
    InsertKeepsInv(key, users', tokens, issues, nextId + 1, nextId, username, now);
  }

  /**
   * The session policy's outcome for user `id` named `username` at time `now`,
   * from table `before` to table `after` with response `g`: a record that still
   * verifies and has uses left is reused with one use fewer; a record that is
   * expired, fails to verify or is used up gets a new token and the uses reset;
   * a user without a record gets a first record. A new token never overwrites
   * another user's record.
   */
  ghost predicate PolicyOutcome(key: string, before: map<string, TokenRow>, id: nat, username: string, now: nat,
                                g: Granted, after: map<string, TokenRow>)
  {
    var minted := Jwt.Mint(key, id, username, now);
    && (forall t :: t in before && before[t].idUser == id ==>
          var uses := before[t].uses;
          if uses >= 1 && Jwt.Decode(key, t, now).Valid? then
            && g == Granted(t, uses - 1)
            && after == before[t := TokenRow(id, uses - 1)]
          else
            && g == Granted(minted, DefaultUses)
            && (minted == t || minted !in before)
            && after == (before - {t})[minted := TokenRow(id, DefaultUses)])
    && (!HasRecord(before, id) ==>
          && g == Granted(minted, DefaultUses)
          && minted !in before
          && after == before[minted := TokenRow(id, DefaultUses)])
  }

  /**
   * Reuse: a user whose record still decodes and has uses left keeps the token
   * and spends one use; the invariant holds afterwards.
   */
  lemma ReuseStep(key: string, users: map<string, UserRow>, tokens: map<string, TokenRow>,
                  issues: map<string, Issue>, nextId: nat, username: string, t: string, now: nat)
    requires Inv(key, users, tokens, issues, nextId)
    requires username in users && t in tokens && tokens[t].idUser == users[username].idUser
    requires tokens[t].uses >= 1 && Jwt.Decode(key, t, now).Valid?
    ensures var id, uses := tokens[t].idUser, tokens[t].uses;
      && Inv(key, users, tokens[t := TokenRow(id, uses - 1)], issues, nextId)
      && PolicyOutcome(key, tokens, id, username, now, Granted(t, uses - 1), tokens[t := TokenRow(id, uses - 1)])
  {
    hide Jwt.Mint, Jwt.Decode, Jwt.Claims, Bcrypt.Hash, Bcrypt.Verify, UsersInv, IsUserId;
    var id, uses := tokens[t].idUser, tokens[t].uses;
    var after := tokens[t := TokenRow(id, uses - 1)];
    assert after.Keys == tokens.Keys;
    forall s | s in tokens && tokens[s].idUser == id ensures s == t {
    }
    assert HasRecord(tokens, id);
  }

  /**
   * Reissue: a user whose record is expired, fails to decode or is used up gets
   * a new token with the uses reset, in place of the old record; the new token
   * belongs to no other record and the invariant holds afterwards.
   */
  lemma ReissueStep(key: string, users: map<string, UserRow>, tokens: map<string, TokenRow>,
                    issues: map<string, Issue>, nextId: nat, username: string, t: string, now: nat)
    requires Inv(key, users, tokens, issues, nextId)
    requires username in users && t in tokens && tokens[t].idUser == users[username].idUser
    requires !(tokens[t].uses >= 1 && Jwt.Decode(key, t, now).Valid?)
    ensures var id := tokens[t].idUser;
      var minted := Jwt.Mint(key, id, username, now);
      var after := (tokens - {t})[minted := TokenRow(id, DefaultUses)];
      && Inv(key, users, after, (issues - {t})[minted := Issue(id, username, now)], nextId)
      && PolicyOutcome(key, tokens, id, username, now, Granted(minted, DefaultUses), after)
  {
    hide Jwt.Mint, Jwt.Decode, Jwt.Claims, Bcrypt.Hash, Bcrypt.Verify, UsersInv, IsUserId;
    var id := tokens[t].idUser;
    MintedClashesOnlyWithOwn(key, tokens, issues, id, username, now);
    DeleteKeepsInv(key, users, tokens, issues, nextId, t);
    assert IsUserId(users, id);
    InsertKeepsInv(key, users, tokens - {t}, issues - {t}, nextId, id, username, now);
    forall s | s in tokens && tokens[s].idUser == id ensures s == t {
    }
    assert HasRecord(tokens, id);
  }

  /** First record: a user without a record gets one, with a token no record holds. */
  lemma FirstStep(key: string, users: map<string, UserRow>, tokens: map<string, TokenRow>,
                  issues: map<string, Issue>, nextId: nat, username: string, now: nat)
    requires Inv(key, users, tokens, issues, nextId)
    requires username in users && !HasRecord(tokens, users[username].idUser)
    ensures var id := users[username].idUser;
      var minted := Jwt.Mint(key, id, username, now);
      var after := tokens[minted := TokenRow(id, DefaultUses)];
      && minted !in tokens
      && Inv(key, users, after, issues[minted := Issue(id, username, now)], nextId)
      && PolicyOutcome(key, tokens, id, username, now, Granted(minted, DefaultUses), after)
  {
    hide Jwt.Mint, Jwt.Decode, Jwt.Claims, Bcrypt.Hash, Bcrypt.Verify, UsersInv;
    var id := users[username].idUser;
    assert IsUserId(users, id);
    InsertKeepsInv(key, users, tokens, issues, nextId, id, username, now);
  }

  /**
   * What a successful login leaves behind: the returned token is stored for the
   * user with the returned uses, within 0..50; every other record is as it was,
   * and no other user's record is lost.
   */
  lemma GrantedIsStored(key: string, users: map<string, UserRow>, before: map<string, TokenRow>,
                        issues: map<string, Issue>, nextId: nat, id: nat, username: string, now: nat,
                        g: Granted, after: map<string, TokenRow>)
    requires Inv(key, users, before, issues, nextId)
    requires PolicyOutcome(key, before, id, username, now, g, after)
    ensures g.token in after && after[g.token] == TokenRow(id, g.uses)
    ensures 0 <= g.uses <= DefaultUses
    ensures forall s :: s in after && s != g.token ==> s in before && after[s] == before[s]
    ensures forall s :: s in before && before[s].idUser != id ==> s in after && after[s] == before[s]
  {
    hide Jwt.Mint, Jwt.Decode, Jwt.Claims, Bcrypt.Hash, Bcrypt.Verify, UsersInv, IsUserId, Issued;
    if HasRecord(before, id) {
      var t :| t in before && before[t].idUser == id;
      assert 0 <= before[t].uses <= DefaultUses;
    }
  }

  class AccountService {
    /** The process-wide signing secret, fixed at start-up. */
    const key: string
    var users: map<string, UserRow>
    var tokens: map<string, TokenRow>
    /** The issue record of each stored token. */
    ghost var issues: map<string, Issue>
    /** The id the database assigns to the next user it stores. */
    var nextId: nat

    ghost predicate Valid()
      reads this
    {
      Inv(key, users, tokens, issues, nextId)
    }

    constructor (key: string)
      ensures Valid() && this.key == key
      ensures users == map[] && tokens == map[] && nextId == 1
    {
      this.key := key;
      users, tokens, issues, nextId := map[], map[], map[], 1;
    }

    /**
     * `create_user`: rejects a taken username, then a taken email; otherwise stores
     * the user with a hash of the password and one token record for it, and
     * returns the token. `salt0` and `salt` are the salts of the two hashings.
     */
    method CreateUser(username: string, email: string, password: string, salt0: nat, salt: nat, now: nat)
      returns (r: Result<string, Error>)
      requires Valid()
      modifies this
      ensures Valid()
      ensures username in old(users) ==> r == Failure(UsernameTaken) && unchanged(this)
      ensures username !in old(users) && EmailInUse(old(users), email) ==> r == Failure(EmailTaken) && unchanged(this)
      ensures username !in old(users) && !EmailInUse(old(users), email) ==>
        var id := old(nextId);
        var minted := Jwt.Mint(key, id, username, now);
        && r == Success(minted)
        && users == old(users)[username := UserRow(id, email, Bcrypt.Hash(password, salt), true)]
        && nextId == id + 1
        && minted !in old(tokens)
        && tokens == old(tokens)[minted := TokenRow(id, DefaultUses)]
    {
      hide Jwt.Mint, Jwt.Decode, Jwt.Claims, Bcrypt.Hash, Bcrypt.Verify, Inv;
      var user := new UserModel();
      var token := new TokenModel();
      user.SetPassword(password, salt0);

      if username in users {
        return Failure(UsernameTaken);
      }
      var emailExists := exists n :: n in users && users[n].email == email;
      if emailExists {
        return Failure(EmailTaken);
      }

      var id := nextId;
      CreateKeepsInv(key, users, tokens, issues, id, username, email, Bcrypt.Hash(password, salt), now);
      user.username := username;
      user.email := email;
      user.SetPassword(password, salt);
      // session.add + flush: the database assigns the id
      user.idUser := id;
      var userRow := user.Row();
      assert userRow == UserRow(id, email, Bcrypt.Hash(password, salt), true);

      token.CreateToken(key, id, username, now);
      token.idUser := id;
      var minted, tokenRow := token.token, token.Row();
      assert minted == Jwt.Mint(key, id, username, now) && tokenRow == TokenRow(id, DefaultUses);

      users, nextId := users[username := userRow], id + 1;
      tokens, issues := tokens[minted := tokenRow], issues[minted := Issue(id, username, now)];
      return Success(minted);
    }

    /**
     * `login`: rejects an unknown username, then an inactive user (whatever the
     * password), then a wrong password; otherwise applies the session policy.
     */
    method Login(username: string, password: string, now: nat) returns (r: Result<Granted, Error>)
      requires Valid()
      modifies this
      ensures Valid()
      ensures users == old(users) && nextId == old(nextId)
      ensures username !in users ==> r == Failure(UnknownUsername) && tokens == old(tokens)
      ensures username in users && !users[username].status ==>
        r == Failure(Inactive) && tokens == old(tokens)
      ensures username in users && users[username].status && !Bcrypt.Verify(password, users[username].password) ==>
        r == Failure(WrongPassword) && tokens == old(tokens)
      ensures username in users && users[username].status && Bcrypt.Verify(password, users[username].password) ==>
        r.Success?
      ensures r.Success? ==>
        && username in users && users[username].status && Bcrypt.Verify(password, users[username].password)
        && PolicyOutcome(key, old(tokens), users[username].idUser, username, now, r.value, tokens)
    {
      hide Jwt.Mint, Jwt.Decode, Jwt.Claims, Bcrypt.Hash, Bcrypt.Verify, Inv;
      if username !in users {
        return Failure(UnknownUsername);
      }
      var user := new UserModel.Load(username, users[username]);
      var passwordIsCorrect := user.CheckPassword(password);
      if !user.status {
        return Failure(Inactive);
      }
      if !passwordIsCorrect {
        return Failure(WrongPassword);
      }
      var granted := IssueToken(user.idUser, user.username, now);
      return Success(granted);
    }

    /** The token part of `login`, once user `id` named `username` is authenticated. */
    method IssueToken(id: nat, username: string, now: nat) returns (g: Granted)
      requires Valid()
      requires username in users && users[username].idUser == id
      modifies this
      ensures Valid()
      ensures users == old(users) && nextId == old(nextId)
      ensures PolicyOutcome(key, old(tokens), id, username, now, g, tokens)
    {
      hide Jwt.Mint, Jwt.Decode, Jwt.Claims, Bcrypt.Hash, Bcrypt.Verify, Inv;
      var tokenExists := exists t :: t in tokens && tokens[t].idUser == id;
      if tokenExists {
        var t :| t in tokens && tokens[t].idUser == id;
        var token := new TokenModel.Load(t, tokens[t]);
        // named token_expired in the handler, but true while the token is still valid
        var stillValid := token.VerifyToken(key, now);
        if token.uses >= 1 && stillValid {
          ReuseStep(key, users, tokens, issues, nextId, username, t, now);
          token.uses := token.uses - 1;
          assert token.Row() == TokenRow(id, old(tokens)[t].uses - 1);
          tokens := tokens[t := token.Row()];
          return Granted(token.token, token.uses);
        } else {
          ReissueStep(key, users, tokens, issues, nextId, username, t, now);
          token.CreateToken(key, id, username, now);
          token.uses := DefaultUses;
          assert token.token == Jwt.Mint(key, id, username, now);
          assert token.Row() == TokenRow(id, DefaultUses);
          tokens := (tokens - {t})[token.token := token.Row()];
          issues := (issues - {t})[token.token := Issue(id, username, now)];
          return Granted(token.token, token.uses);
        }
      } else {
        FirstStep(key, users, tokens, issues, nextId, username, now);
        var token := new TokenModel();
        token.CreateToken(key, id, username, now);
        token.idUser := id;
        assert token.token == Jwt.Mint(key, id, username, now);
        assert token.Row() == TokenRow(id, DefaultUses);
        tokens := tokens[token.token := token.Row()];
        issues := issues[token.token := Issue(id, username, now)];
        return Granted(token.token, token.uses);
      }
    }

    /** `logout`: deletes the record keyed `token` when it belongs to `idUser`, and nothing else. */
    method Logout(idUser: int, token: string) returns (r: Outcome<Error>)
      requires Valid()
      modifies this
      ensures Valid()
      ensures users == old(users) && nextId == old(nextId)
      ensures r.Pass? <==> token in old(tokens) && old(tokens)[token].idUser == idUser
      ensures r.Pass? ==> tokens == old(tokens) - {token}
      ensures r.Fail? ==> r.error == TokenNotFound && tokens == old(tokens)
    {
      hide Jwt.Mint, Jwt.Decode, Jwt.Claims, Bcrypt.Hash, Bcrypt.Verify, Inv;
      var tokenExists := token in tokens && tokens[token].idUser == idUser;
      if tokenExists {
        DeleteKeepsInv(key, users, tokens, issues, nextId, token);
        tokens := tokens - {token};
        issues := issues - {token};
        return Pass;
      } else {
        return Fail(TokenNotFound);
      }
    }
  }
}
