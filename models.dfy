/**
 * The two tables' rows and the model objects the handlers work on
 * (`UserModel` and `TokenModel`).
 */
module Models {
  import opened Wrappers
  import Bcrypt
  import Jwt

  /** Column default of `tokens.uses`, and the count a reissued token gets. */
  const DefaultUses: int := 50

  /** A row of `users`; the username is the row's key in the table. */
  datatype UserRow = UserRow(idUser: nat, email: string, password: Bcrypt.Digest, status: bool)

  /** A row of `tokens`; the token string is the row's key in the table. */
  datatype TokenRow = TokenRow(idUser: nat, uses: int)

  class UserModel {
    var idUser: nat
    var username: string
    var email: string
    var password: Option<Bcrypt.Digest>
    var status: bool

    /** A new, unsaved user: no hash yet; `status` has its column default, active. */
    constructor ()
      ensures username == "" && email == "" && password == None && status
    {
      idUser, username, email, password, status := 0, "", "", None, true;
    }

    /** The object a query for `name` returns for a stored row. */
    constructor Load(name: string, row: UserRow)
      ensures idUser == row.idUser && username == name && email == row.email
      ensures password == Some(row.password) && status == row.status
    {
      idUser, username, email, password, status := row.idUser, name, row.email, Some(row.password), row.status;
    }

    /** Replaces the stored hash by a fresh hash of `p`; nothing else changes. */
    method SetPassword(p: string, salt: nat)
      modifies this`password
      ensures password == Some(Bcrypt.Hash(p, salt))
      ensures CheckPassword(p)
    {
      password := Some(Bcrypt.Hash(p, salt));
      Bcrypt.HashVerify(p, p, salt);
    }

    /** True when `p` is the password the stored hash was made from. */
    predicate CheckPassword(p: string)
      reads this
      ensures CheckPassword(p) ==> password.Some?
    {
      password.Some? && Bcrypt.Verify(p, password.value)
    }

    /** Once the stored hash was made from `q`, `check_password` accepts `q` and nothing else. */
    lemma CheckPasswordExact(p: string, q: string, salt: nat)
      requires password == Some(Bcrypt.Hash(q, salt))
      ensures CheckPassword(p) <==> p == q
    {
      Bcrypt.HashVerify(q, p, salt);
    }

    function Row(): UserRow
      reads this
      requires password.Some?
    {
      UserRow(idUser, email, password.value, status)
    }
  }

  class TokenModel {
    var idUser: nat
    var token: string
    var uses: int

    /** A new, unsaved record: `uses` has its column default. */
    constructor ()
      ensures token == "" && uses == DefaultUses
    {
      idUser, token, uses := 0, "", DefaultUses;
    }

    /** The object a query returns for the stored record keyed `t`. */
    constructor Load(t: string, row: TokenRow)
      ensures token == t && idUser == row.idUser && uses == row.uses
    {
      idUser, token, uses := row.idUser, t, row.uses;
    }

    /**
     * Mints a token for the user at time `now` and stores it in `token`; it
     * assigns no other field and returns nothing.
     */
    method CreateToken(key: string, userId: nat, username: string, now: nat)
      modifies this`token
      ensures token == Jwt.Mint(key, userId, username, now)
      ensures Jwt.Claims(key, token) == Some(Jwt.Payload(userId, username, now + Jwt.FiveDays))
    {
      token := Jwt.Mint(key, userId, username, now);
    }

    /**
     * True when `token` decodes: its signature checks and it has not expired.
     * An expired token and an invalid one both give false.
     */
    predicate VerifyToken(key: string, now: nat)
      reads this
      ensures VerifyToken(key, now) <==> Jwt.Claims(key, token).Some? && now < Jwt.Claims(key, token).value.exp
    {
      match Jwt.Decode(key, token, now)
      case Valid(_) => true
      case Expired => false  // ExpiredSignatureError
      case Invalid => false  // InvalidTokenError
    }

    function Row(): TokenRow
      reads this
    {
      TokenRow(idUser, uses)
    }
  }
}
