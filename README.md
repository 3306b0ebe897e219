# Account service: token sessions

A verified model of the session engine of a small account service. The service
keeps two tables:

- `users`: username → id, email, password hash, active flag;
- `tokens`: token string (the primary key) → owning user id and remaining `uses`.

It answers three requests:

- `create_user` rejects a taken username, then a taken email. Otherwise it stores the user and one token record (50 uses) and returns the token.
- `login` rejects an unknown username, then an inactive user, then a wrong password. Otherwise it applies the session policy to the user's token record:
  - a record whose token still verifies and has a use left is reused, with one use fewer;
  - a record that is expired, invalid or used up gets a freshly minted token, with the uses reset to 50;
  - a user without a record gets a first one.
- `logout` deletes the record matching both the user id and the token, and reports an error otherwise.

Modules:

- `Wrappers`: `Option`, `Result` and `Outcome`.
- `Encoding`: canonical decimal numerals, and joining and splitting on `.`.
- `Jwt`: the signed token carrying `user_id`, `username` and `exp`. Its compact form is `<signature>.<user id>.<exp>.<username>`. `Encode` and `Decode` stand for `jwt.encode` and `jwt.decode`; `Mint` is `create_token`'s payload, encoded. `Decode` distinguishes a valid token, an expired one (`exp <= now`) and an invalid one (malformed or a bad signature).
- `Bcrypt`: a salted password digest and its check.
- `Models`: the table rows, and the `UserModel` and `TokenModel` objects the handlers work on, with `set_password`, `check_password`, `create_token` and `verify_token`.
- `Apis`: the `AccountService` class holding both tables, with `CreateUser`, `Login` and `Logout`.

The class keeps an invariant, `Apis.Inv`:

- user ids are below the next id and distinct, and emails are distinct;
- every record has between 0 and 50 uses and belongs to a stored user;
- every stored token is the token minted for its record's user;
- no user has two records.

Minted tokens are not assumed to be fresh. Freshness is proved: minting is injective (`Jwt.MintInjective`), and only one user can own a given token string. So a new token can only coincide with a token of the same user (`Apis.MintedClashesOnlyWithOwn`), and a login never overwrites another user's record.

The session policy is the ghost predicate `Apis.PolicyOutcome`. `Apis.AccountService.Login` promises it, and `Apis.GrantedIsStored` derives from it what a successful login leaves in the table.

The variable at `app/apis.py:135` is named `token_expired`, but it holds `verify_token()`. That value is true while the token still decodes (`app/models.py:126-134`). So the reuse branch at `app/apis.py:137-140` fires for tokens that have NOT expired. An expired token with uses left is reissued. The variable's name suggests the opposite reading; the model follows what the code does.

## Model

| member | source | states |
|---|---|---|
| Jwt.Mint | app/models.py:108-115 | the minted token carries exactly `user_id`, `username` and `exp = now + 5 days`: decoding its claims gives that payload back |
| Jwt.ClaimsEncode | app/models.py:115 | round trip: the claims read back from an encoded token are the payload it was encoded from |
| Jwt.ClaimsSound | app/models.py:127 | every token whose signature checks is exactly the encoding of the claims it carries, up to the spelling of the signature (see "Left out") |
| Jwt.EncodeInjective | app/models.py:115 | two payloads encode to the same token only if they are equal |
| Jwt.MintInjective | app/models.py:108-115 | two minted tokens coincide only when user id, username and minting time all coincide; so a reissued token differs from the one it replaces unless both were minted in the same second |
| Jwt.DecodeEncode | app/models.py:126-134 | an encoded token decodes to its payload while `now < exp`, and to Expired from `exp` on |
| Jwt.MintLifetime | app/models.py:111-131 | a token minted at `issued` is valid before `issued + 5 days` and expired from then on, never invalid |
| Jwt.TamperedSignatureRejected | app/models.py:126-134 | replacing the signature segment of a token by any other dot-free text makes it Invalid, never Expired |
| Bcrypt.Hash | app/models.py:61 | the digest verifies the password it was made from, and records the salt it was made with |
| Bcrypt.HashVerify | app/models.py:61-75 | a hash verifies a candidate password if and only if it is the password the hash was made from |
| Models.UserModel.constructor | app/models.py:50 | a new user object has no hash yet and is active (the column default of `status`) |
| Models.UserModel.Load | app/apis.py:102 | the object a query returns carries the stored row's id, email, hash and status |
| Models.UserModel.CheckPassword | app/models.py:63-75 | a user object without a stored hash accepts no password |
| Models.UserModel.CheckPasswordExact | app/models.py:63-75 | once the stored hash was made from `q`, `check_password` accepts `q` and no other password |
| Models.UserModel.SetPassword | app/models.py:52-61 | replaces only the stored hash, by a hash of `p`, after which `check_password(p)` holds |
| Models.TokenModel.constructor | app/models.py:90 | a new token object has `uses` at its column default, 50 |
| Models.TokenModel.Load | app/apis.py:133-134 | the object a query returns carries the stored record's token, user id and uses |
| Models.TokenModel.CreateToken | app/models.py:93-115 | assigns only `token`, to the token minted for the user at `now`; `uses` and `id_user` are untouched |
| Models.TokenModel.VerifyToken | app/models.py:117-134 | true exactly when the signature checks and `now < exp`; an expired token and an invalid one both give false |
| Apis.MintedClashesOnlyWithOwn | app/apis.py:143-145 | under the invariant, a freshly minted token can equal a stored token only if that record belongs to the same user |
| Apis.DeleteKeepsInv | app/apis.py:179-181 | deleting a record keeps the invariant and leaves its user without a record |
| Apis.InsertKeepsInv | app/apis.py:149-153 | giving a user without a record a fresh token with 50 uses keeps the invariant, and the token was held by no record |
| Apis.CreateKeepsInv | app/apis.py:54-70 | storing a new user under the next id, with its first token record, keeps the invariant; the token is fresh |
| Apis.ReuseStep | app/apis.py:137-140 | reusing a valid record with uses left keeps the invariant and is the policy's outcome |
| Apis.ReissueStep | app/apis.py:142-146 | replacing an expired, invalid or used-up record by a new token with 50 uses keeps the invariant and is the policy's outcome |
| Apis.FirstStep | app/apis.py:148-154 | inserting a first record for a user without one keeps the invariant and is the policy's outcome |
| Apis.GrantedIsStored | app/apis.py:130-154 | after a successful login the returned token is stored for the user with the returned uses, within 0..50; every other record is unchanged and no other user's record is lost |
| Apis.AccountService.CreateUser | app/apis.py:25-77 | a taken username gives `username` and a taken email gives `email`, in that order, with nothing written; otherwise exactly one user row with the next id and the password's hash and exactly one token record with 50 uses are added, and the new token is returned |
| Apis.AccountService.Login | app/apis.py:94-154 | an unknown username, an inactive user (even with the right password) and a wrong password are rejected in that order, with the tables unchanged; an existing, active user with the right password always gets a token, and the token table then follows the session policy; users are never changed |
| Apis.AccountService.IssueToken | app/apis.py:129-154 | for an authenticated user, the token table changes exactly as the session policy says, and the invariant is kept |
| Apis.AccountService.Logout | app/apis.py:171-188 | succeeds exactly when the token is stored for that user, and then deletes that one record; otherwise it reports `id_user`, `token` and changes nothing |

## Left out

- The HTTP layer (routing, `JSONResponse`, status codes and message texts) is not modelled. An error is a datatype `Apis.Error`, whose `Fields` gives the field names the response reports, `tatus` included.
- The database session is not modelled. The two tables are maps; `flush` and `commit` have no counterpart, and the id the database assigns is the service's `nextId` counter.
- Persistence failures are not modelled.
- `app/settings.py` is not part of this model. The secret key is a constant of the service, fixed at construction.
- `now` is a parameter counted in whole seconds. The clock, `datetime` and time zones are not modelled.
- Concurrency is not modelled. Each request runs to completion, so the lost update between two simultaneous logins of one user cannot arise.
- The role table, the first and last names (and the misspelt `firts_name` column) and the creation timestamps are not modelled. They do not affect any decision.
- Jwt.Mac: not HMAC-SHA256 but a polynomial digest of key and body. It stands in for the signature; no proved property depends on its definition. Forgery resistance is therefore not modelled.
- Jwt.Mint: the compact form is a simple dot-separated text, not the base64url JSON of RFC 7519.
- Bcrypt.Hash: the salt is a parameter, not drawn at random, and the digest is an injective stand-in, not bcrypt. Slowness and resistance to brute force are not modelled.
- Apis.AccountService.CreateUser: the two hashings of the password (`app/apis.py:32` and `app/apis.py:59`) take the salts `salt0` and `salt` as parameters. Only the second hash is stored.
- Models.TokenModel.CreateToken: takes `now` as a parameter instead of reading the clock.
- Bcrypt.HashVerify: holds for the stand-in digest only. passlib's bcrypt reads only the first 72 bytes of a password, so two passwords that agree on those bytes both pass `check_password`; the model rejects the second one. The "only if" direction therefore holds in the source only for passwords of at most 72 bytes.
- Models.UserModel.CheckPasswordExact: inherits the same 72-byte gap as Bcrypt.HashVerify.
- Jwt.TamperedSignatureRejected: relies on the model's canonical decimal signature. PyJWT reads the signature as base64url, and that decoding ignores the spare low bits of the last character, so some altered signature texts of a real HS256 token still verify. In the source the lemma holds only for a signature text that does not denote the body's MAC.
- Models.UserModel.constructor and Models.TokenModel.constructor: the column defaults `status = True` and `uses = 50` are set when the object is built. SQLAlchemy applies them at the INSERT, so a fresh `TokenModel().uses` is `None` until the flush. The handlers read `uses` only after the commit (`app/apis.py:154`), so no response differs.
- Apis.AccountService.CreateUser: passlib's `bcrypt.hash` raises `PasswordValueError` for a password containing a NUL character and `PasswordSizeError` for one longer than 4096 characters. `create_user` hashes at `app/apis.py:32`, before both uniqueness checks, so such a password ends the request in an unhandled exception (HTTP 500, nothing written) even when the username or email is taken. The model hashes every password and returns `UsernameTaken`, `EmailTaken` or a token instead.
- Apis.AccountService.Login: `bcrypt.verify` raises the same two exceptions for a candidate password containing a NUL character or longer than 4096 characters. `login` calls `check_password` at `app/apis.py:105`, before the status check, so an existing user sending such a password gets an HTTP 500, whether inactive or active. The model answers `Inactive` or `WrongPassword` instead. Tables are unchanged on both paths.
- Jwt.ClaimsSound: holds for the model's canonical compact form. PyJWT reads the signature segment with base64url decoding, which ignores the two spare low bits of the 43rd character of an HS256 signature and accepts trailing `=` padding. So in the source several signature spellings verify and decode to the same claims, and the lemma holds only up to those non-canonical spellings of the signature.
- Models.UserModel.CheckPassword: on an object with no stored hash, passlib's `bcrypt.verify(password, None)` raises `TypeError`, while the model answers false. No handler calls `check_password` on such an object: every stored user row carries a hash (`app/apis.py:32`), and `login` calls it only on a loaded row. So no response differs.
