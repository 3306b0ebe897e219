/**
 * The token codec behind `TokenModel.create_token` and `TokenModel.verify_token`:
 * a signed token carrying a user id, a username and an expiry time.
 *
 * The compact form is `<signature>.<user id>.<exp>.<username>`, numbers in
 * canonical decimal. The signature is `Mac(key, body)`, a keyed digest that
 * stands in for HS256; no property below depends on how `Mac` is computed.
 */
module Jwt {
  import opened Wrappers
  import opened Encoding

  /** `timedelta(days=5)` in seconds: the lifetime of every minted token. */
  const FiveDays: nat := 5 * 24 * 60 * 60

  /** Width of the signature value (HS256 yields 256 bits). */
  const MacModulus: nat := 0x1_0000_0000_0000_0000_0000_0000_0000_0000_0000_0000_0000_0000_0000_0000_0000_0000

  /** The claims a token carries: `user_id`, `username` and `exp` (seconds). */
  datatype Payload = Payload(userId: nat, username: string, exp: nat)

  /** What `jwt.decode` does with a token: the claims, or which of its two exceptions it raises. */
  datatype Decoded = Valid(claims: Payload) | Expired | Invalid

  function Absorb(acc: nat, s: string): nat
    decreases |s|
  {
    if s == [] then acc else Absorb((acc * 257 + s[0] as int) % MacModulus, s[1..])
  }

  /** Keyed digest standing in for the HMAC-SHA256 signature. */
  function Mac(key: string, message: string): nat {
    Absorb(0, Join(key, message))
  }

  function Serialize(p: Payload): string {
    Join(Dec(p.userId), Join(Dec(p.exp), p.username))
  }

  /** Reads the claims back from a body; the username is the rest after the second dot. */
  function Parse(body: string): Option<Payload> {
    match Split(body)
    case None => None
    case Some((id, rest)) =>
      match Split(rest)
      case None => None
      case Some((exp, name)) =>
        if IsNumeral(id) && IsNumeral(exp) then Some(Payload(ParseDec(id), name, ParseDec(exp)))
        else None
  }

  /** Signs and serialises a payload (`jwt.encode`). */
  function Encode(key: string, p: Payload): string {
    var body := Serialize(p);
    Join(Dec(Mac(key, body)), body)
  }

  /** The claims of a well-formed token whose signature checks, ignoring expiry. */
  function Claims(key: string, token: string): Option<Payload> {
    match Split(token)
    case None => None
    case Some((sig, body)) =>
      if IsNumeral(sig) && ParseDec(sig) == Mac(key, body) then Parse(body) else None
  }

  /**
   * `jwt.decode`: a malformed token or a bad signature raises InvalidTokenError;
   * otherwise the token is expired when `exp <= now` (ExpiredSignatureError).
   */
  function Decode(key: string, token: string, now: nat): Decoded {
    match Claims(key, token)
    case None => Invalid
    case Some(p) => if now < p.exp then Valid(p) else Expired
  }

  lemma {:induction false} ParseSerialize(p: Payload)
    ensures Parse(Serialize(p)) == Some(p)
  {
    var id, exp := Dec(p.userId), Dec(p.exp);
    NumeralHasNoDot(id);
    NumeralHasNoDot(exp);
    SplitJoin(id, Join(exp, p.username));
    SplitJoin(exp, p.username);
    ParseDecOfDec(p.userId);
    ParseDecOfDec(p.exp);
  }

  /** A body that parses is exactly the serialisation of what it parses to. */
  lemma {:induction false} SerializeParse(body: string)
    requires Parse(body).Some?
    ensures Serialize(Parse(body).value) == body
  {
    var Some((id, rest)) := Split(body);
    var Some((exp, name)) := Split(rest);
    DecOfParseDec(id);
    DecOfParseDec(exp);
  }

  /** Round trip: a token this codec encodes decodes to the claims it was given. */
  lemma {:induction false} ClaimsEncode(key: string, p: Payload)
    ensures Claims(key, Encode(key, p)) == Some(p)
  {
    var body := Serialize(p);
    var sig := Dec(Mac(key, body));
    NumeralHasNoDot(sig);
    SplitJoin(sig, body);
    ParseDecOfDec(Mac(key, body));
    ParseSerialize(p);
  }

  /** Every token the codec accepts is exactly the encoding of its claims. */
  lemma {:induction false} ClaimsSound(key: string, token: string)
    requires Claims(key, token).Some?
    ensures token == Encode(key, Claims(key, token).value)
  {
    var Some((sig, body)) := Split(token);
    DecOfParseDec(sig);
    SerializeParse(body);
  }

  lemma {:induction false} EncodeInjective(key: string, p: Payload, q: Payload)
    requires Encode(key, p) == Encode(key, q)
    ensures p == q
  {
    ClaimsEncode(key, p);
    ClaimsEncode(key, q);
  }

  /** `create_token`'s token for a user at time `now`: claims `user_id`, `username`, `exp = now + 5 days`. */
  function Mint(key: string, userId: nat, username: string, now: nat): (token: string)
    ensures Claims(key, token) == Some(Payload(userId, username, now + FiveDays))
  {
    var p := Payload(userId, username, now + FiveDays);
    ClaimsEncode(key, p);
    Encode(key, p)
  }

  /** Two minted tokens coincide only when user, username and minting time all do. */
  lemma MintInjective(key: string, userId: nat, username: string, now: nat,
                      userId': nat, username': string, now': nat)
    requires Mint(key, userId, username, now) == Mint(key, userId', username', now')
    ensures userId == userId' && username == username' && now == now'
  {
    assert Claims(key, Mint(key, userId, username, now)) == Claims(key, Mint(key, userId', username', now'));
  }

  /** A token this codec encodes is valid until its `exp` and expired from then on. */
  lemma DecodeEncode(key: string, p: Payload, now: nat)
    ensures Decode(key, Encode(key, p), now) == if now < p.exp then Valid(p) else Expired
  {
    ClaimsEncode(key, p);
  }

  /** A token minted at `issued` decodes before `issued + 5 days` and is expired from then on. */
  lemma MintLifetime(key: string, userId: nat, username: string, issued: nat, now: nat)
    ensures Decode(key, Mint(key, userId, username, issued), now)
         == if now < issued + FiveDays then Valid(Payload(userId, username, issued + FiveDays)) else Expired
  {
  }

  /** Replacing the signature segment of a token by any other dot-free text makes it Invalid, never Expired. */
  lemma {:induction false} TamperedSignatureRejected(key: string, p: Payload, sig: string, now: nat)
    requires '.' !in sig && sig != Dec(Mac(key, Serialize(p)))
    ensures Decode(key, Join(sig, Serialize(p)), now) == Invalid
  {
    var body := Serialize(p);
    SplitJoin(sig, body);
    if IsNumeral(sig) && ParseDec(sig) == Mac(key, body) {
      DecOfParseDec(sig);
    }
  }
}
