/**
 * Password hashing, token issue and the request authentication dependency.
 *
 * bcrypt and the JWT library are parameters: a `Hasher` maps a secret and a
 * salt to a hash, a `Checker` says whether a secret matches a hash, a
 * `JwtEncode` signs a claims dict, and a `JwtDecode` checks a token's
 * signature and expiry at a given time and gives back its claims or the
 * library's error.
 */
module AuthService {
  import opened Wrappers
  import opened PyText
  import opened Json
  import opened Http
  import PyDict

  /** bcrypt only looks at the first 72 units of the secret; the code cuts the string there first. */
  const PASSWORD_LIMIT: nat := 72

  /** Tokens are valid for seven days from issue (`60 * 24 * 7` minutes). */
  const ACCESS_TOKEN_EXPIRE_MINUTES: nat := 60 * 24 * 7

  const UNAUTHORIZED_DETAIL: string := "未登录或登录已过期"

  type Hasher = (string, string) -> string
  type Checker = (string, string) -> bool
  type JwtEncode = PyDict.Dict<Json> -> string
  type JwtDecode = (string, int) -> Result<PyDict.Dict<Json>, string>

  // ---------------------------------------------------------------------
  // Passwords
  // ---------------------------------------------------------------------

  /** `password[:72]`: the first 72 characters, or the whole password when it is shorter. */
  function Truncate(password: string): (r: string)
    ensures |r| == if |password| <= PASSWORD_LIMIT then |password| else PASSWORD_LIMIT
    ensures r == password[..|r|]
  {
    Prefix(password, PASSWORD_LIMIT)
  }

  /** Two passwords are treated alike exactly when they are equal or share their first 72 characters. */
  lemma TruncateSame(p: string, q: string)
    ensures Truncate(p) == Truncate(q) <==>
      p == q || (|p| >= PASSWORD_LIMIT && |q| >= PASSWORD_LIMIT && p[..PASSWORD_LIMIT] == q[..PASSWORD_LIMIT])
  {
    if Truncate(p) == Truncate(q) && |p| < PASSWORD_LIMIT {
      assert p == Truncate(p);
    }
    if Truncate(p) == Truncate(q) && |q| < PASSWORD_LIMIT {
      assert q == Truncate(q);
    }
  }

  /** `hash_password`: bcrypt of the truncated password. */
  function HashPassword(password: string, salt: string, hash: Hasher): string
  {
    hash(Truncate(password), salt)
  }

  /** `verify_password`: bcrypt's check of the truncated password against the stored hash. */
  function VerifyPassword(plain: string, hashed: string, check: Checker): bool
  {
    check(Truncate(plain), hashed)
  }

  /**
   * Hashing never looks past the 72nd character: a password of at least 72
   * characters hashes like itself with anything appended.
   */
  lemma HashIgnoresTail(password: string, tail: string, salt: string, hash: Hasher)
    requires |password| >= PASSWORD_LIMIT
    ensures HashPassword(password + tail, salt, hash) == HashPassword(password, salt, hash)
  {
    assert (password + tail)[..PASSWORD_LIMIT] == password[..PASSWORD_LIMIT];
  }

  /** Verification cuts the same way: anything after the 72nd character does not change the outcome. */
  lemma VerifyIgnoresTail(plain: string, tail: string, hashed: string, check: Checker)
    requires |plain| >= PASSWORD_LIMIT
    ensures VerifyPassword(plain + tail, hashed, check) == VerifyPassword(plain, hashed, check)
  {
    assert (plain + tail)[..PASSWORD_LIMIT] == plain[..PASSWORD_LIMIT];
  }

  /** bcrypt's own promise: a secret matches every hash made of it. */
  ghost predicate HashSound(hash: Hasher, check: Checker) {
    forall secret, salt :: check(secret, hash(secret, salt))
  }

  /**
   * A stored hash accepts the password it was made from, and also every
   * password that agrees with it on the first 72 characters.
   */
  lemma VerifyHashed(password: string, other: string, salt: string, hash: Hasher, check: Checker)
    requires HashSound(hash, check)
    requires Truncate(other) == Truncate(password)
    ensures VerifyPassword(other, HashPassword(password, salt, hash), check)
  {
  }

  // ---------------------------------------------------------------------
  // Tokens
  // ---------------------------------------------------------------------

  /** The `exp` claim of a token payload, when it holds a number. */
  function Expiry(payload: PyDict.Dict<Json>): (r: Option<real>)
    ensures r.Some? <==> (PyDict.Get(payload, "exp").Some? && PyDict.Get(payload, "exp").value.JNum?)
  {
    match PyDict.Get(payload, "exp")
    case Some(v) => if v.JNum? then Some(v.n) else None
    case None => None
  }

  /**
   * The claims signed by `create_access_token` at time `now` (seconds): a
   * copy of `data` with "exp" set to seven days later, every other claim
   * unchanged and no claim lost.
   */
  function TokenPayload(data: PyDict.Dict<Json>, now: int): (r: PyDict.Dict<Json>)
    ensures Expiry(r) == Some((now + ACCESS_TOKEN_EXPIRE_MINUTES * 60) as real)
    ensures forall k :: k != "exp" ==> PyDict.Get(r, k) == PyDict.Get(data, k)
    ensures forall k :: k in PyDict.Keys(data) ==> k in PyDict.Keys(r)
    ensures PyDict.UniqueKeys(data) ==> PyDict.UniqueKeys(r)
  {
    PyDict.SetSpec(data, "exp", JNum((now + ACCESS_TOKEN_EXPIRE_MINUTES * 60) as real));
    PyDict.Set(data, "exp", JNum((now + ACCESS_TOKEN_EXPIRE_MINUTES * 60) as real))
  }

  /** `create_access_token`: the signed payload. */
  function CreateAccessToken(data: PyDict.Dict<Json>, now: int, encode: JwtEncode): string
  {
    encode(TokenPayload(data, now))
  }

  /** `decode_token`: the claims, or None whenever the library rejects the token. */
  function DecodeToken(token: string, now: int, decode: JwtDecode): (r: Option<PyDict.Dict<Json>>)
    ensures r.None? <==> decode(token, now).Err?
    ensures r.Some? ==> decode(token, now) == Ok(r.value)
  {
    match decode(token, now)
    case Ok(payload) => Some(payload)
    case Err(_) => None
  }

  /**
   * The JWT library's own promise: a token it signed decodes to the signed
   * claims while `exp` has not passed, and is rejected once it has.
   */
  ghost predicate JwtSound(encode: JwtEncode, decode: JwtDecode) {
    forall payload, now :: Expiry(payload).Some? ==>
      decode(encode(payload), now) ==
        if now as real <= Expiry(payload).value then Ok(payload) else Err("Signature has expired.")
  }

  // ---------------------------------------------------------------------
  // Request authentication
  // ---------------------------------------------------------------------

  /** Python truthiness of an optional string. */
  predicate Truthy(s: Option<string>) {
    s.Some? && s.value != ""
  }

  /**
   * `auth.split(" ")[1]` for a header starting with "Bearer ": the text
   * after "Bearer " up to the next space or the end.
   */
  function BearerToken(auth: string): string
    requires StartsWith(auth, "Bearer ")
  {
    BearerSpace(auth);
    SplitSecond(auth, " ");
    Split(auth, " ")[1]
  }

  /** In a header starting with "Bearer ", the first space is the one after "Bearer". */
  lemma BearerSpace(auth: string)
    requires StartsWith(auth, "Bearer ")
    ensures Find(auth, " ") == Some(6)
  {
    assert auth[..7] == "Bearer ";
    assert auth[6..7] == " ";
    forall k | 0 <= k < 6 ensures !OccursAt(auth, " ", k) {
      assert auth[k] == auth[..7][k];
    }
    FindFirst(auth, " ", 6);
  }

  /** The bearer token is the text right after "Bearer ", it holds no space, and a space or the end follows it. */
  lemma BearerTokenSpec(auth: string)
    requires StartsWith(auth, "Bearer ")
    ensures 7 + |BearerToken(auth)| <= |auth| && BearerToken(auth) == auth[7..7 + |BearerToken(auth)|]
    ensures !Contains(BearerToken(auth), " ")
    ensures 7 + |BearerToken(auth)| == |auth| || auth[7 + |BearerToken(auth)|] == ' '
  {
    BearerSpace(auth);
    SplitSecond(auth, " ");
    var t := auth[7..];
    SplitHead(t, " ");
    SplitSpec(t, " ");
    match Find(t, " ")
    case None =>
      assert BearerToken(auth) == t;
    case Some(k) =>
      assert BearerToken(auth) == t[..k];
      assert t[k..k + 1] == " ";
      assert t[..k] == auth[7..7 + k];
  }

  /**
   * The token `get_current_user` looks at: the "access_token" cookie when it
   * is non-empty; otherwise, for an Authorization header starting with
   * "Bearer ", its bearer token. An empty candidate counts as no token.
   */
  function SelectToken(cookie: Option<string>, authorization: Option<string>): (r: Option<string>)
    ensures r.Some? ==> r.value != ""
    ensures Truthy(cookie) ==> r == cookie
    ensures !Truthy(cookie) ==>
      (r.Some? <==> Truthy(authorization) && StartsWith(authorization.value, "Bearer ")
                    && BearerToken(authorization.value) != "")
    ensures !Truthy(cookie) && r.Some? ==>
      Truthy(authorization) && StartsWith(authorization.value, "Bearer ")
      && r.value == BearerToken(authorization.value)
  {
    if Truthy(cookie) then cookie
    else if Truthy(authorization) && StartsWith(authorization.value, "Bearer ") then
      var token := BearerToken(authorization.value);
      if token != "" then Some(token) else None
    else None
  }

  /** A bearer header carrying a token without spaces yields exactly that token. */
  lemma BearerRoundTrip(token: string)
    requires token != "" && ' ' !in token
    ensures SelectToken(None, Some("Bearer " + token)) == Some(token)
  {
    var s := "Bearer " + token;
    assert s[..7] == "Bearer ";
    assert s[7..7 + |token|] == token;
    BearerTokenSpec(s);
    var r := BearerToken(s);
  }

  /** "Bearer " alone, or followed by a second space, carries an empty token, so no token is selected. */
  lemma EmptyBearerToken(rest: string)
    ensures SelectToken(None, Some("Bearer ")) == None
    ensures SelectToken(None, Some("Bearer  " + rest)) == None
  {
    EmptyAfterBearer("Bearer ");
    EmptyAfterBearer("Bearer  " + rest);
  }

  /** A header that is "Bearer " followed by nothing or by a space has an empty bearer token. */
  lemma EmptyAfterBearer(auth: string)
    requires StartsWith(auth, "Bearer ")
    requires |auth| == 7 || auth[7] == ' '
    ensures BearerToken(auth) == ""
  {
    BearerSpace(auth);
    SplitSecond(auth, " ");
    var t := auth[7..];
    SplitHead(t, " ");
    if |auth| > 7 {
      assert t[0..1] == " ";
      FindFirst(t, " ", 0);
    } else {
      assert t == "";
    }
  }

  /** `get_current_user`: the claims of the selected token, or None when there is none or it does not decode. */
  function GetCurrentUser(cookie: Option<string>, authorization: Option<string>, now: int, decode: JwtDecode)
    : (r: Option<PyDict.Dict<Json>>)
    ensures SelectToken(cookie, authorization).None? ==> r.None?
    ensures SelectToken(cookie, authorization).Some? ==>
      r == DecodeToken(SelectToken(cookie, authorization).value, now, decode)
  {
    match SelectToken(cookie, authorization)
    case None => None
    case Some(token) => DecodeToken(token, now, decode)
  }

  /** `require_auth`: the claims, or 401 with the login-expired message. */
  function RequireAuth(cookie: Option<string>, authorization: Option<string>, now: int, decode: JwtDecode)
    : (r: Result<PyDict.Dict<Json>, Failure>)
    ensures r.Ok? <==> GetCurrentUser(cookie, authorization, now, decode).Some?
    ensures r.Ok? ==> r.value == GetCurrentUser(cookie, authorization, now, decode).value
    ensures r.Err? ==> r.error == HttpError(401, JStr(UNAUTHORIZED_DETAIL))
  {
    match GetCurrentUser(cookie, authorization, now, decode)
    case Some(payload) => Ok(payload)
    case None => Err(HttpError(401, JStr(UNAUTHORIZED_DETAIL)))
  }

  /**
   * A token issued at `issued` and sent back in the cookie authenticates
   * exactly until seven days have passed, and its claims are the issued
   * data with "exp" added.
   */
  lemma IssuedTokenAuthenticates(data: PyDict.Dict<Json>, issued: int, now: int,
                                 encode: JwtEncode, decode: JwtDecode)
    requires JwtSound(encode, decode)
    requires CreateAccessToken(data, issued, encode) != ""
    ensures var token := CreateAccessToken(data, issued, encode);
      var r := RequireAuth(Some(token), None, now, decode);
      && (r.Ok? <==> now <= issued + ACCESS_TOKEN_EXPIRE_MINUTES * 60)
      && (r.Ok? ==> r.value == TokenPayload(data, issued))
  {
    var payload := TokenPayload(data, issued);
    assert Expiry(payload).Some?;
  }
}
