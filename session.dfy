/**
 * The session manager of `AuthService` as functions on the two stores: registration, login and
 * one-time-use refresh-token rotation, with the ledger invariant they keep.
 */
module Session {
  import opened Wrappers
  import opened Text
  import opened Repository

  type Password = string
  /** A signed token string, opaque to the session manager. */
  type Token = string

  datatype AuthError = Conflict | InvalidCredentials | Unauthorized

  datatype TokenPair = TokenPair(accessToken: Token, refreshToken: Token)

  /**
   * The JWT codec (`JwtService`). Validation depends on the clock because it checks expiry; the
   * generators depend on it because the issue time is part of the claims.
   */
  datatype TokenCodec = TokenCodec(
    validateRefreshToken: (Token, Instant) -> bool,
    getUserIdFromToken: Token -> UserId,
    generateAccessToken: (UserId, Instant) -> Token,
    generateRefreshToken: (UserId, Instant) -> Token,
    refreshTokenValidityMs: int)

  /** The password hasher (`HashEncoder`). */
  datatype HashEncoder = HashEncoder(encode: Password -> Digest, matches: (Password, Digest) -> bool)

  /**
   * Everything the session manager calls but does not define: the codec, the password hasher and
   * the SHA-256-then-Base64 digest behind `hashToken`, a deterministic function of the raw token.
   */
  datatype Env = Env(jwt: TokenCodec, hashEncoder: HashEncoder, hashToken: Token -> Fingerprint)

  /** The user directory and the refresh-token ledger. */
  datatype Store = Store(users: seq<User>, ledger: seq<RefreshToken>)

  /** The state after an operation, and what it returned or threw. */
  datatype Step<T> = Step(store: Store, result: Result<T, AuthError>)

  /** The record `storeRefreshToken` saves for a freshly minted refresh token. */
  function LedgerRecord(env: Env, userId: UserId, rawRefreshToken: Token, now: Instant): (r: RefreshToken)
    ensures Matches(r, userId, env.hashToken(rawRefreshToken))
    ensures r.expiresAt - now == env.jwt.refreshTokenValidityMs
  {
    RefreshToken(userId, now + env.jwt.refreshTokenValidityMs, env.hashToken(rawRefreshToken))
  }

  /** `storeRefreshToken(userId, rawRefreshToken)` at time `now`. */
  function StoreRefreshToken(env: Env, ledger: seq<RefreshToken>, userId: UserId, rawRefreshToken: Token, now: Instant)
    : (r: seq<RefreshToken>)
    ensures |r| == |ledger| + 1 && r[..|ledger|] == ledger
    ensures r[|ledger|].userId == userId && r[|ledger|].hashedToken == env.hashToken(rawRefreshToken)
    ensures r[|ledger|].expiresAt == now + env.jwt.refreshTokenValidityMs
  {
    Save(ledger, LedgerRecord(env, userId, rawRefreshToken, now))
  }

  /** Some user of the directory has this email. */
  predicate EmailTaken(users: seq<User>, email: Email) {
    exists i :: 0 <= i < |users| && users[i].email == email
  }

  /** Some user of the directory has this id. */
  predicate UserExists(users: seq<User>, id: UserId) {
    exists i :: 0 <= i < |users| && users[i].id == id
  }

  /**
   * `register(email, password)`. The duplicate check looks up the TRIMMED email, but the user is
   * saved under the email as given. The new user's ObjectId is its position in the directory.
   */
  function Register(env: Env, st: Store, email: Email, password: Password): (r: Step<User>)
    ensures r.result.Failure? <==> EmailTaken(st.users, Trim(email))
    ensures r.result.Failure? ==> r.result.error == Conflict && r.store == st
    ensures r.result.Success? ==>
      && r.result.value == User(|st.users|, email, env.hashEncoder.encode(password))
      && r.store.users == st.users + [r.result.value]
      && r.store.ledger == st.ledger
  {
    if FindByEmail(st.users, Trim(email)).Some? then Step(st, Failure(Conflict))
    else
      var user := User(|st.users|, email, env.hashEncoder.encode(password));
      Step(st.(users := Save(st.users, user)), Success(user))
  }

  /** `login(email, password)` at time `now`. The lookup uses the email as given, untrimmed. */
  function Login(env: Env, st: Store, email: Email, password: Password, now: Instant): (r: Step<TokenPair>)
    ensures r.result.Failure? <==>
      || !EmailTaken(st.users, email)
      || !env.hashEncoder.matches(password, FindByEmail(st.users, email).value.hashedPassword)
    ensures r.result.Failure? ==> r.result.error == InvalidCredentials && r.store == st
    ensures r.result.Success? ==>
      var user := FindByEmail(st.users, email).value;
      && user in st.users && user.email == email
      && r.result.value == TokenPair(env.jwt.generateAccessToken(user.id, now), env.jwt.generateRefreshToken(user.id, now))
      && r.store.users == st.users
      && |r.store.ledger| == |st.ledger| + 1 && r.store.ledger[..|st.ledger|] == st.ledger
      && r.store.ledger[|st.ledger|] == LedgerRecord(env, user.id, r.result.value.refreshToken, now)
  {
    match FindByEmail(st.users, email)
    case None => Step(st, Failure(InvalidCredentials))
    case Some(user) =>
      if !env.hashEncoder.matches(password, user.hashedPassword) then Step(st, Failure(InvalidCredentials))
      else
        var newAccessToken := env.jwt.generateAccessToken(user.id, now);
        var newRefreshToken := env.jwt.generateRefreshToken(user.id, now);
        Step(st.(ledger := StoreRefreshToken(env, st.ledger, user.id, newRefreshToken, now)),
             Success(TokenPair(newAccessToken, newRefreshToken)))
  }

  /**
   * `refresh(token)` at time `now`, as one atomic unit: validate, find the subject, find the record,
   * delete it, mint a new pair and record the new fingerprint. Every failure happens before the
   * delete, so a failed call leaves both stores as they were.
   */
  function Refresh(env: Env, st: Store, token: Token, now: Instant): (r: Step<TokenPair>)
    ensures var userId := env.jwt.getUserIdFromToken(token);
      r.result.Success? <==>
        && env.jwt.validateRefreshToken(token, now)
        && UserExists(st.users, userId)
        && Recognised(st.ledger, userId, env.hashToken(token))
    ensures r.result.Failure? ==> r.result.error == Unauthorized && r.store == st
    ensures r.result.Success? ==>
      var userId := env.jwt.getUserIdFromToken(token);
      var minted := LedgerRecord(env, userId, r.result.value.refreshToken, now);
      && r.result.value == TokenPair(env.jwt.generateAccessToken(userId, now), env.jwt.generateRefreshToken(userId, now))
      && r.store.users == st.users
      && |r.store.ledger| >= 1 && r.store.ledger[|r.store.ledger| - 1] == minted
      && (forall k :: 0 <= k < |r.store.ledger| - 1 ==>
            r.store.ledger[k] in st.ledger && !Matches(r.store.ledger[k], userId, env.hashToken(token)))
      && (forall k :: 0 <= k < |st.ledger| && !Matches(st.ledger[k], userId, env.hashToken(token)) ==>
            st.ledger[k] in r.store.ledger)
  {
    if !env.jwt.validateRefreshToken(token, now) then Step(st, Failure(Unauthorized))
    else
      var userId := env.jwt.getUserIdFromToken(token);
      match FindById(st.users, userId)
      case None => Step(st, Failure(Unauthorized))
      case Some(user) =>
        var hashed := env.hashToken(token);
        if FindByUserIdAndHashedToken(st.ledger, user.id, hashed).None? then Step(st, Failure(Unauthorized))
        else
          DeleteKeepsOthers(st.ledger, user.id, hashed);
          var remaining := DeleteByUserIdAndHashedToken(st.ledger, user.id, hashed);
          var newAccessToken := env.jwt.generateAccessToken(userId, now);
          var newRefreshToken := env.jwt.generateRefreshToken(userId, now);
          Step(st.(ledger := StoreRefreshToken(env, remaining, user.id, newRefreshToken, now)),
               Success(TokenPair(newAccessToken, newRefreshToken)))
  }

  /** The refresh token an operation handed out, if any. */
  function Minted(r: Result<TokenPair, AuthError>): set<Token> {
    if r.Success? then {r.value.refreshToken} else {}
  }

  /** The fingerprint is that of some refresh token handed out by login or refresh. */
  ghost predicate FromIssued(env: Env, issued: set<Token>, hashed: Fingerprint) {
    exists t :: t in issued && env.hashToken(t) == hashed
  }

  /** No user's email is the trimmed email of a user saved after it. */
  ghost predicate EmailsFresh(users: seq<User>) {
    forall i, j :: 0 <= i < j < |users| ==> users[i].email != Trim(users[j].email)
  }

  /**
   * What every operation keeps: ObjectIds are positions (hence unique); no user's email is the
   * trimmed email of a user registered after it; every ledger record belongs to an existing user
   * and holds the fingerprint of an issued token, never anything else.
   */
  ghost predicate Invariant(env: Env, st: Store, issued: set<Token>) {
    && (forall i :: 0 <= i < |st.users| ==> st.users[i].id == i)
    && EmailsFresh(st.users)
    && (forall k :: 0 <= k < |st.ledger| ==> UserExists(st.users, st.ledger[k].userId))
    && (forall k :: 0 <= k < |st.ledger| ==> FromIssued(env, issued, st.ledger[k].hashedToken))
  }
}
