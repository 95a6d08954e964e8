/**
 * `AuthService` as the object the source has: the user directory and the refresh-token ledger are
 * fields the methods update in place, and each method is proved to move the stores exactly as the
 * corresponding function of module Session does, keeping Session.Invariant.
 */
module Auth {
  import opened Wrappers
  import opened Text
  import opened Repository
  import Session
  import SessionProperties

  class AuthService {
    /** The injected collaborators: JWT codec, password hasher, token digest. */
    const env: Session.Env
    /** The user directory (`userRepository`). */
    var users: seq<User>
    /** The refresh-token ledger (`refreshTokenRepository`). */
    var ledger: seq<RefreshToken>
    /** Every refresh token this service has handed out. */
    ghost var issued: set<Session.Token>

    function Snapshot(): Session.Store
      reads this
    {
      Session.Store(users, ledger)
    }

    ghost predicate Valid()
      reads this
    {
      Session.Invariant(env, Snapshot(), issued)
    }

    constructor (env: Session.Env)
      ensures Valid()
      ensures this.env == env && users == [] && ledger == [] && issued == {}
    {
      this.env := env;
      users := [];
      ledger := [];
      issued := {};
    }

    /** `storeRefreshToken(userId, rawRefreshToken)`: saves one new record holding the token's
        fingerprint and its expiry; the raw token itself is only remembered as issued. */
    method StoreRefreshToken(userId: UserId, rawRefreshToken: Session.Token, now: Instant)
      requires Valid() && Session.UserExists(users, userId)
      modifies this`ledger, this`issued
      ensures Valid()
      ensures ledger == old(ledger) + [RefreshToken(userId, now + env.jwt.refreshTokenValidityMs, env.hashToken(rawRefreshToken))]
      ensures issued == old(issued) + {rawRefreshToken}
    {
      var hashed := env.hashToken(rawRefreshToken);
      var expiresAt := now + env.jwt.refreshTokenValidityMs;
      ledger := Save(ledger, RefreshToken(userId, expiresAt, hashed));
      issued := issued + {rawRefreshToken};
      assert Session.FromIssued(env, issued, hashed) by {
        assert rawRefreshToken in issued;
      }
      assert Session.EmailsFresh(users);
      forall k | 0 <= k < |ledger|
        ensures Session.UserExists(users, ledger[k].userId)
      {
        if k < |ledger| - 1 {
          assert ledger[k] == old(ledger)[k];
        }
      }
      forall k | 0 <= k < |ledger|
        ensures Session.FromIssued(env, issued, ledger[k].hashedToken)
      {
        if k < |ledger| - 1 {
          assert ledger[k] == old(ledger)[k];
          var t :| t in old(issued) && env.hashToken(t) == ledger[k].hashedToken;
          assert t in issued;
        }
      }
    }

    /** `register(email, password)`. */
    method Register(email: Email, password: Session.Password) returns (r: Result<User, Session.AuthError>)
      requires Valid()
      modifies this`users
      ensures Valid()
      ensures Session.Register(env, old(Snapshot()), email, password) == Session.Step(Snapshot(), r)
      ensures r.Failure? <==> Session.EmailTaken(old(users), Trim(email))
      ensures r.Failure? ==> r.error == Session.Conflict && users == old(users)
      ensures r.Success? ==> users == old(users) + [User(|old(users)|, email, env.hashEncoder.encode(password))]
    {
      SessionProperties.RegisterPreservesInvariant(env, Snapshot(), issued, email, password);
      var existing := FindByEmail(users, Trim(email));
      if existing.Some? {
        return Failure(Session.Conflict);
      }
      var user := User(|users|, email, env.hashEncoder.encode(password));
      users := Save(users, user);
      return Success(user);
    }

    /** Lines shared by `login` and `refresh`: mint an access/refresh pair for `userId` and record
        the refresh token's fingerprint. */
    method IssueTokens(userId: UserId, now: Instant) returns (pair: Session.TokenPair)
      requires Valid() && Session.UserExists(users, userId)
      modifies this`ledger, this`issued
      ensures Valid()
      ensures pair == Session.TokenPair(env.jwt.generateAccessToken(userId, now), env.jwt.generateRefreshToken(userId, now))
      ensures ledger == Session.StoreRefreshToken(env, old(ledger), userId, pair.refreshToken, now)
      ensures issued == old(issued) + {pair.refreshToken}
    {
      var newAccessToken := env.jwt.generateAccessToken(userId, now);
      var newRefreshToken := env.jwt.generateRefreshToken(userId, now);
      StoreRefreshToken(userId, newRefreshToken, now);
      pair := Session.TokenPair(newAccessToken, newRefreshToken);
    }

    /** `login(email, password)` at time `now`. */
    method Login(email: Email, password: Session.Password, now: Instant) returns (r: Result<Session.TokenPair, Session.AuthError>)
      requires Valid()
      modifies this`ledger, this`issued
      ensures Valid()
      ensures Session.Login(env, old(Snapshot()), email, password, now) == Session.Step(Snapshot(), r)
      ensures issued == old(issued) + Session.Minted(r)
      ensures r.Failure? ==> r.error == Session.InvalidCredentials && ledger == old(ledger)
    {
      var found := FindByEmail(users, email);
      if found.None? {
        return Failure(Session.InvalidCredentials);
      }
      var user := found.value;
      if !env.hashEncoder.matches(password, user.hashedPassword) {
        return Failure(Session.InvalidCredentials);
      }
      assert Session.UserExists(users, user.id) by {
        var i :| 0 <= i < |users| && users[i] == user;
      }
      var pair := IssueTokens(user.id, now);
      return Success(pair);
    }

    /** The rotation at the heart of `refresh`: retire every record matching the presented token,
        then issue a new pair for the same subject. */
    method Rotate(userId: UserId, hashed: Fingerprint, now: Instant) returns (pair: Session.TokenPair)
      requires Valid() && Session.UserExists(users, userId)
      modifies this`ledger, this`issued
      ensures Valid()
      ensures pair == Session.TokenPair(env.jwt.generateAccessToken(userId, now), env.jwt.generateRefreshToken(userId, now))
      ensures ledger == Session.StoreRefreshToken(env, DeleteByUserIdAndHashedToken(old(ledger), userId, hashed), userId, pair.refreshToken, now)
      ensures issued == old(issued) + {pair.refreshToken}
    {
      SessionProperties.DeletePreservesInvariant(env, Snapshot(), issued, userId, hashed);
      ledger := DeleteByUserIdAndHashedToken(ledger, userId, hashed);
      pair := IssueTokens(userId, now);
    }

    /** `refresh(token)` at time `now`: one-time-use rotation, all or nothing. */
    method Refresh(token: Session.Token, now: Instant) returns (r: Result<Session.TokenPair, Session.AuthError>)
      requires Valid()
      modifies this`ledger, this`issued
      ensures Valid()
      ensures Session.Refresh(env, old(Snapshot()), token, now) == Session.Step(Snapshot(), r)
      ensures issued == old(issued) + Session.Minted(r)
      ensures r.Failure? ==> r.error == Session.Unauthorized && ledger == old(ledger)
    {
      if !env.jwt.validateRefreshToken(token, now) {
        return Failure(Session.Unauthorized);
      }
      var userId := env.jwt.getUserIdFromToken(token);
      var found := FindById(users, userId);
      if found.None? {
        return Failure(Session.Unauthorized);
      }
      var user := found.value;
      assert user.id == userId && Session.UserExists(users, user.id) by {
        var i :| 0 <= i < |users| && users[i] == user;
      }
      var hashed := env.hashToken(token);
      var record := FindByUserIdAndHashedToken(ledger, user.id, hashed);
      if record.None? {
        return Failure(Session.Unauthorized);
      }
      var pair := Rotate(user.id, hashed, now);
      return Success(pair);
    }
  }

  /** A client of the class: a redeemed refresh token presented a second time is refused. */
  method ReplayAgainstService(service: AuthService, token: Session.Token, now: Instant, later: Instant)
      returns (first: Result<Session.TokenPair, Session.AuthError>, second: Result<Session.TokenPair, Session.AuthError>)
    requires service.Valid()
    modifies service
    ensures service.Valid()
    ensures first.Success? && service.env.hashToken(first.value.refreshToken) != service.env.hashToken(token)
            ==> second == Failure(Session.Unauthorized)
  {
    ghost var before := service.Snapshot();
    first := service.Refresh(token, now);
    if first.Success? && service.env.hashToken(first.value.refreshToken) != service.env.hashToken(token) {
      SessionProperties.ReplayRejected(service.env, before, token, now, later);
    }
    second := service.Refresh(token, later);
  }
}
