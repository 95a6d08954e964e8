/** What the session manager's operations guarantee across calls. */
module SessionProperties {
  import opened Wrappers
  import opened Text
  import opened Repository
  import opened Session

  /** Registration keeps the invariant; it issues no token. */
  lemma RegisterPreservesInvariant(env: Env, st: Store, issued: set<Token>, email: Email, password: Password)
    requires Invariant(env, st, issued)
    ensures var r := Register(env, st, email, password);
      Invariant(env, r.store, issued)
  {
    var r := Register(env, st, email, password);
    if r.result.Success? {
      var users' := r.store.users;
      assert forall i :: 0 <= i < |st.users| ==> users'[i] == st.users[i];
      assert EmailsFresh(users') by {
        forall i, j | 0 <= i < j < |users'|
          ensures users'[i].email != Trim(users'[j].email)
        {
          if j == |st.users| {
            assert users'[j].email == email;
            assert !EmailTaken(st.users, Trim(email));
          }
        }
      }
      forall k | 0 <= k < |st.ledger|
        ensures UserExists(users', st.ledger[k].userId)
      {
        assert UserExists(st.users, st.ledger[k].userId);
        var i :| 0 <= i < |st.users| && st.users[i].id == st.ledger[k].userId;
        assert users'[i] == st.users[i];
      }
    }
  }

  /** Login keeps the invariant once the refresh token it hands out counts as issued. */
  lemma LoginPreservesInvariant(env: Env, st: Store, issued: set<Token>, email: Email, password: Password, now: Instant)
    requires Invariant(env, st, issued)
    ensures var r := Login(env, st, email, password, now);
      Invariant(env, r.store, issued + Minted(r.result))
  {
    var r := Login(env, st, email, password, now);
    if r.result.Success? {
      var issued' := issued + Minted(r.result);
      var ledger' := r.store.ledger;
      var user := FindByEmail(st.users, email).value;
      forall k | 0 <= k < |ledger'|
        ensures UserExists(st.users, ledger'[k].userId) && FromIssued(env, issued', ledger'[k].hashedToken)
      {
        if k < |st.ledger| {
          assert ledger'[k] == ledger'[..|st.ledger|][k];
        } else {
          assert ledger'[k] in multiset(ledger');
          assert ledger'[k] == LedgerRecord(env, user.id, r.result.value.refreshToken, now);
          var i :| 0 <= i < |st.users| && st.users[i] == user;
          assert r.result.value.refreshToken in issued';
        }
      }
    }
  }

  /** Refresh keeps the invariant once the refresh token it hands out counts as issued. */
  lemma RefreshPreservesInvariant(env: Env, st: Store, issued: set<Token>, token: Token, now: Instant)
    requires Invariant(env, st, issued)
    ensures var r := Refresh(env, st, token, now);
      Invariant(env, r.store, issued + Minted(r.result))
  {
    var r := Refresh(env, st, token, now);
    if r.result.Success? {
      var issued' := issued + Minted(r.result);
      var ledger' := r.store.ledger;
      var userId := env.jwt.getUserIdFromToken(token);
      var minted := LedgerRecord(env, userId, r.result.value.refreshToken, now);
      forall k | 0 <= k < |ledger'|
        ensures UserExists(st.users, ledger'[k].userId) && FromIssued(env, issued', ledger'[k].hashedToken)
      {
        var t := ledger'[k];
        assert multiset(ledger')[t] > 0;
        if t == minted {
          assert r.result.value.refreshToken in issued';
        } else {
          assert multiset(st.ledger)[t] > 0;
          assert t in st.ledger;
          var j :| 0 <= j < |st.ledger| && st.ledger[j] == t;
        }
      }
    }
  }

  /** Deleting ledger records keeps the invariant: what is left was already there. */
  lemma DeletePreservesInvariant(env: Env, st: Store, issued: set<Token>, userId: UserId, hashed: Fingerprint)
    requires Invariant(env, st, issued)
    ensures Invariant(env, st.(ledger := DeleteByUserIdAndHashedToken(st.ledger, userId, hashed)), issued)
  {
    var remaining := DeleteByUserIdAndHashedToken(st.ledger, userId, hashed);
    DeleteKeepsOthers(st.ledger, userId, hashed);
    forall k | 0 <= k < |remaining|
      ensures UserExists(st.users, remaining[k].userId) && FromIssued(env, issued, remaining[k].hashedToken)
    {
      var j :| 0 <= j < |st.ledger| && st.ledger[j] == remaining[k];
    }
  }

  /** A successful refresh, counted record by record: every record matching the redeemed token's
      owner and fingerprint is gone, every other record keeps its multiplicity, and exactly one
      record for the new token is added. */
  lemma RefreshLedgerCounts(env: Env, st: Store, token: Token, now: Instant)
    requires Refresh(env, st, token, now).result.Success?
    ensures var r := Refresh(env, st, token, now);
      var userId := env.jwt.getUserIdFromToken(token);
      var minted := LedgerRecord(env, userId, r.result.value.refreshToken, now);
      forall t :: multiset(r.store.ledger)[t] ==
        (if Matches(t, userId, env.hashToken(token)) then 0 else multiset(st.ledger)[t])
        + (if t == minted then 1 else 0)
  {
    var r := Refresh(env, st, token, now);
    var userId := env.jwt.getUserIdFromToken(token);
    var minted := LedgerRecord(env, userId, r.result.value.refreshToken, now);
    var remaining := DeleteByUserIdAndHashedToken(st.ledger, userId, env.hashToken(token));
    DeleteCounts(st.ledger, userId, env.hashToken(token));
    assert r.store.ledger == remaining + [minted];
    assert multiset(r.store.ledger) == multiset(remaining) + multiset{minted};
  }

  /** Right after its rotation, no ledger record matches the redeemed token's owner and fingerprint
      any more, unless the new token happens to have the same fingerprint. */
  lemma RedeemedTokenRetired(env: Env, st: Store, token: Token, now: Instant)
    requires Refresh(env, st, token, now).result.Success?
    ensures var r := Refresh(env, st, token, now);
      env.hashToken(r.result.value.refreshToken) != env.hashToken(token) ==>
        !Recognised(r.store.ledger, env.jwt.getUserIdFromToken(token), env.hashToken(token))
  {
    var r := Refresh(env, st, token, now);
    var userId := env.jwt.getUserIdFromToken(token);
    var hashed := env.hashToken(token);
    if env.hashToken(r.result.value.refreshToken) != hashed {
      forall k | 0 <= k < |r.store.ledger|
        ensures !Matches(r.store.ledger[k], userId, hashed)
      {
        assert multiset(r.store.ledger)[r.store.ledger[k]] > 0;
      }
    }
  }

  /**
   * One-time use: right after `token` has been redeemed, the next refresh with it fails with
   * Unauthorized, whatever the clock says (assuming the new token's fingerprint differs, which
   * collision resistance of the digest makes overwhelmingly likely).
   */
  lemma ReplayRejected(env: Env, st: Store, token: Token, now: Instant, later: Instant)
    requires Refresh(env, st, token, now).result.Success?
    requires env.hashToken(Refresh(env, st, token, now).result.value.refreshToken) != env.hashToken(token)
    ensures Refresh(env, Refresh(env, st, token, now).store, token, later).result == Failure(Unauthorized)
  {
    RedeemedTokenRetired(env, st, token, now);
  }

  /**
   * Whatever the second call presents, a replayed token never yields a second rotation: of two
   * refreshes with the same token, at most the first succeeds.
   */
  lemma AtMostOneRotation(env: Env, st: Store, token: Token, now: Instant, later: Instant)
    requires || Refresh(env, st, token, now).result.Failure?
             || env.hashToken(Refresh(env, st, token, now).result.value.refreshToken) != env.hashToken(token)
    ensures var first := Refresh(env, st, token, now);
      var second := Refresh(env, first.store, token, later);
      !(first.result.Success? && second.result.Success?)
  {
    if Refresh(env, st, token, now).result.Success? {
      ReplayRejected(env, st, token, now, later);
    }
  }

  /** A client's call to the service. */
  datatype Request =
    | RegisterRequest(email: Email, password: Password)
    | LoginRequest(email: Email, password: Password, now: Instant)
    | RefreshRequest(token: Token, now: Instant)

  /** The store after some calls, and the refresh tokens they handed out. */
  datatype Served = Served(store: Store, minted: set<Token>)

  function Serve(env: Env, st: Store, q: Request): Served {
    match q
    case RegisterRequest(email, password) => Served(Register(env, st, email, password).store, {})
    case LoginRequest(email, password, now) =>
      var l := Login(env, st, email, password, now);
      Served(l.store, Minted(l.result))
    case RefreshRequest(token, now) =>
      var r := Refresh(env, st, token, now);
      Served(r.store, Minted(r.result))
  }

  /** The calls `qs`, one after another, starting from `st`. */
  function ServeAll(env: Env, st: Store, qs: seq<Request>): Served
    decreases |qs|
  {
    if qs == [] then Served(st, {})
    else
      var first := Serve(env, st, qs[0]);
      var rest := ServeAll(env, first.store, qs[1..]);
      Served(rest.store, first.minted + rest.minted)
  }

  /** An (owner, fingerprint) the ledger does not recognise stays unrecognised through any one call,
      unless that call hands out a token with the same fingerprint. */
  lemma ServeKeepsRetired(env: Env, st: Store, q: Request, userId: UserId, hashed: Fingerprint)
    requires !Recognised(st.ledger, userId, hashed)
    ensures var s := Serve(env, st, q);
      (forall t :: t in s.minted ==> env.hashToken(t) != hashed) ==> !Recognised(s.store.ledger, userId, hashed)
  {
    var s := Serve(env, st, q);
    if (forall t :: t in s.minted ==> env.hashToken(t) != hashed) {
      forall k | 0 <= k < |s.store.ledger|
        ensures !Matches(s.store.ledger[k], userId, hashed)
      {
        match q
        case RegisterRequest(_, _) =>
        case LoginRequest(email, password, now) =>
          var l := Login(env, st, email, password, now);
          if l.result.Success? {
            if k < |st.ledger| {
              assert s.store.ledger[k] == s.store.ledger[..|st.ledger|][k];
            } else {
              assert l.result.value.refreshToken in s.minted;
            }
          }
        case RefreshRequest(token, now) =>
          var r := Refresh(env, st, token, now);
          if r.result.Success? {
            if k < |s.store.ledger| - 1 {
              assert s.store.ledger[k] in st.ledger;
            } else {
              assert r.result.value.refreshToken in s.minted;
            }
          }
      }
    }
  }

  /** ... and through any sequence of calls none of which hands out a token with that fingerprint. */
  lemma {:induction false} ServeAllKeepsRetired(env: Env, st: Store, qs: seq<Request>, userId: UserId, hashed: Fingerprint)
    requires !Recognised(st.ledger, userId, hashed)
    ensures var s := ServeAll(env, st, qs);
      (forall t :: t in s.minted ==> env.hashToken(t) != hashed) ==> !Recognised(s.store.ledger, userId, hashed)
    decreases |qs|
  {
    if qs != [] {
      var first := Serve(env, st, qs[0]);
      var s := ServeAll(env, st, qs);
      if (forall t :: t in s.minted ==> env.hashToken(t) != hashed) {
        ServeKeepsRetired(env, st, qs[0], userId, hashed);
        assert !Recognised(first.store.ledger, userId, hashed);
        ServeAllKeepsRetired(env, first.store, qs[1..], userId, hashed);
      }
    }
  }

  /**
   * One-time use over a whole session: once `token` has been redeemed, a refresh with it fails
   * after any calls in between, so long as none of them hands out a token with its fingerprint.
   */
  lemma RedeemedTokenNeverAccepted(env: Env, st: Store, token: Token, now: Instant, qs: seq<Request>, later: Instant)
    requires Refresh(env, st, token, now).result.Success?
    requires env.hashToken(Refresh(env, st, token, now).result.value.refreshToken) != env.hashToken(token)
    requires forall t :: t in ServeAll(env, Refresh(env, st, token, now).store, qs).minted ==>
      env.hashToken(t) != env.hashToken(token)
    ensures Refresh(env, ServeAll(env, Refresh(env, st, token, now).store, qs).store, token, later).result
      == Failure(Unauthorized)
  {
    RedeemedTokenRetired(env, st, token, now);
    ServeAllKeepsRetired(env, Refresh(env, st, token, now).store, qs, env.jwt.getUserIdFromToken(token), env.hashToken(token));
  }

  /** The codec contract the session manager relies on: a refresh token it mints carries its subject
      and, at time `at`, passes validation. */
  ghost predicate MintsValid(env: Env, userId: UserId, issuedAt: Instant, at: Instant) {
    var t := env.jwt.generateRefreshToken(userId, issuedAt);
    env.jwt.getUserIdFromToken(t) == userId && env.jwt.validateRefreshToken(t, at)
  }

  /** A refresh token handed out by a successful login is redeemable while the codec accepts it. */
  lemma LoginTokenRedeemable(env: Env, st: Store, email: Email, password: Password, now: Instant, later: Instant)
    requires Login(env, st, email, password, now).result.Success?
    requires MintsValid(env, FindByEmail(st.users, email).value.id, now, later)
    ensures var l := Login(env, st, email, password, now);
      Refresh(env, l.store, l.result.value.refreshToken, later).result.Success?
  {
    var l := Login(env, st, email, password, now);
    var user := FindByEmail(st.users, email).value;
    var rec := LedgerRecord(env, user.id, l.result.value.refreshToken, now);
    assert l.store.ledger[|st.ledger|] == rec;
    assert Matches(rec, user.id, env.hashToken(l.result.value.refreshToken));
    var i :| 0 <= i < |st.users| && st.users[i] == user;
  }

  /** The refresh token handed out by a successful refresh is itself redeemable while the codec
      accepts it: rotation always leaves the session a way forward. */
  lemma RefreshTokenRedeemable(env: Env, st: Store, token: Token, now: Instant, later: Instant)
    requires Refresh(env, st, token, now).result.Success?
    requires MintsValid(env, env.jwt.getUserIdFromToken(token), now, later)
    ensures var r := Refresh(env, st, token, now);
      Refresh(env, r.store, r.result.value.refreshToken, later).result.Success?
  {
    var r := Refresh(env, st, token, now);
    var userId := env.jwt.getUserIdFromToken(token);
    var rec := LedgerRecord(env, userId, r.result.value.refreshToken, now);
    assert multiset(r.store.ledger)[rec] > 0;
    assert rec in r.store.ledger;
    var k :| 0 <= k < |r.store.ledger| && r.store.ledger[k] == rec;
    assert Matches(r.store.ledger[k], userId, env.hashToken(r.result.value.refreshToken));
  }

  /**
   * The end-to-end session: on an empty store, register, log in, rotate T1 into T2, replay T1
   * (rejected), then redeem T2 (accepted).
   */
  lemma EndToEnd(env: Env, email: Email, password: Password, t0: Instant, t1: Instant, t2: Instant, t3: Instant)
    requires env.hashEncoder.matches(password, env.hashEncoder.encode(password))
    requires MintsValid(env, 0, t0, t1) && MintsValid(env, 0, t1, t3)
    requires env.hashToken(env.jwt.generateRefreshToken(0, t1)) != env.hashToken(env.jwt.generateRefreshToken(0, t0))
    ensures
      var reg := Register(env, Store([], []), email, password);
      var login := Login(env, reg.store, email, password, t0);
      var rot := Refresh(env, login.store, login.result.value.refreshToken, t1);
      var replay := Refresh(env, rot.store, login.result.value.refreshToken, t2);
      var next := Refresh(env, replay.store, rot.result.value.refreshToken, t3);
      && reg.result == Success(User(0, email, env.hashEncoder.encode(password)))
      && login.result.Success?
      && rot.result.Success?
      && rot.result.value.refreshToken != login.result.value.refreshToken
      && replay.result == Failure(Unauthorized)
      && next.result.Success?
  {
    var reg := Register(env, Store([], []), email, password);
    assert reg.store.users == [User(0, email, env.hashEncoder.encode(password))];
    var login := Login(env, reg.store, email, password, t0);
    LoginTokenRedeemable(env, reg.store, email, password, t0, t1);
    var rot := Refresh(env, login.store, login.result.value.refreshToken, t1);
    ReplayRejected(env, login.store, login.result.value.refreshToken, t1, t2);
    RefreshTokenRedeemable(env, login.store, login.result.value.refreshToken, t1, t3);
  }

  /**
   * Registration trims the email for its duplicate check but saves it untrimmed, so an email with
   * surrounding whitespace registers twice and the directory ends up with two users under one email.
   */
  lemma PaddedEmailRegistersTwice(env: Env, st: Store, email: Email, password: Password)
    requires Trim(email) != email && !EmailTaken(st.users, Trim(email))
    ensures
      var first := Register(env, st, email, password);
      var second := Register(env, first.store, email, password);
      && first.result.Success? && second.result.Success?
      && second.store.users == st.users + [first.result.value, second.result.value]
      && first.result.value.email == second.result.value.email == email
  {
    var first := Register(env, st, email, password);
    assert first.store.users == st.users + [first.result.value];
    assert !EmailTaken(first.store.users, Trim(email)) by {
      forall i | 0 <= i < |first.store.users|
        ensures first.store.users[i].email != Trim(email)
      {
        if i < |st.users| { assert first.store.users[i] == st.users[i]; }
      }
    }
  }

  /** Such emails exist: " a" trims to "a". */
  lemma PaddedEmailExample()
    ensures Trim(" a") == "a" != " a"
  {
    assert !IsWhitespace('a');
    assert TrimStart("a") == "a";
    assert " a"[1..] == "a";
    assert TrimStart(" a") == "a";
    assert TrimEnd("a") == "a";
  }

  /** The directory's email guarantee: emails already in trimmed form are unique. */
  lemma TrimmedEmailsUnique(env: Env, st: Store, issued: set<Token>, i: nat, j: nat)
    requires Invariant(env, st, issued)
    requires i < |st.users| && j < |st.users| && i != j
    requires Trim(st.users[i].email) == st.users[i].email && Trim(st.users[j].email) == st.users[j].email
    ensures st.users[i].email != st.users[j].email
  {
    assert EmailsFresh(st.users);
    if i < j {
      assert st.users[i].email != Trim(st.users[j].email);
    } else {
      assert st.users[j].email != Trim(st.users[i].email);
    }
  }
}
