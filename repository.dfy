/**
 * The two persisted stores the session manager works on, and the queries it runs against them:
 * the user directory (`UserRepository`) and the refresh-token ledger (`RefreshTokenRepository`).
 * Both are collections in insertion order; the derived queries look for the first match.
 */
module Repository {
  import opened Wrappers

  /** A user's ObjectId. */
  type UserId = nat
  type Email = string
  /** A password digest produced by the password hasher. */
  type Digest = string
  /** The stored one-way digest of a raw refresh token. */
  type Fingerprint = string
  /** A point in time, in milliseconds since the epoch. */
  type Instant = int

  datatype User = User(id: UserId, email: Email, hashedPassword: Digest)

  /** A ledger record: never the raw token, only its fingerprint. */
  datatype RefreshToken = RefreshToken(userId: UserId, expiresAt: Instant, hashedToken: Fingerprint)

  /** The first element of `s` that satisfies `p`, if any. */
  function FindFirst<T>(s: seq<T>, p: T -> bool): (r: Option<T>)
    ensures r.Some? ==> r.value in s && p(r.value)
    ensures r.None? <==> forall i :: 0 <= i < |s| ==> !p(s[i])
  {
    if s == [] then None
    else if p(s[0]) then Some(s[0])
    else FindFirst(s[1..], p)
  }

  /** `userRepository.findByEmail(email)`. */
  function FindByEmail(users: seq<User>, email: Email): (r: Option<User>)
    ensures r.Some? ==> r.value in users && r.value.email == email
    ensures r.None? <==> forall i :: 0 <= i < |users| ==> users[i].email != email
  {
    FindFirst(users, (u: User) => u.email == email)
  }

  /** `userRepository.findById(id)`. */
  function FindById(users: seq<User>, id: UserId): (r: Option<User>)
    ensures r.Some? ==> r.value in users && r.value.id == id
    ensures r.None? <==> forall i :: 0 <= i < |users| ==> users[i].id != id
  {
    FindFirst(users, (u: User) => u.id == id)
  }

  predicate Matches(t: RefreshToken, userId: UserId, hashed: Fingerprint) {
    t.userId == userId && t.hashedToken == hashed
  }

  /** Some record of the ledger belongs to `userId` and carries fingerprint `hashed`. */
  predicate Recognised(ledger: seq<RefreshToken>, userId: UserId, hashed: Fingerprint) {
    exists k :: 0 <= k < |ledger| && Matches(ledger[k], userId, hashed)
  }

  /** `refreshTokenRepository.findByUserIdAndHashedToken(userId, hashed)`. */
  function FindByUserIdAndHashedToken(ledger: seq<RefreshToken>, userId: UserId, hashed: Fingerprint)
    : (r: Option<RefreshToken>)
    ensures r.Some? ==> r.value in ledger && Matches(r.value, userId, hashed)
    ensures r.None? <==> !Recognised(ledger, userId, hashed)
  {
    FindFirst(ledger, (t: RefreshToken) => Matches(t, userId, hashed))
  }

  /**
   * `refreshTokenRepository.deleteByUserIdAndHashedToken(userId, hashed)`: every record except the
   * matching ones, in their order. No record it leaves matches; what it keeps is stated by
   * DeleteKeepsOthers and DeleteCounts.
   */
  function DeleteByUserIdAndHashedToken(ledger: seq<RefreshToken>, userId: UserId, hashed: Fingerprint)
    : (r: seq<RefreshToken>)
    ensures |r| <= |ledger|
    ensures !Recognised(r, userId, hashed)
  {
    if ledger == [] then []
    else
      var rest := DeleteByUserIdAndHashedToken(ledger[1..], userId, hashed);
      if Matches(ledger[0], userId, hashed) then rest else [ledger[0]] + rest
  }

  /** After the delete, no record matches, every remaining record was there before, and every
      record that does not match is still there. */
  lemma {:induction false} DeleteKeepsOthers(ledger: seq<RefreshToken>, userId: UserId, hashed: Fingerprint)
    ensures var r := DeleteByUserIdAndHashedToken(ledger, userId, hashed);
      && |r| <= |ledger|
      && (forall k :: 0 <= k < |r| ==> r[k] in ledger && !Matches(r[k], userId, hashed))
      && (forall k :: 0 <= k < |ledger| && !Matches(ledger[k], userId, hashed) ==> ledger[k] in r)
  {
    if ledger != [] {
      DeleteKeepsOthers(ledger[1..], userId, hashed);
      assert forall k :: 1 <= k < |ledger| ==> ledger[k] == ledger[1..][k - 1];
    }
  }

  /** The delete keeps every other record with its multiplicity, and no matching one. */
  lemma {:induction false} DeleteCounts(ledger: seq<RefreshToken>, userId: UserId, hashed: Fingerprint)
    ensures var r := DeleteByUserIdAndHashedToken(ledger, userId, hashed);
      forall t ::
        multiset(r)[t] == if Matches(t, userId, hashed) then 0 else multiset(ledger)[t]
  {
    if ledger != [] {
      var rest := DeleteByUserIdAndHashedToken(ledger[1..], userId, hashed);
      DeleteCounts(ledger[1..], userId, hashed);
      assert ledger == [ledger[0]] + ledger[1..];
      assert multiset(ledger) == multiset{ledger[0]} + multiset(ledger[1..]);
      var r := DeleteByUserIdAndHashedToken(ledger, userId, hashed);
      assert multiset(r) == if Matches(ledger[0], userId, hashed) then multiset(rest) else multiset{ledger[0]} + multiset(rest) by {
        if !Matches(ledger[0], userId, hashed) {
          assert r == [ledger[0]] + rest;
        }
      }
      forall t
        ensures multiset(r)[t] == if Matches(t, userId, hashed) then 0 else multiset(ledger)[t]
      {
        assert multiset(ledger)[t] == (if t == ledger[0] then 1 else 0) + multiset(ledger[1..])[t];
        assert multiset(rest)[t] == if Matches(t, userId, hashed) then 0 else multiset(ledger[1..])[t];
        if Matches(ledger[0], userId, hashed) {
          assert multiset(r)[t] == multiset(rest)[t];
        } else {
          assert multiset(r)[t] == (if t == ledger[0] then 1 else 0) + multiset(rest)[t];
        }
      }
    }
  }

  /** `repository.save(record)` of a new record: it is appended, nothing is overwritten. */
  function Save<T>(s: seq<T>, x: T): (r: seq<T>)
    ensures |r| == |s| + 1 && r[..|s|] == s && r[|s|] == x
  {
    s + [x]
  }
}
