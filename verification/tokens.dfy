/** The per-user access-token lifecycle: issue (inactive, no expiry),
    activate (same user, same token: active for twelve hours) and the lazy
    validity check, plus the `/start` command that dispatches between them.
    The document store is a map from user id to that user's single record;
    the clock and the newly generated token are parameters. */
module Tokens {
  import opened Common

  type UserId = int
  type Token = string

  /** Wall-clock time in microseconds, the resolution of `datetime`. */
  type Time = int

  /** A stored time in milliseconds: the store keeps datetimes as BSON
      dates, which have millisecond resolution, and the driver drops the
      sub-millisecond part when it writes one. */
  type Millis = int

  const MicrosPerMilli: int := 1000
  const MicrosPerHour: int := 60 * 60 * 1000000
  const TokenExpiryHours: int := 12
  const TokenLifetime: int := TokenExpiryHours * MicrosPerHour

  /** Length of the textual form of a UUID, the only argument length
      `/start` treats as a token. */
  const TokenArgLength: nat := 36

  /** The millisecond a time falls in, as it is stored: the floor of the
      time in milliseconds. */
  function ToMillis(t: Time): (m: Millis)
    ensures m * MicrosPerMilli <= t < m * MicrosPerMilli + MicrosPerMilli
  {
    t / MicrosPerMilli
  }

  datatype Status = Inactive | Active

  datatype Record = Record(token: Token, status: Status, expiry: Option<Millis>)

  /** At most one record per user, by construction of the map. */
  type Store = map<UserId, Record>

  /** Every active record carries an expiry. */
  predicate WellFormed(s: Store)
  {
    forall u :: u in s && s[u].status == Active ==> s[u].expiry.Some?
  }

  datatype Issued = Issued(store: Store, token: Token)

  /** `generate_uuid`: upserts an inactive record with the new token and no
      expiry, replacing whatever the user had and leaving other users alone. */
  function Issue(s: Store, u: UserId, newToken: Token): (r: Issued)
    ensures r.token == newToken
    ensures r.store.Keys == s.Keys + {u}
    ensures r.store[u].token == newToken && r.store[u].status == Inactive && r.store[u].expiry == None
    ensures forall v :: v in s && v != u ==> r.store[v] == s[v]
  {
    Issued(s[u := Record(newToken, Inactive, None)], newToken)
  }

  datatype Activation = Activation(store: Store, modified: bool)

  /** The expiry `activate_token` writes at time `now`: twelve hours later,
      truncated to the millisecond by the store. */
  function StoredExpiry(now: Time): Millis
  {
    ToMillis(now + TokenLifetime)
  }

  /** `activate_token`: an update filtered on both the user id and the token.
      A match sets the status to active and the expiry to twelve hours from
      `now`, as stored. The result is the store's "modified count > 0", which
      is true exactly when the stored record actually changed; a mismatch or
      a missing record leaves the store as it was. */
  function Activate(s: Store, u: UserId, t: Token, now: Time): (r: Activation)
    ensures r.modified <==> r.store != s
    ensures !(u in s && s[u].token == t) ==> r.store == s
    ensures u in s && s[u].token == t ==>
      r.store.Keys == s.Keys &&
      r.store[u] == Record(t, Active, Some(StoredExpiry(now)))
    ensures forall v :: v in s && v != u ==> v in r.store && r.store[v] == s[v]
  {
    if u in s && s[u].token == t then
      var rec := Record(t, Active, Some(StoredExpiry(now)));
      if s[u] == rec then
        assert s[u := rec] == s;
        Activation(s, false)
      else
        assert s[u := rec][u] != s[u];
        Activation(s[u := rec], true)
    else
      Activation(s, false)
  }

  /** `has_valid_token`: a pure read. The stored expiry comes back as a
      datetime at a whole millisecond and is compared with the
      microsecond clock, which amounts to comparing the millisecond the
      clock is in. An active record whose expiry is absent counts as
      invalid; no sequence of `Issue`/`Activate` produces one. */
  function HasValidToken(s: Store, u: UserId, now: Time): (r: bool)
    ensures r <==> (u in s && s[u].status == Active && s[u].expiry.Some? &&
                    ToMillis(now) < s[u].expiry.value)
  {
    u in s && s[u].status == Active &&
    match s[u].expiry
    case Some(e) => now < e * MicrosPerMilli
    case None => false
  }

  /** The stored expiry is the activation's millisecond plus twelve hours. */
  lemma {:induction false} StoredExpiryShift(now: Time)
    ensures StoredExpiry(now) == ToMillis(now) + TokenLifetime / MicrosPerMilli
  {
    var q := ToMillis(now);
    assert q * 1000 + TokenLifetime <= now + TokenLifetime < q * 1000 + TokenLifetime + 1000;
    assert TokenLifetime == (TokenLifetime / 1000) * 1000;
    var m := StoredExpiry(now);
    assert m * 1000 <= now + TokenLifetime < m * 1000 + 1000;
  }

  lemma {:induction false} IssuePreservesWellFormed(s: Store, u: UserId, newToken: Token)
    requires WellFormed(s)
    ensures WellFormed(Issue(s, u, newToken).store)
  {
    var s' := Issue(s, u, newToken).store;
    forall v | v in s' && s'[v].status == Active
      ensures s'[v].expiry.Some?
    {
      assert v != u;
    }
  }

  lemma {:induction false} ActivatePreservesWellFormed(s: Store, u: UserId, t: Token, now: Time)
    requires WellFormed(s)
    ensures WellFormed(Activate(s, u, t, now).store)
  {
    var s' := Activate(s, u, t, now).store;
    forall v | v in s' && s'[v].status == Active
      ensures s'[v].expiry.Some?
    {
      if v != u || !(u in s && s[u].token == t) {
        assert v in s && s'[v] == s[v];
      }
    }
  }

  /** A token that has just been issued is never valid, whatever the time. */
  lemma FreshTokenNeverValid(s: Store, u: UserId, newToken: Token, now: Time)
    ensures !HasValidToken(Issue(s, u, newToken).store, u, now)
  {
  }

  /** Issuing the same user twice keeps only the second token. */
  lemma ReissueReplaces(s: Store, u: UserId, first: Token, second: Token, now: Time)
    requires first != second
    ensures var s2 := Issue(Issue(s, u, first).store, u, second).store;
      s2[u].token == second && !Activate(s2, u, first, now).modified
  {
  }

  /** Activating the issued token makes it valid exactly until twelve hours
      after the activation time rounded down to the millisecond, and then
      permanently invalid. */
  lemma {:induction false} ActivatedValidUntilExpiry(s: Store, u: UserId, newToken: Token, at: Time, now: Time)
    ensures var a := Activate(Issue(s, u, newToken).store, u, newToken, at);
      a.modified && (HasValidToken(a.store, u, now) <==> now < at - at % MicrosPerMilli + TokenLifetime)
  {
    var a := Activate(Issue(s, u, newToken).store, u, newToken, at);
    StoredExpiryShift(at);
    assert a.store[u].expiry == Some(ToMillis(at) + TokenLifetime / MicrosPerMilli);
    ValidBefore(now, at);
  }

  /** Comparing millisecond counts against the truncated activation time is
      comparing the clock against that time in microseconds. */
  lemma {:induction false} ValidBefore(now: Time, at: Time)
    ensures ToMillis(now) < ToMillis(at) + TokenLifetime / MicrosPerMilli <==>
      now < at - at % MicrosPerMilli + TokenLifetime
  {
    var q := ToMillis(at);
    assert at - at % 1000 == q * 1000;
    assert TokenLifetime == (TokenLifetime / 1000) * 1000;
    var m := ToMillis(now);
    assert m * 1000 <= now < m * 1000 + 1000;
  }

  /** A token issued to `u` cannot be activated by another user `v` whose own
      record holds a different token (or who has none); `u`'s record stays
      inactive. */
  lemma TokenBoundToUser(s: Store, u: UserId, v: UserId, newToken: Token, now: Time)
    requires v != u
    requires v !in s || s[v].token != newToken
    ensures var s1 := Issue(s, u, newToken).store;
      var a := Activate(s1, v, newToken, now);
      !a.modified && a.store == s1 && !HasValidToken(a.store, u, now)
  {
  }

  /** Whatever token another user `v` presents, `u`'s freshly issued token
      stays invalid: the activation filter names `v`, so `u`'s record is
      never touched. */
  lemma OtherUserCannotValidate(s: Store, u: UserId, v: UserId, newToken: Token, t: Token, now: Time)
    requires v != u
    ensures var s1 := Issue(s, u, newToken).store;
      var a := Activate(s1, v, t, now);
      u in a.store && a.store[u] == s1[u] && !HasValidToken(a.store, u, now)
  {
  }

  /** Presenting the active token again reports success exactly when the
      later call falls in a later millisecond, since only then does the
      stored expiry change; the expiry is then twelve hours after the later
      call and never earlier than the first. Within one millisecond the
      record is already identical and the store reports nothing modified. */
  lemma {:induction false} ReactivationExtends(s: Store, u: UserId, t: Token, t1: Time, t2: Time)
    requires u in s && s[u].token == t
    requires t1 <= t2
    ensures var a1 := Activate(s, u, t, t1);
      var a2 := Activate(a1.store, u, t, t2);
      (a2.modified <==> ToMillis(t1) < ToMillis(t2)) &&
      a2.store[u].expiry == Some(StoredExpiry(t2)) &&
      a2.store[u].expiry.value >= a1.store[u].expiry.value
  {
    StoredExpiryShift(t1);
    StoredExpiryShift(t2);
    MillisMonotone(t1, t2);
  }

  lemma MillisMonotone(t1: Time, t2: Time)
    requires t1 <= t2
    ensures ToMillis(t1) <= ToMillis(t2)
  {
  }

  /** Whenever the stored expiry is not the one this call would write (the
      clock has moved into a later millisecond than the last activation),
      activation succeeds exactly when the user's record holds the
      presented token. */
  lemma ActivateIffMatch(s: Store, u: UserId, t: Token, now: Time)
    requires u in s ==> s[u].expiry != Some(StoredExpiry(now))
    ensures Activate(s, u, t, now).modified <==> u in s && s[u].token == t
  {
  }

  /** Reply of `/start`. */
  datatype Reply =
    | TokenActivated
    | InvalidToken
    | GenerateTokenLink(token: Token)
    | AlreadyActive

  datatype Started = Started(store: Store, reply: Reply)

  /** True when the command carries an argument of exactly the token length. */
  predicate HasTokenArgument(command: seq<string>)
  {
    |command| > 1 && |command[1]| == TokenArgLength
  }

  /** `start_handler`: a 36-character argument is an activation attempt;
      anything else issues a new token unless the user already holds a valid
      one. The reply photo, buttons and URL shortening are presentation. */
  function StartHandler(s: Store, u: UserId, command: seq<string>, now: Time, newToken: Token): (r: Started)
    ensures forall v :: v != u ==> (v in r.store <==> v in s) && (v in s ==> r.store[v] == s[v])
    ensures HasTokenArgument(command) ==>
      (r.reply == TokenActivated || r.reply == InvalidToken) &&
      (r.reply == TokenActivated <==>
         u in s && s[u].token == command[1] &&
         s[u] != Record(command[1], Active, Some(StoredExpiry(now)))) &&
      (r.reply == InvalidToken ==> r.store == s) &&
      (r.reply == TokenActivated ==>
         r.store == s[u := Record(command[1], Active, Some(StoredExpiry(now)))])
    ensures !HasTokenArgument(command) ==>
      (r.reply == AlreadyActive <==> HasValidToken(s, u, now)) &&
      (r.reply == AlreadyActive ==> r.store == s) &&
      (r.reply != AlreadyActive ==>
         r.reply == GenerateTokenLink(newToken) && u in r.store &&
         r.store[u] == Record(newToken, Inactive, None))
  {
    if HasTokenArgument(command) then
      var a := Activate(s, u, command[1], now);
      Started(a.store, if a.modified then TokenActivated else InvalidToken)
    else if !HasValidToken(s, u, now) then
      var i := Issue(s, u, newToken);
      Started(i.store, GenerateTokenLink(i.token))
    else
      Started(s, AlreadyActive)
  }

  /** The full handshake: a first `/start` from a user without a valid token
      hands out the new token; sending it back as `/start <token>` (a UUID
      text is 36 characters long) activates it; the user then holds a valid
      token until twelve hours after the activation's millisecond. */
  lemma {:induction false} StartHandshake(s: Store, u: UserId, newToken: Token, t0: Time, t1: Time, now: Time)
    requires !HasValidToken(s, u, t0)
    requires |newToken| == TokenArgLength
    ensures var r1 := StartHandler(s, u, ["start"], t0, newToken);
      var r2 := StartHandler(r1.store, u, ["start", newToken], t1, newToken);
      r1.reply == GenerateTokenLink(newToken) &&
      r2.reply == TokenActivated &&
      (HasValidToken(r2.store, u, now) <==> now < t1 - t1 % MicrosPerMilli + TokenLifetime)
  {
    var r1 := StartHandler(s, u, ["start"], t0, newToken);
    assert !HasTokenArgument(["start"]);
    assert r1.store == Issue(s, u, newToken).store;
    assert HasTokenArgument(["start", newToken]);
    ActivatedValidUntilExpiry(s, u, newToken, t1, now);
  }

  /** Two `/start` requests before activation each issue a new token, and the
      second replaces the first. */
  lemma {:induction false} RepeatedStartReplacesToken(s: Store, u: UserId, first: Token, second: Token, t0: Time, t1: Time)
    requires !HasValidToken(s, u, t0)
    ensures var r1 := StartHandler(s, u, ["start"], t0, first);
      var r2 := StartHandler(r1.store, u, ["start"], t1, second);
      r1.reply == GenerateTokenLink(first) &&
      r2.reply == GenerateTokenLink(second) &&
      r2.store[u].token == second && r2.store[u].status == Inactive
  {
    assert !HasTokenArgument(["start"]);
    var r1 := StartHandler(s, u, ["start"], t0, first);
    FreshTokenNeverValid(s, u, first, t1);
    assert !HasValidToken(r1.store, u, t1);
  }

  /** `/start` keeps the store well formed. */
  lemma {:induction false} StartPreservesWellFormed(s: Store, u: UserId, command: seq<string>, now: Time, newToken: Token)
    requires WellFormed(s)
    ensures WellFormed(StartHandler(s, u, command, now, newToken).store)
  {
    if HasTokenArgument(command) {
      ActivatePreservesWellFormed(s, u, command[1], now);
    } else if !HasValidToken(s, u, now) {
      IssuePreservesWellFormed(s, u, newToken);
    }
  }
}
