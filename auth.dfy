/**
 * Sessions: a login creates a random 32-byte token, stored base64url
 * encoded with the account id and its creation time; a lookup maps a token
 * back to its account. Both first prune every session older than seven
 * days, and a failed prune is ignored.
 */
module Auth {
  import opened Wrappers
  import opened Text
  import opened Db
  import opened ModelErrors
  import Base64

  const LoginUnavailable: string := "Unable to login at this time."
  const InvalidToken: string := "Invalid authentication token."

  /** The length of the random buffer a token encodes. */
  const TokenBytes: nat := 32

  /** Sessions after DELETE FROM Sessions WHERE created_at < now - 7 days. */
  function Pruned(sessions: map<string, Session>, now: int): (r: map<string, Session>)
  {
    map token | token in sessions && sessions[token].createdAt >= now - SevenDays :: sessions[token]
  }

  /** A session survives a prune exactly when it is at most seven days old, and is kept as it was. */
  lemma PrunedIff(sessions: map<string, Session>, now: int, token: string)
    ensures token in Pruned(sessions, now) <==>
              token in sessions && now - sessions[token].createdAt <= SevenDays
    ensures token in Pruned(sessions, now) ==> Pruned(sessions, now)[token] == sessions[token]
  {
  }

  /** Pruning at t1 and then at a later t2 is pruning once at t2. */
  lemma PruneLater(sessions: map<string, Session>, t1: int, t2: int)
    requires t1 <= t2
    ensures Pruned(Pruned(sessions, t1), t2) == Pruned(sessions, t2)
  {
  }

  /** Pruning never adds or changes a session. */
  lemma PruneShrinks(sessions: map<string, Session>, now: int)
    ensures Pruned(sessions, now).Keys <= sessions.Keys
    ensures forall token :: token in Pruned(sessions, now) ==> Pruned(sessions, now)[token] == sessions[token]
  {
  }

  /**
   * pruneAuthTokens: errors are ignored, so a failed prune leaves the table
   * as it was.
   */
  method PruneAuthTokens(db: Database, now: int, fault: bool)
    requires db.Valid()
    modifies db
    ensures db.Valid()
    ensures db.sessions == if fault then old(db.sessions) else Pruned(old(db.sessions), now)
    ensures db.accounts == old(db.accounts) && db.games == old(db.games) && db.turns == old(db.turns)
    ensures db.completedAt == old(db.completedAt)
    ensures db.nextAccountId == old(db.nextAccountId) && db.nextGameId == old(db.nextGameId)
    ensures db.nextTurnId == old(db.nextTurnId) && db.nextCompletedAtId == old(db.nextCompletedAtId)
  {
    if !fault {
      db.sessions := Pruned(db.sessions, now);
    }
  }

  /**
   * NewAuthToken: prune, read 32 random bytes (None when the read fails),
   * encode them, and insert the session. A duplicate token or a failed
   * insert is reported, but the token is returned all the same.
   */
  method NewAuthToken(db: Database, id: nat, random: Option<seq<Base64.byte>>, now: int,
                      pruneFault: bool, insertFault: bool)
    returns (auth: string, errors: Option<Errors>)
    requires db.Valid()
    requires random.Some? ==> |random.value| == TokenBytes
    modifies db
    ensures db.Valid()
    ensures random.None? ==> auth == "" && errors == Some(App(LoginUnavailable))
    ensures random.Some? ==> auth == Base64.Encode(random.value) && Base64.Decode(auth) == Some(random.value)
    ensures random.Some? ==> |auth| == 44 && auth[43] == Base64.Pad
    ensures var pruned := if pruneFault then old(db.sessions) else Pruned(old(db.sessions), now);
            if random.Some? && auth !in pruned && !insertFault then
              errors.None? && db.sessions == pruned[auth := Session(id, now)]
            else
              db.sessions == pruned && (random.Some? ==> errors == Some(App(LoginUnavailable)))
    ensures db.accounts == old(db.accounts) && db.games == old(db.games) && db.turns == old(db.turns)
    ensures db.completedAt == old(db.completedAt)
    ensures db.nextAccountId == old(db.nextAccountId) && db.nextGameId == old(db.nextGameId)
    ensures db.nextTurnId == old(db.nextTurnId) && db.nextCompletedAtId == old(db.nextCompletedAtId)
  {
    PruneAuthTokens(db, now, pruneFault);
    if random.None? {
      return "", Some(App(LoginUnavailable));
    }
    auth := Base64.Encode(random.value);
    Base64.DecodeEncode(random.value);
    Base64.TokenShape(random.value);
    if auth in db.sessions || insertFault {
      // the UNIQUE key on auth_token, or the statement failed
      errors := Some(App(LoginUnavailable));
    } else {
      db.sessions := db.sessions[auth := Session(id, now)];
      errors := None;
    }
  }

  /**
   * AuthTokenLookup: prune, then the account id of the token's session as
   * a decimal string, or the empty string and an error when there is none
   * or the row cannot be read (scanFault). The SELECT does not look at the
   * session's age, so whether an expired token is refused depends on the
   * prune having run.
   */
  method AuthTokenLookup(db: Database, auth: string, now: int, pruneFault: bool, scanFault: bool)
    returns (id: string, errors: Option<Errors>)
    requires db.Valid()
    modifies db
    ensures db.Valid()
    ensures var pruned := if pruneFault then old(db.sessions) else Pruned(old(db.sessions), now);
            && db.sessions == pruned
            && (auth in pruned && !scanFault ==> id == NatToString(pruned[auth].accountId) && errors.None?)
            && (auth !in pruned || scanFault ==> id == "" && errors == Some(App(InvalidToken)))
    ensures errors.None? ==> IsDigits(id) && auth in old(db.sessions)
    ensures errors.None? && !pruneFault ==> now - old(db.sessions)[auth].createdAt <= SevenDays
    ensures pruneFault && !scanFault && auth in old(db.sessions) ==>
              errors.None? && id == NatToString(old(db.sessions)[auth].accountId)
    ensures db.accounts == old(db.accounts) && db.games == old(db.games) && db.turns == old(db.turns)
    ensures db.completedAt == old(db.completedAt)
    ensures db.nextAccountId == old(db.nextAccountId) && db.nextGameId == old(db.nextGameId)
    ensures db.nextTurnId == old(db.nextTurnId) && db.nextCompletedAtId == old(db.nextCompletedAtId)
  {
    PruneAuthTokens(db, now, pruneFault);
    if auth !in db.sessions || scanFault {
      // row.Scan reports sql.ErrNoRows, or the read failed; id keeps its zero value
      return "", Some(App(InvalidToken));
    }
    id := NatToString(db.sessions[auth].accountId);
    errors := None;
  }

  /**
   * The lifetime of a session: created at t for an account, it is found by
   * every lookup up to seven days later and by none after, however many
   * prunes run in between.
   */
  lemma SessionLifetime(sessions: map<string, Session>, auth: string, account: nat, t: int, prunes: seq<int>, now: int)
    requires forall i :: 0 <= i < |prunes| ==> prunes[i] <= now
    requires forall i, j :: 0 <= i < j < |prunes| ==> prunes[i] <= prunes[j]
    ensures var s := PruneAll(sessions[auth := Session(account, t)], prunes);
            && (now - t <= SevenDays ==> auth in Pruned(s, now) && Pruned(s, now)[auth] == Session(account, t))
            && (now - t > SevenDays ==> auth !in Pruned(s, now))
  {
    var s0 := sessions[auth := Session(account, t)];
    PruneAllAt(s0, prunes);
    if |prunes| > 0 {
      PruneLater(s0, prunes[|prunes| - 1], now);
    }
  }

  /** The sessions after prunes at the given times, in order. */
  function PruneAll(sessions: map<string, Session>, prunes: seq<int>): (r: map<string, Session>)
    decreases |prunes|
  {
    if |prunes| == 0 then sessions else PruneAll(Pruned(sessions, prunes[0]), prunes[1..])
  }

  /** Prunes at non-decreasing times amount to the latest prune alone. */
  lemma {:induction false} PruneAllAt(sessions: map<string, Session>, prunes: seq<int>)
    requires forall i, j :: 0 <= i < j < |prunes| ==> prunes[i] <= prunes[j]
    ensures |prunes| == 0 ==> PruneAll(sessions, prunes) == sessions
    ensures |prunes| > 0 ==> PruneAll(sessions, prunes) == Pruned(sessions, prunes[|prunes| - 1])
    decreases |prunes|
  {
    if |prunes| > 1 {
      PruneAllAt(Pruned(sessions, prunes[0]), prunes[1..]);
      PruneLater(sessions, prunes[0], prunes[|prunes| - 1]);
    }
  }
}
