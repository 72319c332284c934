/**
 * The relational store the models run against, held in memory: one table
 * per field of `Database`, rows as datatypes, auto-increment counters for
 * the id columns, and time as an integer number of seconds. Each SQL
 * statement of the models is one atomic step on these values; a transaction
 * that fails puts the tables back as they were (the counters keep their
 * advance, as auto-increment counters do).
 */
module Db {
  import opened Wrappers
  import opened Drawings
  import Bcrypt

  const Day: int := 24 * 60 * 60
  /** INTERVAL 2 DAY: how far each turn pushes a game's expiration. */
  const TwoDays: int := 2 * Day
  /** INTERVAL 7 DAY: how long a session lives. */
  const SevenDays: int := 7 * Day

  /** A row of Accounts. */
  datatype Account = Account(id: nat, displayName: string, passwordHash: Bcrypt.Digest)

  /** A row of Sessions, keyed by its unique auth_token. */
  datatype Session = Session(accountId: nat, createdAt: int)

  /** A row of Games, keyed by its id. */
  datatype Game = Game(completedAtId: Option<nat>, nextExpiration: int)

  /** A row of Turns; the order of ids is the order of play. */
  datatype Turn = Turn(
    id: nat,
    accountId: nat,
    gameId: nat,
    isComplete: bool,
    isDrawing: bool,
    labelText: string,
    drawing: DrawingColumn)

  // ---------------------------------------------------------------------------
  // Accounts
  // ---------------------------------------------------------------------------

  /** Ids increase in insertion order and stay below the counter; display names are unique. */
  predicate AccountsValid(accounts: seq<Account>, nextId: nat)
  {
    && (forall i, j :: 0 <= i < j < |accounts| ==> accounts[i].id < accounts[j].id)
    && (forall i :: 0 <= i < |accounts| ==> accounts[i].id < nextId)
    && (forall i, j :: 0 <= i < j < |accounts| ==> accounts[i].displayName != accounts[j].displayName)
  }

  /** SELECT ... FROM Accounts WHERE display_name = ?: the position of the matching row. */
  function FindByName(accounts: seq<Account>, name: string): (r: Option<nat>)
    ensures r.Some? ==> r.value < |accounts| && accounts[r.value].displayName == name
    ensures r.None? ==> forall i :: 0 <= i < |accounts| ==> accounts[i].displayName != name
    decreases |accounts|
  {
    if |accounts| == 0 then None
    else if accounts[|accounts| - 1].displayName == name then Some(|accounts| - 1)
    else FindByName(accounts[..|accounts| - 1], name)
  }

  /** With unique names, the row found is the only row with that name. */
  lemma FindByNameUnique(accounts: seq<Account>, nextId: nat, name: string, i: nat)
    requires AccountsValid(accounts, nextId)
    requires i < |accounts| && accounts[i].displayName == name
    ensures FindByName(accounts, name) == Some(i)
  {
  }

  /** The foreign key check on Turns.account_id. */
  predicate IsAccountId(accounts: seq<Account>, id: nat)
  {
    exists i :: 0 <= i < |accounts| && accounts[i].id == id
  }

  // ---------------------------------------------------------------------------
  // Turns
  // ---------------------------------------------------------------------------

  /** Rows appear in increasing id order, as auto-increment inserts them. */
  predicate Ascending(turns: seq<Turn>)
  {
    forall i, j :: 0 <= i < j < |turns| ==> turns[i].id < turns[j].id
  }

  /** An incomplete turn of game g. */
  predicate Pending(t: Turn, g: nat)
  {
    t.gameId == g && !t.isComplete
  }

  /** Row k is g's current turn: the minimum-id incomplete turn of g. */
  predicate IsCurrent(turns: seq<Turn>, k: int, g: nat)
  {
    && 0 <= k < |turns|
    && Pending(turns[k], g)
    && forall j :: 0 <= j < |turns| && Pending(turns[j], g) ==> turns[k].id <= turns[j].id
  }

  /** The position of g's first incomplete turn in table order. */
  function CurrentTurn(turns: seq<Turn>, g: nat): (r: Option<nat>)
    ensures r.Some? ==> r.value < |turns| && Pending(turns[r.value], g)
    ensures r.Some? ==> forall j :: 0 <= j < r.value ==> !Pending(turns[j], g)
    ensures r.None? ==> forall j :: 0 <= j < |turns| ==> !Pending(turns[j], g)
    decreases |turns|
  {
    if |turns| == 0 then None
    else if Pending(turns[0], g) then Some(0)
    else
      match CurrentTurn(turns[1..], g)
      case None => None
      case Some(k) => Some(k + 1)
  }

  /** In id order, the first incomplete turn is exactly the minimum-id one. */
  lemma CurrentTurnIsMinId(turns: seq<Turn>, g: nat, k: int)
    requires Ascending(turns)
    ensures IsCurrent(turns, k, g) <==> CurrentTurn(turns, g) == Some(k)
  {
    var c := CurrentTurn(turns, g);
    if IsCurrent(turns, k, g) {
      assert c.Some?;
      assert !(c.value < k);
    }
  }

  /** A game has at most one current turn. */
  lemma CurrentTurnUnique(turns: seq<Turn>, g: nat, k: int, k': int)
    requires Ascending(turns)
    requires IsCurrent(turns, k, g) && IsCurrent(turns, k', g)
    ensures k == k'
  {
    CurrentTurnIsMinId(turns, g, k);
    CurrentTurnIsMinId(turns, g, k');
  }

  predicate HasTurns(turns: seq<Turn>, g: nat)
  {
    exists i :: 0 <= i < |turns| && turns[i].gameId == g
  }

  /** Game g has turns and every one of them is complete. */
  predicate GameFinished(turns: seq<Turn>, g: nat)
  {
    HasTurns(turns, g) && forall i :: 0 <= i < |turns| && turns[i].gameId == g ==> turns[i].isComplete
  }

  /**
   * The only ways the Turns table may change: rows are added at the end;
   * an existing row keeps its id, owner, game and type; a complete row
   * never changes again (so a turn goes from incomplete to complete only).
   */
  predicate Evolves(before: seq<Turn>, after: seq<Turn>)
  {
    && |before| <= |after|
    && forall i :: 0 <= i < |before| ==>
         && after[i].id == before[i].id
         && after[i].accountId == before[i].accountId
         && after[i].gameId == before[i].gameId
         && after[i].isDrawing == before[i].isDrawing
         && (before[i].isComplete ==> after[i] == before[i])
  }

  // ---------------------------------------------------------------------------
  // Games and GamesCompletedAt
  // ---------------------------------------------------------------------------

  /**
   * A linked game has a completion record and all its turns are complete,
   * and no two games share a completion record.
   */
  predicate CompletionLinksValid(games: map<nat, Game>, completedAt: map<nat, int>, turns: seq<Turn>)
  {
    && (forall g :: g in games && games[g].completedAtId.Some? ==>
          games[g].completedAtId.value in completedAt && GameFinished(turns, g))
    && (forall g, h :: g in games && h in games && g != h && games[g].completedAtId.Some? ==>
          games[g].completedAtId != games[h].completedAtId)
  }

  /**
   * Within a game, turns are completed in play order: no complete turn
   * comes after an incomplete one.
   */
  predicate CompletedInOrder(turns: seq<Turn>)
  {
    forall i, j :: 0 <= i < j < |turns| && turns[i].gameId == turns[j].gameId && turns[j].isComplete ==>
      turns[i].isComplete
  }

  /** Turns are in id order below the counter, belong to existing games, and complete in order. */
  predicate TurnsValid(turns: seq<Turn>, nextTurnId: nat, games: map<nat, Game>)
  {
    && Ascending(turns)
    && (forall i :: 0 <= i < |turns| ==> turns[i].id < nextTurnId && turns[i].gameId in games)
    && CompletedInOrder(turns)
  }

  /** The turn invariant survives an advance of the id counter. */
  lemma TurnsValidLargerCounter(turns: seq<Turn>, nextTurnId: nat, nextTurnId': nat, games: map<nat, Game>)
    requires TurnsValid(turns, nextTurnId, games) && nextTurnId <= nextTurnId'
    ensures TurnsValid(turns, nextTurnId', games)
  {
  }

  /** The database: one field per table, one counter per auto-increment column. */
  class Database {
    var accounts: seq<Account>
    var sessions: map<string, Session>
    var games: map<nat, Game>
    var turns: seq<Turn>
    var completedAt: map<nat, int>
    var nextAccountId: nat
    var nextGameId: nat
    var nextTurnId: nat
    var nextCompletedAtId: nat

    ghost predicate Valid()
      reads this
    {
      && AccountsValid(accounts, nextAccountId)
      && TurnsValid(turns, nextTurnId, games)
      && (forall g :: g in games ==> g < nextGameId)
      && (forall c :: c in completedAt ==> c < nextCompletedAtId)
      && CompletionLinksValid(games, completedAt, turns)
    }

    constructor ()
      ensures Valid()
      ensures accounts == [] && sessions == map[] && games == map[] && turns == [] && completedAt == map[]
    {
      accounts := [];
      sessions := map[];
      games := map[];
      turns := [];
      completedAt := map[];
      nextAccountId, nextGameId, nextTurnId, nextCompletedAtId := 1, 1, 1, 1;
    }
  }
}
