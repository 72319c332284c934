/**
 * Creating a game and recording when it is over. A new game is one Games
 * row and a run of Turns rows: the creator's label turn, complete, then one
 * incomplete turn per player in a random order, alternating drawing and
 * label turns starting with a drawing. A game is marked complete once, by
 * a GamesCompletedAt row that the game then links to.
 */
module Games {
  import opened Wrappers
  import opened Text
  import opened Drawings
  import opened Db
  import opened ModelErrors
  import Turns

  const LabelRequired: string := "A label is required to start a game."
  const PlayersRequired: string := "At least one other player is required."
  const CreateUnavailable: string := "Unable to create a new game at this time."
  const CompletionUnavailable: string := "Unable to update the game's completion time."

  // ---------------------------------------------------------------------------
  // The random player order
  // ---------------------------------------------------------------------------

  /** 0, 1, ..., n - 1. */
  function Range(n: nat): (r: seq<int>)
  {
    seq(n, i => i)
  }

  /** What rand.Perm(n) returns: an ordering of 0 .. n - 1. */
  predicate IsPermutation(order: seq<int>, n: nat)
  {
    multiset(order) == multiset(Range(n))
  }

  /** Every entry of order indexes a sequence of length n. */
  predicate InRange(order: seq<int>, n: nat)
  {
    forall i :: 0 <= i < |order| ==> 0 <= order[i] < n
  }

  /** xs[order[0]], xs[order[1]], ...: the players in the order they play (0 stands in for an index out of range). */
  function Pick(xs: seq<nat>, order: seq<int>): (r: seq<nat>)
  {
    seq(|order|, i requires 0 <= i < |order| => if 0 <= order[i] < |xs| then xs[order[i]] else 0)
  }

  /** An ordering of 0 .. n - 1 has n entries, each below n. */
  lemma PermutationInRange(order: seq<int>, n: nat)
    requires IsPermutation(order, n)
    ensures |order| == n && InRange(order, n)
  {
    calc {
      |order|;
      |multiset(order)|;
      |multiset(Range(n))|;
      |Range(n)|;
    }
    forall i | 0 <= i < |order| ensures 0 <= order[i] < n {
      assert order[i] in multiset(Range(n));
    }
  }

  /** Picking through a concatenation concatenates the picks. */
  lemma PickAppend(xs: seq<nat>, a: seq<int>, b: seq<int>)
    requires InRange(a, |xs|) && InRange(b, |xs|)
    ensures InRange(a + b, |xs|) && Pick(xs, a + b) == Pick(xs, a) + Pick(xs, b)
  {
  }

  /** Removing position j removes one copy of its value. */
  lemma RemoveAt(s: seq<int>, j: nat)
    requires j < |s|
    ensures multiset(s) == multiset(s[..j] + s[j + 1..]) + multiset{s[j]}
  {
    assert s == s[..j] + [s[j]] + s[j + 1..];
  }

  /** Multiset union cancels. */
  lemma Cancel(a: multiset<int>, b: multiset<int>, x: int)
    requires a + multiset{x} == b + multiset{x}
    ensures a == b
  {
    forall y ensures a[y] == b[y] {
      assert (a + multiset{x})[y] == (b + multiset{x})[y];
    }
  }

  /** Indices with the same multiset are in range together. */
  lemma SameMultisetInRange(o: seq<int>, o': seq<int>, n: nat)
    requires InRange(o, n) && multiset(o) == multiset(o')
    ensures InRange(o', n)
  {
    forall i | 0 <= i < |o'| ensures 0 <= o'[i] < n {
      assert o'[i] in multiset(o);
    }
  }

  /** Taking one copy of the same value out of two equal multisets leaves them equal. */
  lemma RemoveMatching(o: seq<int>, o': seq<int>, j: nat)
    requires |o| > 0 && j < |o'| && o'[j] == o[0] && multiset(o) == multiset(o')
    ensures multiset(o[1..]) == multiset(o'[..j] + o'[j + 1..])
  {
    RemoveAt(o, 0);
    RemoveAt(o', j);
    assert o[..0] + o[1..] == o[1..];
    Cancel(multiset(o[1..]), multiset(o'[..j] + o'[j + 1..]), o[0]);
  }

  /** Reordering the indices reorders the picked values the same way. */
  lemma {:induction false} PickMultiset(xs: seq<nat>, o: seq<int>, o': seq<int>)
    requires InRange(o, |xs|) && multiset(o) == multiset(o')
    ensures InRange(o', |xs|)
    ensures multiset(Pick(xs, o)) == multiset(Pick(xs, o'))
    decreases |o|
  {
    SameMultisetInRange(o, o', |xs|);
    if |o| == 0 {
      assert |o'| == |multiset(o')| == 0;
    } else {
      var x := o[0];
      assert x in multiset(o');
      var j :| 0 <= j < |o'| && o'[j] == x;
      var before, after := o'[..j], o'[j + 1..];
      RemoveMatching(o, o', j);
      PickMultiset(xs, o[1..], before + after);
      assert o == [x] + o[1..];
      assert o' == before + ([x] + after);
      MoveToFront(xs, x, o[1..], before, after);
    }
  }

  /** Picking x first and then the rest reorders to picking x between before and after. */
  lemma MoveToFront(xs: seq<nat>, x: int, rest: seq<int>, before: seq<int>, after: seq<int>)
    requires InRange([x] + rest, |xs|) && InRange(before + after, |xs|) && 0 <= x < |xs|
    requires multiset(Pick(xs, rest)) == multiset(Pick(xs, before + after))
    ensures multiset(Pick(xs, [x] + rest)) == multiset(Pick(xs, before + ([x] + after)))
  {
    assert rest == ([x] + rest)[1..];
    assert before == (before + after)[..|before|] && after == (before + after)[|before|..];
    PickAppend(xs, [x], rest);
    PickAppend(xs, [x], after);
    PickAppend(xs, before, [x] + after);
    PickAppend(xs, before, after);
  }

  /** Picking the players through a permutation keeps every player, duplicates included. */
  lemma PickPermutation(players: seq<nat>, order: seq<int>)
    requires IsPermutation(order, |players|)
    ensures InRange(order, |players|)
    ensures multiset(Pick(players, order)) == multiset(players)
  {
    PermutationInRange(order, |players|);
    assert InRange(Range(|players|), |players|);
    PickMultiset(players, order, Range(|players|));
    assert Pick(players, Range(|players|)) == players;
  }

  // ---------------------------------------------------------------------------
  // The rows of a new game
  // ---------------------------------------------------------------------------

  /**
   * The Turns rows CreateGame inserts for game g, ids from firstId on: the
   * creator's label, then one empty turn per player in the given order,
   * drawing on even positions of the order.
   */
  function NewGameTurns(g: nat, firstId: nat, creator: nat, labelText: string, players: seq<nat>, order: seq<int>)
    : (r: seq<Turn>)
    requires InRange(order, |players|)
  {
    seq(1 + |order|, k requires 0 <= k < 1 + |order| =>
      if k == 0 then Turn(firstId, creator, g, true, false, labelText, Blank)
      else Turn(firstId + k, players[order[k - 1]], g, false, (k - 1) % 2 == 0, "", Blank))
  }

  /** The rows of the first i players in the order, ids from firstId on. */
  function PlayerRows(g: nat, firstId: nat, players: seq<nat>, order: seq<int>, i: nat): (r: seq<Turn>)
    requires InRange(order, |players|) && i <= |order|
  {
    if i == 0 then []
    else PlayerRows(g, firstId, players, order, i - 1)
         + [Turn(firstId + i - 1, players[order[i - 1]], g, false, (i - 1) % 2 == 0, "", Blank)]
  }

  /** The creator's row and the first i player rows are a prefix of the new game's rows. */
  lemma {:induction false} PlayerRowsPrefix(g: nat, firstId: nat, creator: nat, labelText: string, players: seq<nat>,
                                            order: seq<int>, i: nat)
    requires InRange(order, |players|) && i <= |order|
    ensures [Turn(firstId, creator, g, true, false, labelText, Blank)] + PlayerRows(g, firstId + 1, players, order, i)
            == NewGameTurns(g, firstId, creator, labelText, players, order)[..1 + i]
  {
    var rows := NewGameTurns(g, firstId, creator, labelText, players, order);
    if i > 0 {
      PlayerRowsPrefix(g, firstId, creator, labelText, players, order, i - 1);
      assert rows[..1 + i] == rows[..i] + [rows[i]];
    }
  }

  /** The account id of each row. */
  function Owners(ts: seq<Turn>): (r: seq<nat>)
  {
    seq(|ts|, i requires 0 <= i < |ts| => ts[i].accountId)
  }

  /**
   * A new game has one turn more than it has players; the first is the
   * creator's complete label turn; the others are empty, incomplete, and
   * alternate drawing and label starting with a drawing; their owners are
   * the players, each as often as listed; ids are consecutive.
   */
  lemma NewGameShape(g: nat, firstId: nat, creator: nat, labelText: string, players: seq<nat>, order: seq<int>)
    requires IsPermutation(order, |players|)
    ensures InRange(order, |players|)
    ensures var ts := NewGameTurns(g, firstId, creator, labelText, players, order);
            && |ts| == 1 + |players|
            && ts[0] == Turn(firstId, creator, g, true, false, labelText, Blank)
            && (forall k :: 1 <= k < |ts| ==>
                  && !ts[k].isComplete && ts[k].labelText == "" && ts[k].drawing == Blank
                  && (ts[k].isDrawing <==> k % 2 == 1))
            && (forall k :: 0 <= k < |ts| ==> ts[k].gameId == g && ts[k].id == firstId + k)
            && multiset(Owners(ts[1..])) == multiset(players)
  {
    PickPermutation(players, order);
    PermutationInRange(order, |players|);
    var ts := NewGameTurns(g, firstId, creator, labelText, players, order);
    assert forall k :: 1 <= k < |ts| ==> (ts[k].isDrawing <==> k % 2 == 1);
    assert forall k :: 1 <= k < |ts| ==> !ts[k].isComplete && ts[k].labelText == "" && ts[k].drawing == Blank;
    assert Owners(ts[1..]) == Pick(players, order);
  }

  /** The Turns rows after a game's rows are appended keep the table's invariant. */
  lemma NewGameTurnsValid(turns: seq<Turn>, games: map<nat, Game>, nextTurnId: nat, g: nat,
                          creator: nat, labelText: string, players: seq<nat>, order: seq<int>, now: int)
    requires TurnsValid(turns, nextTurnId, games) && g !in games
    requires InRange(order, |players|)
    ensures var turns' := turns + NewGameTurns(g, nextTurnId, creator, labelText, players, order);
            TurnsValid(turns', nextTurnId + 1 + |order|, games[g := Game(None, now + TwoDays)])
  {
    var ts := NewGameTurns(g, nextTurnId, creator, labelText, players, order);
    var turns' := turns + ts;
    forall i, j | 0 <= i < j < |turns'| ensures turns'[i].id < turns'[j].id {
      if j >= |turns| {
        assert turns'[j] == ts[j - |turns|];
      }
    }
  }

  /**
   * Creating a game keeps every table invariant: the new game is unlinked,
   * and a linked game stays finished because no new turn is one of its own.
   */
  lemma NewGameKeepsValid(turns: seq<Turn>, games: map<nat, Game>, completedAt: map<nat, int>, nextTurnId: nat,
                          g: nat, creator: nat, labelText: string, players: seq<nat>, order: seq<int>, now: int)
    requires TurnsValid(turns, nextTurnId, games) && CompletionLinksValid(games, completedAt, turns)
    requires g !in games && InRange(order, |players|)
    ensures var turns' := turns + NewGameTurns(g, nextTurnId, creator, labelText, players, order);
            var games' := games[g := Game(None, now + TwoDays)];
            && TurnsValid(turns', nextTurnId + 1 + |order|, games')
            && CompletionLinksValid(games', completedAt, turns')
            && Evolves(turns, turns')
  {
    NewGameTurnsValid(turns, games, nextTurnId, g, creator, labelText, players, order, now);
    var ts := NewGameTurns(g, nextTurnId, creator, labelText, players, order);
    var turns' := turns + ts;
    forall h | h in games && games[h].completedAtId.Some? ensures GameFinished(turns', h) {
      assert GameFinished(turns, h);
      var i :| 0 <= i < |turns| && turns[i].gameId == h;
      assert turns'[i].gameId == h;
    }
  }

  /**
   * In a new game the creator's label is the latest complete turn and the
   * first player's drawing turn is the current one, so that player's inbox
   * shows the label, as a label turn with no drawing.
   */
  lemma NewGameInboxShowsLabel(turns: seq<Turn>, games: map<nat, Game>, nextTurnId: nat, g: nat,
                               creator: nat, labelText: string, players: seq<nat>, order: seq<int>)
    requires TurnsValid(turns, nextTurnId, games) && g !in games
    requires InRange(order, |players|) && |order| > 0
    ensures var turns' := turns + NewGameTurns(g, nextTurnId, creator, labelText, players, order);
            && Turns.CurrentOwner(turns', g) == Some(players[order[0]])
            && turns'[CurrentTurn(turns', g).value].isDrawing
            && Turns.InboxEntry(g, Turns.TurnMessage(false, None, labelText))
                 in Turns.ReadRows(Turns.InboxRows(turns', players[order[0]]))
  {
    var now := 0;
    NewGameTurnsValid(turns, games, nextTurnId, g, creator, labelText, players, order, now);
    var ts := NewGameTurns(g, nextTurnId, creator, labelText, players, order);
    var turns' := turns + ts;
    var n := |turns|;
    forall j | 0 <= j < n ensures turns'[j].gameId != g {
      assert turns[j].gameId in games;
    }
    assert turns'[n] == ts[0] && turns'[n + 1] == ts[1];
    assert Turns.IsLastComplete(turns', n, g) by {
      forall j | 0 <= j < |turns'| && turns'[j].gameId == g && turns'[j].isComplete
        ensures turns'[j].id <= turns'[n].id
      {
      }
    }
    assert IsCurrent(turns', n + 1, g) by {
      forall j | 0 <= j < |turns'| && Pending(turns'[j], g) ensures turns'[n + 1].id <= turns'[j].id {
        if j > n {
          assert turns'[j] == ts[j - n];
        }
      }
    }
    CurrentTurnIsMinId(turns', g, n + 1);
    assert Turns.ReadRow(turns'[n]) == Some(Turns.InboxEntry(g, Turns.TurnMessage(false, None, labelText)));
    Turns.InboxEntryComplete(turns', players[order[0]], n, n + 1);
  }

  /**
   * The first player in the order whose id has no account, from position
   * i on: the player whose turn insert the foreign key refuses first.
   */
  function FirstMissingPlayer(accounts: seq<Account>, players: seq<nat>, order: seq<int>, i: nat): (r: Option<nat>)
    requires InRange(order, |players|) && i <= |order|
    ensures r.None? <==> forall j :: i <= j < |order| ==> IsAccountId(accounts, players[order[j]])
    ensures r.Some? ==> exists j :: i <= j < |order| && players[order[j]] == r.value
                          && !IsAccountId(accounts, r.value)
                          && forall j' :: i <= j' < j ==> IsAccountId(accounts, players[order[j']])
    decreases |order| - i
  {
    if i == |order| then None
    else if !IsAccountId(accounts, players[order[i]]) then Some(players[order[i]])
    else FirstMissingPlayer(accounts, players, order, i + 1)
  }

  /** The error CreateGame reports once the request is valid. */
  function CreateError(accounts: seq<Account>, userID: nat, players: seq<nat>, order: seq<int>, gamesInsertFails: bool)
    : (r: Option<Errors>)
    requires InRange(order, |players|)
  {
    if gamesInsertFails then None
    else if !IsAccountId(accounts, userID) then Some(App(CreateUnavailable))
    else match FirstMissingPlayer(accounts, players, order, 0)
      case Some(pid) => Some(NewGame(PlayersError("No such player id " + NatToString(pid) + ".")))
      case None => None
  }

  /**
   * The loop of CreateGame's transaction: one incomplete turn per player,
   * in the given order, drawing on even positions. It stops at the first
   * player the foreign key refuses, with that player's error.
   */
  method InsertPlayerTurns(db: Database, gameID: nat, players: seq<nat>, order: seq<int>)
    returns (failed: bool, errors: Option<Errors>)
    requires InRange(order, |players|)
    modifies db`turns, db`nextTurnId
    ensures failed <==> FirstMissingPlayer(db.accounts, players, order, 0).Some?
    ensures failed ==> errors == Some(NewGame(PlayersError(
                         "No such player id " + NatToString(FirstMissingPlayer(db.accounts, players, order, 0).value) + ".")))
    ensures !failed ==> errors.None? && db.turns == old(db.turns) + PlayerRows(gameID, old(db.nextTurnId), players, order, |order|)
    ensures !failed ==> db.nextTurnId == old(db.nextTurnId) + |order|
    ensures db.nextTurnId >= old(db.nextTurnId)
  {
    ghost var firstId := db.nextTurnId;
    var i := 0;
    while i < |order|
      invariant 0 <= i <= |order|
      invariant db.turns == old(db.turns) + PlayerRows(gameID, firstId, players, order, i)
      invariant db.nextTurnId == firstId + i
      invariant FirstMissingPlayer(db.accounts, players, order, 0) == FirstMissingPlayer(db.accounts, players, order, i)
    {
      var playerID := players[order[i]];
      var isDrawing := i % 2 == 0;
      if !IsAccountId(db.accounts, playerID) {
        return true, Some(NewGame(PlayersError("No such player id " + NatToString(playerID) + ".")));
      }
      var row := Turn(db.nextTurnId, playerID, gameID, false, isDrawing, "", Blank);
      assert PlayerRows(gameID, firstId, players, order, i + 1) == PlayerRows(gameID, firstId, players, order, i) + [row];
      db.turns := db.turns + [row];
      db.nextTurnId := db.nextTurnId + 1;
      i := i + 1;
    }
    return false, None;
  }

  /**
   * The statements CreateGame runs inside its transaction: the Games
   * insert, the creator's turn, and the player turns. A failed Games
   * insert panics with no error set; a refused turn insert sets the error.
   * Either way the transaction is to be rolled back (failed).
   */
  method CreateGameTx(db: Database, userID: nat, labelText: string, players: seq<nat>, order: seq<int>, now: int,
                      gamesInsertFails: bool)
    returns (failed: bool, errors: Option<Errors>)
    requires InRange(order, |players|)
    modifies db`games, db`nextGameId, db`turns, db`nextTurnId
    ensures failed <==> gamesInsertFails || !IsAccountId(db.accounts, userID)
                        || FirstMissingPlayer(db.accounts, players, order, 0).Some?
    ensures errors == CreateError(db.accounts, userID, players, order, gamesInsertFails)
    ensures !failed ==>
              && db.games == old(db.games)[old(db.nextGameId) := Game(None, now + TwoDays)]
              && db.turns == old(db.turns) + NewGameTurns(old(db.nextGameId), old(db.nextTurnId), userID, labelText, players, order)
              && db.nextGameId == old(db.nextGameId) + 1 && db.nextTurnId == old(db.nextTurnId) + 1 + |order|
    ensures db.nextGameId >= old(db.nextGameId) && db.nextTurnId >= old(db.nextTurnId)
  {
    if gamesInsertFails {
      // res is nil and res.LastInsertId() panics
      return true, None;
    }
    var gameID := db.nextGameId;
    db.games := db.games[gameID := Game(None, now + TwoDays)];
    db.nextGameId := db.nextGameId + 1;
    if !IsAccountId(db.accounts, userID) {
      return true, Some(App(CreateUnavailable));
    }
    var creatorTurn := Turn(db.nextTurnId, userID, gameID, true, false, labelText, Blank);
    db.turns := db.turns + [creatorTurn];
    db.nextTurnId := db.nextTurnId + 1;
    failed, errors := InsertPlayerTurns(db, gameID, players, order);
    if !failed {
      PlayerRowsPrefix(gameID, old(db.nextTurnId), userID, labelText, players, order, |order|);
      assert NewGameTurns(gameID, old(db.nextTurnId), userID, labelText, players, order)[..1 + |order|]
             == NewGameTurns(gameID, old(db.nextTurnId), userID, labelText, players, order);
    }
  }

  /**
   * CreateGame: validate the request, then run the inserts in one
   * transaction, rolled back when any of them fails. If the Games insert
   * fails, the rollback happens and, as written, no error is reported.
   */
  method CreateGame(db: Database, userID: nat, labelText: string, players: seq<nat>, order: seq<int>, now: int,
                    gamesInsertFails: bool)
    returns (errors: Option<Errors>)
    requires db.Valid()
    requires IsPermutation(order, |players|)
    modifies db
    ensures db.Valid()
    ensures InRange(order, |players|)
    ensures labelText == "" ==> errors == Some(NewGame(LabelError(LabelRequired)))
    ensures labelText != "" && |players| == 0 ==> errors == Some(NewGame(PlayersError(PlayersRequired)))
    ensures labelText != "" && |players| > 0 ==>
              errors == CreateError(old(db.accounts), userID, players, order, gamesInsertFails)
    ensures var created := labelText != "" && |players| > 0 && !gamesInsertFails
                           && IsAccountId(old(db.accounts), userID)
                           && FirstMissingPlayer(old(db.accounts), players, order, 0).None?;
            if created then
              && old(db.nextGameId) !in old(db.games)
              && db.games == old(db.games)[old(db.nextGameId) := Game(None, now + TwoDays)]
              && db.turns == old(db.turns) + NewGameTurns(old(db.nextGameId), old(db.nextTurnId), userID, labelText, players, order)
            else db.games == old(db.games) && db.turns == old(db.turns)
    ensures Evolves(old(db.turns), db.turns)
    ensures db.accounts == old(db.accounts) && db.sessions == old(db.sessions) && db.completedAt == old(db.completedAt)
    ensures db.nextAccountId == old(db.nextAccountId) && db.nextCompletedAtId == old(db.nextCompletedAtId)
  {
    PermutationInRange(order, |players|);
    if labelText == "" {
      return Some(NewGame(LabelError(LabelRequired)));
    }
    if |players| <= 0 {
      return Some(NewGame(PlayersError(PlayersRequired)));
    }
    var savedGames, savedTurns := db.games, db.turns;
    ghost var nextTurnId := db.nextTurnId;
    var failed;
    failed, errors := CreateGameTx(db, userID, labelText, players, order, now, gamesInsertFails);
    if failed {
      // WithTx rolls the transaction back
      db.games, db.turns := savedGames, savedTurns;
      TurnsValidLargerCounter(db.turns, nextTurnId, db.nextTurnId, db.games);
    } else {
      NewGameKeepsValid(savedTurns, savedGames, db.completedAt, nextTurnId, old(db.nextGameId), userID, labelText,
                        players, order, now);
    }
  }

  // ---------------------------------------------------------------------------
  // Completion
  // ---------------------------------------------------------------------------

  /**
   * The conditional INSERT INTO GamesCompletedAt selects a row iff Games
   * has a row at all (SELECT ... FROM Games LIMIT 1), g has no completion
   * link (a missing game reads as NULL too), and g has turns that are all
   * complete (with no turns the sum is NULL and the test fails).
   */
  predicate CompletionFires(games: map<nat, Game>, turns: seq<Turn>, g: nat)
  {
    && games != map[]
    && (g !in games || games[g].completedAtId.None?)
    && GameFinished(turns, g)
  }

  /** In a valid store the insert fires exactly for an existing, unlinked, finished game. */
  lemma CompletionFiresIff(games: map<nat, Game>, turns: seq<Turn>, nextTurnId: nat, g: nat)
    requires TurnsValid(turns, nextTurnId, games)
    ensures CompletionFires(games, turns, g) <==>
              g in games && games[g].completedAtId.None? && GameFinished(turns, g)
  {
    if GameFinished(turns, g) {
      var i :| 0 <= i < |turns| && turns[i].gameId == g;
      assert g in games;
    }
  }

  /** Once a game is linked the insert never fires for it again. */
  lemma LinkedGameIsFinal(games: map<nat, Game>, turns: seq<Turn>, g: nat, c: nat)
    requires g in games && games[g].completedAtId == Some(c)
    ensures !CompletionFires(games, turns, g)
  {
  }

  /**
   * UpdateGameCompletedAtTime: insert a completion record for a finished,
   * unlinked game and link the game to it; otherwise change nothing. A
   * failed insert is reported; a failed link rolls the insert back and, as
   * written, is not reported.
   */
  method UpdateGameCompletedAtTime(db: Database, gameID: nat, now: int, insertFails: bool, linkFails: bool)
    returns (errors: Option<Errors>)
    requires db.Valid()
    modifies db`games, db`completedAt, db`nextCompletedAtId
    ensures db.Valid()
    ensures errors == (if insertFails then Some(App(CompletionUnavailable)) else None)
    ensures var linked := !insertFails && !linkFails && CompletionFires(old(db.games), old(db.turns), gameID);
            if linked then
              && gameID in old(db.games)
              && old(db.nextCompletedAtId) !in old(db.completedAt)
              && db.completedAt == old(db.completedAt)[old(db.nextCompletedAtId) := now]
              && db.games == old(db.games)[gameID := old(db.games)[gameID].(completedAtId := Some(old(db.nextCompletedAtId)))]
            else db.completedAt == old(db.completedAt) && db.games == old(db.games)
    ensures db.nextCompletedAtId ==
              old(db.nextCompletedAtId) + (if !insertFails && CompletionFires(old(db.games), old(db.turns), gameID) then 1 else 0)
  {
    if insertFails {
      return Some(App(CompletionUnavailable));
    }
    if !CompletionFires(db.games, db.turns, gameID) {
      // nothing inserted: LastInsertId reports no id and nothing is linked
      return None;
    }
    CompletionFiresIff(db.games, db.turns, db.nextTurnId, gameID);
    var savedCompletedAt := db.completedAt;
    var completedAtID := db.nextCompletedAtId;
    db.completedAt := db.completedAt[completedAtID := now];
    db.nextCompletedAtId := db.nextCompletedAtId + 1;
    if linkFails {
      // the UPDATE failed: the transaction is rolled back and errors stays nil
      db.completedAt := savedCompletedAt;
      return None;
    }
    db.games := db.games[gameID := db.games[gameID].(completedAtId := Some(completedAtID))];
    forall h | h in db.games && h != gameID && db.games[h].completedAtId.Some?
      ensures db.games[h].completedAtId != Some(completedAtID)
    {
      assert db.games[h].completedAtId.value in savedCompletedAt;
    }
    errors := None;
  }
}
