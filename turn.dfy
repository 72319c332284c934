/**
 * Taking a turn and listing the inbox. A turn is taken by one conditional
 * UPDATE that completes the caller's turn only when it is the game's
 * current turn (the minimum-id incomplete turn) and of the right type; the
 * inbox pairs every game whose current turn the caller owns with that
 * game's latest complete turn.
 */
module Turns {
  import opened Wrappers
  import opened Drawings
  import opened Db
  import opened ModelErrors

  /** The one error both turn updates report, whatever the cause. */
  const NotYourTurn: string := "It is not your turn to label a drawing."
  const InboxUnavailable: string := "Unable to query inbox at this time."

  /** A turn as the client sees it: its type, its drawing (for drawing turns) and its label. */
  datatype TurnMessage = TurnMessage(isDrawing: bool, drawing: Option<Drawing>, labelText: string)

  /** An inbox entry: a game waiting on the caller and the turn played just before. */
  datatype InboxEntry = InboxEntry(gameId: nat, previousTurn: TurnMessage)

  /** What a turn update writes: a label into a label turn or a drawing into a drawing turn. */
  datatype Payload = LabelPayload(text: string) | DrawingPayload(column: DrawingColumn)

  /** The row after SET is_complete = 1 and the payload column. */
  function Completed(t: Turn, p: Payload): (r: Turn)
  {
    match p
    case LabelPayload(text) => t.(labelText := text, isComplete := true)
    case DrawingPayload(column) => t.(drawing := column, isComplete := true)
  }

  /** The row holds the payload in the column the payload is for. */
  predicate Holds(t: Turn, p: Payload)
  {
    match p
    case LabelPayload(text) => t.labelText == text
    case DrawingPayload(column) => t.drawing == column
  }

  /**
   * UPDATE Turns, Games SET <payload>, is_complete = 1, next_expiration =
   * now + 2 days WHERE the turn belongs to the user and the game, has the
   * payload's type and is the game's minimum-id incomplete turn. None when
   * no row matches.
   */
  function UpdateStatement(turns: seq<Turn>, games: map<nat, Game>, user: nat, g: nat, p: Payload, now: int)
    : (r: Option<(seq<Turn>, map<nat, Game>)>)
  {
    match CurrentTurn(turns, g)
    case None => None
    case Some(k) =>
      if g in games && turns[k].accountId == user && turns[k].isDrawing == p.DrawingPayload? then
        Some((turns[k := Completed(turns[k], p)], games[g := games[g].(nextExpiration := now + TwoDays)]))
      else None
  }

  /**
   * The update matches iff the game exists and the user owns its current
   * turn, of the payload's type.
   */
  lemma UpdateSucceedsIff(turns: seq<Turn>, games: map<nat, Game>, user: nat, g: nat, p: Payload, now: int)
    requires Ascending(turns)
    ensures UpdateStatement(turns, games, user, g, p, now).Some? <==>
              g in games &&
              exists k :: IsCurrent(turns, k, g) && turns[k].accountId == user && turns[k].isDrawing == p.DrawingPayload?
  {
    match CurrentTurn(turns, g)
    case None =>
      forall k | IsCurrent(turns, k, g) ensures false {
        CurrentTurnIsMinId(turns, g, k);
      }
    case Some(c) =>
      CurrentTurnIsMinId(turns, g, c);
      forall k | IsCurrent(turns, k, g) ensures k == c {
        CurrentTurnUnique(turns, g, k, c);
      }
  }

  /**
   * A successful update completes the current turn and stores the payload
   * there, moves the game's expiration to now + 2 days, and changes no
   * other turn and no other game.
   */
  lemma UpdateEffect(turns: seq<Turn>, games: map<nat, Game>, user: nat, g: nat, p: Payload, now: int, k: nat)
    requires Ascending(turns)
    requires UpdateStatement(turns, games, user, g, p, now).Some?
    requires IsCurrent(turns, k, g)
    ensures var (turns', games') := UpdateStatement(turns, games, user, g, p, now).value;
            && |turns'| == |turns|
            && !turns[k].isComplete && turns'[k].isComplete && Holds(turns'[k], p)
            && turns'[k].accountId == user && turns'[k].isDrawing == p.DrawingPayload?
            && (forall j :: 0 <= j < |turns| && j != k ==> turns'[j] == turns[j])
            && games'.Keys == games.Keys
            && games'[g] == Game(games[g].completedAtId, now + TwoDays)
            && (forall h :: h in games && h != g ==> games'[h] == games[h])
  {
    CurrentTurnIsMinId(turns, g, k);
  }

  /** When the game has a current turn and the update matches nothing, the
      caller does not own that turn or the payload is of the wrong type. */
  lemma UpdateFailsOnlyWhenNotCurrentOwner(turns: seq<Turn>, games: map<nat, Game>, user: nat, g: nat, p: Payload, now: int, k: nat)
    requires Ascending(turns)
    requires IsCurrent(turns, k, g) && g in games
    requires UpdateStatement(turns, games, user, g, p, now).None?
    ensures turns[k].accountId != user || turns[k].isDrawing != p.DrawingPayload?
  {
    CurrentTurnIsMinId(turns, g, k);
  }

  /** Completing a game's current turn keeps turns completing in order. */
  lemma CompletingCurrentInOrder(turns: seq<Turn>, g: nat, p: Payload)
    requires CompletedInOrder(turns) && CurrentTurn(turns, g).Some?
    ensures var k := CurrentTurn(turns, g).value;
            CompletedInOrder(turns[k := Completed(turns[k], p)])
  {
    var k := CurrentTurn(turns, g).value;
    var turns' := turns[k := Completed(turns[k], p)];
    forall i, j | 0 <= i < j < |turns'| && turns'[i].gameId == turns'[j].gameId && turns'[j].isComplete
      ensures turns'[i].isComplete
    {
      if i != k && j == k {
        assert !Pending(turns[i], g);
      }
    }
  }

  /**
   * A successful update keeps every invariant of the tables, only moves
   * turns forward (Evolves), and leaves the game's completion link alone.
   */
  lemma UpdateKeepsValid(turns: seq<Turn>, games: map<nat, Game>, completedAt: map<nat, int>, nextTurnId: nat,
                         user: nat, g: nat, p: Payload, now: int)
    requires TurnsValid(turns, nextTurnId, games) && CompletionLinksValid(games, completedAt, turns)
    requires UpdateStatement(turns, games, user, g, p, now).Some?
    ensures var (turns', games') := UpdateStatement(turns, games, user, g, p, now).value;
            && Evolves(turns, turns')
            && TurnsValid(turns', nextTurnId, games')
            && CompletionLinksValid(games', completedAt, turns')
            && games'.Keys == games.Keys
            && (forall h :: h in games ==> games'[h].completedAtId == games[h].completedAtId)
  {
    var k := CurrentTurn(turns, g).value;
    var (turns', games') := UpdateStatement(turns, games, user, g, p, now).value;
    assert turns' == turns[k := Completed(turns[k], p)];
    CompletingCurrentInOrder(turns, g, p);
    CompletingCurrentKeepsLinks(turns, games, completedAt, g, p, now);
  }

  /**
   * Completing a game's current turn leaves every linked game finished: the
   * game itself has a pending turn, so it was not linked.
   */
  lemma CompletingCurrentKeepsLinks(turns: seq<Turn>, games: map<nat, Game>, completedAt: map<nat, int>,
                                    g: nat, p: Payload, now: int)
    requires CompletionLinksValid(games, completedAt, turns) && CurrentTurn(turns, g).Some? && g in games
    ensures var k := CurrentTurn(turns, g).value;
            CompletionLinksValid(games[g := games[g].(nextExpiration := now + TwoDays)], completedAt,
                                 turns[k := Completed(turns[k], p)])
  {
    var k := CurrentTurn(turns, g).value;
    var turns', games' := turns[k := Completed(turns[k], p)], games[g := games[g].(nextExpiration := now + TwoDays)];
    assert !GameFinished(turns, g);
    forall h | h in games' && games'[h].completedAtId.Some?
      ensures GameFinished(turns', h)
    {
      assert h != g;
      assert GameFinished(turns, h);
      var i :| 0 <= i < |turns| && turns[i].gameId == h;
      assert turns'[i].gameId == h;
    }
  }

  /**
   * A turn is completed at most once: once an update has completed row k,
   * no later update, by any user with any payload, changes that row.
   */
  lemma CompletedTurnIsFinal(turns: seq<Turn>, games: map<nat, Game>, user: nat, g: nat, p: Payload, now: int,
                             turns': seq<Turn>, games': map<nat, Game>, user2: nat, g2: nat, p2: Payload, now2: int, k: nat)
    requires Ascending(turns)
    requires UpdateStatement(turns, games, user, g, p, now) == Some((turns', games'))
    requires k < |turns| && !turns[k].isComplete && turns'[k].isComplete
    ensures UpdateStatement(turns', games', user2, g2, p2, now2).None? ||
            UpdateStatement(turns', games', user2, g2, p2, now2).value.0[k] == turns'[k]
  {
    var c := CurrentTurn(turns, g).value;
    assert k == c;
    match CurrentTurn(turns', g2)
    case None =>
    case Some(c2) =>
      assert c2 != k;
  }

  method UpdateTurn(db: Database, userID: nat, gameID: nat, p: Payload, now: int, fault: bool)
    returns (errors: Option<Errors>)
    requires db.Valid()
    modifies db`turns, db`games
    ensures db.Valid()
    ensures var r := UpdateStatement(old(db.turns), old(db.games), userID, gameID, p, now);
            if !fault && r.Some? then errors.None? && db.turns == r.value.0 && db.games == r.value.1
            else errors == Some(App(NotYourTurn)) && db.turns == old(db.turns) && db.games == old(db.games)
    ensures Evolves(old(db.turns), db.turns)
  {
    if fault {
      // the statement itself failed
      return Some(App(NotYourTurn));
    }
    var r := UpdateStatement(db.turns, db.games, userID, gameID, p, now);
    if r.None? {
      // RowsAffected() == 0
      return Some(App(NotYourTurn));
    }
    UpdateKeepsValid(db.turns, db.games, db.completedAt, db.nextTurnId, userID, gameID, p, now);
    db.turns, db.games := r.value.0, r.value.1;
    errors := None;
  }

  /** UpdateDrawingTurn: complete the caller's current drawing turn with the drawing. */
  method UpdateDrawingTurn(db: Database, userID: nat, gameID: nat, drawing: Option<Drawing>, now: int, fault: bool)
    returns (errors: Option<Errors>)
    requires db.Valid()
    modifies db`turns, db`games
    ensures db.Valid()
    ensures var r := UpdateStatement(old(db.turns), old(db.games), userID, gameID, DrawingPayload(Marshal(drawing)), now);
            if !fault && r.Some? then errors.None? && db.turns == r.value.0 && db.games == r.value.1
            else errors == Some(App(NotYourTurn)) && db.turns == old(db.turns) && db.games == old(db.games)
    ensures Evolves(old(db.turns), db.turns)
  {
    var drawingJson := Marshal(drawing);
    errors := UpdateTurn(db, userID, gameID, DrawingPayload(drawingJson), now, fault);
  }

  /** UpdateLabelTurn: complete the caller's current label turn with the label. */
  method UpdateLabelTurn(db: Database, userID: nat, gameID: nat, labelText: string, now: int, fault: bool)
    returns (errors: Option<Errors>)
    requires db.Valid()
    modifies db`turns, db`games
    ensures db.Valid()
    ensures var r := UpdateStatement(old(db.turns), old(db.games), userID, gameID, LabelPayload(labelText), now);
            if !fault && r.Some? then errors.None? && db.turns == r.value.0 && db.games == r.value.1
            else errors == Some(App(NotYourTurn)) && db.turns == old(db.turns) && db.games == old(db.games)
    ensures Evolves(old(db.turns), db.turns)
  {
    errors := UpdateTurn(db, userID, gameID, LabelPayload(labelText), now, fault);
  }

  // ---------------------------------------------------------------------------
  // The inbox
  // ---------------------------------------------------------------------------

  /** Row k is g's latest complete turn: the maximum-id complete turn of g. */
  ghost predicate IsLastComplete(turns: seq<Turn>, k: int, g: nat)
  {
    && 0 <= k < |turns|
    && turns[k].gameId == g && turns[k].isComplete
    && forall j :: 0 <= j < |turns| && turns[j].gameId == g && turns[j].isComplete ==> turns[j].id <= turns[k].id
  }

  /** The user owns g's current turn. */
  ghost predicate OwnsCurrent(turns: seq<Turn>, g: nat, user: nat)
  {
    exists c :: IsCurrent(turns, c, g) && turns[c].accountId == user
  }

  /** The owner of g's first incomplete turn, if g has one. */
  function CurrentOwner(turns: seq<Turn>, g: nat): (r: Option<nat>)
  {
    match CurrentTurn(turns, g)
    case None => None
    case Some(c) => Some(turns[c].accountId)
  }

  /** Row i is complete, no later row of its game is complete, and the user owns the game's current turn. */
  predicate SelectedAt(turns: seq<Turn>, user: nat, i: nat)
    requires i < |turns|
  {
    && turns[i].isComplete
    && (forall j :: i < j < |turns| && turns[j].gameId == turns[i].gameId ==> !turns[j].isComplete)
    && CurrentOwner(turns, turns[i].gameId) == Some(user)
  }

  /** The rows of the inbox query among turns[i..], in table order. */
  function InboxRowsFrom(turns: seq<Turn>, user: nat, i: nat): (r: seq<Turn>)
    requires i <= |turns|
    decreases |turns| - i
  {
    if i == |turns| then []
    else (if SelectedAt(turns, user, i) then [turns[i]] else []) + InboxRowsFrom(turns, user, i + 1)
  }

  /**
   * The inbox query: for each game whose minimum-id incomplete turn the user
   * owns, the game's maximum-id complete turn.
   */
  function InboxRows(turns: seq<Turn>, user: nat): (r: seq<Turn>)
  {
    InboxRowsFrom(turns, user, 0)
  }

  /** SelectedAt is the query's join condition, stated by ids. */
  lemma SelectedAtMeans(turns: seq<Turn>, user: nat, i: nat)
    requires Ascending(turns) && i < |turns|
    ensures SelectedAt(turns, user, i) <==>
              IsLastComplete(turns, i, turns[i].gameId) && OwnsCurrent(turns, turns[i].gameId, user)
  {
    var g := turns[i].gameId;
    match CurrentTurn(turns, g)
    case None =>
      forall c | IsCurrent(turns, c, g) ensures false {
        CurrentTurnIsMinId(turns, g, c);
      }
    case Some(c) =>
      CurrentTurnIsMinId(turns, g, c);
      forall c' | IsCurrent(turns, c', g) ensures c' == c {
        CurrentTurnUnique(turns, g, c', c);
      }
  }

  lemma {:induction false} InboxRowsFromMembers(turns: seq<Turn>, user: nat, i: nat)
    requires i <= |turns|
    ensures forall t :: t in InboxRowsFrom(turns, user, i) <==>
              exists k :: i <= k < |turns| && turns[k] == t && SelectedAt(turns, user, k)
    decreases |turns| - i
  {
    if i < |turns| {
      InboxRowsFromMembers(turns, user, i + 1);
    }
  }

  /**
   * The inbox holds exactly the latest complete turns of the games whose
   * current turn the user owns.
   */
  lemma InboxRowsExact(turns: seq<Turn>, user: nat)
    requires Ascending(turns)
    ensures forall k :: 0 <= k < |turns| ==>
              (turns[k] in InboxRows(turns, user) <==>
               IsLastComplete(turns, k, turns[k].gameId) && OwnsCurrent(turns, turns[k].gameId, user))
    ensures forall t :: t in InboxRows(turns, user) ==>
              exists k :: 0 <= k < |turns| && turns[k] == t &&
                IsLastComplete(turns, k, t.gameId) && OwnsCurrent(turns, t.gameId, user)
  {
    InboxRowsFromMembers(turns, user, 0);
    forall k | 0 <= k < |turns| {
      SelectedAtMeans(turns, user, k);
    }
    forall k, k' | 0 <= k < |turns| && 0 <= k' < |turns| && turns[k] == turns[k']
      ensures k == k'
    {
    }
  }

  /** No two rows are for the same game. */
  predicate OneRowPerGame(rows: seq<Turn>)
  {
    forall a, b :: 0 <= a < b < |rows| ==> rows[a].gameId != rows[b].gameId
  }

  /**
   * The grouped query yields at most one row per game: a selected row has no
   * later complete row of its game, so no later row of that game is selected.
   */
  lemma {:induction false} InboxRowsFromOnePerGame(turns: seq<Turn>, user: nat, i: nat)
    requires i <= |turns|
    ensures OneRowPerGame(InboxRowsFrom(turns, user, i))
    decreases |turns| - i
  {
    if i < |turns| {
      var rest := InboxRowsFrom(turns, user, i + 1);
      InboxRowsFromOnePerGame(turns, user, i + 1);
      if SelectedAt(turns, user, i) {
        InboxRowsFromMembers(turns, user, i + 1);
        var rows := [turns[i]] + rest;
        assert InboxRowsFrom(turns, user, i) == rows;
        forall a, b | 0 <= a < b < |rows| ensures rows[a].gameId != rows[b].gameId {
          assert rows[b] == rest[b - 1] && rest[b - 1] in rest;
          if a == 0 {
            var k :| i + 1 <= k < |turns| && turns[k] == rest[b - 1] && SelectedAt(turns, user, k);
          } else {
            assert rows[a] == rest[a - 1];
          }
        }
      } else {
        assert InboxRowsFrom(turns, user, i) == rest;
      }
    }
  }

  /** Scanning one row: a drawing turn's drawing is decoded, and a row that does not decode is skipped. */
  function ReadRow(row: Turn): (r: Option<InboxEntry>)
  {
    if row.isDrawing then
      match Unmarshal(row.drawing)
      case None => None
      case Some(d) => Some(InboxEntry(row.gameId, TurnMessage(true, d, row.labelText)))
    else Some(InboxEntry(row.gameId, TurnMessage(false, None, row.labelText)))
  }

  /** The entries of the rows that read, in row order. */
  function ReadRows(rows: seq<Turn>): (r: seq<InboxEntry>)
    decreases |rows|
  {
    if |rows| == 0 then []
    else
      ReadRows(rows[..|rows| - 1])
      + match ReadRow(rows[|rows| - 1]) { case None => [] case Some(e) => [e] }
  }

  lemma {:induction false} ReadRowsMembers(rows: seq<Turn>)
    ensures forall e :: e in ReadRows(rows) <==> exists r :: r in rows && ReadRow(r) == Some(e)
    decreases |rows|
  {
    if |rows| > 0 {
      ReadRowsMembers(rows[..|rows| - 1]);
      assert rows == rows[..|rows| - 1] + [rows[|rows| - 1]];
    }
  }

  /** No two entries are for the same game. */
  predicate OneEntryPerGame(entries: seq<InboxEntry>)
  {
    forall a, b :: 0 <= a < b < |entries| ==> entries[a].gameId != entries[b].gameId
  }

  /** Reading keeps a subsequence of the rows and each entry keeps its row's game. */
  lemma {:induction false} ReadRowsOnePerGame(rows: seq<Turn>)
    requires OneRowPerGame(rows)
    ensures OneEntryPerGame(ReadRows(rows))
    decreases |rows|
  {
    if |rows| > 0 {
      var init := rows[..|rows| - 1];
      var last := rows[|rows| - 1];
      ReadRowsOnePerGame(init);
      ReadRowsMembers(init);
      match ReadRow(last)
      case None =>
      case Some(e) =>
        var entries := ReadRows(init) + [e];
        forall a | 0 <= a < |ReadRows(init)| ensures entries[a].gameId != e.gameId {
          var r :| r in init && ReadRow(r) == Some(entries[a]);
          var j :| 0 <= j < |init| && init[j] == r;
          assert rows[j] == r;
        }
    }
  }

  /** The inbox has at most one entry per game. */
  lemma InboxOnePerGame(turns: seq<Turn>, user: nat)
    ensures OneEntryPerGame(ReadRows(InboxRows(turns, user)))
  {
    InboxRowsFromOnePerGame(turns, user, 0);
    ReadRowsOnePerGame(InboxRows(turns, user));
  }

  /**
   * Every inbox entry is for a game whose current turn the user owns, and
   * carries that game's latest complete turn: its type, its label, and its
   * drawing exactly when it is a drawing turn.
   */
  lemma InboxEntrySound(turns: seq<Turn>, user: nat, e: InboxEntry)
    requires Ascending(turns)
    requires e in ReadRows(InboxRows(turns, user))
    ensures exists k :: 0 <= k < |turns|
              && turns[k].gameId == e.gameId
              && IsLastComplete(turns, k, e.gameId)
              && OwnsCurrent(turns, e.gameId, user)
              && e.previousTurn.isDrawing == turns[k].isDrawing
              && e.previousTurn.labelText == turns[k].labelText
              && (turns[k].isDrawing ==> Unmarshal(turns[k].drawing) == Some(e.previousTurn.drawing))
              && (!turns[k].isDrawing ==> e.previousTurn.drawing.None?)
  {
    ReadRowsMembers(InboxRows(turns, user));
    InboxRowsExact(turns, user);
    var r :| r in InboxRows(turns, user) && ReadRow(r) == Some(e);
    var k :| 0 <= k < |turns| && turns[k] == r && IsLastComplete(turns, k, r.gameId) && OwnsCurrent(turns, r.gameId, user);
  }

  /**
   * Every game whose current turn the user owns and that has a complete
   * turn gets an entry, unless that turn's drawing does not decode.
   */
  lemma InboxEntryComplete(turns: seq<Turn>, user: nat, k: nat, c: nat)
    requires Ascending(turns) && k < |turns|
    requires IsLastComplete(turns, k, turns[k].gameId)
    requires IsCurrent(turns, c, turns[k].gameId) && turns[c].accountId == user
    requires ReadRow(turns[k]).Some?
    ensures ReadRow(turns[k]).value in ReadRows(InboxRows(turns, user))
  {
    InboxRowsExact(turns, user);
    ReadRowsMembers(InboxRows(turns, user));
  }

  /**
   * A drawing written by a successful drawing update comes back unchanged
   * through the inbox of whoever owns the game's next turn.
   */
  lemma DrawingRoundTrip(turns: seq<Turn>, games: map<nat, Game>, nextTurnId: nat, user: nat, g: nat,
                         d: Option<Drawing>, now: int, next: nat, c: nat)
    requires TurnsValid(turns, nextTurnId, games)
    requires UpdateStatement(turns, games, user, g, DrawingPayload(Marshal(d)), now).Some?
    requires var turns' := UpdateStatement(turns, games, user, g, DrawingPayload(Marshal(d)), now).value.0;
             IsCurrent(turns', c, g) && turns'[c].accountId == next
    ensures var turns' := UpdateStatement(turns, games, user, g, DrawingPayload(Marshal(d)), now).value.0;
            exists e :: e in ReadRows(InboxRows(turns', next)) && e.gameId == g && e.previousTurn.drawing == d
  {
    var k := CurrentTurn(turns, g).value;
    var turns' := UpdateStatement(turns, games, user, g, DrawingPayload(Marshal(d)), now).value.0;
    assert turns' == turns[k := Completed(turns[k], DrawingPayload(Marshal(d)))];
    assert Ascending(turns');
    assert IsLastComplete(turns', k, g) by {
      forall j | 0 <= j < |turns'| && turns'[j].gameId == g && turns'[j].isComplete
        ensures turns'[j].id <= turns'[k].id
      {
        if j > k {
          assert false;
        }
      }
    }
    UnmarshalMarshal(d);
    assert ReadRow(turns'[k]) == Some(InboxEntry(g, TurnMessage(true, d, turns'[k].labelText)));
    InboxEntryComplete(turns', next, k, c);
  }

  /**
   * GetInboxEntriesForUser: run the inbox query, then read its rows one by
   * one, skipping any that does not decode. Nothing is written.
   */
  method GetInboxEntriesForUser(db: Database, userID: nat, fault: bool)
    returns (entries: seq<InboxEntry>, errors: Option<Errors>)
    requires db.Valid()
    ensures fault ==> entries == [] && errors == Some(App(InboxUnavailable))
    ensures !fault ==> errors.None? && entries == ReadRows(InboxRows(db.turns, userID))
    ensures forall e :: e in entries ==> OwnsCurrent(db.turns, e.gameId, userID)
    ensures OneEntryPerGame(entries)
  {
    if fault {
      // db.Query failed
      return [], Some(App(InboxUnavailable));
    }
    var rows := InboxRows(db.turns, userID);
    entries := [];
    var i := 0;
    while i < |rows|
      invariant 0 <= i <= |rows|
      invariant entries == ReadRows(rows[..i])
    {
      var row := rows[i];
      assert rows[..i + 1] == rows[..i] + [row];
      var turn := TurnMessage(row.isDrawing, None, row.labelText);
      if turn.isDrawing {
        var decoded := Unmarshal(row.drawing);
        if decoded.None? {
          // unable to decode the drawing: skip the row
          i := i + 1;
          continue;
        }
        turn := turn.(drawing := decoded.value);
      }
      entries := entries + [InboxEntry(row.gameId, turn)];
      i := i + 1;
    }
    assert rows[..i] == rows;
    errors := None;
    InboxOnePerGame(db.turns, userID);
    forall e | e in entries ensures OwnsCurrent(db.turns, e.gameId, userID) {
      InboxEntrySound(db.turns, userID, e);
    }
  }
}
