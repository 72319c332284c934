/**
 * Taking a turn as the game handler does: complete the caller's turn, then
 * check whether that finished the game. The turn's outcome is what the
 * caller hears; a failure to record the completion is only logged.
 */
module Handlers {
  import opened Wrappers
  import opened Drawings
  import opened Db
  import opened ModelErrors
  import opened Turns
  import Games

  /** The payload a submitted turn message writes. */
  function PayloadOf(turn: TurnMessage): (r: Payload)
  {
    if turn.isDrawing then DrawingPayload(Marshal(turn.drawing)) else LabelPayload(turn.labelText)
  }

  /**
   * Completing a game's last pending turn finishes the game, and
   * completing any other turn leaves it unfinished.
   */
  lemma UpdateFinishesIffLast(turns: seq<Turn>, games: map<nat, Game>, user: nat, g: nat, p: Payload, now: int)
    requires Ascending(turns)
    requires UpdateStatement(turns, games, user, g, p, now).Some?
    ensures var k := CurrentTurn(turns, g).value;
            GameFinished(UpdateStatement(turns, games, user, g, p, now).value.0, g) <==>
              forall j :: 0 <= j < |turns| && j != k ==> !Pending(turns[j], g)
  {
    var k := CurrentTurn(turns, g).value;
    var turns' := UpdateStatement(turns, games, user, g, p, now).value.0;
    assert turns'[k].gameId == g;
    if !(forall j :: 0 <= j < |turns| && j != k ==> !Pending(turns[j], g)) {
      var j :| 0 <= j < |turns| && j != k && Pending(turns[j], g);
      assert !turns'[j].isComplete;
    }
  }

  /**
   * takeTurn: the drawing or the label update, as the message says. On
   * success the game's current turn is complete, the game is still
   * unlinked, and its expiration moves to two days from now.
   */
  method TakeTurn(db: Database, userID: nat, gameID: nat, turn: TurnMessage, now: int, fault: bool)
    returns (errors: Option<Errors>)
    requires db.Valid()
    modifies db`turns, db`games
    ensures db.Valid()
    ensures var r := UpdateStatement(old(db.turns), old(db.games), userID, gameID, PayloadOf(turn), now);
            && (errors.None? <==> !fault && r.Some?)
            && (errors.Some? ==> errors == Some(App(NotYourTurn)) && db.turns == old(db.turns) && db.games == old(db.games))
            && (errors.None? ==>
                  && db.turns == r.value.0
                  && gameID in old(db.games)
                  && db.games == old(db.games)[gameID := Game(None, now + TwoDays)])
  {
    if turn.isDrawing {
      errors := UpdateDrawingTurn(db, userID, gameID, turn.drawing, now, fault);
    } else {
      errors := UpdateLabelTurn(db, userID, gameID, turn.labelText, now, fault);
    }
    if errors.None? {
      assert !GameFinished(old(db.turns), gameID);
      assert old(db.games)[gameID].completedAtId.None?;
    }
  }

  /**
   * SubmitTurn: take the turn the message describes, and when that
   * succeeds, try to record the game's completion, ignoring a failure to
   * do so.
   */
  method SubmitTurn(db: Database, userID: nat, gameID: nat, turn: TurnMessage, now: int,
                    updateFault: bool, completionInsertFails: bool, completionLinkFails: bool)
    returns (errors: Option<Errors>)
    requires db.Valid()
    modifies db`turns, db`games, db`completedAt, db`nextCompletedAtId
    ensures db.Valid()
    ensures var r := UpdateStatement(old(db.turns), old(db.games), userID, gameID, PayloadOf(turn), now);
            && (errors.None? <==> !updateFault && r.Some?)
            && (errors.Some? ==>
                  && errors == Some(App(NotYourTurn))
                  && db.turns == old(db.turns) && db.games == old(db.games) && db.completedAt == old(db.completedAt)
                  && db.nextCompletedAtId == old(db.nextCompletedAtId))
            && (errors.None? ==> db.turns == r.value.0)
    ensures errors.None? ==>
              var finished := GameFinished(db.turns, gameID);
              var linked := finished && !completionInsertFails && !completionLinkFails;
              && gameID in old(db.games)
              && db.games == old(db.games)[gameID := Game(if linked then Some(old(db.nextCompletedAtId)) else None, now + TwoDays)]
              && db.completedAt == (if linked then old(db.completedAt)[old(db.nextCompletedAtId) := now] else old(db.completedAt))
              && db.nextCompletedAtId == old(db.nextCompletedAtId) + (if finished && !completionInsertFails then 1 else 0)
  {
    errors := TakeTurn(db, userID, gameID, turn, now, updateFault);
    if errors.Some? {
      return;
    }
    Games.CompletionFiresIff(db.games, db.turns, db.nextTurnId, gameID);
    var completionErrors := Games.UpdateGameCompletedAtTime(db, gameID, now, completionInsertFails, completionLinkFails);
    // a completion failure is logged and not reported: the turn has been taken
  }
}
