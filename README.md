# pifuxelck server core, modelled in Dafny

pifuxelck is a drawing-telephone game. A game starts from a label written
by its creator. The players then take turns in a random order, alternately
drawing the previous label and labelling the previous drawing. This project
models the server's data layer and the game rules it enforces:

- **Games** (`game.dfy`): creating a game. The game row, the creator's label
  turn and one turn per player are inserted in one transaction. The player
  order is a permutation, and turn types alternate starting with a drawing.
  A second operation records, exactly once, that a game is over.
- **Turns and the inbox** (`turn.dfy`): taking a turn. One conditional
  update completes the caller's turn only when it is the game's current
  turn (the lowest-id incomplete turn) and has the right type. The inbox
  query pairs every game whose current turn the caller owns with that
  game's latest complete turn.
- **Sessions** (`auth.dfy`, `base64.dfy`): login tokens. A token is 32
  random bytes in padded base64url. Sessions are pruned after seven days.
- **Accounts** (`user.dfy`, `contact.dfy`): registration, with a minimum
  password length and unique display names; login by password; lookup by
  display name.
- **The leveled logger** (`log.dfy`): level symbols, shortening of the
  caller's path, and the level filter.
- **The turn handler** (`handlers.dfy`): take a turn, then try to record
  that the game is complete.

The relational store is one `Db.Database` object. It has one field per table
(`accounts`, `sessions`, `games`, `turns`, `completedAt`) and one
auto-increment counter per id column. Each SQL statement is one step on
those values, and the model operations are methods that `modify` the
database. A transaction that fails puts the tables back as they were, and
the counters keep their advance.

`Database.Valid()` is the invariant every operation keeps:

- account ids ascend and display names are unique;
- turn ids ascend, and every turn belongs to an existing game;
- within a game, no complete turn follows an incomplete one;
- a game linked to a completion record has all of its turns complete;
- no two games share a completion record.

What the environment decides is passed in as parameters:

- the random permutation of the players;
- the 32 random bytes, or a failed read;
- the current time, as an integer number of seconds;
- some storage failures, as booleans: a failed update of a turn, a failed
  completion insert or link, a failed prune, a failed session insert, a
  failed password hash or account insert, a failed Games insert, a failed
  inbox query, and a row that cannot be read in the session, login and
  contact lookups. Other failures are listed under "## Left out".

Ids are natural numbers. Where the code hands an id back as a string, the
model renders it in decimal (`Text.NatToString`).

Choices where the code is ambiguous, or differs from its own comments:

- **Inbox owner.** In the inbox query, `CT.account_id` is selected beside
  `MIN(CT.id)` under `GROUP BY game_id`. SQL does not say which row's owner
  that is. The model takes the owner of the lowest-id incomplete turn,
  which is what the query is evidently meant to select (`Turns.CurrentOwner`).
  The model also assumes MySQL's `ONLY_FULL_GROUP_BY` mode is off. With it
  on, MySQL rejects the query because `CT.account_id` is not in the
  `GROUP BY`, and every inbox read would fail.
- **Swapped doc comments.** The comments on `UpdateDrawingTurn` and
  `UpdateLabelTurn` are swapped. The model follows the SQL: the drawing
  update fills drawing turns, the label update fills label turns.
- **Drawing always encodes.** A drawing that fails to encode as JSON is
  logged and the error is set to the not-your-turn message, but the update
  still runs. If it then matches, the turn is completed and the caller is
  still told it was not their turn. The model treats every drawing as
  encodable (`Drawings.Marshal`).
- **Silent success in CreateGame.** `CreateGame` ignores the error of the
  Games insert. The resulting panic is recovered and the transaction rolled
  back, but the caller is told the game was created
  (`gamesInsertFails` in `Games.CreateGame`).
- **Silent failure to link.** The same happens when linking a completed
  game fails (`linkFails` in `Games.UpdateGameCompletedAtTime`).
- **Completion with nothing inserted.** When the completion insert
  inserts nothing, the code relies on `LastInsertId` reporting an error. The
  model follows the stated contract: nothing inserted means nothing linked.
  That is driver behaviour, not something the code checks.
- **Values returned next to errors.** `NewAuthToken` returns the token even
  when storing it failed. `CreateUser` returns the user, password blanked,
  next to a "display name taken" error. Both are modelled as written.

## Model

| member | source | states |
|---|---|---|
| `Turns.UpdateSucceedsIff` | server/models/turn.go:151-165 | `Turns.UpdateStatement` is the UPDATE. It matches a row exactly when the game exists and the caller owns its current turn (the minimum-id incomplete turn) of the payload's type. |
| `Turns.UpdateEffect` | server/models/turn.go:110-124 | A matching update completes exactly the current turn and stores the payload there. It sets the game's expiration to now + 2 days and changes no other turn or game. |
| `Turns.UpdateFailsOnlyWhenNotCurrentOwner` | server/models/turn.go:157-164 | When the game has a current turn and nothing matches, the caller does not own it or the type is wrong. |
| `Turns.UpdateKeepsValid` | server/models/turn.go:110-124 | A turn update keeps the turn-table invariants and only moves turns forward. A complete row never changes, and completion links stay as they were. |
| `Turns.CompletedTurnIsFinal` | server/models/turn.go:161-164 | Once completed, a turn is never changed by a later update, whoever submits it. |
| `Turns.UpdateTurn` | server/models/turn.go:126-137 | A failed statement and a statement that matches no row both give "It is not your turn to label a drawing." and leave the tables unchanged. Otherwise the tables become the update's result. |
| `Turns.UpdateDrawingTurn` | server/models/turn.go:98-140 | Completes the caller's current drawing turn with the JSON of the drawing, under the update's rules. |
| `Turns.UpdateLabelTurn` | server/models/turn.go:145-181 | Completes the caller's current label turn with the label, under the update's rules. |
| `Turns.SelectedAtMeans` | server/models/turn.go:38-52 | `Turns.CurrentOwner` gives the owner of a game's minimum-id incomplete turn. A row is selected by the inbox query iff it is its game's maximum-id complete turn and the user owns the game's minimum-id incomplete turn. |
| `Turns.InboxRowsFromMembers` | server/models/turn.go:37-53 | The inbox rows are exactly the table rows the join condition selects. |
| `Turns.InboxRowsExact` | server/models/turn.go:37-53 | `Turns.InboxRows` is the SELECT. The inbox it returns holds exactly the latest complete turns of the games whose current turn the user owns, and nothing else. |
| `Turns.InboxOnePerGame` | server/models/turn.go:38-52 | Both subqueries group by game and the join is on the previous turn's id, so the inbox has at most one entry per game. |
| `Turns.ReadRowsMembers` | server/models/turn.go:60-86 | Reading the rows keeps exactly the entries of the rows that decode. |
| `Turns.InboxEntrySound` | server/models/turn.go:60-86 | Every inbox entry is for a game whose current turn the user owns. It carries that game's latest complete turn: its type, its label, and its decoded drawing exactly when it is a drawing turn. |
| `Turns.InboxEntryComplete` | server/models/turn.go:38-85 | Every game whose current turn the user owns and that has a complete turn gets an entry, unless that turn's drawing does not decode. |
| `Turns.DrawingRoundTrip` | server/models/turn.go:104-124 | A drawing stored by a successful drawing update comes back unchanged in the inbox of whoever owns the game's next turn. |
| `Turns.GetInboxEntriesForUser` | server/models/turn.go:30-93 | A failed query gives no entries and "Unable to query inbox at this time.". Otherwise the loop returns the decoded inbox rows in row order, skipping rows that do not decode. Every entry is for a game waiting on the user, and no game appears twice. |
| `Games.PermutationInRange` | server/models/game.go:76-78 | An ordering of 0..n-1 has n entries, each a valid index into the players. |
| `Games.PickMultiset` | server/models/game.go:76-78 | Picking values through two index lists with the same multiset gives the same multiset of values. |
| `Games.PickPermutation` | server/models/game.go:76-78 | Taking the players in the order of a permutation keeps every player, duplicates included. |
| `Games.NewGameShape` | server/models/game.go:51-96 | `Games.NewGameTurns` gives the rows the transaction inserts. A new game has 1 + len(players) turns with consecutive ids. The first is the creator's complete label turn. The rest are incomplete and empty, and alternate drawing and label, starting with a drawing. Their owners are the players, each as often as listed. |
| `Games.NewGameTurnsValid` | server/models/game.go:64-96 | Appending a new game's turns keeps ids ascending, gives every turn an existing game, and keeps completion in play order. |
| `Games.NewGameKeepsValid` | server/models/game.go:51-96 | Creating a game keeps every table invariant. The new game is unlinked, and every linked game stays finished. |
| `Games.NewGameInboxShowsLabel` | server/models/game.go:64-89 | In a new game the current turn belongs to the first player in the order and is a drawing turn. That player's inbox shows the creator's label. |
| `Games.FirstMissingPlayer` | server/models/game.go:76-95 | Finds the first player, in play order, whose id has no account: None iff every player has one. |
| `Games.PlayerRowsPrefix` | server/models/game.go:64-96 | The creator's row followed by the first i player rows, as the loop inserts them, is the first 1 + i rows of the new game. |
| `Games.InsertPlayerTurns` | server/models/game.go:76-95 | The loop inserts one empty turn per player in play order, drawing on even positions, with consecutive ids. It fails iff some player has no account, and then reports the first such player as "No such player id N.". |
| `Games.CreateGameTx` | server/models/game.go:50-98 | The transaction body fails iff the Games insert fails, the creator has no account, or a player has none, and reports the matching error. Otherwise it adds the game, expiring in two days, and exactly the new game's turns. |
| `Games.CreateGame` | server/models/game.go:33-102 | An empty label is rejected first, then an empty player list; both store nothing. A failed Games insert rolls back and reports success. An unknown creator gives "Unable to create a new game at this time."; the first unknown player gives "No such player id N."; both roll back. Otherwise the game and its turns are inserted. |
| `Games.CompletionFiresIff` | server/models/game.go:116-131 | `Games.CompletionFires` is the condition of the INSERT ... SELECT. In a valid store that insert selects a row iff the game exists, has no completion link, and all of its turns are complete. |
| `Games.LinkedGameIsFinal` | server/models/game.go:121-124 | Once a game is linked, the conditional insert never fires for it again. |
| `Games.UpdateGameCompletedAtTime` | server/models/game.go:106-153 | A failed insert gives "Unable to update the game's completion time.". A finished, unlinked game gets one new completion record and is linked to it. In every other case nothing changes and no error is reported, including a failed link, which is rolled back. |
| `Handlers.UpdateFinishesIffLast` | server/handlers/game.go:85-101 | Taking a turn finishes the game iff it was the game's last pending turn. |
| `Handlers.TakeTurn` | server/handlers/game.go:85-98 | Takes the drawing or the label turn, as the message says. On success the turns become the update's result and only the game's expiration changes, to two days from now. Otherwise the tables are unchanged and the caller gets "It is not your turn to label a drawing.". |
| `Handlers.SubmitTurn` | server/handlers/game.go:74-107 | The caller hears only the turn's outcome. After a successful turn the game ends up linked iff it is finished and recording the completion did not fail. The rest of the new state is stated too: the game's expiration, the other games, the completion records and their counter. |
| `Auth.PrunedIff` | server/models/auth.go:62-68 | `Auth.Pruned` is the DELETE. A session survives pruning iff it is at most seven days old, and it survives unchanged. |
| `Auth.PruneLater` | server/models/auth.go:62-68 | Pruning at t1 and then at a later t2 is the same as pruning once at t2. |
| `Auth.PruneShrinks` | server/models/auth.go:62-68 | Pruning never adds or changes a session. |
| `Auth.PruneAuthTokens` | server/models/auth.go:62-68 | Deletes the sessions older than seven days. A failed delete is ignored and leaves the table as it was. |
| `Auth.NewAuthToken` | server/models/auth.go:15-39 | Prunes first. A failed random read gives "" and "Unable to login at this time.". Otherwise the token is the 44-character padded base64url encoding of the 32 bytes, and it decodes back to them. It is stored with the account and the time unless it is already taken or the insert fails; then the error is reported and the token is still returned. |
| `Auth.AuthTokenLookup` | server/models/auth.go:43-60 | Prunes first, then returns the decimal account id of the token's session. A missing session, or a row that cannot be read, gives "" and "Invalid authentication token.". A session found after a successful prune is at most seven days old. After a failed prune, any stored session is found, however old. |
| `Auth.SessionLifetime` | server/models/auth.go:62-68 | A session created at t is found by a lookup at any time up to t + 7 days, and by none after, however many prunes run in between, provided every prune, including the lookup's own, succeeds. |
| `Auth.PruneAllAt` | server/models/auth.go:62-68 | A run of prunes at non-decreasing times amounts to the latest prune alone. |
| `Base64.DecodeEncode` | server/models/auth.go:24 | Decoding the base64url encoding gives back the bytes, so no information in the random buffer is lost. |
| `Base64.EncodeInjective` | server/models/auth.go:24 | Distinct random buffers give distinct tokens. |
| `Base64.EncodeLength` | server/models/auth.go:24 | Encoding takes four characters for every started group of three bytes. |
| `Base64.EncodeAlphabet` | server/models/auth.go:24 | Every character before the padding is from the URL-safe alphabet. One trailing byte gives two '=' and two trailing bytes give one. |
| `Base64.TokenShape` | server/models/auth.go:19-24 | A token from 32 bytes is 43 alphabet characters followed by one '='. |
| `Users.CreateUser` | server/models/user.go:34-73 | A password shorter than 8 bytes, then a failed hash, are rejected with their messages, storing nothing and returning no user. A taken display name, or a failed insert, gives "Display name already taken." and returns the user with the password blanked. Otherwise the account is stored with the password's digest and the user returned with its new decimal id. |
| `Users.LoginIff` | server/models/user.go:77-102 | `Users.Login` is what a login yields when its row can be read. It succeeds iff an account has the name and the password matches its digest, and then yields that account's id. An unknown name gives "No such user.", and a known name with a wrong password gives "Invalid password.". |
| `Users.RegisterThenLogin` | server/models/user.go:41-67 | After registering, logging in with the same name and password yields the new id. |
| `Users.UserLookupByPassword` | server/models/user.go:77-102 | A row that cannot be read gives "" and "No such user.". Otherwise it yields what `Users.Login` yields. On a wrong password that is the account's id together with "Invalid password."; on success a decimal id. |
| `Db.FindByName` | server/models/user.go:80-82 | The SELECT by display name: the row found has that name, and None means no row has it. |
| `Contacts.ContactLookup` | server/models/contact.go:11-30 | Returns the user with that display name, carrying only its id and name. It gives "No such user." when no account has the name or the row cannot be read. Exactly one of user and error is present. |
| `Contacts.ContactAgreesWithLogin` | server/models/contact.go:15-26 | A contact lookup and a successful login by the same name agree on the id. |
| `Contacts.ContactAfterRegister` | server/models/contact.go:15-26 | A newly registered name is found, with the id its registration assigned. |
| `Drawings.UnmarshalMarshal` | server/models/turn.go:78 | A drawing stored as JSON reads back as exactly the drawing that was written, nil included. |
| `Log.Symbol` | server/log/log.go:107-110 | A level's symbol comes from the table, and a level without one prints as VERBOSE. Every symbol is seven characters wide. |
| `Log.Chop` | server/log/log.go:73-79 | Returns the suffix after the last occurrence of the needle, or the whole string when there is none. |
| `Log.CompressedSegments` | server/log/log.go:81-89 | The compressed path has the same number of segments and the same last segment. Every other segment is cut to its first character. It exists iff no segment but the last is empty. |
| `Log.Compress` | server/log/log.go:81-89 | The in-place loop over the parts computes the compressed path. Slicing an empty segment panics, which is modelled as None. |
| `Log.Logger.constructor` | server/log/log.go:48 | A fresh logger filters at Info. |
| `Log.Logger.SetLogLevel` | server/log/log.go:67-69 | Sets the filter level. |
| `Log.ContextCases` | server/log/log.go:96-105 | The context is "??????????" for an unknown caller. For a known caller it ends in ":" and the line, and it fails iff the chopped path cannot be compressed. |
| `Log.LogLineShape` | server/log/log.go:112 | A log line is the level's symbol, " [", the context, "] " and the format, in that order. |
| `Log.Outcome` | server/log/log.go:91-118 | The effect of one call at a filter level: dropped iff the level is above the filter. |
| `Log.FilterMonotone` | server/log/log.go:91-93 | Raising the filter level never loses a message. What a lower setting prints or panics on, a higher one does the same. |
| `Log.Logger.Logf` | server/log/log.go:91-118 | A message is dropped iff its level is above the filter. Otherwise it is "SYMBOL [context] format", with the context "??????????" or the compressed path and line. It is printed when the level is positive and panics otherwise; a path that cannot be compressed panics before printing. |
| `Text.ParseNatToString` | server/models/user.go:67 | Rendering an id in decimal loses nothing. |
| `Text.JoinSplit` | server/log/log.go:82-88 | Joining the parts of a split gives back the string. |
| `Text.SplitJoin` | server/log/log.go:82-88 | Splitting a join of separator-free parts gives back the parts. |
| `Text.LastIndex` | server/log/log.go:74 | strings.LastIndex: -1 when the needle does not occur, otherwise an occurrence with none after it. |
| `Text.Utf8Length` | server/models/user.go:35 | Go's len of a string, in bytes of its UTF-8 encoding: between one and four per character. |
| `Bcrypt.Hash` | server/models/user.go:41-42 | A password verifies against its own hash. |

## Left out

- Drawing contents: colours and coordinates are real numbers carried as values. No floating-point behaviour and no JSON text is modelled, and a drawing that fails to encode is not modelled.
- Bcrypt: modelled only as a hash/verify pair in which a password verifies against its own digest. Cost and salting are not modelled, nor the 72-byte truncation that makes longer passwords with a common prefix collide.
- The random sources (`rand.Perm`, the random reader) and the clock (`NOW()`) are parameters. The model states what happens for any value they give, not how likely any value is.
- Concurrency: every statement is atomic and statements do not interleave. Two concurrent completions of one game, or two registrations of one name, are not modelled beyond what the unique keys enforce.
- Ids are natural numbers, not the strings the code passes to SQL. A non-numeric player id, which MySQL would coerce before the foreign-key check, is not modelled; `Games.CreateGame` renders a missing player's id in decimal in its message.
- `Turns.GetInboxEntriesForUser`: the query has no ORDER BY. The model returns rows in table (id) order, which is one of the orders SQL allows.
- `Turns.GetInboxEntriesForUser`: a row that fails to scan is not modelled; only rows whose drawing does not decode are skipped.
- Multi-table update: `RowsAffected` counts both updated rows. The model only distinguishes "no row matched" from "matched".
- `Users.CreateUser`: a `LastInsertId` failure after a successful insert is not modelled. MySQL always reports the id.
- `Games.UpdateGameCompletedAtTime`: as stated above, the no-op path follows the documented contract and not the driver's `LastInsertId` behaviour.
- Logging inside the models (`log.Debugf` and so on) is not modelled at the call sites. `Log.Logger.Logf` models one call, with `runtime.Caller`'s answer as a parameter. Go's formatting of the arguments into the format string is not modelled.
- `Games.CreateGame`: only the foreign-key cause of the insert failures is modelled. A failed creator insert is modelled as an unknown creator. A failed player insert is modelled as a player without an account, although Go reports "No such player id N." for any failed player insert. A `LastInsertId` error after a successful Games insert is not modelled.
- `Auth.SessionLifetime`: holds only when every prune succeeds. The lookup's SELECT does not check the session's age, and a failed prune is ignored, so after a failed prune an expired token still authenticates. `Auth.AuthTokenLookup` states this case.
- `Log.Compress, Log.CompressedSegments`: Go's `parts[i][0:1]` keeps the first byte of a segment, while the model keeps its first character. For a segment that starts with a non-ASCII character, Go writes one byte of its UTF-8 encoding (invalid UTF-8), and the model writes the whole character. `Log.Logger.Logf` inherits this difference in its context.
- `Db.FindByName, Users.CreateUser, Users.UserLookupByPassword, Contacts.ContactLookup, Auth.AuthTokenLookup`: SQL string equality (`display_name = ?`, `auth_token = ?`) is modelled as binary comparison of character sequences. The real result depends on the columns' collation, and the schema is not part of this model. Under a case-insensitive collation, such as MySQL's defaults, registering "alice" fails when "Alice" exists, a contact lookup of "alice" finds Alice, and a token that differs only in letter case authenticates. A PAD SPACE collation would also ignore trailing spaces. The model promises none of these.
- The HTTP layer, request parsing, JSON responses, metrics, configuration and connection handling are not part of this model. Neither is the rest of the repository.
