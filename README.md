# Tic-tac-toe matchmaking server, modelled in Dafny

The server in `index.js` pairs anonymous socket.io connections into two-player
tic-tac-toe games. It keeps everything in two in-memory tables:

- `players` maps a socket id to a record `{name, isfriend, xo}`. `isfriend` is
  `false` while the player waits, or the partner's socket id once paired.
- `boards` maps a session key (the larger id, `_`, the smaller id) to the
  board array of that pair.

Four socket events change the tables: `submitName`, `clickOnBtn`,
`restartGame` and `disconnect`. The server emits `wait`, `start`, `start2`,
`gameOver` and `restartGame` messages.

The model has five files:

- `wrappers.dfy`: the `Option` type.
- `board.dfy` (module `Board`): the board array, with JavaScript's
  assign-at-index semantics. It also holds the eight winning lines, the
  result of `checkWinner` as a recursive function, the `checkWinner` loop as
  a method proved against it, and the draw test.
- `session_key.dfy` (module `SessionKeys`): JavaScript's string order. It is
  proved a strict total order, and the session key is built on it.
- `server.dfy` (module `GameServer`): class `Server`, with one method per
  socket event. Its fields are `players` and `boards`, plus `order` and
  `outbox`:
  - `order` holds the keys of `players` in insertion order, which is the
    iteration order of a JavaScript `Map`.
  - `outbox` holds every emitted `(recipient, message)` event.
  - `Valid()` is the invariant every handler keeps:
    - `order` lists each key once.
    - No record names itself as partner.
    - Every stored board has nine numeric cells.

  The `players.forEach` pairing scan is the method `ScanForPartners`. Its
  loop is proved against a declarative description: `Waiters` lists the
  records it meets in a waiting state, and `PairedRecord` gives the record
  each key ends with.
- `scenarios.dfy` (module `Scenarios`): sessions for arbitrary distinct
  sockets `x`, `y`, `z` that run the handlers in sequence.

The model follows the code, and the code departs from the written design in
several places:

- `clickOnBtn` checks neither the range nor whether the cell is occupied.
  It writes `board[index - 1] = xo` in every case, and a far index grows
  the array with holes.
- The board stays stored after a win or a draw.
- The draw test reads every slot of the stored array, not just nine cells.
- `submitName` does not stop at the first waiting record. Every waiting
  record it meets is pointed at the submitter, and the submitter ends up
  paired with the last one in insertion order. So with two or more records
  waiting, the earlier ones point at a submitter that does not point back,
  and they have no board (`EarlierWaitersOrphaned`, `SecondWaiterWins`).
- `restartGame` reads the partner's record without checking it. After the
  partner has disconnected, the handler throws a `TypeError` at index.js:113.
  By then it has already deleted the board and unpaired the caller. The
  model returns `Crashed` with exactly those writes applied
  (`RestartAfterPartnerLeft`).
- Socket ids may contain `_`, and then two different pairs can share a
  session key (`KeyCollision`). Without `_` in any id, a key names exactly
  one pair (`KeyInjective`).

## Model

| member | source | states |
|---|---|---|
| `Board.NewBoard` | index.js:135 | a new board has nine cells, each -1 |
| `Board.Write` | index.js:77 | an integer index in [0, 2^32-1) sets that slot to `Val(x)`, keeps every other existing slot, fills any gap with holes, and grows the length to index+1 when needed; any other index leaves the array unchanged; a board with nine numeric cells keeps them |
| `Board.FirstLine` | index.js:36-41 | the result is the first line, at or after `i` in scan order, whose three cells are equal and not -1, or 8 when there is none |
| `Board.Winner` | index.js:35-43 | no winner exactly when no line is uniform; a winner is never -1 |
| `Board.WinnerIsFirstUniformLine` | index.js:35-43 | a winner is the mark on some uniform line, and no earlier line in scan order is uniform |
| `Board.FirstUniformLineWins` | index.js:36-40 | conversely, the first uniform line in scan order decides the winner |
| `Board.CheckWinner` | index.js:35-43 | the loop over the eight lines, with its early return, yields exactly `Winner(board)` |
| `Board.WinnerOnValidBoard` | index.js:38-39 | on a board with nine numeric cells, a winner is a number other than -1 |
| `SessionKeys.LessIrreflexive` | index.js:69 | no id is less than itself in JavaScript string order |
| `SessionKeys.LessAsymmetric` | index.js:69 | string order is asymmetric |
| `SessionKeys.LessTransitive` | index.js:69 | string order is transitive |
| `SessionKeys.LessTrichotomy` | index.js:69 | of two distinct strings, one is less than the other |
| `SessionKeys.SessionKey` | index.js:69 | the key is one of the two id orderings joined by `_` |
| `SessionKeys.KeySymmetric` | index.js:69 | both players of a pair derive the same key, and it starts with the larger id |
| `SessionKeys.SplitAtSeparator` | index.js:69 | a key built from a first id without `_` splits back into its two ids |
| `SessionKeys.KeyInjective` | index.js:69 | when no id contains `_`, equal keys mean the same pair |
| `SessionKeys.KeyCollision` | index.js:69 | the pairs {"z_m", "a"} and {"z", "m_a"} share the key "z_m_a" |
| `GameServer.Without` | index.js:153 | deleting a key keeps exactly the other keys, without repeats |
| `GameServer.WithoutKeepsOrder` | index.js:153 | deleting a key keeps the other keys in insertion order: an absent key changes nothing, and a key present once is cut out where it stands |
| `GameServer.WaitersAmongMembers` | index.js:125-126 | the records the scan finds waiting among the first n keys are exactly the other sockets there with `isfriend === false`, with no repeats |
| `GameServer.Waiters` | index.js:125-126 | the same, for all the keys |
| `GameServer.LastWaiterIsPartner` | index.js:125-130 | the last record the scan finds waiting is the last waiting key in insertion order |
| `GameServer.PairedOutcome` | index.js:125-132 | after the scan the submitter is paired exactly when some record was waiting, then with the last one (mark 1), which points back with mark 0; no record points at itself |
| `GameServer.EarlierWaitersOrphaned` | index.js:125-130 | with two or more waiting records, the first is left pointing at the submitter, which points elsewhere |
| `GameServer.RegisterKeepsOrder` | index.js:122 | `players.set` appends a new id to the insertion order and keeps a known id in its place |
| `GameServer.ScanForPartners` | index.js:125-130 | the `forEach` loop leaves every waiting record pointing at the submitter, the submitter pointing at the last of them, and every other record unchanged |
| `GameServer.MoveTarget` | index.js:60-75 | a move is accepted exactly when the sender is registered and paired and the pair's key has a stored board |
| `GameServer.MoveVerdict` | index.js:80-96 | when `checkWinner` finds a mark, the partner and then the mover get `gameOver` with that mark; otherwise, when no slot is -1, both get `gameOver` with -1 in the same order; otherwise the mover gets the board with `chance` false and then the partner gets it with `chance` true; a non-draw game over happens exactly when some line is uniform |
| `GameServer.Submit` | index.js:121-141 | registering and scanning keeps the invariant; the submitter keeps its name; it gets `wait` exactly when it stays unpaired; otherwise a fresh board is stored at the pair's key and both get `start` with their marks and the other's name |
| `GameServer.Server.constructor` | index.js:11-12 | both tables start empty |
| `GameServer.Server.ClickOnBtn` | index.js:59-97 | a move from an unknown, unpaired or boardless socket changes nothing and emits nothing; an accepted move writes `xo` at `index - 1` into the pair's board, even over an occupied cell, keeps that board stored, changes nothing else, and emits the verdict |
| `GameServer.Server.RestartGame` | index.js:99-119 | from an unknown or unpaired socket nothing changes; from a paired one the board is deleted and both records are reset to their names, and both get `restartGame`; when the partner's record is gone the handler throws after deleting the board and unpairing the caller |
| `GameServer.Server.SubmitName` | index.js:121-143 | the tables and events become those of `Submit`, and the invariant holds |
| `GameServer.Server.Disconnect` | index.js:145-156 | removes only the caller's record and the boards under both key orderings; the partner's record is left untouched |
| `Scenarios.OneWaiting` | index.js:121-141 | the first submitter waits and no board is created |
| `Scenarios.SecondMeetsFirst` | index.js:125-130 | with one record waiting, the second submitter is paired with it |
| `Scenarios.PairedServer` | index.js:121-141 | after two submissions, the second player has mark 1 and moves second, the first has mark 0 and moves first, and one board is stored |
| `Scenarios.FirstMove` | index.js:77-96 | an opening move in the centre stores the board and sends it to both, with the turn passed on |
| `Scenarios.RestartAfterPartnerLeft` | index.js:99-119 | after the partner disconnects, a click is dropped and a restart throws after unpairing the caller |
| `Scenarios.BothWaiting` | index.js:106-117 | a restart leaves both players waiting and no board |
| `Scenarios.ThirdMeetsBoth` | index.js:125-126 | with two records waiting, the third submitter's scan finds both |
| `Scenarios.ThirdPairsWithLast` | index.js:127-128 | the third submitter is paired with the later waiter, and the earlier one is left pointing at it |
| `Scenarios.SecondWaiterWins` | index.js:121-141 | the third submitter is paired with the second waiter; the first waiter points at it without a board |

## Left out

- The HTTP side: Express setup, helmet/CSP headers, compression, static files, the catch-all route and the error middleware (index.js:1-28, 44-54). None of it is game logic.
- `server.listen` and all `console.log`/`console.error` calls. Logging changes no state.
- The socket.io transport. Each emission becomes an `Event` appended to `outbox`, and delivery is not modelled. `io.to(id).emit` to a socket that is gone is still recorded as an event.
- What happens after `restartGame` throws. Node would normally report an uncaught exception and may end the process; the model stops at the `Crashed` outcome with the writes made so far.
- Payload shapes other than the ones the client sends:
  - `GameServer.Server.ClickOnBtn`: takes `index` and `xo` as integers. A numeric string `index` behaves like the number, since `index - 1` converts it. A non-numeric string, a fraction or a missing `index` gives a key that is not an array index, and such a key is not modelled. Nor is a non-numeric `xo`.
  - `name` is a string.
- `SessionKeys.Less`: compares Dafny characters. JavaScript compares UTF-16 code units, and the two orders differ only for characters outside the Basic Multilingual Plane.
- Socket ids are never empty, so a stored partner id is always truthy. `isfriend` values other than `false` or an id are not modelled.
- frontend/tictactoe/src/App.jsx is not part of this model. It is the React client, which holds no authoritative state.
