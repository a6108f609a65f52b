/**
 * Short sessions against one server, replaying what the handlers of
 * index.js do for any three distinct sockets x, y and z.
 */
module Scenarios {
  import opened Wrappers
  import opened Board
  import opened SessionKeys
  import opened GameServer

  /** x submits on a fresh server and waits. */
  method OneWaiting(x: Id, nx: string) returns (s: Server)
    ensures fresh(s) && s.Valid()
    ensures s.order == [x] && s.players == map[x := Unpaired(nx)] && s.boards == map[]
    ensures s.outbox == [Event(x, Wait)]
  {
    s := new Server();
    s.SubmitName(x, nx);
    assert WaitersAmong(map[x := Unpaired(nx)], [x], x, 1) == [];
  }

  /** x submits and waits; y submits and is paired with x: y plays 1 and
      moves second, x plays 0 and moves first, and one board is stored for
      the pair. */
  method PairedServer(x: Id, y: Id, nx: string, ny: string) returns (s: Server)
    requires x != y
    ensures fresh(s) && s.Valid()
    ensures s.order == [x, y]
    ensures s.players == map[x := Player(nx, Some(y), Some(0)), y := Player(ny, Some(x), Some(1))]
    ensures s.boards == map[SessionKey(y, x) := NewBoard()]
    ensures s.outbox == [Event(x, Wait), Event(y, Start(false, Some(1), nx)), Event(x, Start(true, Some(0), ny))]
  {
    s := OneWaiting(x, nx);
    s.SubmitName(y, ny);
    assert s.order == [x, y];
    SecondMeetsFirst(x, y, nx, ny, s.players);
  }

  /** With only x waiting, the scan for y meets x and pairs the two. */
  lemma SecondMeetsFirst(x: Id, y: Id, nx: string, ny: string, q: map<Id, Player>)
    requires x != y
    requires var p := map[x := Unpaired(nx), y := Unpaired(ny)];
      IsPaired(q, p, Waiters(p, [x, y], y), y)
    ensures Waiters(map[x := Unpaired(nx), y := Unpaired(ny)], [x, y], y) == [x]
    ensures q == map[x := Player(nx, Some(y), Some(0)), y := Player(ny, Some(x), Some(1))]
  {
    var p := map[x := Unpaired(nx), y := Unpaired(ny)];
    assert IsWaiting(p, x, y) && !IsWaiting(p, y, y);
    assert WaitersAmong(p, [x, y], y, 1) == [x];
    assert WaitersAmong(p, [x, y], y, 2) == [x];
    assert q[x] == PairedRecord(p, [x], y, x);
    assert q[y] == PairedRecord(p, [x], y, y);
  }

  /** x opens in the centre (index 5 is cell 4): the stored board is updated
      and both players get it, with the turn passed to y. */
  method FirstMove(x: Id, y: Id) returns (board: seq<Cell>, events: seq<Event>)
    requires x != y
    ensures board == NewBoard()[4 := Val(0)]
    ensures events == [Event(x, Start2(board, false)), Event(y, Start2(board, true))]
  {
    var s := PairedServer(x, y, "Alice", "Bob");
    var before := s.outbox;
    KeySymmetric(x, y);
    s.ClickOnBtn(x, 5, 0);
    board := s.boards[SessionKey(y, x)];
    assert Winner(board).None? by {
      forall j | 0 <= j < |Lines| ensures !Uniform(board, Lines[j]) {
        assert At(board, 8) == Empty || At(board, 0) == Empty;
      }
    }
    assert board[0] == Empty;
    events := s.outbox[|before|..];
  }

  /** y disconnects mid-game: the shared board goes, but x still names y as
      partner. A click from x is then dropped, and a restart from x unpairs
      x and throws when it reads the record of y. */
  method RestartAfterPartnerLeft(x: Id, y: Id) returns (outcome: Outcome, players: map<Id, Player>, boards: map<string, seq<Cell>>)
    requires x != y
    ensures outcome == Crashed
    ensures players == map[x := Unpaired("Alice")]
    ensures boards == map[]
  {
    var s := PairedServer(x, y, "Alice", "Bob");
    s.Disconnect(y);
    assert s.players == map[x := Player("Alice", Some(y), Some(0))];
    assert s.boards == map[];
    s.ClickOnBtn(x, 1, 0);
    assert s.boards == map[];
    outcome := s.RestartGame(x);
    players, boards := s.players, s.boards;
  }

  /** x and y are paired, then x restarts: both wait again. */
  method BothWaiting(x: Id, y: Id) returns (s: Server)
    requires x != y
    ensures fresh(s) && s.Valid()
    ensures s.order == [x, y]
    ensures s.players == map[x := Unpaired("Alice"), y := Unpaired("Bob")] && s.boards == map[]
  {
    s := PairedServer(x, y, "Alice", "Bob");
    KeySymmetric(x, y);
    var outcome := s.RestartGame(x);
  }

  /** With x and y waiting in that order, the scan for z meets both. */
  lemma ThirdMeetsBoth(x: Id, y: Id, z: Id)
    requires x != y && y != z && x != z
    ensures Waiters(map[x := Unpaired("Alice"), y := Unpaired("Bob"), z := Unpaired("Carol")], [x, y, z], z) == [x, y]
  {
    var p := map[x := Unpaired("Alice"), y := Unpaired("Bob"), z := Unpaired("Carol")];
    assert IsWaiting(p, x, z) && IsWaiting(p, y, z) && !IsWaiting(p, z, z);
    assert WaitersAmong(p, [x, y, z], z, 1) == [x];
    assert WaitersAmong(p, [x, y, z], z, 2) == [x, y];
  }

  /** ... and ends up paired with y, leaving x pointing at z. */
  lemma ThirdPairsWithLast(x: Id, y: Id, z: Id, q: map<Id, Player>)
    requires x != y && y != z && x != z
    requires IsPaired(q, map[x := Unpaired("Alice"), y := Unpaired("Bob"), z := Unpaired("Carol")], [x, y], z)
    ensures q == map[x := Player("Alice", Some(z), Some(0)),
                     y := Player("Bob", Some(z), Some(0)),
                     z := Player("Carol", Some(y), Some(1))]
  {
  }

  /** After a restart x and y both wait; z then meets both in the scan, so z
      ends up with y, the last one, while x is left pointing at z without a
      board. */
  method SecondWaiterWins(x: Id, y: Id, z: Id) returns (players: map<Id, Player>, boards: map<string, seq<Cell>>, events: seq<Event>)
    requires x != y && y != z && x != z
    ensures players == map[x := Player("Alice", Some(z), Some(0)),
                           y := Player("Bob", Some(z), Some(0)),
                           z := Player("Carol", Some(y), Some(1))]
    ensures boards == map[SessionKey(z, y) := NewBoard()]
    ensures events == [Event(z, Start(false, Some(1), "Bob")), Event(y, Start(true, Some(0), "Carol"))]
  {
    var s := BothWaiting(x, y);
    var before := s.outbox;
    s.SubmitName(z, "Carol");
    assert s.order == [x, y, z];
    ThirdMeetsBoth(x, y, z);
    ThirdPairsWithLast(x, y, z, s.players);
    players, boards, events := s.players, s.boards, s.outbox[|before|..];
  }
}
