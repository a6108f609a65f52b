/**
 * The socket.io handlers of index.js over the two in-memory tables
 * `players` (socket id -> record) and `boards` (session key -> board).
 * Handlers run to completion one at a time, so each is one method of
 * `Server`; what the handlers emit is appended to `outbox`.
 */
module GameServer {
  import opened Wrappers
  import opened Board
  import opened SessionKeys

  /** A player record `{name, isfriend, xo}`: `isfriend` is `false` (None)
      or the partner's socket id; `xo` is absent until the player is paired. */
  datatype Player = Player(name: string, partner: Option<Id>, xo: Option<int>)

  /** The record written by `submitName` before pairing and by `restartGame`. */
  function Unpaired(name: string): Player
  {
    Player(name, None, None)
  }

  /** The server-to-client events: "wait", "start", "start2", "gameOver"
      and "restartGame". */
  datatype Msg =
    | Wait
    | Start(chance: bool, xo: Option<int>, friendName: string)
    | Start2(board: seq<Cell>, chance: bool)
    | GameOver(winner: Cell)
    | Restart

  /** `gameOver` announces a draw with winner -1. */
  const DrawWinner: Cell := Val(-1)

  /** One emission: `msg` sent to the socket `to`. */
  datatype Event = Event(to: Id, msg: Msg)

  /** How a handler ended: normally, or by throwing out of the handler. */
  datatype Outcome = Handled | Crashed

  /** No id occurs twice in `s`. */
  ghost predicate Distinct(s: seq<Id>)
  {
    forall i, j | 0 <= i < j < |s| :: Differ(s, i, j)
  }

  /** Positions `i` and `j` of `s` hold different ids; a named step, so that
      the pairs of positions of `s` are compared only where a proof asks. */
  ghost predicate Differ(s: seq<Id>, i: int, j: int)
    requires 0 <= i < |s| && 0 <= j < |s|
  {
    s[i] != s[j]
  }

  /** `s` with `x` removed, the others in their order (Map.prototype.delete). */
  function Without(s: seq<Id>, x: Id): (r: seq<Id>)
    ensures forall y :: y in r <==> y in s && y != x
    ensures Distinct(s) ==> Distinct(r)
  {
    if s == [] then []
    else
      DistinctTail(s);
      if s[0] == x then Without(s[1..], x)
      else
        var rest := Without(s[1..], x);
        DistinctCons(s[0], rest, s);
        [s[0]] + rest
  }

  /** Deleting a key keeps the other keys in their insertion order: an
      absent key changes nothing, and a key present once is cut out where it
      stands. */
  lemma {:induction false} WithoutKeepsOrder(s: seq<Id>, x: Id)
    ensures x !in s ==> Without(s, x) == s
    ensures Distinct(s) ==> forall k | 0 <= k < |s| && s[k] == x :: Without(s, x) == s[..k] + s[k + 1..]
  {
    if s != [] {
      WithoutKeepsOrder(s[1..], x);
      DistinctTail(s);
      if Distinct(s) {
        forall k | 0 <= k < |s| && s[k] == x ensures Without(s, x) == s[..k] + s[k + 1..] {
          if k == 0 {
            assert s[..0] + s[1..] == s[1..];
            assert x !in s[1..] by {
              forall m | 1 <= m < |s| ensures s[m] != x {
                assert Differ(s, 0, m);
              }
            }
          } else {
            assert s[1..][k - 1] == x;
            assert s[0] != x by {
              assert Differ(s, 0, k);
            }
            assert s[1..][..k - 1] + s[1..][k..] == s[1..k] + s[k + 1..];
            assert [s[0]] + s[1..k] + s[k + 1..] == s[..k] + s[k + 1..];
          }
        }
      }
      if x !in s {
        assert s[0] != x;
        assert [s[0]] + s[1..] == s;
      }
    }
  }

  lemma DistinctTail(s: seq<Id>)
    requires s != []
    ensures Distinct(s) ==> Distinct(s[1..])
  {
    if Distinct(s) {
      forall i, j | 0 <= i < j < |s| - 1 ensures Differ(s[1..], i, j) {
        assert Differ(s, i + 1, j + 1);
      }
    }
  }

  lemma DistinctCons(a: Id, rest: seq<Id>, s: seq<Id>)
    requires s != [] && s[0] == a && forall y :: y in rest ==> y in s[1..]
    requires Distinct(s) ==> Distinct(rest)
    ensures Distinct(s) ==> Distinct([a] + rest)
  {
    if Distinct(s) {
      forall k | 1 <= k < |s| ensures s[k] != a {
        assert Differ(s, 0, k);
      }
      assert a !in s[1..];
      var r := [a] + rest;
      forall i, j | 0 <= i < j < |r| ensures Differ(r, i, j) {
        if i == 0 {
          assert r[j] in rest;
        } else {
          assert r[i] == rest[i - 1] && r[j] == rest[j - 1];
          assert Differ(rest, i - 1, j - 1);
        }
      }
    }
  }

  /** No record names its own socket as partner. */
  ghost predicate NoSelfPairing(p: map<Id, Player>)
  {
    forall k | k in p && p[k].partner.Some? :: p[k].partner.value != k
  }

  /** `k` is a record other than the submitter's with `isfriend === false`. */
  predicate IsWaiting(p: map<Id, Player>, k: Id, sid: Id)
  {
    k != sid && k in p && p[k].partner.None?
  }

  /** The waiting records among the first `n` keys of `ks`, in order. */
  function WaitersAmong(p: map<Id, Player>, ks: seq<Id>, sid: Id, n: nat): seq<Id>
    requires n <= |ks|
  {
    if n == 0 then []
    else
      var rest := WaitersAmong(p, ks, sid, n - 1);
      if IsWaiting(p, ks[n - 1], sid) then rest + [ks[n - 1]] else rest
  }

  /** The waiters among the first `n` keys are exactly the waiting records
      among them, and without repeats when the keys have none. */
  lemma {:induction false} WaitersAmongMembers(p: map<Id, Player>, ks: seq<Id>, sid: Id, n: nat)
    requires n <= |ks|
    ensures var ws := WaitersAmong(p, ks, sid, n);
      forall k :: k in ws <==> k in ks[..n] && IsWaiting(p, k, sid)
    ensures Distinct(ks) ==> Distinct(WaitersAmong(p, ks, sid, n))
  {
    if n > 0 {
      var rest := WaitersAmong(p, ks, sid, n - 1);
      WaitersAmongMembers(p, ks, sid, n - 1);
      assert ks[..n] == ks[..n - 1] + [ks[n - 1]];
      if IsWaiting(p, ks[n - 1], sid) {
        DistinctSnoc(rest, ks[n - 1], ks, n - 1);
      }
    }
  }

  lemma DistinctSnoc(ws: seq<Id>, k: Id, ks: seq<Id>, i: nat)
    requires i < |ks| && ks[i] == k && forall w | w in ws :: w in ks[..i]
    requires Distinct(ks) ==> Distinct(ws)
    ensures Distinct(ks) ==> Distinct(ws + [k])
  {
    if Distinct(ks) {
      forall m | 0 <= m < i ensures ks[m] != k {
        assert Differ(ks, m, i);
      }
      assert k !in ks[..i];
      var r := ws + [k];
      forall a, b | 0 <= a < b < |r| ensures Differ(r, a, b) {
        if b == |ws| {
          assert r[a] in ws;
        } else {
          assert Differ(ws, a, b);
        }
      }
    }
  }

  /** The waiting records among the keys `ks`, in the order of `ks`. */
  function Waiters(p: map<Id, Player>, ks: seq<Id>, sid: Id): (ws: seq<Id>)
    ensures forall k :: k in ws <==> k in ks && IsWaiting(p, k, sid)
    ensures Distinct(ks) ==> Distinct(ws)
  {
    assert ks[..|ks|] == ks;
    WaitersAmongMembers(p, ks, sid, |ks|);
    WaitersAmong(p, ks, sid, |ks|)
  }

  /** The submitter's partner is the waiting record that comes last in `ks`. */
  lemma LastWaiterIsPartner(p: map<Id, Player>, ks: seq<Id>, sid: Id, i: nat)
    requires i < |ks| && IsWaiting(p, ks[i], sid)
    requires forall j | i < j < |ks| :: !IsWaiting(p, ks[j], sid)
    ensures var ws := Waiters(p, ks, sid); ws != [] && ws[|ws| - 1] == ks[i]
  {
    LastWaiterAmong(p, ks, sid, i, |ks|);
  }

  lemma {:induction false} LastWaiterAmong(p: map<Id, Player>, ks: seq<Id>, sid: Id, i: nat, n: nat)
    requires i < n <= |ks| && IsWaiting(p, ks[i], sid)
    requires forall j | i < j < n :: !IsWaiting(p, ks[j], sid)
    ensures var ws := WaitersAmong(p, ks, sid, n); ws != [] && ws[|ws| - 1] == ks[i]
  {
    if i < n - 1 {
      LastWaiterAmong(p, ks, sid, i, n - 1);
    }
  }

  /** The record of `k` once the pairing scan has met the waiting keys `ws`
      in order: each waiter points at the submitter `sid` with mark 0, the
      submitter points at the last waiter with mark 1 (every waiter met
      overwrote it), and every other record is as it was. */
  function PairedRecord(p: map<Id, Player>, ws: seq<Id>, sid: Id, k: Id): Player
    requires k in p && sid in p
  {
    if k == sid then
      (if ws == [] then p[sid] else Player(p[sid].name, Some(ws[|ws| - 1]), Some(1)))
    else if k in ws then Player(p[k].name, Some(sid), Some(0))
    else p[k]
  }

  /** The table `q` is `p` after the scan met the waiters `ws`. */
  ghost predicate IsPaired(q: map<Id, Player>, p: map<Id, Player>, ws: seq<Id>, sid: Id)
  {
    sid in p && q.Keys == p.Keys && forall k | k in q :: q[k] == PairedRecord(p, ws, sid, k)
  }

  /** After the scan the submitter is paired exactly when some record was
      waiting, and then with the last one, which points back at it; no
      record points at itself. */
  lemma PairedOutcome(q: map<Id, Player>, p: map<Id, Player>, ws: seq<Id>, sid: Id)
    requires IsPaired(q, p, ws, sid)
    requires p[sid].partner.None? && NoSelfPairing(p)
    requires forall w | w in ws :: w in p && w != sid
    ensures NoSelfPairing(q)
    ensures sid in q && (q[sid].partner.Some? <==> ws != [])
    ensures ws != [] ==>
      var other := ws[|ws| - 1];
      && q[sid] == Player(p[sid].name, Some(other), Some(1))
      && other in q && q[other] == Player(p[other].name, Some(sid), Some(0))
  {
  }

  /** With two or more waiters, the first one is left pointing at a
      submitter that is paired with someone else. */
  lemma EarlierWaitersOrphaned(q: map<Id, Player>, p: map<Id, Player>, ks: seq<Id>, sid: Id)
    requires Distinct(ks)
    requires IsPaired(q, p, Waiters(p, ks, sid), sid)
    requires |Waiters(p, ks, sid)| >= 2
    ensures var ws := Waiters(p, ks, sid);
      ws[0] in q && q[ws[0]].partner == Some(sid) && q[sid].partner != Some(ws[0])
  {
    var ws := Waiters(p, ks, sid);
    assert ws[0] in ws && Differ(ws, 0, |ws| - 1);
  }

  /** Registering `sid` keeps the order a repeat-free list of the table's
      keys: a new id goes to the end, a known one keeps its place. */
  lemma RegisterKeepsOrder(p: map<Id, Player>, order: seq<Id>, sid: Id, r: Player)
    requires Distinct(order) && (forall k :: k in p <==> k in order)
    ensures var keys := if sid in p then order else order + [sid];
      Distinct(keys) && (forall k :: k in p[sid := r] <==> k in keys)
  {
    if sid !in p {
      var keys := order + [sid];
      forall i, j | 0 <= i < j < |keys| ensures Differ(keys, i, j) {
        if j == |order| {
          assert keys[i] == order[i];
        } else {
          assert Differ(order, i, j);
        }
      }
    }
  }

  /** The `players.forEach` loop of "submitName" over the table `p0`, whose
      keys in insertion order are `keys`: every waiting record met is paired
      with the submitter `sid`, overwriting the submitter's previous pairing. */
  method ScanForPartners(p0: map<Id, Player>, keys: seq<Id>, sid: Id, name: string)
    returns (ps: map<Id, Player>)
    requires Distinct(keys) && (forall k :: k in p0 <==> k in keys)
    requires sid in p0 && p0[sid] == Unpaired(name)
    ensures IsPaired(ps, p0, Waiters(p0, keys, sid), sid)
  {
    ps := p0;
    ghost var ws: seq<Id> := [];
    var i := 0;
    while i < |keys|
      invariant 0 <= i <= |keys|
      invariant ws == WaitersAmong(p0, keys, sid, i)
      invariant IsPaired(ps, p0, ws, sid)
    {
      var k := keys[i];
      WaitersAmongMembers(p0, keys, sid, i);
      assert k !in ws by {
        forall m | 0 <= m < i ensures keys[m] != k {
          assert Differ(keys, m, i);
        }
        assert k !in keys[..i];
      }
      assert k in ps && (k != sid ==> ps[k] == p0[k]);
      assert IsWaiting(p0, k, sid) == (sid != k && ps[k].partner.None?);
      if sid != k && ps[k].partner.None? {
        ghost var before := ps;
        ps := ps[sid := Player(name, Some(k), Some(1))];
        ps := ps[k := Player(ps[k].name, Some(sid), Some(0))];
        forall j | j in ps
          ensures ps[j] == PairedRecord(p0, ws + [k], sid, j)
        {
          if j != sid && j != k {
            assert ps[j] == before[j];
            assert j in ws + [k] <==> j in ws;
          }
        }
        ws := ws + [k];
      }
      i := i + 1;
    }
  }

  /** Where a move from `sid` goes: the partner and the key of a stored board. */
  datatype Target = Target(other: Id, key: string)

  function MoveTarget(players: map<Id, Player>, boards: map<string, seq<Cell>>, sid: Id): (t: Option<Target>)
    ensures t.Some? <==> sid in players && players[sid].partner.Some?
                         && SessionKey(sid, players[sid].partner.value) in boards
    ensures t.Some? ==> t.value.other == players[sid].partner.value
                        && t.value.key == SessionKey(t.value.other, sid)
  {
    if sid in players && players[sid].partner.Some? then
      var other := players[sid].partner.value;
      var key := SessionKey(sid, other);
      KeySymmetric(sid, other);
      if key in boards then Some(Target(other, key)) else None
    else None
  }

  /** What a move emits once the board `b` is updated. */
  function MoveNotices(sid: Id, other: Id, b: seq<Cell>): seq<Event>
  {
    match Winner(b)
    case Some(w) => [Event(other, GameOver(w)), Event(sid, GameOver(w))]
    case None =>
      if IsFull(b) then [Event(other, GameOver(DrawWinner)), Event(sid, GameOver(DrawWinner))]
      else [Event(sid, Start2(b, false)), Event(other, Start2(b, true))]
  }

  /** Both players always hear the same verdict: game over with the first
      line's mark when a line is uniform, a draw when no line is and no cell
      is -1, and otherwise the updated board with the turn handed to the
      partner. */
  lemma MoveVerdict(sid: Id, other: Id, b: seq<Cell>)
    ensures var e := MoveNotices(sid, other, b);
      |e| == 2 && e[0].msg.GameOver? == e[1].msg.GameOver?
    ensures var e := MoveNotices(sid, other, b);
      (e[0].msg == GameOver(DrawWinner))
        <==> (IsFull(b) && forall j | 0 <= j < |Lines| :: !Uniform(b, Lines[j]))
    ensures var e := MoveNotices(sid, other, b);
      (e[0].msg.GameOver? && e[0].msg != GameOver(DrawWinner))
        <==> (exists j | 0 <= j < |Lines| :: Uniform(b, Lines[j]))
    ensures var e := MoveNotices(sid, other, b);
      (!e[0].msg.GameOver?)
        <==> (!IsFull(b) && forall j | 0 <= j < |Lines| :: !Uniform(b, Lines[j]))
    ensures var e := MoveNotices(sid, other, b);
      !e[0].msg.GameOver? ==> e == [Event(sid, Start2(b, false)), Event(other, Start2(b, true))]
    ensures Winner(b).Some? ==>
      MoveNotices(sid, other, b) == [Event(other, GameOver(Winner(b).value)), Event(sid, GameOver(Winner(b).value))]
    ensures Winner(b).None? && IsFull(b) ==>
      MoveNotices(sid, other, b) == [Event(other, GameOver(DrawWinner)), Event(sid, GameOver(DrawWinner))]
  {
  }

  /** The server's invariant: `order` lists the keys of `players` once each,
      no record names itself as partner, and every board has its nine cells. */
  ghost predicate Consistent(players: map<Id, Player>, order: seq<Id>, boards: map<string, seq<Cell>>)
  {
    && Distinct(order)
    && (forall k :: k in players <==> k in order)
    && NoSelfPairing(players)
    && (forall key | key in boards :: ValidBoard(boards[key]))
  }

  /** The tables and the events after "submitName" from `sid` with `name`,
      for the tables before and the keys `keys` in insertion order. */
  ghost predicate SubmitSpec(players: map<Id, Player>, boards: map<string, seq<Cell>>, sid: Id, name: string,
                             keys: seq<Id>, ps: map<Id, Player>, bs: map<string, seq<Cell>>, msgs: seq<Event>)
  {
    var p0 := players[sid := Unpaired(name)];
    var ws := Waiters(p0, keys, sid);
    && IsPaired(ps, p0, ws, sid)
    && (ws == [] ==> bs == boards && msgs == [Event(sid, Wait)])
    && (ws != [] ==>
          var other := ws[|ws| - 1];
          assert other in ws;
          && bs == boards[SessionKey(sid, other) := NewBoard()]
          && msgs == [Event(sid, Start(false, Some(1), p0[other].name)),
                      Event(other, Start(true, Some(0), name))])
  }

  /** "submitName" on the tables as values. */
  method Submit(players: map<Id, Player>, order: seq<Id>, boards: map<string, seq<Cell>>, sid: Id, name: string)
    returns (ps: map<Id, Player>, keys: seq<Id>, bs: map<string, seq<Cell>>, msgs: seq<Event>)
    requires Consistent(players, order, boards)
    ensures keys == if sid in players then order else order + [sid]
    ensures Consistent(ps, keys, bs)
    ensures SubmitSpec(players, boards, sid, name, keys, ps, bs, msgs)
    ensures sid in ps && ps[sid].name == name
    ensures ps[sid].partner.None? <==> msgs == [Event(sid, Wait)]
  {
    // players.set(socket.id, {name, isfriend: false})
    var p0 := players[sid := Unpaired(name)];
    keys := if sid in players then order else order + [sid];
    RegisterKeepsOrder(players, order, sid, Unpaired(name));
    // players.forEach(...)
    ps := ScanForPartners(p0, keys, sid, name);
    ghost var ws := Waiters(p0, keys, sid);
    PairedOutcome(ps, p0, ws, sid);
    var partner := ps[sid].partner;
    bs, msgs := boards, [Event(sid, Wait)];
    if partner.Some? {
      var other := partner.value;
      bs := boards[SessionKey(sid, other) := NewBoard()];
      msgs := [Event(sid, Start(false, ps[sid].xo, ps[other].name)),
               Event(other, Start(true, ps[other].xo, ps[sid].name))];
    }
  }

  class Server {
    /** `players`, keyed by socket id. */
    var players: map<Id, Player>
    /** The keys of `players` in insertion order, the iteration order of a
        JavaScript Map. */
    var order: seq<Id>
    /** `boards`, keyed by session key. */
    var boards: map<string, seq<Cell>>
    /** Every event emitted so far, oldest first. */
    var outbox: seq<Event>

    ghost predicate Valid()
      reads this
    {
      Consistent(players, order, boards)
    }

    constructor ()
      ensures Valid()
      ensures players == map[] && order == [] && boards == map[] && outbox == []
    {
      players, order, boards, outbox := map[], [], map[], [];
    }

    /** "clickOnBtn" with payload `{index, xo}`: no range check and no
        occupied-cell check; the board stays stored after game over. */
    method ClickOnBtn(sid: Id, index: int, xo: int)
      requires Valid()
      modifies this
      ensures Valid()
      ensures players == old(players) && order == old(order)
      ensures MoveTarget(old(players), old(boards), sid).None? ==>
        boards == old(boards) && outbox == old(outbox)
      ensures MoveTarget(old(players), old(boards), sid).Some? ==>
        var t := MoveTarget(old(players), old(boards), sid).value;
        && boards == old(boards)[t.key := Write(old(boards)[t.key], index - 1, xo)]
        && outbox == old(outbox) + MoveNotices(sid, t.other, boards[t.key])
    {
      if sid !in players {
        return;
      }
      var info := players[sid];
      if info.partner.None? {
        return;
      }
      var other := info.partner.value;
      var key := SessionKey(sid, other);
      if key !in boards {
        return;
      }
      var board := Write(boards[key], index - 1, xo);
      boards := boards[key := board];
      var winner := CheckWinner(board);
      if winner.Some? {
        outbox := outbox + [Event(other, GameOver(winner.value)), Event(sid, GameOver(winner.value))];
        return;
      }
      if IsFull(board) {
        outbox := outbox + [Event(other, GameOver(DrawWinner)), Event(sid, GameOver(DrawWinner))];
        return;
      }
      outbox := outbox + [Event(sid, Start2(board, false)), Event(other, Start2(board, true))];
    }

    /** "restartGame": deletes the pair's board and unpairs both records,
        keeping their names. The partner's record is read without a check,
        so a partner that has disconnected makes the handler throw. */
    method RestartGame(sid: Id) returns (outcome: Outcome)
      requires Valid()
      modifies this
      ensures Valid()
      ensures order == old(order)
      ensures sid !in old(players) || old(players)[sid].partner.None? ==>
        outcome == Handled && players == old(players) && boards == old(boards) && outbox == old(outbox)
      ensures sid in old(players) && old(players)[sid].partner.Some? ==>
        var other := old(players)[sid].partner.value;
        var mid := old(players)[sid := Unpaired(old(players)[sid].name)];
        && boards == old(boards) - {SessionKey(sid, other)}
        && (other in mid ==>
              outcome == Handled
              && players == mid[other := Unpaired(mid[other].name)]
              && outbox == old(outbox) + [Event(sid, Restart), Event(other, Restart)])
        && (other !in mid ==>
              outcome == Crashed && players == mid && outbox == old(outbox))
    {
      outcome := Handled;
      if sid !in players {
        return;
      }
      var info := players[sid];
      if info.partner.Some? {
        var other := info.partner.value;
        boards := boards - {SessionKey(sid, other)};
        players := players[sid := Unpaired(info.name)];
        if other !in players {
          // `players.get(otherplayerid).name` on `undefined` throws a TypeError
          outcome := Crashed;
          return;
        }
        players := players[other := Unpaired(players[other].name)];
        outbox := outbox + [Event(sid, Restart), Event(other, Restart)];
      }
    }

    /** "submitName": registers the record, then scans every record in
        insertion order; each waiting one is paired with the submitter, so
        the submitter ends up with the last of them. */
    method SubmitName(sid: Id, name: string)
      requires Valid()
      modifies this
      ensures Valid()
      ensures order == if sid in old(players) then old(order) else old(order) + [sid]
      ensures |outbox| >= |old(outbox)|
      ensures SubmitSpec(old(players), old(boards), sid, name, order, players, boards, outbox[|old(outbox)|..])
      ensures outbox[..|old(outbox)|] == old(outbox)
    {
      var ps, keys, bs, msgs := Submit(players, order, boards, sid, name);
      order, players, boards, outbox := keys, ps, bs, outbox + msgs;
    }

    /** "disconnect": deletes the board under both orderings of the pair's
        ids and the record; the partner's record keeps pointing here. */
    method Disconnect(sid: Id)
      requires Valid()
      modifies this
      ensures Valid()
      ensures outbox == old(outbox)
      ensures sid !in old(players) ==>
        players == old(players) && order == old(order) && boards == old(boards)
      ensures sid in old(players) ==>
        && players == old(players) - {sid}
        && order == Without(old(order), sid)
        && (old(players)[sid].partner.None? ==> boards == old(boards))
        && (old(players)[sid].partner.Some? ==>
              var other := old(players)[sid].partner.value;
              boards == old(boards) - {sid + "_" + other, other + "_" + sid})
      ensures sid in old(players) && old(players)[sid].partner.Some? ==>
        SessionKey(sid, old(players)[sid].partner.value) !in boards
    {
      if sid in players {
        var info := players[sid];
        if info.partner.Some? {
          var other := info.partner.value;
          boards := boards - {sid + "_" + other, other + "_" + sid};
        }
        players := players - {sid};
        order := Without(order, sid);
      }
    }
  }
}
