/** The game session of src/App.tsx: a roster of players, the ladder list and
    one round of play. The per-player updaters that the source passes to
    `setPlayers` are functions; the session is a class whose methods apply them
    in the order the source awaits them. */
module Game {
  import opened Models
  import opened Text
  import Ladders

  function Min(a: int, b: int): int {
    if a < b then a else b
  }

  /** One step of `moveThePlayerForward`: one square forward, never past the
      last square. */
  function StepForward(p: Player, n: int): Player {
    p.(position := Min(p.position + 1, n), movedSteps := p.diceRolls + 1)
  }

  /** The player after `steps` single steps. */
  function Walk(p: Player, steps: nat, n: int): Player
    decreases steps
  {
    if steps == 0 then p else StepForward(Walk(p, steps - 1, n), n)
  }

  /** Records a completed dice move and counts the roll. */
  function RecordRoll(p: Player, from: int, roll: int): Player {
    var moveNumber := p.diceRolls + 1;
    p.(diceRolls := moveNumber,
       moveHistory := p.moveHistory + [Move(Some(roll), from, p.position, None, moveNumber)])
  }

  /** Jumps along a ladder and records the jump under the current roll count. */
  function TakeLadder(p: Player, l: Ladder): Player {
    p.(position := l.end,
       moveHistory := p.moveHistory + [Move(None, p.position, l.end, Some(LadderJump), p.diceRolls)])
  }

  /** One player's turn: walk `roll` steps, record the move, then take the
      first ladder that starts at the unclamped target `position + roll`. */
  function Turn(p: Player, roll: nat, ladders: seq<Ladder>, n: int): Player {
    var recorded := RecordRoll(Walk(p, roll, n), p.position, roll);
    match Ladders.Find(ladders, p.position + roll, true)
    case None => recorded
    case Some(l) => TakeLadder(recorded, l)
  }

  /** Finished players sit the round out. */
  function TurnOrSkip(p: Player, roll: nat, ladders: seq<Ladder>, n: int): Player {
    if p.finished then p else Turn(p, roll, ladders, n)
  }

  /** The roster after every player of the round-start snapshot has had its turn. */
  function Played(s: seq<Player>, rolls: seq<nat>, ladders: seq<Ladder>, n: int): seq<Player>
    requires |rolls| == |s|
  {
    seq(|s|, j requires 0 <= j < |s| => TurnOrSkip(s[j], rolls[j], ladders, n))
  }

  predicate Arrived(p: Player, n: int) {
    p.position == n && !p.finished
  }

  /** The settling pass: every player that arrived on the last square is finished. */
  function Settle(ps: seq<Player>, n: int): seq<Player> {
    seq(|ps|, j requires 0 <= j < |ps| => if Arrived(ps[j], n) then ps[j].(finished := true) else ps[j])
  }

  /** How many players the settling pass finishes. */
  function ArrivalCount(ps: seq<Player>, n: int): nat
    decreases |ps|
  {
    if ps == [] then 0
    else ArrivalCount(ps[..|ps| - 1], n) + (if Arrived(ps[|ps| - 1], n) then 1 else 0)
  }

  predicate StartOccupied(ps: seq<Player>) {
    exists i :: 0 <= i < |ps| && ps[i].position == 1
  }

  function FreshPlayer(id: int, color: string): Player {
    Player(id, "Player " + IntToString(id), 1, color, 0, 0, [], false)
  }

  /** The updater of `createNewPlayer`: a new player on the first square, unless
      someone already stands there. */
  function Spawn(ps: seq<Player>, color: string): (r: seq<Player>)
    ensures |ps| <= |r| <= |ps| + 1 && r[..|ps|] == ps
    ensures |r| == |ps| + 1 <==> !StartOccupied(ps)
    ensures StartOccupied(r)
    ensures |r| == |ps| + 1 ==>
              var q := r[|ps|];
              q.id == |r| && q.name == "Player " + IntToString(|r|) && q.position == 1 && q.color == color &&
              q.diceRolls == 0 && q.movedSteps == 0 && q.moveHistory == [] && !q.finished
  {
    if StartOccupied(ps) then ps
    else
      var r := ps + [FreshPlayer(|ps| + 1, color)];
      assert r[|ps|].position == 1;
      r
  }

  /** `createNewPlayer` called k times in a row. */
  function SpawnTimes(ps: seq<Player>, k: nat, color: string): seq<Player>
    decreases k
  {
    if k == 0 then ps else Spawn(SpawnTimes(ps, k - 1, color), color)
  }

  /** The roster after one round started from roster `s`. */
  function RoundResult(s: seq<Player>, rolls: seq<nat>, ladders: seq<Ladder>, n: int, color: string): seq<Player>
    requires |rolls| == |s|
  {
    var played := Played(s, rolls, ladders, n);
    SpawnTimes(Settle(played, n), ArrivalCount(played, n), color)
  }

  predicate RollsInRange(rolls: seq<nat>) {
    forall i :: 0 <= i < |rolls| ==> 1 <= rolls[i] <= 6
  }

  /** The player that opens a game. */
  function FirstPlayer(): Player {
    Player(1, "Player 1", 1, "red", 0, 0, [], false)
  }

  class GameSession {
    /** GAMEBOARD_SIZE. */
    const size: int
    var players: seq<Player>
    var ladders: seq<Ladder>
    var finishedMoving: bool
    var automaticMode: bool

    /** A new game: one player on the first square and freshly generated ladders. */
    constructor (size: int, draws: seq<Ladders.CandidateDraws>)
      requires 3 <= size
      requires |draws| == Ladders.CandidateCount && Ladders.ValidDraws(draws, size)
      ensures this.size == size
      ensures players == [FirstPlayer()]
      ensures ladders == Ladders.Generated(draws, size)
      ensures finishedMoving && !automaticMode
    {
      this.size := size;
      players := [FirstPlayer()];
      finishedMoving := true;
      automaticMode := false;
      new;
      ladders := Ladders.GenerateLadders(draws, size);
    }

    /** `updatePlayer`: applies `update` to the player at `playerIndex` only;
        an index outside the roster changes nothing. */
    method UpdatePlayer(playerIndex: int, update: Player -> Player)
      modifies this`players
      ensures 0 <= playerIndex < |old(players)| ==>
                players == old(players)[playerIndex := update(old(players)[playerIndex])]
      ensures !(0 <= playerIndex < |old(players)|) ==> players == old(players)
    {
      if 0 <= playerIndex < |players| {
        players := players[playerIndex := update(players[playerIndex])];
      }
    }

    /** `moveThePlayerForward`: `roll` single steps of the player at `playerIndex`. */
    method MoveThePlayerForward(roll: nat, playerIndex: int)
      modifies this`players
      ensures 0 <= playerIndex < |old(players)| ==>
                players == old(players)[playerIndex := Walk(old(players)[playerIndex], roll, size)]
      ensures !(0 <= playerIndex < |old(players)|) ==> players == old(players)
    {
      var n := size;
      var i := 0;
      while i < roll
        invariant 0 <= i <= roll
        invariant |players| == |old(players)|
        invariant 0 <= playerIndex < |players| ==>
                    players == old(players)[playerIndex := Walk(old(players)[playerIndex], i, n)]
        invariant !(0 <= playerIndex < |players|) ==> players == old(players)
      {
        UpdatePlayer(playerIndex, p => StepForward(p, n));
        i := i + 1;
      }
    }

    /** `createNewPlayer`. */
    method CreateNewPlayer(color: string)
      modifies this`players
      ensures players == Spawn(old(players), color)
    {
      players := Spawn(players, color);
    }

    /** The body of the `rollDice` loop for one unfinished player: roll,
        walk, record the move, then look up a ladder at the unclamped target. */
    method TakeTurn(i: nat, roll: nat)
      requires i < |players|
      modifies this`players
      ensures players == old(players)[i := Turn(old(players)[i], roll, ladders, size)]
    {
      var rollingPlayer := players[i];
      var fromPosition := rollingPlayer.position;
      var expectedPosition := rollingPlayer.position + roll;
      MoveThePlayerForward(roll, i);
      UpdatePlayer(i, p => RecordRoll(p, fromPosition, roll));
      var ladder := Ladders.Find(ladders, expectedPosition, true);
      if ladder.Some? {
        var l := ladder.value;
        UpdatePlayer(i, p => TakeLadder(p, l));
      }
    }

    /** The end of `rollDice`: arrivals on the last square are finished, then
        `createNewPlayer` runs once per arrival. */
    method FinishArrivals(color: string)
      modifies this`players
      ensures players == SpawnTimes(Settle(old(players), size), ArrivalCount(old(players), size), color)
    {
      var arrivals := ArrivalCount(players, size);
      ghost var settled := Settle(players, size);
      players := Settle(players, size);
      var k := 0;
      while k < arrivals
        invariant 0 <= k <= arrivals
        invariant players == SpawnTimes(settled, k, color)
      {
        CreateNewPlayer(color);
        k := k + 1;
      }
    }

    /** `rollDice`: one round. Every player of the round-start roster that is not
        finished takes its turn with die `rolls[i]`; then arrivals on the last
        square are finished and `createNewPlayer` runs once per arrival. */
    method RollDice(rolls: seq<nat>, color: string)
      requires |rolls| == |players| && RollsInRange(rolls)
      modifies this`players, this`finishedMoving
      ensures players == RoundResult(old(players), rolls, ladders, size, color)
      ensures finishedMoving
    {
      finishedMoving := false;
      var snapshot := players;
      var i := 0;
      while i < |snapshot|
        invariant 0 <= i <= |snapshot|
        invariant |players| == |snapshot|
        invariant forall j :: 0 <= j < i ==> players[j] == TurnOrSkip(snapshot[j], rolls[j], ladders, size)
        invariant forall j :: i <= j < |snapshot| ==> players[j] == snapshot[j]
      {
        if !snapshot[i].finished {
          TakeTurn(i, rolls[i]);
        }
        i := i + 1;
      }
      assert players == Played(snapshot, rolls, ladders, size);
      FinishArrivals(color);
      finishedMoving := true;
    }

    /** The automatic-mode toggle button. */
    method ToggleAutomaticMode()
      modifies this`automaticMode
      ensures automaticMode == !old(automaticMode)
    {
      automaticMode := !automaticMode;
    }

    /** One tick of automatic mode, read on the current session: a round is
        played only when automatic mode is on and the previous round has
        settled. State captured when the mode was switched on is not modelled. */
    method AutomaticTick(rolls: seq<nat>, color: string)
      requires |rolls| == |players| && RollsInRange(rolls)
      modifies this`players, this`finishedMoving
      ensures old(automaticMode && finishedMoving) ==>
                players == RoundResult(old(players), rolls, ladders, size, color) && finishedMoving
      ensures !old(automaticMode && finishedMoving) ==>
                players == old(players) && finishedMoving == old(finishedMoving)
    {
      if finishedMoving && automaticMode {
        RollDice(rolls, color);
      }
    }
  }

  // Properties of a turn and of a round

  predicate OnBoard(ps: seq<Player>, n: int) {
    forall i :: 0 <= i < |ps| ==> 1 <= ps[i].position <= n
  }

  predicate LadderEndsOnBoard(ladders: seq<Ladder>, n: int) {
    forall i :: 0 <= i < |ladders| ==> 1 <= ladders[i].end <= n
  }

  /** No recorded move carries a number above the player's roll count. */
  predicate MoveNumbersCounted(p: Player) {
    forall i :: 0 <= i < |p.moveHistory| ==> p.moveHistory[i].moveNumber <= p.diceRolls
  }

  /** Walking k >= 1 steps lands on `min(position + k, n)` and changes nothing
      but the position and the step marker. */
  lemma {:induction false} WalkEffect(p: Player, k: nat, n: int)
    requires k >= 1
    ensures Walk(p, k, n) == p.(position := Min(p.position + k, n), movedSteps := p.diceRolls + 1)
    decreases k
  {
    if k > 1 {
      WalkEffect(p, k - 1, n);
    }
  }

  /** Every intermediate position of a walk from the board stays on the board,
      and no step goes backwards. */
  lemma WalkStaysOnBoard(p: Player, k: nat, n: int)
    requires 1 <= p.position <= n
    ensures forall j :: 0 <= j <= k ==> 1 <= Walk(p, j, n).position <= n
    ensures forall j :: 0 <= j < k ==> Walk(p, j, n).position <= Walk(p, j + 1, n).position
  {
    forall j | 1 <= j <= k ensures Walk(p, j, n).position == Min(p.position + j, n) {
      WalkEffect(p, j, n);
    }
  }

  /** A turn with die `roll`: the roll is counted once, exactly one dice move
      is appended, and the first ladder whose start equals the unclamped
      `position + roll` (if any) moves the player to its end and appends one
      ladder move under the same number. There is no second lookup after the jump. */
  lemma TurnEffect(p: Player, roll: nat, ladders: seq<Ladder>, n: int)
    requires roll >= 1
    ensures var t := Turn(p, roll, ladders, n);
      t.id == p.id && t.name == p.name && t.color == p.color && t.finished == p.finished &&
      t.diceRolls == p.diceRolls + 1 && t.movedSteps == p.diceRolls + 1
    ensures var t, h := Turn(p, roll, ladders, n), |p.moveHistory|;
      h + 1 <= |t.moveHistory| <= h + 2 && t.moveHistory[..h] == p.moveHistory &&
      t.moveHistory[h] == Move(Some(roll), p.position, Min(p.position + roll, n), None, p.diceRolls + 1)
    ensures (forall i :: 0 <= i < |ladders| ==> ladders[i].start != p.position + roll) ==>
      var t := Turn(p, roll, ladders, n);
      t.position == Min(p.position + roll, n) && |t.moveHistory| == |p.moveHistory| + 1
    ensures var k := Ladders.FindIndex(ladders, p.position + roll, true);
      k < |ladders| ==>
      var t, h := Turn(p, roll, ladders, n), |p.moveHistory|;
      t.position == ladders[k].end && |t.moveHistory| == h + 2 &&
      t.moveHistory[h + 1] == Move(None, Min(p.position + roll, n), ladders[k].end, Some(LadderJump), p.diceRolls + 1)
  {
    WalkEffect(p, roll, n);
    var recorded := RecordRoll(Walk(p, roll, n), p.position, roll);
    assert recorded.moveHistory[..|p.moveHistory|] == p.moveHistory;
    match Ladders.Find(ladders, p.position + roll, true)
    case None =>
    case Some(l) =>
      assert TakeLadder(recorded, l).moveHistory[..|p.moveHistory|] == p.moveHistory;
  }

  /** `createNewPlayer` called k >= 1 times adds at most one player: the first
      call occupies the first square, so the later ones change nothing. */
  lemma {:induction false} SpawnTimesOnce(ps: seq<Player>, k: nat, color: string)
    ensures SpawnTimes(ps, k, color) == if k == 0 then ps else Spawn(ps, color)
    decreases k
  {
    if k > 1 {
      SpawnTimesOnce(ps, k - 1, color);
      var once := Spawn(ps, color);
      assert StartOccupied(once);
      assert Spawn(once, color) == once;
    }
  }

  /** The settling pass finishes someone exactly when some player arrived. */
  lemma {:induction false} ArrivalCountPositive(ps: seq<Player>, n: int)
    ensures ArrivalCount(ps, n) > 0 <==> exists j :: 0 <= j < |ps| && Arrived(ps[j], n)
    decreases |ps|
  {
    if ps != [] {
      var front := ps[..|ps| - 1];
      ArrivalCountPositive(front, n);
      if exists j :: 0 <= j < |front| && Arrived(front[j], n) {
        var j :| 0 <= j < |front| && Arrived(front[j], n);
        assert Arrived(ps[j], n);
      }
      if exists j :: 0 <= j < |ps| && Arrived(ps[j], n) {
        var j :| 0 <= j < |ps| && Arrived(ps[j], n);
        if j < |front| {
          assert Arrived(front[j], n);
        }
      }
    }
  }

  /** A round keeps every existing slot, adds at most one player, and adds one
      exactly when some unfinished player arrived on the last square and nobody
      stands on the first square after the moves; the newcomer is a fresh
      player who has not rolled. */
  lemma RoundRoster(s: seq<Player>, rolls: seq<nat>, ladders: seq<Ladder>, n: int, color: string)
    requires |rolls| == |s| && RollsInRange(rolls)
    ensures var r := RoundResult(s, rolls, ladders, n, color);
      |s| <= |r| <= |s| + 1 && r[..|s|] == Settle(Played(s, rolls, ladders, n), n)
    ensures |RoundResult(s, rolls, ladders, n, color)| == |s| + 1 <==>
      (exists j :: 0 <= j < |s| && !s[j].finished && Turn(s[j], rolls[j], ladders, n).position == n) &&
      (forall j :: 0 <= j < |s| ==> TurnOrSkip(s[j], rolls[j], ladders, n).position != 1)
    ensures |RoundResult(s, rolls, ladders, n, color)| == |s| + 1 ==>
      RoundResult(s, rolls, ladders, n, color)[|s|] == FreshPlayer(|s| + 1, color)
  {
    var played := Played(s, rolls, ladders, n);
    var settled := Settle(played, n);
    SpawnTimesOnce(settled, ArrivalCount(played, n), color);
    ArrivalCountPositive(played, n);
    assert (exists j :: 0 <= j < |played| && Arrived(played[j], n)) <==>
           (exists j :: 0 <= j < |s| && !s[j].finished && Turn(s[j], rolls[j], ladders, n).position == n) by {
      if exists j :: 0 <= j < |s| && !s[j].finished && Turn(s[j], rolls[j], ladders, n).position == n {
        var j :| 0 <= j < |s| && !s[j].finished && Turn(s[j], rolls[j], ladders, n).position == n;
        TurnEffect(s[j], rolls[j], ladders, n);
        assert Arrived(played[j], n);
      }
    }
    assert StartOccupied(settled) <==> exists j :: 0 <= j < |s| && TurnOrSkip(s[j], rolls[j], ladders, n).position == 1 by {
      if StartOccupied(settled) {
        var j :| 0 <= j < |settled| && settled[j].position == 1;
        assert TurnOrSkip(s[j], rolls[j], ladders, n).position == 1;
      }
      if exists j :: 0 <= j < |s| && TurnOrSkip(s[j], rolls[j], ladders, n).position == 1 {
        var j :| 0 <= j < |s| && TurnOrSkip(s[j], rolls[j], ladders, n).position == 1;
        assert settled[j].position == 1;
      }
    }
  }

  /** Players finished before the round are left exactly as they were; every
      other player of the roster rolls once, keeps its history as a prefix,
      gains one or two moves, and is finished exactly when it ends the round on
      the last square. */
  lemma RoundPlayers(s: seq<Player>, rolls: seq<nat>, ladders: seq<Ladder>, n: int, color: string)
    requires |rolls| == |s| && RollsInRange(rolls)
    ensures |RoundResult(s, rolls, ladders, n, color)| >= |s|
    ensures var r := RoundResult(s, rolls, ladders, n, color);
      forall j :: 0 <= j < |s| && s[j].finished ==> r[j] == s[j]
    ensures var r := RoundResult(s, rolls, ladders, n, color);
      forall j :: 0 <= j < |s| && !s[j].finished ==>
        r[j].id == s[j].id && r[j].diceRolls == s[j].diceRolls + 1 &&
        |s[j].moveHistory| + 1 <= |r[j].moveHistory| <= |s[j].moveHistory| + 2 &&
        r[j].moveHistory[..|s[j].moveHistory|] == s[j].moveHistory &&
        (r[j].finished <==> r[j].position == n)
  {
    RoundRoster(s, rolls, ladders, n, color);
    var r := RoundResult(s, rolls, ladders, n, color);
    forall j | 0 <= j < |s| && !s[j].finished
      ensures r[j].id == s[j].id && r[j].diceRolls == s[j].diceRolls + 1
      ensures |s[j].moveHistory| + 1 <= |r[j].moveHistory| <= |s[j].moveHistory| + 2
      ensures r[j].moveHistory[..|s[j].moveHistory|] == s[j].moveHistory
      ensures r[j].finished <==> r[j].position == n
    {
      TurnEffect(s[j], rolls[j], ladders, n);
      assert r[j] == r[..|s|][j];
    }
    forall j | 0 <= j < |s| && s[j].finished ensures r[j] == s[j] {
      assert r[j] == r[..|s|][j];
    }
  }

  /** After a round every player on the last square is finished. */
  lemma RoundFinishesArrivals(s: seq<Player>, rolls: seq<nat>, ladders: seq<Ladder>, n: int, color: string)
    requires |rolls| == |s| && RollsInRange(rolls) && n != 1
    ensures var r := RoundResult(s, rolls, ladders, n, color);
      forall j :: 0 <= j < |r| && r[j].position == n ==> r[j].finished
  {
    RoundRoster(s, rolls, ladders, n, color);
    var r := RoundResult(s, rolls, ladders, n, color);
    forall j | 0 <= j < |r| && r[j].position == n ensures r[j].finished {
      if j < |s| {
        assert r[j] == r[..|s|][j];
      }
    }
  }

  /** When every ladder ends on the board, a turn from the board ends on the board. */
  lemma TurnKeepsOnBoard(p: Player, roll: nat, ladders: seq<Ladder>, n: int)
    requires roll >= 1 && 1 <= p.position <= n && LadderEndsOnBoard(ladders, n)
    ensures 1 <= Turn(p, roll, ladders, n).position <= n
  {
    WalkEffect(p, roll, n);
    var recorded := RecordRoll(Walk(p, roll, n), p.position, roll);
    assert 1 <= recorded.position <= n;
    match Ladders.Find(ladders, p.position + roll, true)
    case None =>
      assert Turn(p, roll, ladders, n) == recorded;
    case Some(l) =>
      assert Turn(p, roll, ladders, n) == TakeLadder(recorded, l);
      var k :| 0 <= k < |ladders| && ladders[k] == l;
  }

  /** When every ladder ends on the board, a round keeps every player on the board. */
  lemma RoundKeepsOnBoard(s: seq<Player>, rolls: seq<nat>, ladders: seq<Ladder>, n: int, color: string)
    requires |rolls| == |s| && RollsInRange(rolls) && 1 <= n
    requires OnBoard(s, n) && LadderEndsOnBoard(ladders, n)
    ensures OnBoard(RoundResult(s, rolls, ladders, n, color), n)
  {
    RoundRoster(s, rolls, ladders, n, color);
    var r := RoundResult(s, rolls, ladders, n, color);
    forall j | 0 <= j < |r| ensures 1 <= r[j].position <= n {
      if j < |s| {
        assert r[j] == r[..|s|][j];
        if !s[j].finished {
          TurnKeepsOnBoard(s[j], rolls[j], ladders, n);
        }
      }
    }
  }

  /** A round keeps every move number within its player's roll count. */
  lemma RoundKeepsMoveNumbers(s: seq<Player>, rolls: seq<nat>, ladders: seq<Ladder>, n: int, color: string)
    requires |rolls| == |s| && RollsInRange(rolls)
    requires forall j :: 0 <= j < |s| ==> MoveNumbersCounted(s[j])
    ensures var r := RoundResult(s, rolls, ladders, n, color);
      forall j :: 0 <= j < |r| ==> MoveNumbersCounted(r[j])
  {
    RoundRoster(s, rolls, ladders, n, color);
    var r := RoundResult(s, rolls, ladders, n, color);
    forall j | 0 <= j < |r| ensures MoveNumbersCounted(r[j]) {
      if j < |s| {
        assert r[j] == r[..|s|][j];
        if !s[j].finished {
          var h := |s[j].moveHistory|;
          TurnEffect(s[j], rolls[j], ladders, n);
          var t := Turn(s[j], rolls[j], ladders, n);
          forall i | 0 <= i < |t.moveHistory| ensures t.moveHistory[i].moveNumber <= t.diceRolls {
            if i < h {
              assert t.moveHistory[i] == t.moveHistory[..h][i];
            } else if i == h + 1 {
              var found := Ladders.Find(ladders, s[j].position + rolls[j], true);
              assert found.Some?;
            }
          }
        }
      }
    }
  }

  /** With the ladders that `FailedEndMayBeKept` produces on a four-square board,
      the first player rolling 2 lands on the start of ladder (3, -1) and is
      sent to position -1, off the board. */
  lemma FailedEndSendsPlayerOffBoard()
    ensures Ladders.SortDesc([Ladder(2, 3), Ladder(3, Ladders.Failed)]) == [Ladder(3, Ladders.Failed), Ladder(2, 3)]
    ensures Turn(FirstPlayer(), 2, [Ladder(3, Ladders.Failed), Ladder(2, 3)], 4).position == -1
  {
    assert [Ladder(2, 3), Ladder(3, Ladders.Failed)][..1] == [Ladder(2, 3)];
    assert [Ladder(2, 3)][..0] == [];
    assert Ladders.SortDesc([Ladder(2, 3)]) == [Ladder(2, 3)];
    assert Ladders.FindIndex([Ladder(3, Ladders.Failed), Ladder(2, 3)], 3, true) == 0;
  }
}
