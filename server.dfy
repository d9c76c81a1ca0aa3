/**
 * The game engine of the asciitron server.
 *
 * A TronServer holds the connected players, the shared map of occupied cells
 * and the game state ("init" or "running"). Each Player holds its socket
 * buffers, its id, the terminal size it reported, its trail of visited cells,
 * its speed and its nitro tank. Sockets, select and the clock are not modelled:
 * the result of every recv/send and the current time are parameters.
 *
 * A Python exception that would end `serve` (struct.error when a None id is
 * packed, IndexError on an empty player list, KeyError on a missing map key)
 * is modelled as an `ok == false` result; nothing is promised about the state
 * after one.
 *
 * The ghost set `owners` holds every player that may own cells. It includes
 * players that a rejected hello has already removed while the rest of their
 * read buffer is still being handled: such a player can still occupy cells.
 * The ghost map `ownerOf` says which of them owns each occupied cell.
 */
module Server {
  import opened Protocol
  import opened Transport

  type Cell = (int, int)

  datatype GameState = Init | Running

  /** The cells of a trail, as a set. */
  function Cells(trail: seq<Cell>): (s: set<Cell>)
    ensures forall c :: c in s <==> c in trail
  {
    set c | c in trail
  }

  /** Number of characters of Python's str(n). */
  function DecimalLength(n: int): (len: nat)
    ensures len >= 1
    ensures len == 1 <==> 0 <= n <= 9
    decreases if n < 0 then -2 * n else n
  {
    if n < 0 then 1 + DecimalLength(-n)
    else if n < 10 then 1
    else 1 + DecimalLength(n / 10)
  }

  /** A hello's id passes the format test when it is one decimal character other than 0. */
  predicate IdFormatOk(misc: int)
  {
    DecimalLength(misc) == 1 && misc != 0
  }

  lemma IdFormatOkRange(misc: int)
    ensures IdFormatOk(misc) <==> 1 <= misc <= 9
  {
  }

  function Min(a: real, b: real): real { if a <= b then a else b }

  function Max(a: real, b: real): real { if a >= b then a else b }

  /** The list without `p`. On a list without repeats (the player list never has any, see
      WithoutDistinct) this is list.remove(p) guarded by `p in list`. */
  function Without(ps: seq<Player>, p: Player): (r: seq<Player>)
    ensures |r| <= |ps|
    ensures forall k :: 0 <= k < |r| ==> r[k] in ps && r[k] != p
    ensures forall k :: 0 <= k < |ps| && ps[k] != p ==> ps[k] in r
  {
    if ps == [] then []
    else
      var rest := Without(ps[1..], p);
      assert forall k :: 0 <= k < |rest| ==> rest[k] in ps;
      assert forall k :: 1 <= k < |ps| && ps[k] != p ==> ps[k] == ps[1..][k - 1];
      (if ps[0] == p then [] else [ps[0]]) + rest
  }

  /** No player appears twice in the list. */
  ghost predicate Distinct(ps: seq<Player>)
  {
    forall i, j :: 0 <= i < j < |ps| ==> ps[i] != ps[j]
  }

  lemma {:induction false} WithoutAbsent(ps: seq<Player>, p: Player)
    requires p !in ps
    ensures Without(ps, p) == ps
  {
    if ps != [] {
      WithoutAbsent(ps[1..], p);
    }
  }

  /** On a list without repeats, Without removes exactly the one occurrence and keeps the order of the rest. */
  lemma {:induction false} WithoutAt(ps: seq<Player>, p: Player, i: int)
    requires Distinct(ps) && 0 <= i < |ps| && ps[i] == p
    ensures Without(ps, p) == ps[..i] + ps[i + 1..]
  {
    var tail := ps[1..];
    if i == 0 {
      assert p !in tail;
      WithoutAbsent(tail, p);
    } else {
      WithoutAt(tail, p, i - 1);
      assert ps[..i] == [ps[0]] + tail[..i - 1];
      assert ps[i + 1..] == tail[i..];
    }
  }

  lemma DistinctDrop(ps: seq<Player>, i: int)
    requires Distinct(ps) && 0 <= i < |ps|
    ensures Distinct(ps[..i] + ps[i + 1..])
  {
    var r := ps[..i] + ps[i + 1..];
    assert forall a :: 0 <= a < i ==> r[a] == ps[a];
    assert forall a :: i <= a < |r| ==> r[a] == ps[a + 1];
  }

  lemma WithoutDistinct(ps: seq<Player>, p: Player)
    requires Distinct(ps)
    ensures Distinct(Without(ps, p))
    ensures p in ps ==> |Without(ps, p)| == |ps| - 1
  {
    if p in ps {
      var i :| 0 <= i < |ps| && ps[i] == p;
      WithoutAt(ps, p, i);
      DistinctDrop(ps, i);
    } else {
      WithoutAbsent(ps, p);
    }
  }

  /** filter(lambda p: not p.crashed, players): the players still standing, in order. */
  function Standing(ps: seq<Player>): (r: seq<Player>)
    reads ps`crashed
    ensures |r| <= |ps|
    ensures forall k :: 0 <= k < |r| ==> r[k] in ps && !r[k].crashed
    ensures forall k :: 0 <= k < |ps| && !ps[k].crashed ==> ps[k] in r
  {
    if ps == [] then []
    else
      var rest := Standing(ps[1..]);
      assert forall k :: 0 <= k < |rest| ==> rest[k] in ps;
      assert forall k :: 1 <= k < |ps| ==> ps[k] == ps[1..][k - 1];
      (if ps[0].crashed then [] else [ps[0]]) + rest
  }

  lemma {:induction false} StandingNone(ps: seq<Player>)
    requires forall k :: 0 <= k < |ps| ==> ps[k].crashed
    ensures Standing(ps) == []
  {
    if ps != [] {
      StandingNone(ps[1..]);
    }
  }

  lemma {:induction false} StandingEmpty(ps: seq<Player>)
    ensures Standing(ps) == [] <==> forall k :: 0 <= k < |ps| ==> ps[k].crashed
  {
    if forall k :: 0 <= k < |ps| ==> ps[k].crashed {
      StandingNone(ps);
    }
  }

  /** Player `i` is the only one in the list that has not crashed. */
  ghost predicate OnlyStanding(ps: seq<Player>, i: int)
    reads ps`crashed
  {
    0 <= i < |ps| && !ps[i].crashed && forall j :: 0 <= j < |ps| && j != i ==> ps[j].crashed
  }

  /** When one player alone has not crashed, the filter is that player. */
  lemma {:induction false} StandingOnly(ps: seq<Player>, i: int)
    requires OnlyStanding(ps, i)
    ensures Standing(ps) == [ps[i]]
  {
    var tail := ps[1..];
    if i == 0 {
      forall k | 0 <= k < |tail| ensures tail[k].crashed {
        assert tail[k] == ps[k + 1];
      }
      StandingNone(tail);
    } else {
      assert ps[0].crashed;
      assert OnlyStanding(tail, i - 1) by {
        forall j | 0 <= j < |tail| && j != i - 1 ensures tail[j].crashed {
          assert tail[j] == ps[j + 1];
        }
      }
      StandingOnly(tail, i - 1);
    }
  }

  /** A filter of length one names the only player that has not crashed. */
  lemma {:induction false} StandingOne(ps: seq<Player>)
    requires |Standing(ps)| == 1
    ensures exists i :: OnlyStanding(ps, i) && Standing(ps)[0] == ps[i]
  {
    var tail := ps[1..];
    if ps[0].crashed {
      assert Standing(ps) == Standing(tail);
      StandingOne(tail);
      var i :| OnlyStanding(tail, i) && Standing(tail)[0] == tail[i];
      assert OnlyStanding(ps, i + 1) by {
        forall j | 0 <= j < |ps| && j != i + 1 ensures ps[j].crashed {
          if j > 0 { assert ps[j] == tail[j - 1]; }
        }
      }
    } else {
      assert Standing(tail) == [];
      assert OnlyStanding(ps, 0) by {
        forall j | 0 <= j < |ps| && j != 0 ensures ps[j].crashed {
          assert ps[j] == tail[j - 1];
        }
      }
    }
  }

  // ---------------------------------------------------------------------
  // Speed rules. A speed is the delay between two steps in milliseconds,
  // so a smaller value is faster.
  // ---------------------------------------------------------------------

  /** A move inside the 10% border band: 10% faster, never below `normal - border`. */
  function Throttled(speed: real, normal: int, border: int): (r: real)
    ensures r >= (normal - border) as real
    ensures speed > (normal - border) as real && speed > 0.0 ==> r < speed
  {
    Max(speed * 0.9, (normal - border) as real)
  }

  /** A move outside the border band: 10% slower, never above `normal`. */
  function Recovered(speed: real, normal: int): (r: real)
    ensures r <= normal as real
    ensures 0.0 < speed < normal as real ==> speed < r
  {
    Min(speed * 1.1, normal as real)
  }

  /** A move while nitro burns: 1% slower, never above `normal`. */
  function Burning(speed: real, normal: int): (r: real)
    ensures r <= normal as real
    ensures 0.0 < speed < normal as real ==> speed < r
  {
    Min(normal as real, speed * 1.01)
  }

  /** Nitro activation: faster by the tank's share of `nitro`, never below `normal - nitro`. */
  function Boosted(speed: real, normal: int, nitro: int, tank: int): (r: real)
    ensures r >= (normal - nitro) as real
    ensures nitro >= 0 && tank >= 0 ==> r <= Max(speed, (normal - nitro) as real)
    ensures nitro > 0 && tank > 0 && speed > (normal - nitro) as real ==> r < speed
  {
    var share := 1.0 - (100 - tank) as real / 100.0;
    assert share == tank as real / 100.0;
    assert nitro >= 0 && tank >= 0 ==> nitro as real * share >= 0.0;
    assert nitro > 0 && tank > 0 ==> nitro as real * share > 0.0;
    Max((normal - nitro) as real, speed - nitro as real * share)
  }

  /** The 10% border band of a width x height board: 0 < x < 10% or 90% < x < 100% of the width, likewise for y. */
  predicate InBorderBand(x: int, y: int, width: int, height: int)
  {
    (0.0 < x as real < width as real * 0.1) || (width as real * 0.9 < x as real < width as real) ||
    (0.0 < y as real < height as real * 0.1) || (height as real * 0.9 < y as real < height as real)
  }

  /** A hello with id `misc` is accepted: the id is 1..9 and no listed player has it. */
  ghost predicate IdAccepted(ps: seq<Player>, misc: int)
    reads set k | 0 <= k < |ps| :: ps[k]
  {
    1 <= misc <= 9 && forall i :: 0 <= i < |ps| ==> ps[i].playerId != Some(misc)
  }

  lemma PrefixExtend(c: seq<Byte>, a: seq<Byte>, b: seq<Byte>)
    requires a <= b
    ensures c + a <= c + b
  {
    assert (c + b)[..|c + a|] == c + b[..|a|];
  }

  /** A stream `sent + bufOut` that had `m` queued keeps it whether the send moved bytes from
      the buffer to the sent part or the buffer only grew. */
  lemma StreamKeeps(s0: seq<Byte>, b0: seq<Byte>, m: seq<Byte>, s1: seq<Byte>, b1: seq<Byte>)
    requires s1 + b1 == s0 + (b0 + m) || (s1 == s0 && b0 + m <= b1)
    ensures s0 + b0 + m <= s1 + b1
  {
    if s1 + b1 != s0 + (b0 + m) {
      PrefixExtend(s0, b0 + m, b1);
    }
  }

  /** Two records queued one after the other stay in the stream when the buffer grows afterwards. */
  lemma StreamKeepsBoth(s0: seq<Byte>, b0: seq<Byte>, m1: seq<Byte>, m2: seq<Byte>,
                        s1: seq<Byte>, b1: seq<Byte>, b2: seq<Byte>)
    requires s0 + (b0 + m1) + m2 <= s1 + b1 && b1 <= b2
    ensures s0 + b0 + m1 + m2 <= s1 + b2
  {
    assert s0 + (b0 + m1) + m2 == s0 + b0 + m1 + m2;
    PrefixExtend(s1, b1, b2);
    PrefixTrans(s0 + b0 + m1 + m2, s1 + b1, s1 + b2);
  }

  /** A stream that equals `s0 + b0 + m1` and then gains `m2` as a prefix of its next value. */
  lemma StreamThen(s0: seq<Byte>, b0: seq<Byte>, m1: seq<Byte>, m2: seq<Byte>,
                   s1: seq<Byte>, b1: seq<Byte>, s2: seq<Byte>, b2: seq<Byte>)
    requires s1 + b1 == s0 + (b0 + m1) && s1 + b1 + m2 <= s2 + b2
    ensures s0 + b0 + m1 + m2 <= s2 + b2
  {
    assert s0 + (b0 + m1) + m2 == s0 + b0 + m1 + m2;
  }

  lemma PrefixTrans(a: seq<Byte>, b: seq<Byte>, c: seq<Byte>)
    requires a <= b && b <= c
    ensures a <= c
  {
    assert c[..|a|] == c[..|b|][..|a|];
  }

  /** remove_from_map raises (struct.error) only when it must broadcast cmd 5 for a None id. */
  predicate RemovalSucceeds(trail: seq<Cell>, players: seq<Player>, pid: Option<int>)
  {
    trail == [] || players == [] || pid.Some?
  }

  /** How many bytes one socket.send of `buf` moves: none on a closed socket or an error. */
  function Delivered(closed: bool, outcome: SendOutcome, buf: seq<Byte>): (n: nat)
    ensures n <= |buf|
    ensures n > 0 <==> !closed && outcome.Sent? && outcome.room > 0 && buf != []
  {
    if !closed && outcome.Sent? then Accepted(outcome, buf) else 0
  }

  /** A broadcast or send of these fields packs: an id, and every field within its width. */
  predicate Sendable(pid: Option<int>, cmd: int, x: int, y: int)
  {
    pid.Some? && IsInt16(pid.value) && IsInt16(cmd) && IsInt32(x) && IsInt32(y)
  }

  /** The listed players that have not been idle for three seconds at `now`, in order. */
  function Active(ps: seq<Player>, now: real): (r: seq<Player>)
    reads ps`lastActivity
    ensures |r| <= |ps|
    ensures forall k :: 0 <= k < |r| ==> r[k] in ps && !r[k].Idle(now)
    ensures forall k :: 0 <= k < |ps| && !ps[k].Idle(now) ==> ps[k] in r
  {
    if ps == [] then []
    else
      var rest := Active(ps[1..], now);
      assert forall k :: 0 <= k < |rest| ==> rest[k] in ps;
      assert forall k :: 1 <= k < |ps| ==> ps[k] == ps[1..][k - 1];
      (if ps[0].Idle(now) then [] else [ps[0]]) + rest
  }

  lemma {:induction false} ActiveAppend(ps: seq<Player>, p: Player, now: real)
    ensures Active(ps + [p], now) == Active(ps, now) + (if p.Idle(now) then [] else [p])
  {
    if ps != [] {
      assert (ps + [p])[1..] == ps[1..] + [p];
      ActiveAppend(ps[1..], p, now);
    }
  }

  /** One more position of a walk over `ps`: its player joins the filtered prefix unless idle. */
  lemma ActiveStep(ps: seq<Player>, i: int, now: real)
    requires 0 <= i < |ps|
    ensures Active(ps[..i + 1], now) == Active(ps[..i], now) + (if ps[i].Idle(now) then [] else [ps[i]])
    ensures ps[i..] == [ps[i]] + ps[i + 1..]
  {
    assert ps[..i + 1] == ps[..i] + [ps[i]];
    ActiveAppend(ps[..i], ps[i], now);
  }

  /** Cutting out the element at position |a| of a + [x] + b leaves a + b. */
  lemma Splice(a: seq<Player>, x: Player, b: seq<Player>)
    ensures (a + ([x] + b))[..|a|] + (a + ([x] + b))[|a| + 1..] == a + b
  {
    assert (a + ([x] + b))[..|a|] == a;
    assert (a + ([x] + b))[|a| + 1..] == b;
  }

  /** The idle sweep as written: `for player in self.players` walks the live list by position while
      `remove` deletes from it, so the player after each removed one moves into the visited slot and is
      skipped. `i` is the position the iteration visits next. */
  function SweepAsWritten(ps: seq<Player>, i: nat, now: real): (r: seq<Player>)
    reads ps`lastActivity
    ensures |r| <= |ps|
    decreases |ps| - i
  {
    if i >= |ps| then ps
    else if ps[i].Idle(now) then SweepAsWritten(ps[..i] + ps[i + 1..], i + 1, now)
    else SweepAsWritten(ps, i + 1, now)
  }

  /** When every player is idle, the sweep as written keeps every second one from position `i` on:
      of n idle players, n / 2 stay listed. */
  lemma {:induction false} SweepAsWrittenKeepsHalf(ps: seq<Player>, i: nat, now: real)
    requires i <= |ps|
    requires forall k :: 0 <= k < |ps| ==> ps[k].Idle(now)
    ensures |SweepAsWritten(ps, i, now)| == i + (|ps| - i) / 2
  {
    if i < |ps| {
      var rest := ps[..i] + ps[i + 1..];
      assert forall k :: 0 <= k < |rest| ==> rest[k].Idle(now) by {
        forall k | 0 <= k < |rest| ensures rest[k].Idle(now) {
          if k < i { assert rest[k] == ps[k]; } else { assert rest[k] == ps[k + 1]; }
        }
      }
      if i + 1 <= |rest| {
        SweepAsWrittenKeepsHalf(rest, i + 1, now);
      }
    }
  }

  /** With two or more players, all idle, the sweep as written leaves some of them listed, where the
      intended sweep (Active) leaves none. */
  lemma SweepAsWrittenMissesIdle(ps: seq<Player>, now: real)
    requires |ps| >= 2 && forall k :: 0 <= k < |ps| ==> ps[k].Idle(now)
    ensures SweepAsWritten(ps, 0, now) != [] && Active(ps, now) == []
  {
    SweepAsWrittenKeepsHalf(ps, 0, now);
    ActiveNoneIdle(ps, now);
  }

  /** The intended sweep removes a list of idle players entirely. */
  lemma {:induction false} ActiveNoneIdle(ps: seq<Player>, now: real)
    requires forall k :: 0 <= k < |ps| ==> ps[k].Idle(now)
    ensures Active(ps, now) == []
  {
    if ps != [] {
      assert forall k :: 0 <= k < |ps[1..]| ==> ps[1..][k] == ps[k + 1];
      ActiveNoneIdle(ps[1..], now);
    }
  }

  /** Whether each player of `ps` has been idle for three seconds at `now`, in order. */
  ghost function IdleFlags(ps: seq<Player>, now: real): (r: seq<bool>)
    reads ps`lastActivity
    ensures |r| == |ps| && forall k :: 0 <= k < |ps| ==> r[k] == ps[k].Idle(now)
  {
    if ps == [] then [] else [ps[0].Idle(now)] + IdleFlags(ps[1..], now)
  }

  /** The first `n` players of `ps` whose flag in `idle` is off, in order. */
  function Keep(ps: seq<Player>, idle: seq<bool>, n: int): seq<Player>
    requires |idle| == |ps| && 0 <= n <= |ps|
    decreases n
  {
    if n == 0 then [] else Keep(ps, idle, n - 1) + if idle[n - 1] then [] else [ps[n - 1]]
  }

  /** Filtering a prefix by a snapshot of the idle flags is filtering it by idleness. */
  lemma {:induction false} ActiveIsKeep(ps: seq<Player>, now: real, n: int)
    requires 0 <= n <= |ps|
    ensures Active(ps[..n], now) == Keep(ps, IdleFlags(ps, now), n)
  {
    if n == 0 {
      assert ps[..0] == [];
    } else {
      ActiveIsKeep(ps, now, n - 1);
      ActiveStep(ps, n - 1, now);
    }
  }

  /** Every player of `ps` flagged idle in `idle` has its socket closed and no trail left. */
  ghost predicate Disconnected(ps: seq<Player>, idle: seq<bool>)
    requires |idle| == |ps|
    reads ps`closed, ps`coords
  {
    forall k :: 0 <= k < |ps| && idle[k] ==> ps[k].closed && ps[k].coords == []
  }

  /** The trails of the players of `ps`, in order. */
  ghost function Trails(ps: seq<Player>): (r: seq<seq<Cell>>)
    reads ps`coords
    ensures |r| == |ps| && forall k :: 0 <= k < |ps| ==> r[k] == ps[k].coords
  {
    if ps == [] then [] else [ps[0].coords] + Trails(ps[1..])
  }

  /** The cells of the first `n` of `trails` whose flag in `idle` is on. */
  function Vacated(trails: seq<seq<Cell>>, idle: seq<bool>, n: int): set<Cell>
    requires |idle| == |trails| && 0 <= n <= |trails|
    decreases n
  {
    if n == 0 then {} else Vacated(trails, idle, n - 1) + if idle[n - 1] then Cells(trails[n - 1]) else {}
  }

  /** The cells on the trails of the idle players of `ps`: what the idle sweep takes off the map. */
  ghost function IdleTrails(ps: seq<Player>, now: real): set<Cell>
    reads ps`coords, ps`lastActivity
  {
    Vacated(Trails(ps), IdleFlags(ps, now), |ps|)
  }

  /** The map after one more position of the sweep: the passed flagged trails are gone, now including
      that player's when it is flagged. */
  lemma SweptCells(cells0: map<Cell, Option<int>>, before: map<Cell, Option<int>>, after: map<Cell, Option<int>>,
                   trails: seq<seq<Cell>>, idle: seq<bool>, i: int)
    requires |idle| == |trails| && 0 <= i < |trails|
    requires before == cells0 - Vacated(trails, idle, i)
    requires idle[i] ==> after == before - Cells(trails[i])
    requires !idle[i] ==> after == before
    ensures after == cells0 - Vacated(trails, idle, i + 1)
  {
    var passed := Vacated(trails, idle, i);
    if idle[i] {
      assert cells0 - passed - Cells(trails[i]) == cells0 - (passed + Cells(trails[i]));
    } else {
      assert passed + {} == passed;
    }
  }

  class Player {
    const server: TronServer
    var bufIn: seq<Byte>
    var bufOut: seq<Byte>
    var playerId: Option<int>
    var width: int
    var height: int
    var crashed: bool
    var speed: real
    var nitroStart: real
    var nitro: bool
    var nitrotank: int
    /** Every cell this player has visited and still occupies, in order. */
    var coords: seq<Cell>
    var x: int
    var y: int
    var lastActivity: real
    /** socket.close() has been called; a later send fails. */
    var closed: bool
    /** Every byte the kernel accepted from bufOut, in order. */
    ghost var sent: seq<Byte>
    /** Every record handed to handle_packet, in order. */
    ghost var received: seq<ToServer>

    constructor (server: TronServer)
      requires server.SettingsOk()
      ensures this.server == server && Inv()
      ensures bufIn == [] && bufOut == [] && playerId == None && width == -1 && height == -1
      ensures !crashed && speed == server.speedNormal as real && nitroStart == 0.0 && !nitro && nitrotank == 100
      ensures coords == [] && x == 0 && y == 0 && lastActivity == 0.0 && !closed && sent == [] && received == []
    {
      this.server := server;
      bufIn := [];
      bufOut := [];
      playerId := None;
      width := -1;
      height := -1;
      crashed := false;
      speed := server.speedNormal as real;
      nitroStart := 0.0;
      nitro := false;
      nitrotank := 100;
      coords := [];
      x := 0;
      y := 0;
      lastActivity := 0.0;
      closed := false;
      sent := [];
      received := [];
    }

    /** Bounds every player keeps: tank 0..100, speed between the server's floor and normal speed,
        a reported size and an id that fit their fields. */
    ghost predicate Inv()
      reads this`nitrotank, this`speed, this`width, this`height, this`playerId
    {
      0 <= nitrotank <= 100 && server.SpeedFloor() <= speed <= server.speedNormal as real &&
      IsInt32(width) && IsInt32(height) && (playerId.Some? ==> IsInt16(playerId.value))
    }

    /** The record `send` packs for this recipient: its own speed and tank travel in every record. */
    function Outgoing(pid: int, cmd: int, x: int, y: int): ToPlayer
      reads this`speed, this`nitrotank
    {
      ToPlayer(pid, cmd, x, y, Trunc(speed), nitrotank, 0)
    }

    /** The bytes of that record (empty when a field does not fit). */
    function Packed(pid: int, cmd: int, x: int, y: int): (b: seq<Byte>)
      reads this`speed, this`nitrotank
      ensures ToPlayerFits(Outgoing(pid, cmd, x, y)) ==>
                |b| == TO_PLAYER_SIZE && DecodeToPlayer(b) == Outgoing(pid, cmd, x, y)
    {
      var e := EncodeToPlayer(Outgoing(pid, cmd, x, y));
      if e.Success? then (ToPlayerRoundTrip(Outgoing(pid, cmd, x, y)); e.value) else []
    }

    /** A record for this player packs exactly when its fields do. */
    lemma OutgoingFits(pid: Option<int>, cmd: int, x: int, y: int)
      requires server.SettingsOk() && Inv()
      ensures pid.Some? ==> (ToPlayerFits(Outgoing(pid.value, cmd, x, y)) <==> Sendable(pid, cmd, x, y))
    {
      server.FloorNonNegative();
    }

    /** The deletion loop of remove_from_map: every cell of the trail leaves the map. Each one is
        a key when it is deleted (no KeyError): the map holds the trail and a trail has no repeats. */
    method DeleteTrail()
      requires server.Valid() && this in server.owners
      modifies server`cells, server`ownerOf
      ensures server.cells == old(server.cells) - Cells(coords)
      ensures server.ownerOf == old(server.ownerOf) - Cells(coords)
    {
      var i := 0;
      while i < |coords|
        invariant 0 <= i <= |coords|
        invariant server.cells == old(server.cells) - Cells(coords[..i])
        invariant server.ownerOf == old(server.ownerOf) - Cells(coords[..i])
      {
        assert coords[i] !in coords[..i];
        assert coords[i] in server.cells;
        server.cells := server.cells - {coords[i]};
        server.ownerOf := server.ownerOf - {coords[i]};
        assert coords[..i + 1] == coords[..i] + [coords[i]];
        i := i + 1;
      }
      assert coords[..i] == coords;
    }

    /** The trail leaves the map and the player's coords become empty. */
    method ReleaseTrail()
      requires server.Valid() && this in server.owners
      modifies this`coords, server`cells, server`ownerOf
      ensures server.Valid()
      ensures coords == [] && server.cells == old(server.cells) - Cells(old(coords))
    {
      DeleteTrail();
      ghost var trail := coords;
      coords := [];
      forall c | c in server.ownerOf ensures server.ownerOf[c] in server.owners && c in server.ownerOf[c].coords {
        assert c !in trail;
        assert old(server.ownerOf)[c] != this;
      }
    }

    /** Deletes the player's trail from the shared map and, if there was one, broadcasts cmd 5 for it. */
    method RemoveFromMap() returns (ok: bool)
      requires server.Valid() && this in server.owners
      modifies this`coords, server`cells, server`ownerOf, server.players`bufOut
      ensures server.Valid()
      ensures coords == [] && server.cells == old(server.cells) - Cells(old(coords))
      ensures old(coords) == [] ==> server.cells == old(server.cells)
      ensures ok <==> RemovalSucceeds(old(coords), server.players, playerId)
      ensures forall q | q in server.owners ::
                q.bufOut == old(q.bufOut) + if ok && old(coords) != [] && q in server.players
                                            then q.Packed(playerId.value, 5, 0, 0) else []
    {
      if coords == [] {
        return true;
      }
      ReleaseTrail();
      ok := server.Broadcast(playerId, 5, 0, 0);
      OutgoingFits(playerId, 5, 0, 0);
    }

    /** Releases the player's cells and takes it out of the player list if it is there. Afterwards the trail is
        empty and the player unlisted, so a second call changes neither the map, the list nor any buffer. */
    method Remove() returns (ok: bool)
      requires server.Valid() && this in server.owners
      modifies this`coords, server`cells, server`ownerOf, server`players, server.owners`bufOut
      ensures server.Valid()
      ensures coords == [] && server.cells == old(server.cells) - Cells(old(coords))
      ensures old(coords) == [] ==> server.cells == old(server.cells)
      ensures ok <==> RemovalSucceeds(old(coords), old(server.players), playerId)
      ensures ok ==> server.players == Without(old(server.players), this) && this !in server.players
      ensures !ok ==> server.players == old(server.players)
      ensures this !in old(server.players) ==> server.players == old(server.players)
      ensures forall q | q in server.owners ::
                q.bufOut == old(q.bufOut) + if ok && old(coords) != [] && q in old(server.players)
                                            then q.Packed(playerId.value, 5, 0, 0) else []
    {
      ok := RemoveFromMap();
      if ok {
        Deregister();
      }
    }

    /** `if self in players: players.remove(self)` */
    method Deregister()
      requires server.Valid() && this in server.owners
      modifies server`players
      ensures server.Valid()
      ensures server.players == Without(old(server.players), this) && this !in server.players
      ensures this !in old(server.players) ==> server.players == old(server.players)
    {
      if this in server.players {
        WithoutDistinct(server.players, this);
        server.players := Without(server.players, this);
      } else {
        WithoutAbsent(server.players, this);
      }
    }

    /** One socket.send of bufOut: the accepted prefix leaves bufOut; a socket error, a send on a
        closed socket or a zero-byte send removes the player instead (`removed`). */
    method HandleWrite(outcome: SendOutcome) returns (ok: bool, removed: bool)
      requires server.Valid() && this in server.owners
      modifies this`bufOut, this`sent, this`coords, server`cells, server`ownerOf, server`players, server.owners`bufOut
      ensures server.Valid()
      ensures removed <==> Delivered(old(closed), outcome, old(bufOut)) == 0
      ensures !removed ==> ok && sent + bufOut == old(sent + bufOut) &&
                           bufOut == old(bufOut)[Delivered(old(closed), outcome, old(bufOut))..]
      ensures !removed ==> coords == old(coords) && server.cells == old(server.cells) && server.players == old(server.players)
      ensures removed ==> sent == old(sent) && coords == [] && server.cells == old(server.cells) - Cells(old(coords))
      ensures removed ==> (ok <==> RemovalSucceeds(old(coords), old(server.players), playerId))
      ensures removed && ok ==> server.players == Without(old(server.players), this) && this !in server.players
      ensures old(coords) == [] ==>
                server.cells == old(server.cells) && forall q | q in server.owners && q != this :: q.bufOut == old(q.bufOut)
      ensures removed ==>
                forall q | q in server.owners ::
                  q.bufOut == old(q.bufOut) + if ok && old(coords) != [] && q in old(server.players)
                                              then q.Packed(playerId.value, 5, 0, 0) else []
    {
      var n := Delivered(closed, outcome, bufOut);
      removed := n == 0;
      if removed {
        ok := Remove();
        return;
      }
      sent := sent + bufOut[..n];
      assert bufOut[..n] + bufOut[n..] == bufOut;
      bufOut := bufOut[n..];
      ok := true;
    }

    /** Queues cmd 9, makes one send attempt and closes the socket. */
    method Disconnect(flush: SendOutcome) returns (ok: bool, removed: bool)
      requires server.Valid() && this in server.owners
      modifies this`bufOut, this`sent, this`coords, this`closed, server`cells, server`ownerOf, server`players,
               server.owners`bufOut
      ensures server.Valid()
      ensures ok ==> closed
      ensures removed <==> Delivered(old(closed), flush, old(bufOut) + Packed(0, 9, 0, 0)) == 0
      ensures !removed ==> ok
      ensures !removed ==> coords == old(coords) && server.cells == old(server.cells) && server.players == old(server.players)
      ensures removed ==> sent == old(sent) && old(bufOut) + Packed(0, 9, 0, 0) <= bufOut
      ensures removed ==> coords == [] && server.cells == old(server.cells) - Cells(old(coords))
      ensures removed ==> (ok <==> RemovalSucceeds(old(coords), old(server.players), playerId))
      ensures removed && ok ==> server.players == Without(old(server.players), this) && this !in server.players
      ensures ok ==> old(sent + bufOut) + Packed(0, 9, 0, 0) <= sent + bufOut
      ensures old(coords) == [] ==>
                server.cells == old(server.cells) && forall q | q in server.owners && q != this :: q.bufOut == old(q.bufOut)
    {
      OutgoingFits(Some(0), 9, 0, 0);
      ghost var bye := Packed(0, 9, 0, 0);
      var queued := Send(Some(0), 9, 0, 0);
      ok, removed := HandleWrite(flush);
      if ok {
        closed := true;
        StreamKeeps(old(sent), old(bufOut), bye, sent, bufOut);
      }
    }

    /** A connection turned away on accept, before it is listed and before it has a trail: cmd `code` is
        queued, one send is attempted, then the player is disconnected. Nobody else hears of it. */
    method TurnAway(code: int, first: SendOutcome, bye: SendOutcome)
      requires server.Valid() && this in server.owners && this !in server.players && coords == [] && IsInt16(code)
      modifies this`bufOut, this`sent, this`coords, this`closed, server`cells, server`ownerOf, server`players,
               server.owners`bufOut
      ensures server.Valid() && closed && coords == []
      ensures server.cells == old(server.cells) && server.players == old(server.players)
      ensures forall q | q in server.owners && q != this :: q.bufOut == old(q.bufOut)
      ensures old(sent + bufOut) + Packed(0, code, 0, 0) + Packed(0, 9, 0, 0) <= sent + bufOut
    {
      OutgoingFits(Some(0), code, 0, 0);
      ghost var notice, farewell := Packed(0, code, 0, 0), Packed(0, 9, 0, 0);
      var queued := Send(Some(0), code, 0, 0);
      var ok, removed := HandleWrite(first);
      WithoutAbsent(old(server.players), this);
      ghost var sent1, buf1 := sent, bufOut;
      ok, removed := Disconnect(bye);
      WithoutAbsent(old(server.players), this);
      StreamThen(old(sent), old(bufOut), notice, farewell, sent1, buf1, sent, bufOut);
    }

    /** A refused hello: queue cmd `code`, disconnect, remove. The player is told `code` and then 9. */
    method Refuse(code: int, flush: SendOutcome) returns (ok: bool)
      requires server.Valid() && this in server.owners && IsInt16(code)
      modifies this`bufOut, this`sent, this`coords, this`closed, server`cells, server`ownerOf, server`players,
               server.owners`bufOut
      ensures server.Valid()
      ensures coords == [] && server.cells == old(server.cells) - Cells(old(coords))
      ensures ok <==> RemovalSucceeds(old(coords), old(server.players), playerId)
      ensures ok ==> closed && this !in server.players && server.players == Without(old(server.players), this)
      ensures ok ==> old(sent + bufOut) + Packed(0, code, 0, 0) + Packed(0, 9, 0, 0) <= sent + bufOut
    {
      assert server.owners == old(server.owners);
      OutgoingFits(Some(0), code, 0, 0);
      ghost var notice, bye := Packed(0, code, 0, 0), Packed(0, 9, 0, 0);
      var queued := Send(Some(0), code, 0, 0);
      var removed;
      ok, removed := Disconnect(flush);
      if !ok {
        return;
      }
      ghost var buf2 := bufOut;
      ghost var players := server.players;
      ok := Remove();
      assert buf2 <= bufOut;
      StreamKeepsBoth(old(sent), old(bufOut), notice, bye, sent, buf2, bufOut);
      if removed {
        WithoutDistinct(old(server.players), this);
        WithoutAbsent(players, this);
      }
    }

    /** cmd 0, hello: records the terminal size; binds the id when it is 1..9 and no player has it
        (this one included), otherwise refuses with 13 (bad id) or 12 (taken). */
    method HandleHello(w: int, h: int, misc: int, flush: SendOutcome) returns (ok: bool)
      requires server.Valid() && this in server.owners && IsInt32(w) && IsInt32(h) && IsInt16(misc)
      modifies this`width, this`height, this`playerId, this`bufOut, this`sent, this`coords, this`closed,
               server`cells, server`ownerOf, server`players, server.owners`bufOut
      ensures server.Valid()
      ensures width == w && height == h
      ensures old(IdAccepted(server.players, misc)) ==>
                ok && playerId == Some(misc) && coords == old(coords) && server.cells == old(server.cells) &&
                server.players == old(server.players) && bufOut == old(bufOut)
      ensures !old(IdAccepted(server.players, misc)) ==>
                playerId == old(playerId) && coords == [] &&
                (ok <==> RemovalSucceeds(old(coords), old(server.players), old(playerId)))
      ensures !old(IdAccepted(server.players, misc)) && ok ==>
                this !in server.players && server.players == Without(old(server.players), this) &&
                old(sent + bufOut) + Packed(0, if 1 <= misc <= 9 then 12 else 13, 0, 0) + Packed(0, 9, 0, 0) <= sent + bufOut
    {
      width := w;
      height := h;
      var refusal := server.HelloRefusal(misc);
      if refusal == 0 {
        BindId(misc);
        return true;
      }
      ok := Refuse(refusal, flush);
    }

    /** `self.player_id = misc`: the id field is the only thing that changes. */
    method BindId(misc: int)
      requires server.Valid() && this in server.owners && IsInt16(misc)
      modifies this`playerId
      ensures server.Valid() && playerId == Some(misc)
    {
      playerId := Some(misc);
    }

    /** cmd 2, a position update. A crashed player's update is ignored. Otherwise it is a crash exactly when the
        cell is occupied or on or outside the border (Crash), and an accepted move otherwise (Advance). */
    method HandleMove(nx: int, ny: int, now: real) returns (ok: bool)
      requires server.Valid() && this in server.owners && IsInt32(nx) && IsInt32(ny)
      modifies this`crashed, this`x, this`y, this`coords, this`nitrotank, this`speed, this`nitro,
               server`cells, server`ownerOf, server.players`bufOut
      ensures server.Valid()
      ensures old(crashed) ==> ok && unchanged(this) && server.cells == old(server.cells) &&
                               forall q | q in server.players :: q.bufOut == old(q.bufOut)
      ensures !old(crashed) ==> (crashed <==> old(server.Collides(nx, ny)))
      ensures !old(crashed) && old(server.Collides(nx, ny)) ==>
                x == old(x) && y == old(y) && speed == old(speed) && nitrotank == old(nitrotank) && nitro == old(nitro)
      ensures !old(crashed) && !old(server.Collides(nx, ny)) ==>
                x == nx && y == ny && coords == old(coords) + [(nx, ny)] &&
                server.cells == old(server.cells)[(nx, ny) := playerId] &&
                nitrotank == (if old(nitrotank) < 100 then old(nitrotank) + 1 else 100)
      ensures !old(crashed) && !old(server.Collides(nx, ny)) && !old(nitro) ==>
                !nitro && speed == if InBorderBand(nx, ny, server.width, server.height)
                                   then Throttled(old(speed), server.speedNormal, server.speedBorder)
                                   else Recovered(old(speed), server.speedNormal)
      ensures !old(crashed) && !old(server.Collides(nx, ny)) && old(nitro) ==>
                nitro == (now - nitroStart < server.nitroTime) &&
                speed == if nitro then Burning(old(speed), server.speedNormal) else server.speedNormal as real
      ensures !old(crashed) && !old(server.Collides(nx, ny)) ==>
                (ok <==> server.players == [] || playerId.Some?) &&
                (ok ==> forall q | q in server.players :: q.bufOut == old(q.bufOut) + q.Packed(playerId.value, 2, nx, ny))
    {
      if crashed {
        return true;
      }
      if server.Collides(nx, ny) {
        ok := Crash();
      } else {
        ok := Advance(nx, ny, now);
      }
    }

    /** The crash branch of a move. The last standing player of several wins: cmd 4 is broadcast and the trail
        stays. Any other crash broadcasts cmd 3 and then removes the trail (cmd 5 when there was one). */
    method Crash() returns (ok: bool)
      requires server.Valid() && this in server.owners && !crashed
      modifies this`crashed, this`coords, server`cells, server`ownerOf, server.players`bufOut
      ensures server.Valid() && crashed
      ensures old(server.WinsOnCrash(this)) ==>
                (ok <==> playerId.Some?) && coords == old(coords) && server.cells == old(server.cells) &&
                (ok ==> forall q | q in server.players :: q.bufOut == old(q.bufOut) + q.Packed(playerId.value, 4, 0, 0))
      ensures !old(server.WinsOnCrash(this)) ==>
                (ok <==> server.players == [] || playerId.Some?) &&
                (ok ==> coords == [] && server.cells == old(server.cells) - Cells(old(coords)) &&
                        forall q | q in server.players :: q.bufOut == old(q.bufOut) + q.Packed(playerId.value, 3, 0, 0) +
                                                           (if old(coords) == [] then [] else q.Packed(playerId.value, 5, 0, 0)))
    {
      crashed := true;
      if IsLast() && |server.players| > 1 {
        ok := server.Broadcast(playerId, 4, 0, 0);
        OutgoingFits(playerId, 4, 0, 0);
      } else {
        ok := Lose();
      }
    }

    /** A losing crash: cmd 3 for this player goes to everyone, then its trail leaves the map. */
    method Lose() returns (ok: bool)
      requires server.Valid() && this in server.owners
      modifies this`coords, server`cells, server`ownerOf, server.players`bufOut
      ensures server.Valid()
      ensures ok <==> server.players == [] || playerId.Some?
      ensures ok ==> coords == [] && server.cells == old(server.cells) - Cells(old(coords))
      ensures ok ==> forall q | q in server.players :: q.bufOut == old(q.bufOut) + q.Packed(playerId.value, 3, 0, 0) +
                                                       (if old(coords) == [] then [] else q.Packed(playerId.value, 5, 0, 0))
    {
      ok := server.Broadcast(playerId, 3, 0, 0);
      OutgoingFits(playerId, 3, 0, 0);
      if !ok {
        return;
      }
      ok := RemoveFromMap();
    }

    /** An accepted move: the new state of Settle, then cmd 2 with the new position to everyone. */
    method Advance(nx: int, ny: int, now: real) returns (ok: bool)
      requires server.Valid() && this in server.owners && !server.Collides(nx, ny) && IsInt32(nx) && IsInt32(ny)
      modifies this`x, this`y, this`coords, this`nitrotank, this`speed, this`nitro,
               server`cells, server`ownerOf, server.players`bufOut
      ensures server.Valid()
      ensures x == nx && y == ny && coords == old(coords) + [(nx, ny)]
      ensures server.cells == old(server.cells)[(nx, ny) := playerId]
      ensures nitrotank == if old(nitrotank) < 100 then old(nitrotank) + 1 else 100
      ensures old(nitro) && now - nitroStart >= server.nitroTime ==> !nitro && speed == server.speedNormal as real
      ensures old(nitro) && now - nitroStart < server.nitroTime ==> nitro && speed == Burning(old(speed), server.speedNormal)
      ensures !old(nitro) && InBorderBand(nx, ny, server.width, server.height) ==>
                !nitro && speed == Throttled(old(speed), server.speedNormal, server.speedBorder)
      ensures !old(nitro) && !InBorderBand(nx, ny, server.width, server.height) ==>
                !nitro && speed == Recovered(old(speed), server.speedNormal)
      ensures ok <==> server.players == [] || playerId.Some?
      ensures ok ==> forall q | q in server.players :: q.bufOut == old(q.bufOut) + q.Packed(playerId.value, 2, nx, ny)
      ensures !ok ==> forall q | q in server.players :: q.bufOut == old(q.bufOut)
    {
      Settle(nx, ny, now);
      ok := server.Broadcast(playerId, 2, nx, ny);
      OutgoingFits(playerId, 2, nx, ny);
    }

    /** The state an accepted move leaves: the position, the cell on the trail and in the map, the tank refilled
        by one up to 100, and the speed as Tune sets it. */
    method Settle(nx: int, ny: int, now: real)
      requires server.Valid() && this in server.owners && !server.Collides(nx, ny)
      modifies this`x, this`y, this`coords, this`nitrotank, this`speed, this`nitro, server`cells, server`ownerOf
      ensures server.Valid()
      ensures x == nx && y == ny && coords == old(coords) + [(nx, ny)]
      ensures server.cells == old(server.cells)[(nx, ny) := playerId]
      ensures nitrotank == if old(nitrotank) < 100 then old(nitrotank) + 1 else 100
      ensures old(nitro) && now - nitroStart >= server.nitroTime ==> !nitro && speed == server.speedNormal as real
      ensures old(nitro) && now - nitroStart < server.nitroTime ==> nitro && speed == Burning(old(speed), server.speedNormal)
      ensures !old(nitro) && InBorderBand(nx, ny, server.width, server.height) ==>
                !nitro && speed == Throttled(old(speed), server.speedNormal, server.speedBorder)
      ensures !old(nitro) && !InBorderBand(nx, ny, server.width, server.height) ==>
                !nitro && speed == Recovered(old(speed), server.speedNormal)
    {
      Tune(nx, ny, now);
      x, y := nx, ny;
      Occupy(nx, ny);
    }

    /** The tank and speed after an accepted move to (nx, ny): Refill, then AdjustSpeed. */
    method Tune(nx: int, ny: int, now: real)
      requires server.Valid() && this in server.owners
      modifies this`nitrotank, this`speed, this`nitro
      ensures server.Valid()
      ensures nitrotank == if old(nitrotank) < 100 then old(nitrotank) + 1 else 100
      ensures old(nitro) && now - nitroStart >= server.nitroTime ==> !nitro && speed == server.speedNormal as real
      ensures old(nitro) && now - nitroStart < server.nitroTime ==> nitro && speed == Burning(old(speed), server.speedNormal)
      ensures !old(nitro) && InBorderBand(nx, ny, server.width, server.height) ==>
                !nitro && speed == Throttled(old(speed), server.speedNormal, server.speedBorder)
      ensures !old(nitro) && !InBorderBand(nx, ny, server.width, server.height) ==>
                !nitro && speed == Recovered(old(speed), server.speedNormal)
    {
      Refill();
      AdjustSpeed(nx, ny, now);
    }

    /** The tank gains one percent per accepted move, up to 100. */
    method Refill()
      requires server.Valid() && this in server.owners
      modifies this`nitrotank
      ensures server.Valid()
      ensures nitrotank == if old(nitrotank) < 100 then old(nitrotank) + 1 else 100
    {
      if nitrotank < 100 {
        nitrotank := if nitrotank + 1 < 100 then nitrotank + 1 else 100;
      }
    }

    /** The speed after an accepted move to (nx, ny): back to normal when the nitro time is over, burning
        towards normal during nitro, throttled in the 10% border band, recovering towards normal elsewhere. */
    method AdjustSpeed(nx: int, ny: int, now: real)
      requires server.Valid() && this in server.owners
      modifies this`speed, this`nitro
      ensures server.Valid()
      ensures old(nitro) && now - nitroStart >= server.nitroTime ==> !nitro && speed == server.speedNormal as real
      ensures old(nitro) && now - nitroStart < server.nitroTime ==> nitro && speed == Burning(old(speed), server.speedNormal)
      ensures !old(nitro) && InBorderBand(nx, ny, server.width, server.height) ==>
                !nitro && speed == Throttled(old(speed), server.speedNormal, server.speedBorder)
      ensures !old(nitro) && !InBorderBand(nx, ny, server.width, server.height) ==>
                !nitro && speed == Recovered(old(speed), server.speedNormal)
    {
      if nitro {
        if now - nitroStart >= server.nitroTime {
          speed := server.speedNormal as real;
          nitro := false;
        } else {
          speed := Burning(speed, server.speedNormal);
        }
      } else if InBorderBand(nx, ny, server.width, server.height) {
        speed := Throttled(speed, server.speedNormal, server.speedBorder);
      } else {
        speed := Recovered(speed, server.speedNormal);
      }
    }

    /** The cell of an accepted move, free before, joins the trail and the map. */
    method Occupy(nx: int, ny: int)
      requires server.Valid() && this in server.owners && !server.Collides(nx, ny)
      modifies this`coords, server`cells, server`ownerOf
      ensures server.Valid()
      ensures coords == old(coords) + [(nx, ny)]
      ensures server.cells == old(server.cells)[(nx, ny) := playerId]
      ensures server.ownerOf == old(server.ownerOf)[(nx, ny) := this]
    {
      var c := (nx, ny);
      assert c !in server.ownerOf;
      assert c !in coords;
      ghost var trail := coords;
      coords := coords + [c];
      server.cells := server.cells[c := playerId];
      server.ownerOf := server.ownerOf[c := this];
      ghost var s := server;
      forall d | d in s.ownerOf ensures s.ownerOf[d] in s.owners && d in s.ownerOf[d].coords {
        if d != c {
          assert d in old(s.ownerOf);
          if old(s.ownerOf)[d] == this {
            assert d in trail;
          }
        }
      }
      forall p, i | p in s.owners && 0 <= i < |p.coords| ensures p.coords[i] in s.ownerOf && s.ownerOf[p.coords[i]] == p {
        if p == this {
          if i < |trail| { assert p.coords[i] == trail[i]; }
        } else {
          assert p.coords[i] in old(s.ownerOf);
        }
      }
      forall p, i, j | p in s.owners && 0 <= i < j < |p.coords| ensures p.coords[i] != p.coords[j] {
        if p == this && j == |trail| {
          assert p.coords[i] == trail[i];
        }
      }
    }

    /** cmd 21: with more than 25 in the tank, nitro starts now, the tank empties and the speed drops by the
        tank's share of the nitro amount, never below normal minus that amount; otherwise nothing happens. */
    method HandleNitro(now: real)
      requires server.Valid() && this in server.owners
      modifies this`nitroStart, this`speed, this`nitrotank, this`nitro
      ensures server.Valid()
      ensures old(nitrotank) <= 25 ==> unchanged(this)
      ensures old(nitrotank) > 25 ==>
                nitrotank == 0 && nitro && nitroStart == now &&
                speed == Boosted(old(speed), server.speedNormal, server.speedNitro, old(nitrotank)) &&
                speed >= (server.speedNormal - server.speedNitro) as real
    {
      if nitrotank <= 25 {
        return;
      }
      nitroStart := now;
      speed := Boosted(speed, server.speedNormal, server.speedNitro, nitrotank);
      nitrotank := 0;
      nitro := true;
    }

    /** No record from this player for three seconds or more. */
    predicate Idle(now: real)
      reads this`lastActivity
    {
      now - lastActivity >= 3.0
    }

    /** is_last: no player in the list is standing. */
    function IsLast(): (r: bool)
      reads server`players, server.players`crashed
      ensures r <==> forall i :: 0 <= i < |server.players| ==> server.players[i].crashed
    {
      StandingEmpty(server.players);
      |Standing(server.players)| == 0
    }

    /** is_last_active: this player is standing and the filter of standing players has length one. */
    function IsLastActive(): (r: bool)
      reads this`crashed, server`players, server.players`crashed
      ensures r ==> !crashed && exists i :: OnlyStanding(server.players, i)
    {
      if !crashed && |Standing(server.players)| == 1 then
        StandingOne(server.players);
        true
      else
        false
    }

    /** For a listed player, is_last_active holds exactly when it is the one standing player. */
    lemma IsLastActiveExactly()
      requires this in server.players
      ensures IsLastActive() <==> exists i :: OnlyStanding(server.players, i) && server.players[i] == this
    {
      var ps := server.players;
      if IsLastActive() {
        StandingOne(ps);
        var i :| OnlyStanding(ps, i) && Standing(ps)[0] == ps[i];
        StandingOnly(ps, i);
        var k :| 0 <= k < |ps| && ps[k] == this;
        assert ps[k] in Standing(ps);
      }
      if exists i :: OnlyStanding(ps, i) && ps[i] == this {
        var i :| OnlyStanding(ps, i) && ps[i] == this;
        StandingOnly(ps, i);
      }
    }

    /** Applies one record from the player: the activity time and the handlers of cmds 0, 2 and 21;
        any other command changes nothing else. */
    method HandlePacket(packet: ToServer, now: real, flush: SendOutcome) returns (ok: bool)
      requires server.Valid() && this in server.owners && ToServerFits(packet)
      modifies this, server`cells, server`ownerOf, server`players, server.owners`bufOut
      ensures server.Valid()
      ensures lastActivity == now && received == old(received) + [packet] && bufIn == old(bufIn)
      ensures packet.cmd == 0 ==> width == packet.x && height == packet.y
      ensures packet.cmd == 0 && playerId != old(playerId) ==> playerId == Some(packet.misc) && 1 <= packet.misc <= 9
      ensures packet.cmd != 0 ==> playerId == old(playerId) && width == old(width) && height == old(height)
      ensures packet.cmd != 2 ==> crashed == old(crashed)
      ensures packet.cmd != 0 && packet.cmd != 2 ==>
                coords == old(coords) && server.cells == old(server.cells) && server.players == old(server.players)
      ensures packet.cmd !in {0, 2, 21} ==> ok && speed == old(speed) && nitrotank == old(nitrotank) &&
                                            forall q | q in server.owners :: q.bufOut == old(q.bufOut)
      ensures packet.cmd !in {0, 2, 21} ==> x == old(x) && y == old(y) && nitro == old(nitro) &&
                                            nitroStart == old(nitroStart) && closed == old(closed) && sent == old(sent)
      ensures packet.cmd == 0 && old(IdAccepted(server.players, packet.misc)) ==>
                ok && playerId == Some(packet.misc) && coords == old(coords) && server.players == old(server.players)
      ensures packet.cmd == 0 && !old(IdAccepted(server.players, packet.misc)) ==>
                playerId == old(playerId) && coords == [] &&
                (ok ==> this !in server.players && server.players == Without(old(server.players), this))
      ensures packet.cmd == 2 && old(crashed) ==> ok && x == old(x) && y == old(y) && coords == old(coords)
      ensures packet.cmd == 2 && !old(crashed) ==> (crashed <==> old(server.Collides(packet.x, packet.y)))
      ensures packet.cmd == 2 && !old(crashed) && !old(server.Collides(packet.x, packet.y)) ==>
                x == packet.x && y == packet.y && coords == old(coords) + [(packet.x, packet.y)] &&
                server.cells == old(server.cells)[(packet.x, packet.y) := playerId] &&
                nitrotank == (if old(nitrotank) < 100 then old(nitrotank) + 1 else 100)
      ensures packet.cmd == 21 && old(nitrotank) > 25 ==>
                nitrotank == 0 && nitro && nitroStart == now &&
                speed == Boosted(old(speed), server.speedNormal, server.speedNitro, old(nitrotank))
      ensures packet.cmd == 21 && old(nitrotank) <= 25 ==>
                nitrotank == old(nitrotank) && speed == old(speed) && nitro == old(nitro) && nitroStart == old(nitroStart)
    {
      ghost var accepted, collides := IdAccepted(server.players, packet.misc), server.Collides(packet.x, packet.y);
      lastActivity := now;
      received := received + [packet];
      assert accepted == IdAccepted(server.players, packet.misc) && collides == server.Collides(packet.x, packet.y);
      if packet.cmd == 0 {
        ok := HandleHello(packet.x, packet.y, packet.misc, flush);
      } else if packet.cmd == 2 {
        ok := HandleMove(packet.x, packet.y, now);
      } else if packet.cmd == 21 {
        HandleNitro(now);
        ok := true;
      } else {
        ok := true;
      }
    }

    /** The parsing loop of handle_read: whole records are cut from the front of bufIn and handled in arrival
        order until fewer than TO_SERVER_SIZE bytes are left; the k-th record's refusal flush is `flush(k)`.
        A handler that raises (`ok == false`) ends the loop with the records before it handled. */
    method HandleBuffered(now: real, flush: nat -> SendOutcome) returns (ok: bool)
      requires server.Valid() && this in server.owners
      modifies this, server`cells, server`ownerOf, server`players, server.owners`bufOut
      ensures server.Valid()
      ensures received <= old(received) + ToServerRecords(old(bufIn))
      ensures ok ==> bufIn == Leftover(old(bufIn), TO_SERVER_SIZE) && |bufIn| < TO_SERVER_SIZE &&
                     received == old(received) + ToServerRecords(old(bufIn))
    {
      ghost var all := bufIn;
      ghost var rs := ToServerRecords(all);
      var k := 0;
      ok := true;
      while |bufIn| >= TO_SERVER_SIZE
        invariant server.Valid() && this in server.owners
        invariant 0 <= k <= |rs|
        invariant ToServerRecords(bufIn) == rs[k..]
        invariant Leftover(bufIn, TO_SERVER_SIZE) == Leftover(all, TO_SERVER_SIZE)
        invariant received == old(received) + rs[..k]
        decreases |bufIn|
      {
        ToServerRecordsUnfold(bufIn);
        assert rs[..k + 1] == rs[..k] + [rs[k]];
        ok := HandleFirst(now, flush(k));
        if !ok {
          return;
        }
        k := k + 1;
      }
      assert rs[..k] == rs;
    }

    /** One turn of that loop: the first record of bufIn is handled and then cut off. */
    method HandleFirst(now: real, flush: SendOutcome) returns (ok: bool)
      requires server.Valid() && this in server.owners && |bufIn| >= TO_SERVER_SIZE
      modifies this, server`cells, server`ownerOf, server`players, server.owners`bufOut
      ensures server.Valid()
      ensures received == old(received) + [DecodeToServer(old(bufIn)[..TO_SERVER_SIZE])]
      ensures ok ==> bufIn == old(bufIn)[TO_SERVER_SIZE..]
    {
      var packet := DecodeToServer(bufIn[..TO_SERVER_SIZE]);
      ToServerDecodeEncode(bufIn[..TO_SERVER_SIZE]);
      ok := HandlePacket(packet, now, flush);
      if ok {
        bufIn := bufIn[TO_SERVER_SIZE..];
      }
    }

    /** handle_read: a failed or empty recv removes the player; otherwise the bytes are appended to bufIn
        and every whole record is handled. */
    method HandleRead(recv: RecvOutcome, now: real, flush: nat -> SendOutcome) returns (ok: bool)
      requires server.Valid() && this in server.owners
      requires recv.Received? ==> |recv.data| <= 8192
      modifies this, server`cells, server`ownerOf, server`players, server.owners`bufOut
      ensures server.Valid()
      ensures (recv.RecvError? || recv.data == []) ==>
                bufIn == old(bufIn) && received == old(received) && coords == [] &&
                server.cells == old(server.cells) - Cells(old(coords)) &&
                (ok <==> RemovalSucceeds(old(coords), old(server.players), playerId)) &&
                (ok ==> this !in server.players && server.players == Without(old(server.players), this))
      ensures recv.Received? && recv.data != [] ==>
                received <= old(received) + ToServerRecords(old(bufIn) + recv.data) &&
                (ok ==> bufIn == Leftover(old(bufIn) + recv.data, TO_SERVER_SIZE) &&
                        received == old(received) + ToServerRecords(old(bufIn) + recv.data))
    {
      if recv.RecvError? || recv.data == [] {
        ok := Remove();
        return;
      }
      bufIn := bufIn + recv.data;
      ok := HandleBuffered(now, flush);
    }

    /** Appends one packed record to bufOut; packing fails (struct.error) for a None id or a field out of range. */
    method Send(pid: Option<int>, cmd: int, x: int, y: int) returns (ok: bool)
      modifies this`bufOut
      ensures ok <==> pid.Some? && ToPlayerFits(Outgoing(pid.value, cmd, x, y))
      ensures ok ==> bufOut == old(bufOut) + Packed(pid.value, cmd, x, y)
      ensures !ok ==> bufOut == old(bufOut)
    {
      if pid.None? {
        return false;
      }
      var e := EncodeToPlayer(Outgoing(pid.value, cmd, x, y));
      if e.Failure? {
        return false;
      }
      bufOut := bufOut + e.value;
      ok := true;
    }
  }

  class TronServer {
    const playerCount: int
    /** settings.SPEED_NORMAL, SPEED_BORDER, SPEED_NITRO, NITRO_TIME, SECONDS */
    const speedNormal: int
    const speedBorder: int
    const speedNitro: int
    const nitroTime: real
    const seconds: int
    var players: seq<Player>
    var gameState: GameState
    /** The occupied cells, each with the id of the player that occupies it. */
    var cells: map<Cell, Option<int>>
    var width: int
    var height: int
    ghost var owners: set<Player>
    ghost var ownerOf: map<Cell, Player>

    /** What the settings must satisfy for every speed to fit the 16-bit speed field. */
    predicate SettingsOk()
    {
      0 <= speedBorder <= speedNormal && 0 <= speedNitro <= speedNormal && speedNormal < 0x8000 && IsInt16(seconds)
    }

    /** The lowest speed the rules can reach: the border floor or the nitro floor. */
    function SpeedFloor(): real
    {
      if speedBorder >= speedNitro then (speedNormal - speedBorder) as real else (speedNormal - speedNitro) as real
    }

    lemma FloorNonNegative()
      requires SettingsOk()
      ensures 0.0 <= SpeedFloor() <= speedNormal as real
      ensures 0 <= Trunc(SpeedFloor()) && Trunc(speedNormal as real) == speedNormal
    {
    }

    ghost predicate Valid()
      reads this`players, this`owners, this`cells, this`ownerOf, owners`coords, owners`nitrotank, owners`speed, owners`width, owners`height, owners`playerId
    {
      SettingsOk() && OwnersOk() && ListOk() && MapOk()
    }

    /** Every owner belongs to this server and keeps its own bounds. */
    ghost predicate OwnersOk()
      reads this`owners, owners`nitrotank, owners`speed, owners`width, owners`height, owners`playerId
    {
      forall p :: p in owners ==> p.server == this && p.Inv()
    }

    /** The player list holds distinct owners, at most playerCount of them once it is not empty. */
    ghost predicate ListOk()
      reads this`players, this`owners
    {
      (forall i :: 0 <= i < |players| ==> players[i] in owners) &&
      Distinct(players) &&
      (players == [] || |players| <= playerCount)
    }

    /** The map holds exactly the owners' trails, each cell with its one owner, and no trail repeats a cell. */
    ghost predicate MapOk()
      reads this`cells, this`ownerOf, this`owners, owners`coords
    {
      ownerOf.Keys == cells.Keys &&
      (forall c :: c in ownerOf ==> ownerOf[c] in owners && c in ownerOf[c].coords) &&
      (forall p, i :: p in owners && 0 <= i < |p.coords| ==> p.coords[i] in ownerOf && ownerOf[p.coords[i]] == p) &&
      (forall p, i, j :: p in owners && 0 <= i < j < |p.coords| ==> p.coords[i] != p.coords[j])
    }

    constructor (playerCount: int, speedNormal: int, speedBorder: int, speedNitro: int, nitroTime: real, seconds: int)
      requires 0 <= speedBorder <= speedNormal && 0 <= speedNitro <= speedNormal && speedNormal < 0x8000
      requires IsInt16(seconds)
      ensures Valid() && this.playerCount == playerCount && this.speedNormal == speedNormal
      ensures this.speedBorder == speedBorder && this.speedNitro == speedNitro
      ensures this.nitroTime == nitroTime && this.seconds == seconds
      ensures players == [] && gameState == Init && cells == map[] && width == 0 && height == 0 && owners == {}
    {
      this.playerCount := playerCount;
      this.speedNormal := speedNormal;
      this.speedBorder := speedBorder;
      this.speedNitro := speedNitro;
      this.nitroTime := nitroTime;
      this.seconds := seconds;
      players := [];
      gameState := Init;
      cells := map[];
      width := 0;
      height := 0;
      owners := {};
      ownerOf := map[];
    }

    /** The occupied cells are exactly the cells on the owners' trails. */
    lemma MapIsUnionOfTrails()
      requires Valid()
      ensures forall c :: c in cells <==> exists p :: p in owners && c in p.coords
    {
      forall c | c in cells ensures exists p :: p in owners && c in p.coords {
        assert ownerOf[c] in owners && c in ownerOf[c].coords;
      }
      forall c | exists p :: p in owners && c in p.coords ensures c in cells {
        var p :| p in owners && c in p.coords;
        var i :| 0 <= i < |p.coords| && p.coords[i] == c;
      }
    }

    /** No cell lies on the trails of two different players. */
    lemma NoSharedCells(p: Player, q: Player, i: int, j: int)
      requires Valid() && p in owners && q in owners && p != q
      requires 0 <= i < |p.coords| && 0 <= j < |q.coords|
      ensures p.coords[i] != q.coords[j]
    {
      assert ownerOf[p.coords[i]] == p && ownerOf[q.coords[j]] == q;
    }

    /** A move to (x, y) crashes: the cell is occupied, or on or beyond the board's edge. */
    predicate Collides(x: int, y: int)
      reads this
    {
      (x, y) in cells || x <= 0 || x >= width - 1 || y <= 0 || y >= height - 1
    }

    /** After `p` crashes, nobody in a list of several players is standing (is_last is checked after
        `crashed` is set, so the last player to crash is the winner). */
    ghost predicate WinsOnCrash(p: Player)
      reads this, set k | 0 <= k < |players| :: players[k]
    {
      |players| > 1 && forall i :: 0 <= i < |players| ==> players[i] == p || players[i].crashed
    }

    /** Appends the same fields to every player's bufOut, each packed with the recipient's own speed and tank;
        packing fails for all or for none, and on the first player. */
    method Broadcast(pid: Option<int>, cmd: int, x: int, y: int) returns (ok: bool)
      requires Valid()
      modifies players`bufOut
      ensures Valid()
      ensures ok <==> players == [] || Sendable(pid, cmd, x, y)
      ensures ok ==> forall q | q in players :: q.bufOut == old(q.bufOut) + q.Packed(pid.value, cmd, x, y)
      ensures !ok ==> forall q | q in players :: q.bufOut == old(q.bufOut)
    {
      ok := true;
      var i := 0;
      while i < |players|
        invariant 0 <= i <= |players|
        invariant Valid()
        invariant SettingsOk() && forall k :: 0 <= k < |players| ==> players[k].server == this && players[k].Inv()
        invariant i > 0 ==> Sendable(pid, cmd, x, y)
        invariant forall k :: 0 <= k < i ==> players[k].bufOut == old(players[k].bufOut) + players[k].Packed(pid.value, cmd, x, y)
        invariant forall k :: i <= k < |players| ==> players[k].bufOut == old(players[k].bufOut)
      {
        var p := players[i];
        p.OutgoingFits(pid, cmd, x, y);
        var sent := p.Send(pid, cmd, x, y);
        if !sent {
          return false;
        }
        i := i + 1;
      }
      if players != [] {
        players[0].OutgoingFits(pid, cmd, x, y);
      }
    }

    /** A new connection on the listening socket. While a game runs it is told 11, on a full server 10, and
        in either case it is disconnected and never listed. Otherwise it is appended to the player list and
        asked for its id with cmd 0. So an accept never takes the list beyond playerCount. */
    method Admit(first: SendOutcome, bye: SendOutcome) returns (p: Player)
      requires Valid()
      modifies this`players, this`owners, this`cells, this`ownerOf, owners`bufOut
      ensures Valid() && fresh(p) && p.server == this && owners == old(owners) + {p} && p.coords == []
      ensures cells == old(cells) && forall q | q in old(owners) :: q.bufOut == old(q.bufOut)
      ensures old(gameState) != Init ==>
                players == old(players) && p.closed && p.Packed(0, 11, 0, 0) + p.Packed(0, 9, 0, 0) <= p.sent + p.bufOut
      ensures old(gameState) == Init && |old(players)| >= playerCount ==>
                players == old(players) && p.closed && p.Packed(0, 10, 0, 0) + p.Packed(0, 9, 0, 0) <= p.sent + p.bufOut
      ensures old(gameState) == Init && |old(players)| < playerCount ==>
                players == old(players) + [p] && !p.closed && p.sent == [] && p.bufOut == p.Packed(0, 0, 0, 0)
      ensures players != old(players) ==> |players| <= playerCount
    {
      p := Register();
      if gameState != Init {
        Reject(p, 11, first, bye);
      } else if |players| >= playerCount {
        Reject(p, 10, first, bye);
      } else {
        Enlist(p);
      }
    }

    /** A refused connection, fresh and unlisted, hears `code` and then 9; nothing else changes. */
    method Reject(p: Player, code: int, first: SendOutcome, bye: SendOutcome)
      requires Valid() && p in owners && p !in players && IsInt16(code)
      requires p.coords == [] && p.sent == [] && p.bufOut == []
      modifies this`players, this`cells, this`ownerOf, owners`bufOut, p`sent, p`coords, p`closed
      ensures Valid() && players == old(players) && cells == old(cells) && p.coords == []
      ensures p.closed && p.Packed(0, code, 0, 0) + p.Packed(0, 9, 0, 0) <= p.sent + p.bufOut
      ensures forall q | q in owners && q != p :: q.bufOut == old(q.bufOut)
    {
      ghost var notice, farewell := p.Packed(0, code, 0, 0), p.Packed(0, 9, 0, 0);
      p.TurnAway(code, first, bye);
      assert old(p.sent + p.bufOut) + notice + farewell <= p.sent + p.bufOut;
      assert old(p.sent + p.bufOut) + notice + farewell == notice + farewell;
    }

    /** `Player(self, conn, address)`: a fresh player with no trail and nothing queued, not yet listed. */
    method Register() returns (p: Player)
      requires Valid()
      modifies this`owners
      ensures Valid() && fresh(p) && p.server == this && owners == old(owners) + {p} && p !in players
      ensures p.coords == [] && p.sent == [] && p.bufOut == [] && !p.closed
    {
      p := new Player(this);
      owners := owners + {p};
    }

    /** `self.players.append(player)` followed by its request for an id (cmd 0). */
    method Enlist(p: Player)
      requires Valid() && p in owners && p.coords == [] && p !in players && |players| < playerCount
      requires p.sent == [] && p.bufOut == [] && !p.closed
      modifies this`players, p`bufOut
      ensures Valid() && players == old(players) + [p] && p.bufOut == p.Packed(0, 0, 0, 0)
    {
      players := players + [p];
      assert Distinct(players) by {
        forall i, j | 0 <= i < j < |players| ensures players[i] != players[j] {
          if j == |players| - 1 {
            assert players[i] in old(players);
          }
        }
      }
      p.OutgoingFits(Some(0), 0, 0, 0);
      var queued := p.Send(Some(0), 0, 0, 0);
    }

    /** The board is the smallest reported terminal: each side is the minimum of the listed players'
        reported sizes and is reached by one of them. */
    predicate BoardIsMinimum()
      reads this, players
    {
      && (exists i :: 0 <= i < |players| && players[i].width == width)
      && (exists i :: 0 <= i < |players| && players[i].height == height)
      && (forall i :: 0 <= i < |players| ==> width <= players[i].width && height <= players[i].height)
    }

    /** The bookkeeping after one select round (`worked`: some socket was ready). A running game's lone
        survivor wins and ends the round. Otherwise an idle round follows (IdleRound). */
    method Tick(worked: bool, now: real, flush: nat -> SendOutcome) returns (ok: bool)
      requires Valid()
      modifies this`width, this`height, this`gameState, this`cells, this`ownerOf, this`players, this`owners,
               owners`bufOut, owners`sent, owners`coords, owners`closed
      ensures Valid()
      ensures old(gameState == Running && |players| > 1 && |Standing(players)| == 1) ==>
                players == old(players) && gameState == Running && cells == old(cells)
      ensures worked && ok ==> players == old(players) && gameState == old(gameState) && cells == old(cells)
      ensures !worked && ok && old(players != [] && Standing(players) == []) ==>
                && players == old(Active(players, now))
                && Disconnected(old(players), old(IdleFlags(players, now)))
      ensures !worked && ok && !old(players != [] && Standing(players) == []) ==> players == old(players)
      ensures !worked && ok && old(players != [] && Standing(players) == []) && !(old(gameState) != Init && players == []) ==>
                cells == old(cells) - old(IdleTrails(players, now))
      ensures !worked && ok && !old(players != [] && Standing(players) == []) && !(old(gameState) != Init && players == []) ==>
                cells == old(cells)
      ensures !worked && ok && old(gameState) != Init && players == [] ==> gameState == Init && cells == map[]
      ensures !worked && ok && old(gameState) == Running && players != [] ==> gameState == Running
      ensures !worked && ok && old(gameState) == Init ==> (gameState == Running <==> |players| == playerCount)
      ensures !worked && ok && old(gameState) == Init && gameState == Running ==> BoardIsMinimum()
    {
      if gameState == Running && |players| > 1 && |Standing(players)| == 1 {
        assert Standing(players) != [];
        var skip;
        ok, skip := CheckWinner();
        return;
      }
      if worked {
        return true;
      }
      ok := IdleRound(now, flush);
    }

    /** A round with no socket activity and no winner: idle crashed players are swept when all have crashed
        (SweepIfAllCrashed), then an empty server that is not in init resets and a full one in init starts
        (ResetOrStart). */
    method IdleRound(now: real, flush: nat -> SendOutcome) returns (ok: bool)
      requires Valid()
      modifies this`width, this`height, this`gameState, this`cells, this`ownerOf, this`players, this`owners,
               owners`bufOut, owners`sent, owners`coords, owners`closed
      ensures Valid()
      ensures ok && old(players != [] && Standing(players) == []) ==>
                && players == old(Active(players, now))
                && Disconnected(old(players), old(IdleFlags(players, now)))
      ensures ok && !old(players != [] && Standing(players) == []) ==> players == old(players)
      ensures ok && old(players != [] && Standing(players) == []) && !(old(gameState) != Init && players == []) ==>
                cells == old(cells) - old(IdleTrails(players, now))
      ensures ok && !old(players != [] && Standing(players) == []) && !(old(gameState) != Init && players == []) ==>
                cells == old(cells)
      ensures ok && old(gameState) != Init && players == [] ==> gameState == Init && cells == map[]
      ensures ok && old(gameState) == Running && players != [] ==> gameState == Running
      ensures ok && old(gameState) == Init ==> (gameState == Running <==> |players| == playerCount)
      ensures ok && old(gameState) == Init && gameState == Running ==> BoardIsMinimum()
    {
      ghost var crashed := players != [] && Standing(players) == [];
      ghost var swept := old(cells) - IdleTrails(players, now);
      ok := SweepIfAllCrashed(now, flush);
      if !ok {
        return;
      }
      assert crashed ==> cells == swept;
      assert !crashed ==> cells == old(cells);
      ghost var listed := players;
      assert crashed ==> Disconnected(old(players), old(IdleFlags(players, now)));
      ok := ResetOrStart();
      assert players == listed;
      assert crashed ==> Disconnected(old(players), old(IdleFlags(players, now)));
    }

    /** When every listed player has crashed, the idle ones are swept (SweepIdle); otherwise nothing changes. */
    method SweepIfAllCrashed(now: real, flush: nat -> SendOutcome) returns (ok: bool)
      requires Valid()
      modifies this`cells, this`ownerOf, this`players, owners`bufOut, owners`sent, owners`coords, owners`closed
      ensures Valid() && owners == old(owners)
      ensures ok && old(players != [] && Standing(players) == []) ==>
                && players == old(Active(players, now))
                && cells == old(cells) - old(IdleTrails(players, now))
                && Disconnected(old(players), old(IdleFlags(players, now)))
      ensures !old(players != [] && Standing(players) == []) ==> ok && players == old(players) && cells == old(cells)
    {
      ok := true;
      if players != [] && Standing(players) == [] {
        ok := SweepIdle(now, flush);
      }
    }

    /** The end of an idle round: an empty server that is not in init resets (ResetIfEmpty), then a full one
        in init starts (StartIfReady). */
    method ResetOrStart() returns (ok: bool)
      requires Valid()
      modifies this`width, this`height, this`gameState, this`cells, this`ownerOf, this`owners, players`bufOut
      ensures Valid()
      ensures ok && old(gameState) != Init && players == [] ==> gameState == Init && cells == map[]
      ensures ok && old(gameState) == Init ==> (gameState == Running <==> |players| == playerCount)
      ensures ok && old(gameState) == Init && gameState == Running ==> BoardIsMinimum()
      ensures !(old(gameState) != Init && players == []) ==> cells == old(cells)
      ensures old(gameState) == Running && players != [] ==> gameState == Running
    {
      ResetIfEmpty();
      var started;
      ok, started := StartIfReady();
    }

    /** The win check at the end of a select round: while running, a lone standing player among several is
        announced with cmd 4, and the rest of the round is skipped (`skip`). */
    method CheckWinner() returns (ok: bool, skip: bool)
      requires Valid()
      modifies players`bufOut
      ensures skip <==> gameState == Running && |players| > 1 && exists i :: OnlyStanding(players, i)
      ensures skip ==>
                exists i :: OnlyStanding(players, i) && (ok <==> players[i].playerId.Some?) &&
                  (ok ==> forall q | q in players :: q.bufOut == old(q.bufOut) + q.Packed(players[i].playerId.value, 4, 0, 0))
      ensures !skip ==> ok && forall q | q in players :: q.bufOut == old(q.bufOut)
    {
      var standing := Standing(players);
      if gameState == Running && |standing| == 1 && |players| > 1 {
        StandingOne(players);
        ghost var i :| OnlyStanding(players, i) && standing[0] == players[i];
        var winner := standing[0];
        ok := Broadcast(winner.playerId, 4, 0, 0);
        skip := true;
        assert OnlyStanding(players, i);
      } else {
        if exists i :: OnlyStanding(players, i) {
          var i :| OnlyStanding(players, i);
          StandingOnly(players, i);
        }
        ok, skip := true, false;
      }
    }

    /** Outside a running game's win, in a round with no socket activity: when every listed player has
        crashed, each one idle for three seconds is disconnected and removed. This walks a copy of the list,
        so every idle player goes (see SweepAsWritten for the live-list walk of the original). The k-th
        disconnect's send attempt is `flush(k)`. */
    method SweepIdle(now: real, flush: nat -> SendOutcome) returns (ok: bool)
      requires Valid()
      modifies this`cells, this`ownerOf, this`players, owners`bufOut, owners`sent, owners`coords, owners`closed
      ensures Valid() && owners == old(owners)
      ensures ok ==> players == old(Active(players, now))
      ensures ok ==> Disconnected(old(players), old(IdleFlags(players, now)))
      ensures ok ==> cells == old(cells) - old(IdleTrails(players, now))
    {
      var ps := players;
      ghost var trails := Trails(ps);
      ghost var idle := IdleFlags(ps, now);
      ghost var kept := Active(ps, now);
      ghost var vacated := IdleTrails(ps, now);
      ActiveIsKeep(ps, now, |ps|);
      assert ps[..|ps|] == ps;
      assert kept == Keep(ps, idle, |ps|) && vacated == Vacated(trails, idle, |ps|);
      ok := SweepWalk(ps, trails, idle, now, flush);
    }

    /** The walk itself: position by position over the copy `ps`, each idle player is disconnected and
        unlisted; the k-th disconnect's send attempt is `flush(k)`. */
    method SweepWalk(ps: seq<Player>, ghost trails: seq<seq<Cell>>, ghost idle: seq<bool>, now: real,
                     flush: nat -> SendOutcome) returns (ok: bool)
      requires Valid() && ps == players && trails == Trails(ps) && idle == IdleFlags(ps, now)
      modifies this`cells, this`ownerOf, this`players, owners`bufOut, owners`sent, owners`coords, owners`closed
      ensures Valid() && owners == old(owners)
      ensures ok ==> && players == Keep(ps, idle, |ps|)
                     && Disconnected(ps, idle)
                     && cells == old(cells) - Vacated(trails, idle, |ps|)
    {
      var i := 0;
      ok := true;
      WalkStart(ps, trails, idle, now);
      while i < |ps|
        invariant 0 <= i <= |ps| && owners == old(owners)
        invariant Walking(ps, trails, idle, i, now, old(cells))
      {
        ok := SweepNext(ps, trails, idle, i, now, old(cells), flush(i));
        if !ok {
          return;
        }
        i := i + 1;
      }
      WalkEnd(ps, trails, idle, now, old(cells));
    }

    /** Before the first position nothing is swept. */
    lemma WalkStart(ps: seq<Player>, trails: seq<seq<Cell>>, idle: seq<bool>, now: real)
      requires Valid() && ps == players && trails == Trails(ps) && idle == IdleFlags(ps, now)
      ensures Walking(ps, trails, idle, 0, now, cells)
    {
      assert Vacated(trails, idle, 0) == {};
      assert cells - {} == cells;
      assert ps[0..] == ps;
    }

    /** After the last position, every flagged player is swept and only the unflagged ones stay listed. */
    lemma WalkEnd(ps: seq<Player>, trails: seq<seq<Cell>>, idle: seq<bool>, now: real, cells0: map<Cell, Option<int>>)
      requires Walking(ps, trails, idle, |ps|, now, cells0)
      ensures Valid()
      ensures players == Keep(ps, idle, |ps|) && Disconnected(ps, idle) && cells == cells0 - Vacated(trails, idle, |ps|)
    {
      assert ps[|ps|..] == [];
    }

    /** The walk over the copy `ps` has passed `i` players: those flagged idle are closed, trail-less and
        unlisted, the rest keep their trails (`trails`), and the map has lost the passed flagged trails. */
    ghost predicate SweptTo(ps: seq<Player>, trails: seq<seq<Cell>>, idle: seq<bool>, i: int,
                            cells0: map<Cell, Option<int>>)
      reads this`players, this`cells, ps`closed, ps`coords
    {
      && |trails| == |ps| && |idle| == |ps| && 0 <= i <= |ps|
      && players == Keep(ps, idle, i) + ps[i..]
      && (forall k :: 0 <= k < i && idle[k] ==> ps[k].closed && ps[k].coords == [])
      && (forall k :: i <= k < |ps| ==> ps[k].coords == trails[k])
      && cells == cells0 - Vacated(trails, idle, i)
    }

    /** The state of the walk after `i` positions: the server is consistent, the copy `ps` lists distinct
        owners, `idle` still holds their idle flags, and SweptTo describes what has been swept. */
    ghost predicate Walking(ps: seq<Player>, trails: seq<seq<Cell>>, idle: seq<bool>, i: int, now: real,
                            cells0: map<Cell, Option<int>>)
      reads this, owners, ps
    {
      && Valid() && Distinct(ps) && (forall k :: 0 <= k < |ps| ==> ps[k] in owners)
      && SweptTo(ps, trails, idle, i, cells0) && idle == IdleFlags(ps, now)
    }

    /** One turn of the sweep, with the walk's bookkeeping carried from `i` to `i + 1`. */
    method SweepNext(ps: seq<Player>, ghost trails: seq<seq<Cell>>, ghost idle: seq<bool>, i: int, now: real,
                     ghost cells0: map<Cell, Option<int>>, flush: SendOutcome) returns (ok: bool)
      requires 0 <= i < |ps| && Walking(ps, trails, idle, i, now, cells0)
      modifies this`cells, this`ownerOf, this`players, owners`bufOut, {ps[i]}`sent, {ps[i]}`coords, {ps[i]}`closed
      ensures Valid() && owners == old(owners)
      ensures ok ==> Walking(ps, trails, idle, i + 1, now, cells0)
    {
      ghost var before := cells;
      assert ps[i..] == [ps[i]] + ps[i + 1..];
      ok := SweepAt(ps, Keep(ps, idle, i), i, now, flush);
      if !ok {
        return;
      }
      SweptCells(cells0, before, cells, trails, idle, i);
      forall k | 0 <= k < i + 1 && idle[k] ensures ps[k].closed && ps[k].coords == [] {
        if k < i {
          assert ps[k] != ps[i];
        }
      }
      forall k | i + 1 <= k < |ps| ensures ps[k].coords == trails[k] {
        assert ps[k] != ps[i];
      }
    }

    /** One turn of that walk: the player at position `i` of the copy, listed right after the `kept` ones,
        leaves the list when it is idle. */
    method SweepAt(ps: seq<Player>, ghost kept: seq<Player>, i: int, now: real, flush: SendOutcome) returns (ok: bool)
      requires Valid() && 0 <= i < |ps| && (forall k :: 0 <= k < |ps| ==> ps[k] in owners)
      requires players == kept + ps[i..]
      modifies this`cells, this`ownerOf, this`players, owners`bufOut, {ps[i]}`sent, {ps[i]}`coords, {ps[i]}`closed
      ensures Valid() && owners == old(owners)
      ensures ok ==> players == kept + (if ps[i].Idle(now) then [] else [ps[i]]) + ps[i + 1..]
      ensures ok && ps[i].Idle(now) ==>
                ps[i].closed && ps[i].coords == [] && cells == old(cells) - Cells(old(ps[i].coords))
      ensures !ps[i].Idle(now) ==> ok && cells == old(cells) && players == old(players)
    {
      var p := ps[i];
      ghost var rest := ps[i + 1..];
      assert ps[i..] == [p] + rest;
      if !p.Idle(now) {
        return true;
      }
      ok := Retire(p, |kept|, flush);
      if ok {
        Splice(kept, p, rest);
      }
    }

    /** `player.disconnect(); player.remove()` for the listed player at position `at`: it leaves the list. */
    method Retire(p: Player, ghost at: int, flush: SendOutcome) returns (ok: bool)
      requires Valid() && p in owners && 0 <= at < |players| && players[at] == p
      modifies this`cells, this`ownerOf, this`players, owners`bufOut, p`sent, p`coords, p`closed
      ensures Valid() && owners == old(owners)
      ensures ok ==> players == old(players[..at] + players[at + 1..])
      ensures ok ==> p.closed && p.coords == [] && cells == old(cells) - Cells(old(p.coords))
      ensures ok ==> old(p.sent + p.bufOut) + p.Packed(0, 9, 0, 0) <= p.sent + p.bufOut
    {
      assert p.server == this;
      var done, removed := p.Disconnect(flush);
      if !done {
        return false;
      }
      ghost var between := players;
      ghost var stream := p.sent + p.bufOut;
      ok := p.Remove();
      assert stream <= p.sent + p.bufOut;
      PrefixTrans(old(p.sent + p.bufOut) + p.Packed(0, 9, 0, 0), stream, p.sent + p.bufOut);
      if ok {
        WithoutAt(old(players), p, at);
        if removed {
          WithoutAbsent(between, p);
        }
      }
    }

    /** With nobody listed, a game that is not in init goes back to init with an empty map. */
    method ResetIfEmpty()
      requires Valid()
      modifies this`gameState, this`cells, this`ownerOf, this`owners
      ensures Valid()
      ensures old(players == [] && gameState != Init) ==> gameState == Init && cells == map[]
      ensures !old(players == [] && gameState != Init) ==> gameState == old(gameState) && cells == old(cells)
    {
      if players == [] && gameState != Init {
        gameState := Init;
        cells := map[];
        ownerOf := map[];
        owners := {};
      }
    }

    /** The start check: in init with the list full, the game starts (Begin). With a player count of 0 the
        empty list is indexed (IndexError), so `ok` is false. */
    method StartIfReady() returns (ok: bool, started: bool)
      requires Valid()
      modifies this`width, this`height, this`gameState, players`bufOut
      ensures Valid()
      ensures started <==> old(gameState) == Init && |players| == playerCount && players != []
      ensures ok <==> !(old(gameState) == Init && |players| == playerCount && players == [])
      ensures !started ==> gameState == old(gameState) && forall q | q in players :: q.bufOut == old(q.bufOut)
      ensures started ==> gameState == Running && BoardIsMinimum()
    {
      if gameState != Init || |players| != playerCount {
        return true, false;
      }
      if players == [] {
        return false, false;
      }
      Begin();
      return true, true;
    }

    /** Game start: the board becomes the smallest reported terminal, cmd 1 (with the countdown in the id field
        and the board size), cmd 20 (normal speed) and cmd 21 (a full tank) go to everyone in that order, and
        the game runs. */
    method Begin()
      requires Valid() && players != []
      modifies this`width, this`height, this`gameState, players`bufOut
      ensures Valid() && gameState == Running && BoardIsMinimum()
      ensures forall q | q in players ::
                q.bufOut == old(q.bufOut) + q.Packed(seconds, 1, width, height) + q.Packed(0, 20, speedNormal, 0) +
                            q.Packed(0, 21, 100, 0)
    {
      var w, h := MinDimensions();
      width, height := w, h;
      gameState := Running;
      Announce(w, h);
    }

    /** The three start broadcasts: cmd 1 with the countdown and the board size (w, h), cmd 20, cmd 21. */
    method Announce(w: int, h: int)
      requires Valid() && players != [] && IsInt32(w) && IsInt32(h)
      modifies players`bufOut
      ensures Valid()
      ensures forall q | q in players ::
                q.bufOut == old(q.bufOut) + q.Packed(seconds, 1, w, h) + q.Packed(0, 20, speedNormal, 0) +
                            q.Packed(0, 21, 100, 0)
    {
      var ok := Broadcast(Some(seconds), 1, w, h);
      ok := Broadcast(Some(0), 20, speedNormal, 0);
      ok := Broadcast(Some(0), 21, 100, 0);
    }

    /** The smallest reported width and height among the listed players. */
    method MinDimensions() returns (w: int, h: int)
      requires Valid() && players != []
      ensures IsInt32(w) && IsInt32(h)
      ensures (exists i :: 0 <= i < |players| && players[i].width == w) && forall i :: 0 <= i < |players| ==> w <= players[i].width
      ensures (exists i :: 0 <= i < |players| && players[i].height == h) && forall i :: 0 <= i < |players| ==> h <= players[i].height
    {
      w, h := players[0].width, players[0].height;
      var i := 1;
      while i < |players|
        invariant 1 <= i <= |players|
        invariant (exists k :: 0 <= k < i && players[k].width == w) && forall k :: 0 <= k < i ==> w <= players[k].width
        invariant (exists k :: 0 <= k < i && players[k].height == h) && forall k :: 0 <= k < i ==> h <= players[k].height
      {
        var p := players[i];
        if p.width < w {
          w := p.width;
        }
        if p.height < h {
          h := p.height;
        }
        i := i + 1;
      }
    }

    /** The answer to a hello with id `misc`: 0 accepts it, 13 refuses an id that is not a single
        digit 1..9, 12 refuses one some player already has. */
    method HelloRefusal(misc: int) returns (code: int)
      ensures code == 0 <==> IdAccepted(players, misc)
      ensures code != 0 ==> code == if 1 <= misc <= 9 then 12 else 13
    {
      IdFormatOkRange(misc);
      if !IdFormatOk(misc) {
        return 13;
      }
      var taken := IdTaken(misc);
      code := if taken then 12 else 0;
    }

    /** Whether some player already has id `misc` (a None id never matches). */
    method IdTaken(misc: int) returns (taken: bool)
      ensures taken <==> exists i :: 0 <= i < |players| && players[i].playerId == Some(misc)
    {
      var i := 0;
      while i < |players|
        invariant 0 <= i <= |players|
        invariant forall k :: 0 <= k < i ==> players[k].playerId != Some(misc)
      {
        if players[i].playerId == Some(misc) {
          return true;
        }
        i := i + 1;
      }
      return false;
    }
  }
}
