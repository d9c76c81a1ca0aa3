/**
 * The deterministic part of the asciitron terminal client: steering, one-step
 * movement, the local cell map, the glyph sanitiser used when drawing, and the
 * network handler that cuts the server's byte stream into records and applies
 * them. Curses drawing, sleeps, beeps and the two daemon threads are not
 * modelled; the draw queue the threads share is a sequence field.
 */
module Client {
  import opened Protocol
  import opened Transport

  datatype Direction = Left | Right | Up | Down

  // curses key codes of the four arrow keys
  const KEY_DOWN := 258
  const KEY_UP := 259
  const KEY_LEFT := 260
  const KEY_RIGHT := 261

  predicate IsDownKey(key: int) { key == KEY_DOWN || key == 's' as int || key == 'j' as int }
  predicate IsUpKey(key: int) { key == KEY_UP || key == 'w' as int || key == 'k' as int }
  predicate IsLeftKey(key: int) { key == KEY_LEFT || key == 'a' as int || key == 'h' as int }
  predicate IsRightKey(key: int) { key == KEY_RIGHT || key == 'd' as int || key == 'l' as int }

  predicate IsHorizontal(d: Direction) { d == Left || d == Right }

  function Opposite(d: Direction): Direction
  {
    match d
    case Left => Right
    case Right => Left
    case Up => Down
    case Down => Up
  }

  /** The direction a key asks for, if it is one of the twelve steering keys. */
  function KeyDirection(key: int): (r: Option<Direction>)
  {
    if IsDownKey(key) then Some(Down)
    else if IsUpKey(key) then Some(Up)
    else if IsLeftKey(key) then Some(Left)
    else if IsRightKey(key) then Some(Right)
    else None
  }

  /** The direction after a key press: a key only turns onto the other axis. */
  function NextDirection(d: Direction, key: int): (r: Direction)
    ensures r != Opposite(d)
    ensures r != d <==> KeyDirection(key).Some? && IsHorizontal(KeyDirection(key).value) != IsHorizontal(d)
    ensures r != d ==> r == KeyDirection(key).value
  {
    if IsDownKey(key) then (if IsHorizontal(d) then Down else d)
    else if IsUpKey(key) then (if IsHorizontal(d) then Up else d)
    else if IsLeftKey(key) then (if !IsHorizontal(d) then Left else d)
    else if IsRightKey(key) then (if !IsHorizontal(d) then Right else d)
    else d
  }

  /** The cell offset of one move in direction d; y grows downwards on the screen. */
  function Step(d: Direction): (delta: (int, int))
    ensures (if delta.0 < 0 then -delta.0 else delta.0) + (if delta.1 < 0 then -delta.1 else delta.1) == 1
    ensures IsHorizontal(d) <==> delta.1 == 0
    ensures d == Right || d == Down <==> delta.0 + delta.1 == 1
  {
    match d
    case Left => (-1, 0)
    case Right => (1, 0)
    case Up => (0, -1)
    case Down => (0, 1)
  }

  /** The character draw_player puts on the screen for the string form of its argument. */
  function Glyph(s: string): (c: char)
    ensures c == ' ' || (33 <= c as int <= 125 && c != '0')
    ensures |s| != 1 ==> c == '?'
    ensures |s| == 1 && !(33 <= s[0] as int <= 125) ==> c == 'E'
    ensures |s| == 1 && s[0] == '0' ==> c == ' '
    ensures |s| == 1 && 33 <= s[0] as int <= 125 && s[0] != '0' ==> c == s[0]
  {
    var c := if |s| != 1 then '?' else s[0];
    var c := if c as int < 33 || c as int > 125 then 'E' else c;
    if c == '0' then ' ' else c
  }

  /** Sanitising a glyph that is not blank leaves it as it is. */
  lemma GlyphStable(s: string)
    requires Glyph(s) != ' '
    ensures Glyph([Glyph(s)]) == Glyph(s)
  {
  }

  /** A value in the client's map or draw queue: an int player number or a string. */
  datatype Mark = PlayerNo(n: int) | Text(s: string)

  /** One entry of the draw queue: a cell and what to draw there. */
  datatype Draw = Draw(x: int, y: int, mark: Mark)

  /** The cells of a map that belong to a player number. */
  function OwnedBy(m: map<(int, int), Mark>, pid: int): set<(int, int)>
  {
    set c | c in m && m[c] == PlayerNo(pid)
  }

  class TronClient {
    const playerId: int
    /** The terminal size reported by curses (getmaxyx). */
    const screenWidth: int
    const screenHeight: int

    var direction: Direction
    var x: int
    var y: int
    var collided: bool
    var speed: int
    var nitrotank: int
    /** (x, y) -> player number or glyph */
    var cellMap: map<(int, int), Mark>
    /** The gamepad's dispatcher queue, oldest first. */
    var queue: seq<Draw>
    var gamepadWidth: int
    var gamepadHeight: int

    constructor (playerId: int, screenWidth: int, screenHeight: int)
      ensures this.playerId == playerId && this.screenWidth == screenWidth && this.screenHeight == screenHeight
      ensures direction == Right && x == 0 && y == 0 && !collided
      ensures speed == 120 && nitrotank == 100 && cellMap == map[] && queue == []
      ensures gamepadWidth == screenWidth && gamepadHeight == screenHeight
    {
      this.playerId := playerId;
      this.screenWidth := screenWidth;
      this.screenHeight := screenHeight;
      direction := Right;
      x, y := 0, 0;
      collided := false;
      speed := 120;
      nitrotank := 100;
      cellMap := map[];
      queue := [];
      gamepadWidth, gamepadHeight := screenWidth, screenHeight;
    }

    method ChangeDirection(key: int)
      modifies this`direction
      ensures direction == NextDirection(old(direction), key)
    {
      if IsDownKey(key) {
        if direction == Left || direction == Right {
          direction := Down;
        }
      } else if IsUpKey(key) {
        if direction == Left || direction == Right {
          direction := Up;
        }
      } else if IsLeftKey(key) {
        if direction == Up || direction == Down {
          direction := Left;
        }
      } else if IsRightKey(key) {
        if direction == Up || direction == Down {
          direction := Right;
        }
      }
    }

    method MovePlayer()
      modifies this`x, this`y
      ensures (x - old(x), y - old(y)) == Step(direction)
    {
      if direction == Left {
        x := x - 1;
      }
      if direction == Right {
        x := x + 1;
      }
      if direction == Up {
        y := y - 1;
      }
      if direction == Down {
        y := y + 1;
      }
    }

    /** Deletes every cell of player `pid` and queues a blank ("0") redraw for each. */
    method RemoveFromMap(pid: int)
      modifies this`cellMap, this`queue
      ensures cellMap == old(cellMap) - OwnedBy(old(cellMap), pid)
      ensures |queue| == |old(queue)| + |OwnedBy(old(cellMap), pid)|
      ensures queue[..|old(queue)|] == old(queue)
      ensures forall i :: |old(queue)| <= i < |queue| ==>
                queue[i].mark == Text("0") && (queue[i].x, queue[i].y) in OwnedBy(old(cellMap), pid)
      ensures forall i, j :: |old(queue)| <= i < j < |queue| ==>
                (queue[i].x, queue[i].y) != (queue[j].x, queue[j].y)
    {
      var coords := OwnedBy(cellMap, pid);
      var todo := coords;
      while todo != {}
        invariant todo <= coords
        invariant cellMap == old(cellMap) - (coords - todo)
        invariant |queue| == |old(queue)| + |coords - todo|
        invariant queue[..|old(queue)|] == old(queue)
        invariant forall i :: |old(queue)| <= i < |queue| ==>
                    queue[i].mark == Text("0") && (queue[i].x, queue[i].y) in coords - todo
        invariant forall i, j :: |old(queue)| <= i < j < |queue| ==>
                    (queue[i].x, queue[i].y) != (queue[j].x, queue[j].y)
        decreases |todo|
      {
        var c :| c in todo;
        queue := queue + [Draw(c.0, c.1, Text("0"))];
        cellMap := cellMap - {c};
        assert coords - (todo - {c}) == (coords - todo) + {c};
        todo := todo - {c};
      }
    }
  }

  /** Commands after which the client's network handler stops: sys.exit() after a graceful
      disconnect (9) or a refusal (10 to 13). */
  predicate EndsHandler(cmd: int) { cmd == 9 || 10 <= cmd <= 13 }

  /** Whether applying a record ends the network handler: sys.exit() after commands 9 to 13,
      or a ValueError from random.randint when a start command carries a negative board size. */
  predicate StopsHandler(p: ToPlayer)
  {
    EndsHandler(p.cmd) ||
    (p.cmd == 1 && (Trunc(p.x as real * 0.1) > Trunc(p.x as real * 0.9) ||
                    Trunc(p.y as real * 0.1) > Trunc(p.y as real * 0.9)))
  }

  predicate NoneStops(rs: seq<ToPlayer>)
  {
    forall i :: 0 <= i < |rs| ==> !StopsHandler(rs[i])
  }

  class Network {
    const game: TronClient
    var bufIn: seq<Byte>
    var connected: bool
    /** Every byte the socket accepted from this client, in order. */
    var wire: seq<Byte>
    /** Every record handed to handle_packet, in order. */
    ghost var handled: seq<ToPlayer>

    constructor (game: TronClient)
      ensures this.game == game && bufIn == [] && !connected && wire == [] && handled == []
    {
      this.game := game;
      bufIn := [];
      connected := false;
      wire := [];
      handled := [];
    }

    method Disconnect()
      modifies this`connected
      ensures !connected
    {
      connected := false;
    }

    /** Packs and sends one record; a packing error, a socket error or a zero-byte send disconnects. */
    method Send(cmd: int, x: int, y: int, misc: int, outcome: SendOutcome) returns (ok: bool)
      modifies this`connected, this`wire
      ensures var packed := EncodeToServer(ToServer(cmd, x, y, misc));
        && (ok <==> old(connected) && packed.Success? && outcome.Sent? && outcome.room > 0)
        && (ok ==> connected && wire == old(wire) + packed.value[..Accepted(outcome, packed.value)])
        && (!ok ==> wire == old(wire) && !connected)
    {
      if !connected {
        return false;
      }
      var packed := EncodeToServer(ToServer(cmd, x, y, misc));
      if packed.Failure? || outcome.SendError? || outcome.room == 0 {
        Disconnect();
        return false;
      }
      wire := wire + packed.value[..Accepted(outcome, packed.value)];
      ok := true;
    }

    /** Applies one record from the server; `stop` is true when the handler thread ends
        (sys.exit, or a ValueError from random.randint on a bad board size). */
    method HandlePacket(p: ToPlayer, reply: SendOutcome) returns (stop: bool)
      modifies this, game
      ensures handled == old(handled) + [p]
      ensures bufIn == old(bufIn)
      ensures game.nitrotank == p.nitrotank
      ensures game.speed == if p.cmd == 20 then p.x else p.speed
      ensures stop <==> StopsHandler(p)
      ensures p.cmd == 2 ==> game.queue == old(game.queue) + [Draw(p.x, p.y, PlayerNo(p.playerNo))]
      ensures p.cmd == 3 || p.cmd == 5 ==> game.cellMap == old(game.cellMap) - OwnedBy(old(game.cellMap), p.playerNo)
      ensures p.cmd == 3 ==> game.collided == (old(game.collided) || p.playerNo == game.playerId)
      ensures p.cmd == 4 ==> game.collided && !connected
      ensures p.cmd == 9 ==> !connected
      ensures p.cmd == 1 && !stop ==> game.gamepadWidth == p.x && game.gamepadHeight == p.y
      ensures p.cmd == 1 && !stop ==> Trunc(p.x as real * 0.1) <= game.x <= Trunc(p.x as real * 0.9)
      ensures p.cmd == 1 && !stop ==> Trunc(p.y as real * 0.1) <= game.y <= Trunc(p.y as real * 0.9)
      ensures p.cmd != 2 && p.cmd != 3 && p.cmd != 5 ==> game.queue == old(game.queue) && game.cellMap == old(game.cellMap)
      ensures p.cmd !in {0, 4, 9, 10, 11, 12, 13} ==> connected == old(connected) && wire == old(wire)
      ensures game.direction == old(game.direction)
      ensures p.cmd != 1 ==> game.x == old(game.x) && game.y == old(game.y)
      ensures p.cmd != 3 && p.cmd != 4 ==> game.collided == old(game.collided)
      ensures !(p.cmd == 1 && !stop) ==>
                game.gamepadWidth == old(game.gamepadWidth) && game.gamepadHeight == old(game.gamepadHeight)
    {
      handled := handled + [p];
      game.speed := p.speed;
      game.nitrotank := p.nitrotank;
      stop := false;
      if p.cmd == 0 {
        // Hello: answer with the terminal size and the player id.
        var _ := Send(0, game.screenWidth, game.screenHeight, game.playerId, reply);
      } else if p.cmd == 1 {
        // Game starts: random start cell inside the inner 80% of the board.
        var loX, hiX := Trunc(p.x as real * 0.1), Trunc(p.x as real * 0.9);
        var loY, hiY := Trunc(p.y as real * 0.1), Trunc(p.y as real * 0.9);
        if loX > hiX {
          return true;
        }
        var startX :| loX <= startX <= hiX;
        game.x := startX;
        if loY > hiY {
          return true;
        }
        var startY :| loY <= startY <= hiY;
        game.y := startY;
        game.gamepadHeight := p.y;
        game.gamepadWidth := p.x;
      } else if p.cmd == 2 {
        game.queue := game.queue + [Draw(p.x, p.y, PlayerNo(p.playerNo))];
      } else if p.cmd == 3 {
        game.RemoveFromMap(p.playerNo);
        if game.playerId == p.playerNo {
          game.collided := true;
        }
      } else if p.cmd == 4 {
        game.collided := true;
        Disconnect();
      } else if p.cmd == 5 {
        game.RemoveFromMap(p.playerNo);
      } else if p.cmd == 9 {
        Disconnect();
        stop := true;
      } else if 10 <= p.cmd <= 13 {
        stop := true;
      } else if p.cmd == 20 {
        game.speed := p.x;
      }
    }

    /** The framing loop of Network.handle: every whole record in the buffer, in order,
        until one of them ends the handler. */
    method HandleBuffered(reply: SendOutcome) returns (stop: bool)
      modifies this, game
      ensures !stop ==>
                && |bufIn| < TO_PLAYER_SIZE
                && bufIn == Leftover(old(bufIn), TO_PLAYER_SIZE)
                && handled == old(handled) + ToPlayerRecords(old(bufIn))
                && NoneStops(ToPlayerRecords(old(bufIn)))
      ensures stop ==>
                var n := |handled| - |old(handled)|;
                && 0 < n <= |ToPlayerRecords(old(bufIn))|
                && handled == old(handled) + ToPlayerRecords(old(bufIn))[..n]
                && StopsHandler(handled[|handled| - 1])
                && Leftover(bufIn, TO_PLAYER_SIZE) == Leftover(old(bufIn), TO_PLAYER_SIZE)
                && ToPlayerRecords(bufIn) == ToPlayerRecords(old(bufIn))[n - 1..]
    {
      ghost var all := bufIn;
      ghost var rs := ToPlayerRecords(all);
      ghost var k := 0;
      stop := false;
      while |bufIn| >= TO_PLAYER_SIZE
        invariant 0 <= k <= |rs| && |bufIn| <= |all|
        invariant ToPlayerRecords(bufIn) == rs[k..]
        invariant Leftover(bufIn, TO_PLAYER_SIZE) == Leftover(all, TO_PLAYER_SIZE)
        invariant handled == old(handled) + rs[..k]
        invariant NoneStops(rs[..k])
        decreases |bufIn|
      {
        var packet := DecodeToPlayer(bufIn[..TO_PLAYER_SIZE]);
        ToPlayerRecordsUnfold(bufIn);
        assert rs[k] == packet && rs[k + 1..] == ToPlayerRecords(bufIn[TO_PLAYER_SIZE..]);
        assert rs[..k + 1] == rs[..k] + [packet];
        stop := HandlePacket(packet, reply);
        if stop {
          return;
        }
        bufIn := bufIn[TO_PLAYER_SIZE..];
        k := k + 1;
      }
      assert rs[..k] == rs;
    }

    /** One call of Network.handle: one recv, then the framing loop. */
    method Handle(bulk: bool, received: RecvOutcome, reply: SendOutcome) returns (alive: bool, stop: bool)
      requires received.Received? ==> |received.data| <= if bulk then 8192 else TO_PLAYER_SIZE
      modifies this, game
      ensures !old(connected) ==> !alive && !stop && !connected && bufIn == old(bufIn) && handled == old(handled)
      ensures old(connected) && (received.RecvError? || received.data == []) ==>
                !alive && !stop && !connected && bufIn == old(bufIn) && handled == old(handled)
      ensures old(connected) && received.Received? && received.data != [] && !stop ==>
                var all := old(bufIn) + received.data;
                && alive
                && |bufIn| < TO_PLAYER_SIZE
                && bufIn == Leftover(all, TO_PLAYER_SIZE)
                && handled == old(handled) + ToPlayerRecords(all)
                && (forall i :: 0 <= i < |ToPlayerRecords(all)| ==> !StopsHandler(ToPlayerRecords(all)[i]))
      ensures stop ==>
                var all := old(bufIn) + received.data;
                var n := |handled| - |old(handled)|;
                && old(connected) && received.Received?
                && 0 < n <= |ToPlayerRecords(all)|
                && handled == old(handled) + ToPlayerRecords(all)[..n]
                && StopsHandler(handled[|handled| - 1])
                && Leftover(bufIn, TO_PLAYER_SIZE) == Leftover(all, TO_PLAYER_SIZE)
                && ToPlayerRecords(bufIn) == ToPlayerRecords(all)[n - 1..]
    {
      if !connected {
        return false, false;
      }
      if received.RecvError? || received.data == [] {
        Disconnect();
        return false, false;
      }
      bufIn := bufIn + received.data;
      stop := HandleBuffered(reply);
      alive := true;
    }
  }
}
