# asciitron in Dafny

asciitron is a terminal light-cycle game: a server engine and several curses clients. They exchange two
fixed-size binary records over TCP. This project models three parts of it and proves properties of the model:

- **The wire records** (`protocol.dfy`, module `Protocol`). These are the `"hhiihBh"` server-to-player record
  and the `"hiih"` player-to-server record. Each has an encoder that fails on an out-of-range field, a decoder,
  its byte layout and round trips. There is also the framing of a byte stream into consecutive records.
  "Native" struct layout is fixed as little-endian with the host's alignment padding. That gives 18 and 14 bytes.
- **Socket outcomes** (`transport.dfy`, module `Transport`). The result of one `recv` or `send` is an input to
  the model, not something it computes.
- **The server engine** (`server.dfy`, module `Server`). A `Player` class keeps the same fields as the Python
  `Player`: buffers, id, reported size, trail, speed, nitro and tank. Its methods are `handle_packet` (hello,
  move, nitro), `remove_from_map`, `remove`, `send`, `handle_read`, `handle_write` and `disconnect`. A
  `TronServer` class keeps the player list, the shared cell map and the game state. It models `broadcast` and the
  non-socket part of `serve`:
  - admission on accept;
  - the lone-survivor win;
  - the idle sweep;
  - the reset;
  - the game start.

  `TronServer.Valid` is the invariant every operation keeps:
  - the map's keys are exactly the cells of the owners' trails, each with its one owner;
  - no trail repeats a cell;
  - the player list has no repeats;
  - every player keeps a tank in 0..100, a speed between the floor and normal speed, and fields that fit
    the record.
- **The client's deterministic logic** (`client.dfy`, module `Client`):
  - steering (`change_direction`) and one-step movement (`move_player`);
  - the local map purge (`remove_from_map`);
  - the glyph sanitiser of `draw_player`;
  - the network handler's framing loop, its record dispatch, and its `send`.

Sockets, `select` and the clock are parameters. The result of every recv and send is a `RecvOutcome` or a
`SendOutcome`, and the current time is a `now: real`. The tuning values of `settings.py` (normal, border and nitro
speed, nitro time, countdown) become constant fields of `TronServer`. `TronServer.SettingsOk` states what they must
satisfy for every speed to fit the 16-bit speed field. A Python exception that would end `serve` becomes a result
`ok == false`, and nothing is promised about the state after it. These exceptions are:
- `struct.error` when a `None` id is packed;
- `IndexError` on an empty player list at game start.

## Model

| member | source | states |
|---|---|---|
| Protocol.Trunc | asciitron/server/tronserver.py:88 | `int()` of a float truncates toward zero: the result is within one of the argument, on its side of zero |
| Protocol.EncodeToPlayer | asciitron/common/protocol.py:29-30 | packing succeeds exactly when every field fits its width, and then gives `FMT_SIZE_TOPLAYER` (18) bytes |
| Protocol.EncodeToServer | asciitron/common/protocol.py:32-33 | packing succeeds exactly when every field fits its width, and then gives `FMT_SIZE_TOSERVER` (14) bytes |
| Protocol.ToPlayerLayout | asciitron/common/protocol.py:29 | the server record is player-no int16, cmd int16, x int32, y int32, speed int16, tank uint8, a zero pad byte, misc int16, in that order |
| Protocol.ToServerLayout | asciitron/common/protocol.py:32 | the client record is cmd int16, two zero pad bytes, x int32, y int32, misc int16, in that order |
| Protocol.ToPlayerRoundTrip | asciitron/common/protocol.py:29-30 | unpacking a packed server record returns every field when each fits its width |
| Protocol.ToServerRoundTrip | asciitron/common/protocol.py:32-33 | unpacking a packed client record returns every field when each fits its width |
| Protocol.ToPlayerDecodeEncode | asciitron/common/protocol.py:29-30 | any 18 bytes unpack to fields that fit, and they pack back to the same bytes exactly when the pad byte is zero |
| Protocol.ToServerDecodeEncode | asciitron/common/protocol.py:32-33 | any 14 bytes unpack to fields that fit, and they pack back to the same bytes exactly when both pad bytes are zero |
| Protocol.SignedRoundTrip | asciitron/common/protocol.py:29 | a signed little-endian field of n bytes reads back every value of its range |
| Protocol.SignedOfValue | asciitron/common/protocol.py:29 | every n-byte string reads as a value in the signed range of n bytes, and re-encodes to itself |
| Protocol.LittleEndianRoundTrip | asciitron/common/protocol.py:29 | an unsigned little-endian field reads back every value below 256^n |
| Protocol.Leftover | asciitron/server/tronserver.py:205-208 | what the parse loop leaves in the buffer is shorter than one record and no longer than the buffer |
| Protocol.LeftoverIsTail | asciitron/server/tronserver.py:205-208 | the leftover is the tail of the buffer after the whole records |
| Protocol.ToServerRecords | asciitron/server/tronserver.py:205-208 | a buffer holds `len / 14` whole client records, read front to back |
| Protocol.ToPlayerRecords | asciitron/client/tronclient.py:177-180 | a buffer holds `len / 18` whole server records, read front to back |
| Protocol.ToServerRecordAt | asciitron/server/tronserver.py:206 | the k-th record of a stream is unpacked from bytes 14k .. 14k+14 |
| Protocol.ToPlayerRecordAt | asciitron/client/tronclient.py:178 | the k-th record of a stream is unpacked from bytes 18k .. 18k+18 |
| Protocol.ToServerStream | asciitron/client/tronclient.py:187 | client records packed back to back (asciitron/client/tronclient.py:187) are read back one for one by the server's loop (asciitron/server/tronserver.py:205-208), and a short tail stays buffered |
| Protocol.ToPlayerStream | asciitron/server/tronserver.py:87 | server records packed back to back are read back one for one by the client's loop (asciitron/client/tronclient.py:177-180), and a short tail stays buffered |
| Protocol.PackAllToServer | asciitron/client/tronclient.py:187 | n client records packed one after another take exactly 14n bytes |
| Protocol.PackAllToPlayer | asciitron/server/tronserver.py:87 | n server records packed one after another take exactly 18n bytes |
| Transport.Accepted | asciitron/server/tronserver.py:212 | a send returns min(room, len): never more than the bytes offered or the room, and all of one of them |
| Server.DecimalLength | asciitron/server/tronserver.py:109 | `len(str(n))` is 1 exactly for 0..9 |
| Server.IdFormatOkRange | asciitron/server/tronserver.py:109 | the hello id test `len(str(misc)) == 1 and misc != 0` accepts exactly 1..9 |
| Server.Without | asciitron/server/tronserver.py:230-231 | removing a player keeps every other listed player, drops that one and never grows the list |
| Server.WithoutAbsent | asciitron/server/tronserver.py:230 | removing a player that is not listed leaves the list as it is |
| Server.WithoutAt | asciitron/server/tronserver.py:231 | on a list without repeats, removal deletes exactly the one occurrence and keeps the others in order |
| Server.WithoutDistinct | asciitron/server/tronserver.py:231 | removal keeps a list free of repeats and shortens it by one when the player was listed |
| Server.Standing | asciitron/server/tronserver.py:311 | the filter of players that have not crashed holds exactly those players |
| Server.StandingOnly | asciitron/server/tronserver.py:311-312 | when one player alone has not crashed, the filter is that player |
| Server.StandingOne | asciitron/server/tronserver.py:311-313 | a filter of length one names the only player still standing |
| Server.Burning | asciitron/server/tronserver.py:161 | a move during nitro never takes the speed above normal, and makes a speed below normal slower |
| Server.Throttled | asciitron/server/tronserver.py:170-171 | a move in the border band never takes the speed below normal minus border, and makes a speed above that faster |
| Server.Recovered | asciitron/server/tronserver.py:173-174 | a move outside the band never takes the speed above normal, and makes a speed below normal slower |
| Server.Boosted | asciitron/server/tronserver.py:185-187 | nitro never takes the speed below normal minus nitro nor above the larger of the old speed and that floor, and makes a speed above the floor faster |
| Server.Delivered | asciitron/server/tronserver.py:212-219 | a send moves some bytes exactly when the socket is open, reports room and there is data, and never more than the buffer |
| Server.Active | asciitron/server/tronserver.py:320-323 | the intended idle sweep keeps exactly the listed players active within the last three seconds |
| Server.SweepAsWritten | asciitron/server/tronserver.py:320-323 | the sweep as written walks the live list while removing from it |
| Server.SweepAsWrittenKeepsHalf | asciitron/server/tronserver.py:320-323 | with every player idle, the sweep as written leaves half of the visited players listed |
| Server.SweepAsWrittenMissesIdle | asciitron/server/tronserver.py:320-323 | with two or more players, all idle, the sweep as written leaves players listed where the intended sweep leaves none |
| Server.ActiveNoneIdle | asciitron/server/tronserver.py:320-323 | the intended sweep removes a list of idle players entirely |
| Server.Player.constructor | asciitron/server/tronserver.py:58-75 | a new player has no id, size -1 x -1, normal speed, a full tank, no trail and empty buffers |
| Server.Player.Packed | asciitron/server/tronserver.py:86-88 | a record queued for this player carries its own truncated speed and tank, and unpacks to those fields when they fit |
| Server.Player.OutgoingFits | asciitron/server/tronserver.py:86-88 | under the invariant a record for a player packs exactly when an id is given and the id, cmd, x and y fit their widths |
| Server.Player.Send | asciitron/server/tronserver.py:86-88 | `send` appends exactly the packed record to bufOut, and fails with bufOut unchanged for a None id or a field out of range |
| Server.Player.DeleteTrail | asciitron/server/tronserver.py:80-81 | the deletion loop removes exactly the trail's cells from the map, and each is a key when it is deleted (no KeyError) |
| Server.Player.ReleaseTrail | asciitron/server/tronserver.py:80-82 | the trail leaves the map, coords become empty and the invariant holds |
| Server.Player.RemoveFromMap | asciitron/server/tronserver.py:78-84 | the map loses exactly the trail's cells and coords become empty; cmd 5 goes to every listed player only when there was a trail; with an empty trail nothing changes |
| Server.Player.Remove | asciitron/server/tronserver.py:227-232 | the map loses the trail; the player leaves the list if it is listed; a second call changes nothing more |
| Server.Player.Deregister | asciitron/server/tronserver.py:230-231 | the list afterwards is the list without this player, and it is not listed |
| Server.Player.HandleWrite | asciitron/server/tronserver.py:210-219 | a send drops exactly the accepted prefix of bufOut; an error, a closed socket or a zero-byte send removes the player instead |
| Server.Player.Disconnect | asciitron/server/tronserver.py:221-225 | cmd 9 enters the outgoing stream after what was queued, one send is attempted and the socket is closed |
| Server.Player.TurnAway | asciitron/server/tronserver.py:282-293 | a refused connection hears the refusal code and then 9, and nobody else hears of it |
| Server.Player.Refuse | asciitron/server/tronserver.py:109-122 | a refused hello queues the code and then 9, closes the socket and removes the player and its trail |
| Server.Player.HandleHello | asciitron/server/tronserver.py:102-125 | a hello records the size; the id is bound exactly when it is 1..9 and no listed player (this one included) has it; otherwise the player is refused and removed and its id is unchanged |
| Server.Player.BindId | asciitron/server/tronserver.py:125 | the accepted id becomes the player's id and the invariant holds |
| Server.Player.HandleMove | asciitron/server/tronserver.py:126-177 | a crashed player's update changes nothing; otherwise the move crashes exactly when the cell is in the map or on or outside the border, and a crash keeps position, speed and tank; an accepted move appends the cell to the trail and the map, refills the tank by one up to 100, sets the speed by the nitro, border-band or recovery rule and broadcasts 2 with the position |
| Server.Player.Crash | asciitron/server/tronserver.py:131-144 | the last player to crash among several broadcasts cmd 4 and keeps its trail; any other crash broadcasts 3, removes exactly the trail's cells, and broadcasts 5 when there was a trail |
| Server.Player.Lose | asciitron/server/tronserver.py:141-144 | a losing crash broadcasts 3 and then removes the trail from the map |
| Server.Player.Advance | asciitron/server/tronserver.py:145-177 | an accepted move appends the cell to the trail and adds it to the map without overwriting a key, refills the tank and sets the speed as Settle states, then broadcasts 2 with the position |
| Server.Player.Settle | asciitron/server/tronserver.py:145-174 | an accepted move sets the position, the trail, the map, the tank and the speed by the four speed rules |
| Server.Player.Tune | asciitron/server/tronserver.py:151-174 | the tank gains one up to 100, and the speed follows the nitro, border and recovery rules |
| Server.Player.Refill | asciitron/server/tronserver.py:151-152 | the tank rises by 1, capped at 100 |
| Server.Player.AdjustSpeed | asciitron/server/tronserver.py:154-174 | nitro expiry resets to normal speed; otherwise the nitro, border and recovery rules apply, each within its floor or cap |
| Server.Player.Occupy | asciitron/server/tronserver.py:146-149 | a free cell joins the trail and the map, owned by this player |
| Server.Player.HandleNitro | asciitron/server/tronserver.py:178-190 | with 25 or less in the tank nothing changes; otherwise the tank empties, nitro starts now, and the speed drops by the tank's share, never below normal minus nitro |
| Server.Player.IsLast | asciitron/server/tronserver.py:94-95 | `is_last` holds exactly when no listed player is standing |
| Server.Player.IsLastActive | asciitron/server/tronserver.py:90-92 | `is_last_active` implies this player stands and exactly one listed player stands (for a listed player, IsLastActiveExactly states the equivalence) |
| Server.Player.IsLastActiveExactly | asciitron/server/tronserver.py:90-92 | for a listed player, `is_last_active` holds exactly when it is the one standing player |
| Server.Player.HandlePacket | asciitron/server/tronserver.py:97-192 | every record sets the activity time; cmd 0 records the size and binds the id exactly when it is accepted, otherwise the player leaves the list with no trail; cmd 2 from a standing player crashes exactly on a taken or border cell, and a free cell becomes the new position, joins the trail and the map and refills the tank by one; cmd 21 with more than 25 in the tank empties it and starts nitro now with the boosted speed, and with less changes nothing; any other command changes no other field of the player, no map cell, no list entry and no queued byte |
| Server.Player.HandleBuffered | asciitron/server/tronserver.py:205-208 | whole records are handled in arrival order, and fewer than 14 bytes stay buffered |
| Server.Player.HandleFirst | asciitron/server/tronserver.py:206-208 | the first 14 bytes are unpacked, handled and cut off |
| Server.Player.HandleRead | asciitron/server/tronserver.py:194-208 | a failed or empty recv removes the player; otherwise every whole record of the old buffer plus the data is handled in order and the leftover stays |
| Server.TronServer.constructor | asciitron/server/tronserver.py:254-259 | a new server has no players, state init, an empty map and a 0 x 0 board |
| Server.TronServer.MapIsUnionOfTrails | asciitron/server/tronserver.py:146-149 | the occupied cells are exactly the cells on the owners' trails |
| Server.TronServer.NoSharedCells | asciitron/server/tronserver.py:131-149 | no cell lies on the trails of two different players |
| Server.TronServer.Broadcast | asciitron/server/tronserver.py:264-266 | every listed player's bufOut gains exactly one record carrying the recipient's own speed and tank; packing fails for all or for none |
| Server.TronServer.Admit | asciitron/server/tronserver.py:279-296 | while running the connection gets 11, on a full server 10, and it is never listed; otherwise it is appended and sent 0; so an accept never takes the list above playerCount |
| Server.TronServer.Reject | asciitron/server/tronserver.py:282-293 | a refused connection hears its code and then 9, and the list, the map and other buffers stay as they were |
| Server.TronServer.Register | asciitron/server/tronserver.py:281 | a fresh, unlisted player with nothing queued |
| Server.TronServer.Enlist | asciitron/server/tronserver.py:295-296 | the player is appended and asked for its id with cmd 0 |
| Server.TronServer.Tick | asciitron/server/tronserver.py:309-359 | a lone survivor's win ends the round with list and state unchanged; a round with socket activity changes no list, state or map; in an idle round, everyone crashed leaves exactly the active players listed, closes every player idle at the start of the round, empties its trail and takes those trails off the map (the intended sweep, see Findings); with a player standing the list stays as it was; an empty server outside init is back in init with an empty map, and otherwise the map is only changed by the sweep; a running game with players keeps running, and in init the game runs exactly when the list is full, on the smallest reported board |
| Server.TronServer.IdleRound | asciitron/server/tronserver.py:316-359 | when all have crashed, exactly the active players stay listed and every idle one is closed and trail-less with its trail off the map; otherwise the list stays; without a reset the map changes only by the sweep; a running game with players keeps running; in init the game runs exactly when the list is full, on the smallest reported board |
| Server.TronServer.SweepIfAllCrashed | asciitron/server/tronserver.py:316-324 | when every listed player has crashed, the idle ones are closed, lose their trails on the map and leave the list (the corrected sweep; see Findings); otherwise the list and the map are unchanged |
| Server.TronServer.ResetOrStart | asciitron/server/tronserver.py:326-359 | an empty server outside init is back in init with an empty map, and otherwise the map is unchanged; a running game with players keeps running; in init the game runs exactly when the list is full, on the smallest reported board |
| Server.TronServer.CheckWinner | asciitron/server/tronserver.py:309-314 | the round is skipped exactly when the game runs with one player standing among several, and then cmd 4 goes to everyone for that player |
| Server.TronServer.SweepIdle | asciitron/server/tronserver.py:316-324 | exactly the players that are not idle stay listed, in order; every idle player has its socket closed and no trail, and the map loses exactly the idle players' trails |
| Server.TronServer.SweepWalk | asciitron/server/tronserver.py:320-323 | the walk over the copy of the list keeps the unflagged players in order, leaves every flagged one closed and trail-less, and takes exactly their trails off the map |
| Server.TronServer.SweepNext | asciitron/server/tronserver.py:320-323 | one position of the walk carries its state (kept list, closed players, remaining trails, vacated cells) forward by that player |
| Server.TronServer.SweepAt | asciitron/server/tronserver.py:320-323 | one step of the sweep keeps its player exactly when it is not idle; an idle one ends closed and trail-less with its trail off the map; a player that is not idle changes neither the list nor the map |
| Server.TronServer.Retire | asciitron/server/tronserver.py:322-323 | disconnect and remove take exactly that player out of the list, close it, empty its trail, take that trail off the map, and put cmd 9 after what was already in its stream |
| Server.TronServer.ResetIfEmpty | asciitron/server/tronserver.py:326-330 | an empty server that is not in init goes back to init with an empty map; any other state is unchanged |
| Server.TronServer.StartIfReady | asciitron/server/tronserver.py:332-334 | the game starts exactly in init with the list full and not empty; a player count of 0 fails on the empty list |
| Server.TronServer.Begin | asciitron/server/tronserver.py:335-359 | the board becomes the smallest reported size, cmds 1, 20 and 21 go to every player in that order, and the game runs |
| Server.TronServer.Announce | asciitron/server/tronserver.py:352-359 | every player's bufOut gains the records of cmd 1 (countdown, board), cmd 20 (normal speed) and cmd 21 (full tank), in that order |
| Server.TronServer.MinDimensions | asciitron/server/tronserver.py:338-345 | the width and height are the minima of the reported sizes: each reached by some player and not above any |
| Server.TronServer.HelloRefusal | asciitron/server/tronserver.py:109-122 | 0 exactly when the id is accepted; 13 for an id outside 1..9, 12 for one that is taken |
| Server.TronServer.IdTaken | asciitron/server/tronserver.py:116-117 | true exactly when some listed player has that id |
| Client.NextDirection | asciitron/client/tronclient.py:308-320 | a key only turns onto the perpendicular axis: never a reversal, a change exactly for a steering key of the other axis, and then to that key's direction |
| Client.TronClient.ChangeDirection | asciitron/client/tronclient.py:308-320 | the new direction is the one NextDirection gives for the old direction and the key |
| Client.Step | asciitron/client/tronclient.py:322-330 | one move changes exactly one coordinate by exactly one, as the direction says |
| Client.TronClient.MovePlayer | asciitron/client/tronclient.py:322-330 | the position moves by exactly the step of the current direction |
| Client.Glyph | asciitron/client/tronclient.py:239-250 | the drawn glyph is one character: `?` for a string of another length, `E` for a code outside 33..125, a blank for `0`, otherwise the character itself |
| Client.GlyphStable | asciitron/client/tronclient.py:239-250 | sanitising a glyph that is not blank gives the same glyph |
| Client.TronClient.RemoveFromMap | asciitron/client/tronclient.py:338-342 | exactly the cells of that player leave the map, the others stay, and one blank redraw per deleted cell is queued |
| Client.TronClient.constructor | asciitron/client/tronclient.py:286-303 | a new client faces right at (0, 0) with speed 120, a full tank and an empty map |
| Client.Network.constructor | asciitron/client/tronclient.py:45-55 | a new network handler is disconnected with an empty buffer |
| Client.Network.Disconnect | asciitron/client/tronclient.py:69-74 | the handler is marked disconnected |
| Client.Network.Send | asciitron/client/tronclient.py:184-196 | a send succeeds exactly when connected, the record packs and the socket takes some bytes; a packing error or a failed send disconnects |
| Client.Network.HandlePacket | asciitron/client/tronclient.py:76-155 | every record first sets speed and tank; cmd 2 queues the position, 3 and 5 purge that player's cells, 4 and 9 disconnect, 9 to 13 end the handler, 20 sets the speed; the direction never changes, the position only on cmd 1, the crash flag only on cmds 3 and 4, and the board size only on a cmd 1 that goes on |
| Client.Network.HandleBuffered | asciitron/client/tronclient.py:177-180 | the records are handled in arrival order and fewer than 18 bytes stay buffered, unless a record ends the handler |
| Client.Network.Handle | asciitron/client/tronclient.py:157-182 | a failed or empty recv disconnects and returns False without parsing; otherwise the data is appended and every whole record is handled |

## Left out

- Sockets and `select`: listening, `accept`, `fileno`, `socket.close` and the `xlist` branch that raises
  NotImplementedError are not modelled. Each recv or send result is a parameter. The disconnect and idle sweep
  take a `flush` outcome per send, and `flush(k)` is the send attempt of the k-th record or player.
- The clock: `time.time()` is the parameter `now`. Nitro expiry and the three-second idle test compare against it.
- Floating point: speeds are Dafny `real`. The multipliers 0.9, 1.01 and 1.1, the border band test and the
  nitro share are exact. Python float rounding at the band edges is not reproduced, and `int()` is truncation.
- Logging, `print`, `stop()`, the client's curses drawing, banners, countdown sleeps and beeps, its daemon
  threads, the draw lock, the game loop's timing, `check_win`'s banner and the connect and retry loop. The
  client's dispatcher queue is a sequence field, and `random.randint` is a nondeterministic choice in the range.
- `settings.py` is not part of this model. Its values are `TronServer` constants constrained by `SettingsOk`.
- Python exceptions that end `serve` are `ok == false` with nothing promised afterwards. An exception can never
  occur where the invariant rules it out, such as a KeyError in `remove_from_map`.
- Server.TronServer.SweepIdle: walks a copy of the player list and so removes every idle player. The code as
  written walks the live list; see Findings and `Server.SweepAsWritten`. The cmd 9 each removed player hears
  is stated per player by Retire and not lifted to the whole sweep, because the cmd 5 records of later removals
  follow it in the same stream.
- Server.TronServer.Tick: states the list, map and state outcomes of the win, sweep, reset and start paths, and
  which players the sweep closes. Its sweep is the corrected SweepIdle, which removes every idle player (see
  Findings), so Tick does not model the skipped player of the code as written. The bytes each path queues are
  stated by CheckWinner, Retire and Begin, not repeated here.
- Server.TronServer.IdleRound: its sweep is the corrected SweepIdle, as for Tick.
- Server.TronServer.Begin: sets `gameState` before the three broadcasts, where the code sets it after the first.
  Under the invariant that first broadcast cannot fail, so the outcome is the same.
- Server.Player.HandleMove: states the crash condition, the position, speed and tank outcome of both paths and
  the trail, map and broadcast of an accepted move. It does not restate a crash's trail removal and cmd 3, 4
  and 5 broadcasts, which Crash states.
- Server.Player.HandlePacket: states the activity time, the id, list and trail outcome of cmd 0, the crash
  condition, position, trail, map and tank of cmd 2, and the tank, nitro and speed of cmd 21. For unknown commands
  it states that every other player field, the map, the list and every queued byte stay as they were. It does not
  repeat the bytes a refused hello queues, the speed rules of a move or the broadcasts of a move or crash; those
  are stated by HandleHello, HandleMove and Crash.
- Server.TronServer.SweepIfAllCrashed: its sweep is the corrected SweepIdle, as for Tick.
- Server.Player.HandleRead: states which records are handled and what stays buffered. It does not state the
  bytes queued for other players along the way.
- Server.Player.Disconnect: states that cmd 9 is in the outgoing stream after what was queued (`sent + bufOut`).
  It does not state how much of it the one send attempt moved.
- Server.TronServer.Admit: for a refused connection, states that the refusal and 9 are a prefix of the player's
  stream, not the exact number of bytes sent.
- Client.Network.HandlePacket: does not state the reply bytes of cmd 0 beyond the `Send` contract, nor the
  banners of 3 and 4.
- Speed width: the speed travels as a signed 16-bit field, as the code packs it. It is not a 32-bit one.
- Protocol records are decoded only from exactly 18 or 14 bytes, as both parse loops slice.

## Findings

| source | as written | input that shows it | evidently intended | confidence | as-written member | corrected member |
|---|---|---|---|---|---|---|
| asciitron/server/tronserver.py:320-323 | `for player in self.players:` removes idle players from the list it iterates, so the player after each removed one is skipped | two crashed players, both idle for 3 s or more: the first is removed and the second stays listed | every idle player is disconnected and removed | not executed | Server.SweepAsWrittenMissesIdle | Server.TronServer.SweepIdle |
