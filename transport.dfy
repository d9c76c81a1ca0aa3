/**
 * What a TCP socket call can report back. The socket itself is not modelled:
 * every call's outcome is an input chosen by the environment.
 */
module Transport {
  import opened Protocol

  /** The result of `socket.recv`: an error (socket.error) or the bytes read; no bytes means the peer closed. */
  datatype RecvOutcome = RecvError | Received(data: seq<Byte>)

  /** The result of `socket.send`: an error (socket.error), or room for `room` bytes in the
      kernel's send buffer, so that a send of `data` returns min(room, |data|). */
  datatype SendOutcome = SendError | Sent(room: nat)

  /** How many bytes of `data` a send with outcome `o` accepts. */
  function Accepted(o: SendOutcome, data: seq<Byte>): (n: nat)
    requires o.Sent?
    ensures n <= |data| && n <= o.room
    ensures n == |data| || n == o.room
  {
    if o.room < |data| then o.room else |data|
  }
}
