/**
 * The two fixed-size wire records of asciitron and their byte encodings.
 *
 * Both records are packed with native `struct` formats: "hhiihBh" from the
 * server to a player and "hiih" from a player to the server. The model fixes
 * one concrete layout for "native": little-endian, with the alignment padding
 * a 32-bit or 64-bit host inserts (a pad byte before the last int16 of the
 * server record, two pad bytes before the first int32 of the client record).
 * Packing writes zero pad bytes; unpacking ignores them.
 */
module Protocol {

  type Byte = b: int | 0 <= b < 256

  datatype Option<T> = None | Some(value: T)

  datatype Result<T, E> = Success(value: T) | Failure(error: E)

  /** The only way `struct.pack` fails here: a field value outside its width. */
  datatype PackError = StructError

  /** FMT_TOPLAYER = "hhiihBh": player-no, cmd-no, x, y, speed, nitrotank, misc */
  datatype ToPlayer = ToPlayer(playerNo: int, cmd: int, x: int, y: int, speed: int, nitrotank: int, misc: int)

  /** FMT_TOSERVER = "hiih": cmd-no, x, y, misc */
  datatype ToServer = ToServer(cmd: int, x: int, y: int, misc: int)

  /** struct.calcsize("hhiihBh") with native alignment */
  const TO_PLAYER_SIZE := 18
  /** struct.calcsize("hiih") with native alignment */
  const TO_SERVER_SIZE := 14

  /** Python's int() of a float: truncation toward zero. */
  function Trunc(r: real): (i: int)
    ensures r >= 0.0 ==> i as real <= r < i as real + 1.0
    ensures r < 0.0 ==> i as real - 1.0 < r <= i as real
  {
    if r >= 0.0 then r.Floor else -((-r).Floor)
  }

  // ---------------------------------------------------------------------
  // Integer fields
  // ---------------------------------------------------------------------

  /** Number of distinct values of an n-byte field. */
  function Span(n: nat): (r: int)
    ensures r >= 1
  {
    if n == 0 then 1 else 256 * Span(n - 1)
  }

  // The value ranges of struct's 'h', 'i' and 'B' codes.
  predicate IsInt16(v: int) { -0x8000 <= v < 0x8000 }
  predicate IsInt32(v: int) { -0x8000_0000 <= v < 0x8000_0000 }
  predicate IsUInt8(v: int) { 0 <= v < 0x100 }

  /** Unsigned little-endian encoding of `u` in exactly `n` bytes (higher bits dropped). */
  function LittleEndian(u: nat, n: nat): seq<Byte>
  {
    if n == 0 then [] else [u % 256] + LittleEndian(u / 256, n - 1)
  }

  /** The unsigned value of a little-endian byte string. */
  function FromLittleEndian(s: seq<Byte>): nat
  {
    if s == [] then 0 else s[0] + 256 * FromLittleEndian(s[1..])
  }

  /** Two's complement encoding of a signed value in `n` bytes. */
  function Signed(v: int, n: nat): seq<Byte>
    requires -Span(n) <= v
  {
    LittleEndian(if v < 0 then v + Span(n) else v, n)
  }

  /** Two's complement reading of a little-endian byte string. */
  function FromSigned(s: seq<Byte>): int
  {
    var u := FromLittleEndian(s);
    if 2 * u >= Span(|s|) then u - Span(|s|) else u
  }

  lemma {:induction false} LittleEndianLength(u: nat, n: nat)
    ensures |LittleEndian(u, n)| == n
  {
    if n > 0 {
      LittleEndianLength(u / 256, n - 1);
    }
  }

  lemma {:induction false} LittleEndianRoundTrip(u: nat, n: nat)
    requires u < Span(n)
    ensures |LittleEndian(u, n)| == n
    ensures FromLittleEndian(LittleEndian(u, n)) == u
  {
    LittleEndianLength(u, n);
    if n > 0 {
      var s := LittleEndian(u, n);
      assert s[1..] == LittleEndian(u / 256, n - 1);
      LittleEndianRoundTrip(u / 256, n - 1);
    }
  }

  lemma {:induction false} FromLittleEndianBound(s: seq<Byte>)
    ensures FromLittleEndian(s) < Span(|s|)
  {
    if s != [] {
      FromLittleEndianBound(s[1..]);
    }
  }

  lemma {:induction false} LittleEndianOfValue(s: seq<Byte>)
    ensures LittleEndian(FromLittleEndian(s), |s|) == s
  {
    if s != [] {
      var rest := FromLittleEndian(s[1..]);
      LittleEndianOfValue(s[1..]);
      ByteDivMod(s[0], rest);
      assert s == [s[0]] + s[1..];
    }
  }

  lemma ByteDivMod(lo: Byte, hi: nat)
    ensures (lo + 256 * hi) % 256 == lo
    ensures (lo + 256 * hi) / 256 == hi
  {
  }

  /** Decoding an encoded signed field gives the value back when it fits the width. */
  lemma SignedRoundTrip(v: int, n: nat)
    requires n > 0
    requires -Span(n) <= 2 * v < Span(n)
    ensures |Signed(v, n)| == n
    ensures FromSigned(Signed(v, n)) == v
  {
    LittleEndianRoundTrip(if v < 0 then v + Span(n) else v, n);
  }

  /** Every byte string reads back as a value of its width, and re-encodes to itself. */
  lemma SignedOfValue(s: seq<Byte>)
    requires |s| > 0
    ensures -Span(|s|) <= 2 * FromSigned(s) < Span(|s|)
    ensures Signed(FromSigned(s), |s|) == s
  {
    FromLittleEndianBound(s);
    LittleEndianOfValue(s);
  }

  lemma SpanValues()
    ensures Span(1) == 0x100 && Span(2) == 0x1_0000 && Span(4) == 0x1_0000_0000
  {
    assert Span(3) == 0x100_0000;
  }

  lemma Int16RoundTrip(v: int)
    requires IsInt16(v)
    ensures |Int16(v)| == 2 && FromSigned(Int16(v)) == v
  {
    SpanValues();
    SignedRoundTrip(v, 2);
  }

  lemma Int32RoundTrip(v: int)
    requires IsInt32(v)
    ensures |Int32(v)| == 4 && FromSigned(Int32(v)) == v
  {
    SpanValues();
    SignedRoundTrip(v, 4);
  }

  lemma UInt8RoundTrip(v: int)
    requires IsUInt8(v)
    ensures |UInt8(v)| == 1 && FromLittleEndian(UInt8(v)) == v
  {
    SpanValues();
    LittleEndianRoundTrip(v, 1);
  }

  function Int16(v: int): seq<Byte>
    requires IsInt16(v)
  {
    SpanValues();
    Signed(v, 2)
  }

  function Int32(v: int): seq<Byte>
    requires IsInt32(v)
  {
    SpanValues();
    Signed(v, 4)
  }

  function UInt8(v: int): seq<Byte>
    requires IsUInt8(v)
  {
    SpanValues();
    LittleEndian(v, 1)
  }

  // ---------------------------------------------------------------------
  // Records
  // ---------------------------------------------------------------------

  /** Every field of a server-to-player record fits its declared width. */
  predicate ToPlayerFits(r: ToPlayer)
  {
    IsInt16(r.playerNo) && IsInt16(r.cmd) && IsInt32(r.x) && IsInt32(r.y) &&
    IsInt16(r.speed) && IsUInt8(r.nitrotank) && IsInt16(r.misc)
  }

  /** Every field of a player-to-server record fits its declared width. */
  predicate ToServerFits(r: ToServer)
  {
    IsInt16(r.cmd) && IsInt32(r.x) && IsInt32(r.y) && IsInt16(r.misc)
  }

  /** struct.pack(FMT_TOPLAYER, ...) */
  function EncodeToPlayer(r: ToPlayer): (res: Result<seq<Byte>, PackError>)
    ensures res.Success? <==> ToPlayerFits(r)
    ensures res.Success? ==> |res.value| == TO_PLAYER_SIZE
  {
    if !ToPlayerFits(r) then Failure(StructError)
    else
      var b := Int16(r.playerNo) + Int16(r.cmd) + Int32(r.x) + Int32(r.y) +
               Int16(r.speed) + UInt8(r.nitrotank) + [0] + Int16(r.misc);
      Int16RoundTrip(r.playerNo); Int16RoundTrip(r.cmd); Int32RoundTrip(r.x); Int32RoundTrip(r.y);
      Int16RoundTrip(r.speed); UInt8RoundTrip(r.nitrotank); Int16RoundTrip(r.misc);
      Success(b)
  }

  /** struct.unpack(FMT_TOPLAYER, b) */
  function DecodeToPlayer(b: seq<Byte>): ToPlayer
    requires |b| == TO_PLAYER_SIZE
  {
    ToPlayer(FromSigned(b[0..2]), FromSigned(b[2..4]), FromSigned(b[4..8]), FromSigned(b[8..12]),
             FromSigned(b[12..14]), FromLittleEndian(b[14..15]), FromSigned(b[16..18]))
  }

  /** struct.pack(FMT_TOSERVER, ...) */
  function EncodeToServer(r: ToServer): (res: Result<seq<Byte>, PackError>)
    ensures res.Success? <==> ToServerFits(r)
    ensures res.Success? ==> |res.value| == TO_SERVER_SIZE
  {
    if !ToServerFits(r) then Failure(StructError)
    else
      var b := Int16(r.cmd) + [0, 0] + Int32(r.x) + Int32(r.y) + Int16(r.misc);
      Int16RoundTrip(r.cmd); Int32RoundTrip(r.x); Int32RoundTrip(r.y); Int16RoundTrip(r.misc);
      Success(b)
  }

  /** struct.unpack(FMT_TOSERVER, b) */
  function DecodeToServer(b: seq<Byte>): ToServer
    requires |b| == TO_SERVER_SIZE
  {
    ToServer(FromSigned(b[0..2]), FromSigned(b[4..8]), FromSigned(b[8..12]), FromSigned(b[12..14]))
  }

  // ---------------------------------------------------------------------
  // Layout and round trips
  // ---------------------------------------------------------------------

  /** A server-to-player record is player-no, cmd, x, y, speed, nitrotank, a zero pad byte, misc. */
  lemma ToPlayerLayout(r: ToPlayer)
    requires ToPlayerFits(r)
    ensures var b := EncodeToPlayer(r).value;
      && b[0..2] == Int16(r.playerNo) && b[2..4] == Int16(r.cmd)
      && b[4..8] == Int32(r.x) && b[8..12] == Int32(r.y)
      && b[12..14] == Int16(r.speed) && b[14..15] == UInt8(r.nitrotank)
      && b[15] == 0 && b[16..18] == Int16(r.misc)
  {
    Int16RoundTrip(r.playerNo); Int16RoundTrip(r.cmd); Int32RoundTrip(r.x); Int32RoundTrip(r.y);
    Int16RoundTrip(r.speed); UInt8RoundTrip(r.nitrotank); Int16RoundTrip(r.misc);
    var b := EncodeToPlayer(r).value;
    var head := Int16(r.playerNo) + Int16(r.cmd);
    assert head[2..4] == Int16(r.cmd);
    assert b == head + Int32(r.x) + Int32(r.y) + Int16(r.speed) + UInt8(r.nitrotank) + [0] + Int16(r.misc);
    assert b[0..4] == head;
  }

  /** A player-to-server record is cmd, two zero pad bytes, x, y, misc. */
  lemma ToServerLayout(r: ToServer)
    requires ToServerFits(r)
    ensures var b := EncodeToServer(r).value;
      && b[0..2] == Int16(r.cmd) && b[2..4] == [0, 0]
      && b[4..8] == Int32(r.x) && b[8..12] == Int32(r.y) && b[12..14] == Int16(r.misc)
  {
    Int16RoundTrip(r.cmd); Int32RoundTrip(r.x); Int32RoundTrip(r.y); Int16RoundTrip(r.misc);
    var b := EncodeToServer(r).value;
    assert b == Int16(r.cmd) + [0, 0] + Int32(r.x) + Int32(r.y) + Int16(r.misc);
  }

  /** Unpacking a packed server-to-player record gives back every field. */
  lemma ToPlayerRoundTrip(r: ToPlayer)
    requires ToPlayerFits(r)
    ensures EncodeToPlayer(r).Success?
    ensures DecodeToPlayer(EncodeToPlayer(r).value) == r
  {
    ToPlayerLayout(r);
    Int16RoundTrip(r.playerNo); Int16RoundTrip(r.cmd); Int32RoundTrip(r.x); Int32RoundTrip(r.y);
    Int16RoundTrip(r.speed); UInt8RoundTrip(r.nitrotank); Int16RoundTrip(r.misc);
  }

  /** Unpacking a packed player-to-server record gives back every field. */
  lemma ToServerRoundTrip(r: ToServer)
    requires ToServerFits(r)
    ensures EncodeToServer(r).Success?
    ensures DecodeToServer(EncodeToServer(r).value) == r
  {
    ToServerLayout(r);
    Int16RoundTrip(r.cmd); Int32RoundTrip(r.x); Int32RoundTrip(r.y); Int16RoundTrip(r.misc);
  }

  /** Any 18 bytes unpack to a record whose fields fit, and that record packs back to the same
      bytes when the pad byte is zero. */
  lemma ToPlayerDecodeEncode(b: seq<Byte>)
    requires |b| == TO_PLAYER_SIZE
    ensures ToPlayerFits(DecodeToPlayer(b))
    ensures b[15] == 0 <==> EncodeToPlayer(DecodeToPlayer(b)) == Success(b)
  {
    SpanValues();
    SignedOfValue(b[0..2]); SignedOfValue(b[2..4]); SignedOfValue(b[4..8]); SignedOfValue(b[8..12]);
    SignedOfValue(b[12..14]); SignedOfValue(b[16..18]);
    FromLittleEndianBound(b[14..15]); LittleEndianOfValue(b[14..15]);
    var r := DecodeToPlayer(b);
    if b[15] == 0 {
      ToPlayerLayout(r);
      var e := EncodeToPlayer(r).value;
      assert e == e[0..2] + e[2..4] + e[4..8] + e[8..12] + e[12..14] + e[14..15] + [e[15]] + e[16..18];
      assert b == b[0..2] + b[2..4] + b[4..8] + b[8..12] + b[12..14] + b[14..15] + [b[15]] + b[16..18];
    } else {
      ToPlayerLayout(r);
    }
  }

  /** Any 14 bytes unpack to a record whose fields fit, and that record packs back to the same
      bytes when both pad bytes are zero. */
  lemma ToServerDecodeEncode(b: seq<Byte>)
    requires |b| == TO_SERVER_SIZE
    ensures ToServerFits(DecodeToServer(b))
    ensures b[2..4] == [0, 0] <==> EncodeToServer(DecodeToServer(b)) == Success(b)
  {
    SpanValues();
    SignedOfValue(b[0..2]); SignedOfValue(b[4..8]); SignedOfValue(b[8..12]); SignedOfValue(b[12..14]);
    var r := DecodeToServer(b);
    ToServerLayout(r);
    if b[2..4] == [0, 0] {
      var e := EncodeToServer(r).value;
      assert e == e[0..2] + e[2..4] + e[4..8] + e[8..12] + e[12..14];
      assert b == b[0..2] + b[2..4] + b[4..8] + b[8..12] + b[12..14];
    }
  }

  // ---------------------------------------------------------------------
  // Framing: nothing delimits records, so a byte stream is cut into
  // consecutive pieces of the record size and a shorter tail stays buffered.
  // ---------------------------------------------------------------------

  /** What stays in an input buffer after every whole record of size `n` has been taken off. */
  function Leftover(b: seq<Byte>, n: nat): (r: seq<Byte>)
    requires n > 0
    ensures |r| < n && |r| <= |b|
    decreases |b|
  {
    if |b| < n then b else Leftover(b[n..], n)
  }

  /** The leftover is the tail of the buffer that follows the whole records. */
  lemma {:induction false} LeftoverIsTail(b: seq<Byte>, n: nat)
    requires n > 0
    ensures Leftover(b, n) == b[|b| - |Leftover(b, n)|..]
    decreases |b|
  {
    if |b| >= n {
      LeftoverIsTail(b[n..], n);
    }
  }

  /** The server-to-player records at the front of a buffer, in arrival order. */
  function ToPlayerRecords(b: seq<Byte>): (rs: seq<ToPlayer>)
    ensures |rs| == |b| / TO_PLAYER_SIZE
    decreases |b|
  {
    if |b| < TO_PLAYER_SIZE then []
    else [DecodeToPlayer(b[..TO_PLAYER_SIZE])] + ToPlayerRecords(b[TO_PLAYER_SIZE..])
  }

  /** The player-to-server records at the front of a buffer, in arrival order. */
  function ToServerRecords(b: seq<Byte>): (rs: seq<ToServer>)
    ensures |rs| == |b| / TO_SERVER_SIZE
    decreases |b|
  {
    if |b| < TO_SERVER_SIZE then []
    else [DecodeToServer(b[..TO_SERVER_SIZE])] + ToServerRecords(b[TO_SERVER_SIZE..])
  }

  lemma ToPlayerRecordsUnfold(b: seq<Byte>)
    requires |b| >= TO_PLAYER_SIZE
    ensures ToPlayerRecords(b) == [DecodeToPlayer(b[..TO_PLAYER_SIZE])] + ToPlayerRecords(b[TO_PLAYER_SIZE..])
    ensures Leftover(b, TO_PLAYER_SIZE) == Leftover(b[TO_PLAYER_SIZE..], TO_PLAYER_SIZE)
  {
  }

  lemma ToPlayerRecordsCons(first: seq<Byte>, rest: seq<Byte>)
    requires |first| == TO_PLAYER_SIZE
    ensures ToPlayerRecords(first + rest) == [DecodeToPlayer(first)] + ToPlayerRecords(rest)
    ensures Leftover(first + rest, TO_PLAYER_SIZE) == Leftover(rest, TO_PLAYER_SIZE)
  {
    var b := first + rest;
    assert b[..TO_PLAYER_SIZE] == first && b[TO_PLAYER_SIZE..] == rest;
  }

  /** The k-th record of a stream is read from bytes k*18 .. k*18+18. */
  lemma {:induction false} ToPlayerRecordAt(b: seq<Byte>, k: nat)
    requires k < |b| / TO_PLAYER_SIZE
    ensures ToPlayerRecords(b)[k] == DecodeToPlayer(b[k * TO_PLAYER_SIZE..(k + 1) * TO_PLAYER_SIZE])
  {
    if k > 0 {
      ToPlayerRecordAt(b[TO_PLAYER_SIZE..], k - 1);
      assert b[TO_PLAYER_SIZE..][(k - 1) * TO_PLAYER_SIZE..k * TO_PLAYER_SIZE]
          == b[k * TO_PLAYER_SIZE..(k + 1) * TO_PLAYER_SIZE];
    }
  }

  lemma ToServerRecordsUnfold(b: seq<Byte>)
    requires |b| >= TO_SERVER_SIZE
    ensures ToServerRecords(b) == [DecodeToServer(b[..TO_SERVER_SIZE])] + ToServerRecords(b[TO_SERVER_SIZE..])
    ensures Leftover(b, TO_SERVER_SIZE) == Leftover(b[TO_SERVER_SIZE..], TO_SERVER_SIZE)
  {
  }

  lemma ToServerRecordsCons(first: seq<Byte>, rest: seq<Byte>)
    requires |first| == TO_SERVER_SIZE
    ensures ToServerRecords(first + rest) == [DecodeToServer(first)] + ToServerRecords(rest)
    ensures Leftover(first + rest, TO_SERVER_SIZE) == Leftover(rest, TO_SERVER_SIZE)
  {
    var b := first + rest;
    assert b[..TO_SERVER_SIZE] == first && b[TO_SERVER_SIZE..] == rest;
  }

  /** The k-th record of a stream is read from bytes k*14 .. k*14+14. */
  lemma {:induction false} ToServerRecordAt(b: seq<Byte>, k: nat)
    requires k < |b| / TO_SERVER_SIZE
    ensures ToServerRecords(b)[k] == DecodeToServer(b[k * TO_SERVER_SIZE..(k + 1) * TO_SERVER_SIZE])
  {
    if k > 0 {
      ToServerRecordAt(b[TO_SERVER_SIZE..], k - 1);
      assert b[TO_SERVER_SIZE..][(k - 1) * TO_SERVER_SIZE..k * TO_SERVER_SIZE]
          == b[k * TO_SERVER_SIZE..(k + 1) * TO_SERVER_SIZE];
    }
  }

  /** Packed records sent back to back are read back one for one, with nothing left over. */
  lemma {:induction false} ToServerStream(rs: seq<ToServer>, tail: seq<Byte>)
    requires forall i :: 0 <= i < |rs| ==> ToServerFits(rs[i])
    requires |tail| < TO_SERVER_SIZE
    ensures ToServerRecords(PackAllToServer(rs) + tail) == rs
    ensures Leftover(PackAllToServer(rs) + tail, TO_SERVER_SIZE) == tail
  {
    if rs != [] {
      var first := EncodeToServer(rs[0]).value;
      ToServerRoundTrip(rs[0]);
      var rest := PackAllToServer(rs[1..]) + tail;
      ToServerStream(rs[1..], tail);
      assert PackAllToServer(rs) + tail == first + rest;
      ToServerRecordsCons(first, rest);
    }
  }

  /** Packed server-to-player records sent back to back are read back one for one. */
  lemma {:induction false} ToPlayerStream(rs: seq<ToPlayer>, tail: seq<Byte>)
    requires forall i :: 0 <= i < |rs| ==> ToPlayerFits(rs[i])
    requires |tail| < TO_PLAYER_SIZE
    ensures ToPlayerRecords(PackAllToPlayer(rs) + tail) == rs
    ensures Leftover(PackAllToPlayer(rs) + tail, TO_PLAYER_SIZE) == tail
  {
    if rs != [] {
      var first := EncodeToPlayer(rs[0]).value;
      ToPlayerRoundTrip(rs[0]);
      var rest := PackAllToPlayer(rs[1..]) + tail;
      ToPlayerStream(rs[1..], tail);
      assert PackAllToPlayer(rs) + tail == first + rest;
      ToPlayerRecordsCons(first, rest);
    }
  }

  /** The byte stream of several player-to-server records packed one after another. */
  function PackAllToServer(rs: seq<ToServer>): (b: seq<Byte>)
    requires forall i :: 0 <= i < |rs| ==> ToServerFits(rs[i])
    ensures |b| == |rs| * TO_SERVER_SIZE
  {
    if rs == [] then [] else EncodeToServer(rs[0]).value + PackAllToServer(rs[1..])
  }

  /** The byte stream of several server-to-player records packed one after another. */
  function PackAllToPlayer(rs: seq<ToPlayer>): (b: seq<Byte>)
    requires forall i :: 0 <= i < |rs| ==> ToPlayerFits(rs[i])
    ensures |b| == |rs| * TO_PLAYER_SIZE
  {
    if rs == [] then [] else EncodeToPlayer(rs[0]).value + PackAllToPlayer(rs[1..])
  }
}
