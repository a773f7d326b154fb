/** CAN frames and the two message formats: little-endian 32-bit centidegrees. */
module Codec {
  import opened JointTypes

  datatype Option<T> = None | Some(value: T)

  type byte = x: int | 0 <= x < 256

  datatype RawFrame = RawFrame(id: nat, length: byte, data: seq<byte>)

  /** A frame always holds eight data bytes, of which `length` count. */
  type CanFrame = f: RawFrame | |f.data| == 8
    witness RawFrame(0, 0, [0, 0, 0, 0, 0, 0, 0, 0])

  const EMPTY_FRAME: CanFrame := RawFrame(0, 0, [0, 0, 0, 0, 0, 0, 0, 0])
  const COMMAND_ID: nat := 0x100
  const STATE_ID: nat := 0x200

  // ---------------------------------------------------------------- 32-bit integers

  const WORD: int := 0x1_0000_0000

  predicate IsInt32(v: int) { -0x8000_0000 <= v < 0x8000_0000 }
  predicate IsUInt32(u: int) { 0 <= u < WORD }

  /** The conversions between signed and unsigned, modulo 2^32. */
  function ToUnsigned(v: int): (u: int)
    ensures IsUInt32(u)
  {
    v % WORD
  }

  function ToSigned(u: int): (v: int)
    requires IsUInt32(u)
    ensures IsInt32(v)
  {
    if u < 0x8000_0000 then u else u - WORD
  }

  lemma SignedRoundTrip(v: int)
    requires IsInt32(v)
    ensures ToSigned(ToUnsigned(v)) == v
  {
  }

  lemma UnsignedRoundTrip(u: int)
    requires IsUInt32(u)
    ensures ToUnsigned(ToSigned(u)) == u
  {
  }

  /** What four bytes mean: the first is the least significant. */
  function LittleEndian(b: seq<byte>): nat {
    if b == [] then 0 else b[0] + 256 * LittleEndian(b[1..])
  }

  /** Shift and mask, byte by byte. */
  function Pack(v: int): (b: seq<byte>)
    ensures |b| == 4
  {
    var u := ToUnsigned(v);
    [u % 256, (u / 0x100) % 256, (u / 0x1_0000) % 256, (u / 0x100_0000) % 256]
  }

  /** Four bytes, shifted into place; they have no bit in common, so `|` joins them by adding. */
  function Join(b0: int, b1: int, b2: int, b3: int): int {
    b0 + b1 * 0x100 + b2 * 0x1_0000 + b3 * 0x100_0000
  }

  function Unpack(b: seq<byte>): (v: int)
    requires |b| == 4
    ensures IsInt32(v)
  {
    ToSigned(Join(b[0], b[1], b[2], b[3]))
  }

  lemma LittleEndianFour(b: seq<byte>)
    requires |b| == 4
    ensures LittleEndian(b) == Join(b[0], b[1], b[2], b[3])
  {
    assert b[3..][1..] == [];
    var v4 := LittleEndian(b[3..][1..]);
    assert v4 == 0;
    var v3 := LittleEndian(b[3..]);
    assert b[2..][1..] == b[3..];
    var v2 := LittleEndian(b[2..]);
    assert b[1..][1..] == b[2..];
    var v1 := LittleEndian(b[1..]);
    assert v3 == b[3] + 256 * v4 && v2 == b[2] + 256 * v3 && v1 == b[1] + 256 * v2;
  }

  lemma BytesOf(u: int)
    requires IsUInt32(u)
    ensures u == u % 256 + (u / 0x100) % 256 * 0x100 + (u / 0x1_0000) % 256 * 0x1_0000 + (u / 0x100_0000) % 256 * 0x100_0000
  {
    var q1 := u / 0x100;
    var q2 := q1 / 0x100;
    var q3 := q2 / 0x100;
    assert q2 == u / 0x1_0000 && q3 == u / 0x100_0000;
  }

  /** The packed bytes are the little-endian two's complement of the value. */
  lemma PackMeaning(v: int)
    ensures LittleEndian(Pack(v)) == v % WORD
  {
    LittleEndianFour(Pack(v));
    BytesOf(ToUnsigned(v));
  }

  lemma UnpackPack(v: int)
    requires IsInt32(v)
    ensures Unpack(Pack(v)) == v
  {
    BytesOf(ToUnsigned(v));
    SignedRoundTrip(v);
  }

  lemma PackUnpack(b: seq<byte>)
    requires |b| == 4
    ensures Pack(Unpack(b)) == b
  {
    var b0: int, b1: int, b2: int, b3: int := b[0], b[1], b[2], b[3];
    var u := Join(b0, b1, b2, b3);
    UnsignedRoundTrip(u);
    ShiftOut(b0, b1 + b2 * 0x100 + b3 * 0x1_0000);
    ShiftOut(b1, b2 + b3 * 0x100);
    ShiftOut(b2, b3);
    assert u / 0x1_0000 == u / 0x100 / 0x100 && u / 0x100_0000 == u / 0x1_0000 / 0x100;
  }

  lemma ShiftOut(low: int, high: int)
    requires 0 <= low < 256
    ensures (low + 0x100 * high) / 0x100 == high && (low + 0x100 * high) % 0x100 == low
  {
  }

  // ---------------------------------------------------------------- degrees

  /** Conversion to an integer truncates toward zero. */
  function Truncate(x: real): int {
    if x >= 0.0 then x.Floor else -(-x).Floor
  }

  function Centi(x: real): int {
    Truncate(x * 100.0)
  }

  /** The conversion to int32 is defined. */
  predicate Encodable(x: real) {
    IsInt32(Centi(x))
  }

  function Degrees(v: int): real {
    v as real / 100.0
  }

  function Abs(x: real): real {
    if x >= 0.0 then x else -x
  }

  /** What survives the resolution of 0.01: the sign and the hundredths, cut off toward zero; all of
      it exactly when `x` is a number of hundredths. */
  ghost predicate Rounded(y: real, x: real) {
    && (x >= 0.0 ==> y >= 0.0) && (x <= 0.0 ==> y <= 0.0)
    && Abs(y) <= Abs(x) && Abs(x) - Abs(y) < 0.01
    && ((exists n: int :: x == Degrees(n)) <==> y == x)
  }

  lemma CentiRounds(x: real)
    ensures Rounded(Degrees(Centi(x)), x)
  {
    assert Degrees(Centi(x)) == x ==> exists n: int :: x == Degrees(n);
    if n: int :| x == Degrees(n) {
      assert x * 100.0 == n as real;
      assert (-x) * 100.0 == (-n) as real;
      assert Centi(x) == n;
    }
  }

  // ---------------------------------------------------------------- command frames

  /** The frame of a command. */
  function CommandFrame(command: JointCommand): CanFrame {
    RawFrame(COMMAND_ID, 4, Pack(Centi(command.targetPosition)) + [0, 0, 0, 0])
  }

  function DecodeCommand(frame: CanFrame): Option<JointCommand> {
    if frame.id != COMMAND_ID || frame.length != 4 then None
    else Some(JointCommand(Degrees(Unpack(frame.data[..4]))))
  }

  method EncodeCommand(command: JointCommand) returns (frame: CanFrame)
    requires Encodable(command.targetPosition)
    ensures frame == CommandFrame(command)
  {
    frame := EMPTY_FRAME.(id := COMMAND_ID, length := 4);
    var value := ToUnsigned(Centi(command.targetPosition));
    frame := frame.(data := frame.data[0 := value % 256]);
    frame := frame.(data := frame.data[1 := (value / 0x100) % 256]);
    frame := frame.(data := frame.data[2 := (value / 0x1_0000) % 256]);
    frame := frame.(data := frame.data[3 := (value / 0x100_0000) % 256]);
  }

  /** Decoding leaves the command it was given alone when the frame is not a command. */
  method ReadCommand(frame: CanFrame, given: JointCommand) returns (ok: bool, command: JointCommand)
    ensures ok <==> DecodeCommand(frame).Some?
    ensures command == if ok then DecodeCommand(frame).value else given
  {
    command := given;
    if frame.id != COMMAND_ID {
      return false, command;
    }
    if frame.length != 4 {
      return false, command;
    }
    var value := Join(frame.data[0], frame.data[1], frame.data[2], frame.data[3]);
    return true, JointCommand(Degrees(ToSigned(value)));
  }

  /** Decoding an encoded command gives back its target, cut to hundredths. */
  lemma CommandRoundTrip(command: JointCommand)
    requires Encodable(command.targetPosition)
    ensures DecodeCommand(CommandFrame(command)).Some?
    ensures Rounded(DecodeCommand(CommandFrame(command)).value.targetPosition, command.targetPosition)
  {
    var v := Centi(command.targetPosition);
    assert CommandFrame(command).data[..4] == Pack(v);
    UnpackPack(v);
    CentiRounds(command.targetPosition);
  }

  /** What a command is on the bus. */
  lemma CommandLayout(command: JointCommand, frame: CanFrame)
    ensures var f := CommandFrame(command);
            && f.id == 0x100 && f.length == 4 && f.data[4..] == [0, 0, 0, 0]
            && LittleEndian(f.data[..4]) == Truncate(100.0 * command.targetPosition) % 0x1_0000_0000
    ensures DecodeCommand(frame).Some? <==> frame.id == 0x100 && frame.length == 4
  {
    var v := Centi(command.targetPosition);
    assert CommandFrame(command).data[..4] == Pack(v);
    PackMeaning(v);
  }

  /** Different data bytes mean different commands: decoding loses nothing of the payload. */
  lemma CommandBytesMatter(f: CanFrame, g: CanFrame)
    requires DecodeCommand(f).Some? && DecodeCommand(f) == DecodeCommand(g)
    ensures f.id == g.id && f.length == g.length && f.data[..4] == g.data[..4]
  {
    SameField(f.data[..4], g.data[..4]);
  }

  lemma SameField(a: seq<byte>, b: seq<byte>)
    requires |a| == |b| == 4 && Degrees(Unpack(a)) == Degrees(Unpack(b))
    ensures a == b
  {
    var v, w := Unpack(a), Unpack(b);
    assert Degrees(v) * 100.0 == v as real && Degrees(w) * 100.0 == w as real;
    PackUnpack(a);
    PackUnpack(b);
  }

  // ---------------------------------------------------------------- state frames

  function StateFrame(state: JointState): CanFrame {
    RawFrame(STATE_ID, 8, Pack(Centi(state.position)) + Pack(Centi(state.velocity)))
  }

  function DecodeState(frame: CanFrame): Option<JointState> {
    if frame.id != STATE_ID || frame.length != 8 then None
    else Some(JointState(Degrees(Unpack(frame.data[..4])), Degrees(Unpack(frame.data[4..]))))
  }

  predicate EncodableState(state: JointState) {
    Encodable(state.position) && Encodable(state.velocity)
  }

  method EncodeState(state: JointState) returns (frame: CanFrame)
    requires EncodableState(state)
    ensures frame == StateFrame(state)
  {
    frame := EMPTY_FRAME.(id := STATE_ID, length := 8);
    var position := ToUnsigned(Centi(state.position));
    var velocity := ToUnsigned(Centi(state.velocity));
    frame := frame.(data := frame.data[0 := position % 256]);
    frame := frame.(data := frame.data[1 := (position / 0x100) % 256]);
    frame := frame.(data := frame.data[2 := (position / 0x1_0000) % 256]);
    frame := frame.(data := frame.data[3 := (position / 0x100_0000) % 256]);
    frame := frame.(data := frame.data[4 := velocity % 256]);
    frame := frame.(data := frame.data[5 := (velocity / 0x100) % 256]);
    frame := frame.(data := frame.data[6 := (velocity / 0x1_0000) % 256]);
    frame := frame.(data := frame.data[7 := (velocity / 0x100_0000) % 256]);
  }

  method ReadState(frame: CanFrame, given: JointState) returns (ok: bool, state: JointState)
    ensures ok <==> DecodeState(frame).Some?
    ensures state == if ok then DecodeState(frame).value else given
  {
    state := given;
    if frame.id != STATE_ID {
      return false, state;
    }
    if frame.length != 8 {
      return false, state;
    }
    var position := Join(frame.data[0], frame.data[1], frame.data[2], frame.data[3]);
    var velocity := Join(frame.data[4], frame.data[5], frame.data[6], frame.data[7]);
    return true, JointState(Degrees(ToSigned(position)), Degrees(ToSigned(velocity)));
  }

  /** Both fields of a state come back, each cut to hundredths, neither mixed with the other. */
  lemma StateRoundTrip(state: JointState)
    requires EncodableState(state)
    ensures DecodeState(StateFrame(state)).Some?
    ensures Rounded(DecodeState(StateFrame(state)).value.position, state.position)
    ensures Rounded(DecodeState(StateFrame(state)).value.velocity, state.velocity)
  {
    var p, v, frame := Centi(state.position), Centi(state.velocity), StateFrame(state);
    assert frame.data[..4] == Pack(p) && frame.data[4..] == Pack(v);
    UnpackPack(p);
    UnpackPack(v);
    CentiRounds(state.position);
    CentiRounds(state.velocity);
  }

  /** What a state is on the bus: the position in the first four bytes, the velocity in the last. */
  lemma StateLayout(state: JointState, frame: CanFrame)
    ensures var f := StateFrame(state);
            && f.id == 0x200 && f.length == 8
            && LittleEndian(f.data[..4]) == Truncate(100.0 * state.position) % 0x1_0000_0000
            && LittleEndian(f.data[4..]) == Truncate(100.0 * state.velocity) % 0x1_0000_0000
    ensures DecodeState(frame).Some? <==> frame.id == 0x200 && frame.length == 8
  {
    var p, v, f := Centi(state.position), Centi(state.velocity), StateFrame(state);
    assert f.data[..4] == Pack(p) && f.data[4..] == Pack(v);
    PackMeaning(p);
    PackMeaning(v);
  }

  lemma StateBytesMatter(f: CanFrame, g: CanFrame)
    requires DecodeState(f).Some? && DecodeState(f) == DecodeState(g)
    ensures f == g
  {
    hide Unpack, Degrees;
    SameField(f.data[..4], g.data[..4]);
    SameField(f.data[4..], g.data[4..]);
    assert f.data == f.data[..4] + f.data[4..] && g.data == g.data[..4] + g.data[4..];
  }

  /** The two messages cannot be taken for each other. */
  lemma FramesAreDistinct(frame: CanFrame)
    ensures !(DecodeCommand(frame).Some? && DecodeState(frame).Some?)
  {
  }
}
