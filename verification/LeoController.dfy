/** The command building of modbus_controller_leo.py: the clamped RPM
    counter behind the +/- buttons, the `01065000xxxx` speed command, the
    three fixed direction/stop commands, and the frame `send_modbus_command`
    writes: the decoded hex command followed by its CRC, low byte first. */
module LeoController {
  import opened Wrappers
  import opened Bytes
  import opened Hex
  import opened Crc
  import RtuFrame

  const RPM_STEP: int := 10
  const RPM_MAX: int := 100
  /** The counter is sent multiplied by this factor (two decimal places). */
  const RPM_SCALE: int := 100

  const CMD_CW: string := "010660000001"
  const CMD_CCW: string := "010660000002"
  const CMD_STOP: string := "010660000005"

  /** The values the counter can hold: a multiple of 10 in 0..100. */
  predicate ValidRpm(v: int) {
    0 <= v <= RPM_MAX && v % RPM_STEP == 0
  }

  /** `increase_rpm` (modbus_controller_leo.py lines 123-125): one press of
      "+". */
  function IncreaseRpm(v: int): (r: int)
    ensures r <= RPM_MAX
    ensures v <= RPM_MAX - RPM_STEP ==> r == v + RPM_STEP
    ensures ValidRpm(v) ==> ValidRpm(r)
    ensures v == RPM_MAX ==> r == v
  {
    if v + RPM_STEP < RPM_MAX then v + RPM_STEP else RPM_MAX
  }

  /** `decrease_rpm` (modbus_controller_leo.py lines 127-129): one press of
      "-". */
  function DecreaseRpm(v: int): (r: int)
    ensures r >= 0
    ensures v >= RPM_STEP ==> r == v - RPM_STEP
    ensures ValidRpm(v) ==> ValidRpm(r)
    ensures v == 0 ==> r == v
  {
    if v - RPM_STEP > 0 then v - RPM_STEP else 0
  }

  datatype Press = Plus | Minus

  /** The counter after a sequence of button presses, first press first.
      Every value reachable from a valid counter is valid; in particular
      from the initial 0 (modbus_controller_leo.py line 28). The counter
      never leaves 0..100 once it is in it. */
  function ApplyPresses(v: int, presses: seq<Press>): (r: int)
    ensures ValidRpm(v) ==> ValidRpm(r)
    ensures 0 <= v <= RPM_MAX ==> 0 <= r <= RPM_MAX
    decreases |presses|
  {
    if |presses| == 0 then v
    else
      var next := if presses[0] == Plus then IncreaseRpm(v) else DecreaseRpm(v);
      ApplyPresses(next, presses[1..])
  }

  /** Conversely, every valid value is reached from 0 by `v / 10` presses
      of "+". */
  lemma {:induction false} PlusPressesReach(v: int)
    requires ValidRpm(v)
    ensures ApplyPresses(0, seq(v / RPM_STEP, _ => Plus)) == v
    decreases v
  {
    if v > 0 {
      var k := v / RPM_STEP;
      var ps := seq(k, _ => Plus);
      PlusPressesReachFrom(0, k);
    }
  }

  /** `k` presses of "+" from a valid `v` add `10 k`, up to the maximum. */
  lemma {:induction false} PlusPressesReachFrom(v: int, k: nat)
    requires ValidRpm(v) && v + RPM_STEP * k <= RPM_MAX
    ensures ApplyPresses(v, seq(k, _ => Plus)) == v + RPM_STEP * k
    decreases k
  {
    if k > 0 {
      var ps := seq(k, _ => Plus);
      assert ps[0] == Plus;
      assert ps[1..] == seq(k - 1, _ => Plus);
      PlusPressesReachFrom(v + RPM_STEP, k - 1);
    }
  }

  /** `send_rpm_command` (modbus_controller_leo.py lines 131-136):
      `f"01065000{value_to_send:04x}"`. For every counter whose scaled
      value fits four hex digits, in particular every valid one, the
      command is 12 hex characters spelling `01 06 50 00` followed by the
      scaled value, big-endian. */
  function RpmCommand(rpm: nat): (r: string)
    ensures rpm * RPM_SCALE < 0x10000 ==>
      |r| == 12 && PackBeU16(rpm * RPM_SCALE).Some?
      && FromHex(r) == Some([0x01, 0x06] + ([0x50, 0x00] + PackBeU16(rpm * RPM_SCALE).value))
  {
    var v := rpm * RPM_SCALE;
    var r := "01065000" + Format04x(v);
    if v < 0x10000 then SpeedCommandLayout(v); r else r
  }

  /** The fixed part `01065000` of the speed command. */
  lemma SpeedCommandPrefix()
    ensures FromHex("01065000") == Some([0x01, 0x06, 0x50, 0x00])
  {
    var p := FromHex("01065000").value;
    assert PairValue('0', '1') == 1 && PairValue('0', '6') == 6;
    assert PairValue('5', '0') == 0x50 && PairValue('0', '0') == 0;
    assert p == [p[0], p[1], p[2], p[3]];
  }

  /** The speed command text for a 16-bit value. */
  lemma SpeedCommandLayout(v: nat)
    requires v < 0x10000
    ensures |"01065000" + Format04x(v)| == 12
    ensures PackBeU16(v).Some?
    ensures FromHex("01065000" + Format04x(v)) == Some([0x01, 0x06] + ([0x50, 0x00] + PackBeU16(v).value))
  {
    var digits := Format04x(v);
    assert |digits| == 4;
    SpeedCommandPrefix();
    FromHexFourDigits(digits);
    FromHexAppend("01065000", digits);
    var p := FromHex(digits).value;
    PackBeOfValue(p[0], p[1]);
    assert p == [p[0], p[1]];
    assert [0x01, 0x06, 0x50, 0x00] + p == [0x01, 0x06] + ([0x50, 0x00] + p);
  }

  /** Why `send_modbus_command` sent nothing. */
  datatype SendError =
    | NotConnected   // "Not connected to any device."
    | InvalidHex     // `bytes.fromhex` raised ValueError
    | CrcOverflow    // `to_bytes(2, 'little')` raised OverflowError

  /** `send_modbus_command` (modbus_controller_leo.py lines 178-192): the
      bytes written to the port for a hex command. */
  function SendModbusCommand(connected: bool, commandHex: string): (r: Result<seq<byte>, SendError>)
    ensures r.Success? <==> connected && FromHex(commandHex).Some?
    ensures !connected ==> r == Failure(NotConnected)
    ensures connected && FromHex(commandHex).None? ==> r == Failure(InvalidHex)
    ensures r.Success? ==> var data := FromHex(commandHex).value;
      |r.value| == |data| + 2 && r.value[..|data|] == data
      && r.value[|data|..] == CalculateCrc(data)
  {
    if !connected then Failure(NotConnected)
    else
      var data :- FromHex(commandHex).ToResult(InvalidHex);
      CrcImplementationsAgree(data);
      var crcBytes := ToBytesLittle(Crc16(data), 2);
      if crcBytes.None? then Failure(CrcOverflow) else Success(data + crcBytes.value)
  }

  /** The frame this controller writes is exactly the RTU frame the other
      controller builds: slave id, function code and the rest of the
      command, followed by the CRC of all of it. */
  lemma SentFrameIsRtuFrame(commandHex: string, slaveId: byte, fc: byte, rest: seq<byte>)
    requires FromHex(commandHex) == Some([slaveId, fc] + rest)
    ensures SendModbusCommand(true, commandHex) == Success(RtuFrame.Frame(slaveId, fc, rest))
  {
  }

  /** The speed command's frame is an RTU write of the scaled value to
      register 0x5000, which the validator of the other controller accepts
      as its own echo. */
  lemma RpmFrameIsRtuWrite(rpm: nat)
    requires ValidRpm(rpm)
    ensures SendModbusCommand(true, RpmCommand(rpm)).Success?
    ensures var f := SendModbusCommand(true, RpmCommand(rpm)).value;
      |f| == 8 && BeValue(f[2], f[3]) == 0x5000 && BeValue(f[4], f[5]) == rpm * RPM_SCALE
      && RtuFrame.ValidateResponse(1, 6, f) == Success(f[2..6])
  {
    var payload := [0x50, 0x00] + PackBeU16(rpm * RPM_SCALE).value;
    SentFrameIsRtuFrame(RpmCommand(rpm), 1, 6, payload);
    RtuFrame.ReplyRoundTrip(1, 6, payload);
  }

  /** The fixed part `01066000` of the direction and stop commands. */
  lemma DirectionCommandPrefix()
    ensures FromHex("01066000") == Some([0x01, 0x06, 0x60, 0x00])
  {
    var p := FromHex("01066000").value;
    assert PairValue('0', '1') == 1 && PairValue('0', '6') == 6;
    assert PairValue('6', '0') == 0x60 && PairValue('0', '0') == 0;
    assert p == [p[0], p[1], p[2], p[3]];
  }

  /** The last four digits `000c` of a fixed command. */
  lemma FixedCommandTail(c: char, code: byte)
    requires (c, code) == ('1', 1) || (c, code) == ('2', 2) || (c, code) == ('5', 5)
    ensures FromHex("000" + [c]) == Some([0x00, code])
  {
    var t := FromHex("000" + [c]).value;
    assert PairValue('0', '0') == 0 && PairValue('0', c) == code;
    assert t == [t[0], t[1]];
  }

  /** The three fixed commands decode to writes of 1, 2 and 5 to register
      0x6000. */
  lemma FixedCommandBytes(cmd: string, code: byte)
    requires (cmd, code) == (CMD_CW, 1) || (cmd, code) == (CMD_CCW, 2) || (cmd, code) == (CMD_STOP, 5)
    ensures FromHex(cmd) == Some([0x01, 0x06, 0x60, 0x00, 0x00, code])
  {
    var c := cmd[11];
    assert cmd == "01066000" + ("000" + [c]);
    FixedCommandTail(c, code);
    DirectionCommandPrefix();
    FromHexAppend("01066000", "000" + [c]);
    assert [0x01, 0x06, 0x60, 0x00] + [0x00, code] == [0x01, 0x06, 0x60, 0x00, 0x00, code];
  }

  /** The direction and stop buttons send those writes, each followed by
      its CRC. */
  lemma FixedCommandFrames(cmd: string, code: byte)
    requires (cmd, code) == (CMD_CW, 1) || (cmd, code) == (CMD_CCW, 2) || (cmd, code) == (CMD_STOP, 5)
    ensures SendModbusCommand(true, cmd).Success?
    ensures var f := SendModbusCommand(true, cmd).value;
      |f| == 8 && f[..6] == [0x01, 0x06, 0x60, 0x00, 0x00, code]
  {
    FixedCommandBytes(cmd, code);
  }
}
