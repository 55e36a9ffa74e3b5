/** The spindle commands of modbus_controller_mige.py built on the RTU
    engine: the speed monitor's read and decode, the RPM write, the
    direction shortcut and the drive enable/disable command. The GUI
    entry box is an `Option<int>`: `None` is text that `int()` rejects. */
module MigeController {
  import opened Wrappers
  import opened Bytes
  import opened RtuFrame

  const SLAVE_ID: byte := 1
  const RPM_CONTROL_ADDR: int := 0x0089
  const SPEED_MONITOR_ADDR: int := 0x0000
  const FORCE_ENABLE_ADDR: int := 0x0062
  /** The RPM that an unreadable or zero entry is replaced with. */
  const DEFAULT_RPM: int := 1000

  /** `monitor_speed` (modbus_controller_mige.py lines 200-201): a read
      reply payload `[byte count, high, low]` holds the speed as a signed
      16-bit big-endian value. */
  function DecodeSpeed(data: seq<byte>): (r: Option<int>)
    ensures r.Some? <==> |data| >= 3 && data[0] == 2
    ensures r.Some? ==> InI16(r.value) && r.value % 0x10000 == BeValue(data[1], data[2])
  {
    if |data| >= 3 && data[0] == 2 then Some(UnpackBeI16(data[1], data[2])) else None
  }

  /** The payload a drive sends for a speed decodes back to that speed. */
  lemma SpeedRoundTrip(speed: int, extra: seq<byte>)
    requires InI16(speed)
    ensures DecodeSpeed([2] + PackBeI16(speed).value + extra) == Some(speed)
  {
    var bs := PackBeI16(speed).value;
    SignedRoundTrip(speed);
    assert ([2] + bs + extra)[1..3] == bs;
  }

  /** What one pass of the monitor loop shows. */
  datatype PollOutcome =
    | Stopped              // not connected: the loop ends before sending
    | ShowSpeed(rpm: int)  // "RPM Aktual: {speed}"
    | ShowReadError        // "RPM Aktual: Error Baca"
    | Disconnect           // any exception: disconnect and end the loop

  /** The monitor's request: read one input register at 0x0000 of
      slave 1. */
  function MonitorRead(device: seq<byte> -> seq<byte>): Result<seq<byte>, RequestError>
  {
    SendModbusRequest(true, device, SLAVE_ID, READ_INPUT_REGISTERS, SPEED_MONITOR_ADDR, None, Some(1), None)
  }

  /** `monitor_speed` (modbus_controller_mige.py lines 188-209): one pass of
      the loop. A failed request disconnects; an accepted reply shows the
      speed it decodes to, or the read error when it decodes to none. */
  function MonitorPoll(connected: bool, device: seq<byte> -> seq<byte>): (r: PollOutcome)
    ensures !connected <==> r == Stopped
    ensures connected ==> (r == Disconnect <==> MonitorRead(device).Failure?)
    ensures connected && MonitorRead(device).Success? ==>
      (r == ShowReadError <==> DecodeSpeed(MonitorRead(device).value).None?)
    ensures r.ShowSpeed? ==> InI16(r.rpm) && DecodeSpeed(MonitorRead(device).value) == Some(r.rpm)
  {
    if !connected then Stopped
    else match MonitorRead(device)
      case Failure(_) => Disconnect
      case Success(data) =>
        match DecodeSpeed(data)
        case Some(speed) => ShowSpeed(speed)
        case None => ShowReadError
  }

  /** A drive answering the monitor's read with the frame of any payload
      gets the speed of that payload shown, or the read error when the
      payload is not `[2, high, low, ...]`. */
  lemma MonitorShowsPayload(device: seq<byte> -> seq<byte>, payload: seq<byte>)
    requires forall frame :: device(frame) == Frame(SLAVE_ID, READ_INPUT_REGISTERS, payload)
    ensures MonitorPoll(true, device) == ShowReadError <==> |payload| < 3 || payload[0] != 2
    ensures |payload| >= 3 && payload[0] == 2 ==>
      MonitorPoll(true, device) == ShowSpeed(UnpackBeI16(payload[1], payload[2]))
  {
    ReplyRoundTrip(SLAVE_ID, READ_INPUT_REGISTERS, payload);
  }

  /** A drive answering the monitor's read with its speed gets that speed
      shown. */
  lemma MonitorShowsDeviceSpeed(device: seq<byte> -> seq<byte>, speed: int)
    requires InI16(speed)
    requires forall frame :: device(frame) == Frame(SLAVE_ID, READ_INPUT_REGISTERS, [2] + PackBeI16(speed).value)
    ensures MonitorPoll(true, device) == ShowSpeed(speed)
  {
    var payload := [2] + PackBeI16(speed).value;
    MonitorShowsPayload(device, payload);
    SpeedRoundTrip(speed, []);
    assert payload + [] == payload;
  }

  /** An exception reply from the drive ends monitoring. */
  lemma MonitorDisconnectsOnException(device: seq<byte> -> seq<byte>, code: byte)
    requires forall frame :: device(frame) == Frame(SLAVE_ID, 0x84, [code])
    ensures MonitorPoll(true, device) == Disconnect
  {
    ExceptionReplyReported(SLAVE_ID, READ_INPUT_REGISTERS, 0x84, code, []);
    assert [code] + [] == [code];
  }

  /** What `send_rpm_command` leaves in the status label. */
  datatype RpmStatus =
    | NotConnectedWarning          // the warning box; nothing is sent
    | InvalidEntry                 // `int()` raised on the entry text
    | Sent(rpm: int)               // "Perintah RPM {rpm} terkirim"
    | SendFailed(error: RequestError)

  /** `_send_custom_command` (modbus_controller_mige.py lines 213-223): the
      enable/disable command. It asks for a 0x06 write but passes no value,
      so it is rejected before anything is sent. */
  function CustomCommand(connected: bool, device: seq<byte> -> seq<byte>, data: Payload): Result<seq<byte>, RequestError>
  {
    SendModbusRequest(connected, device, SLAVE_ID, WRITE_SINGLE_REGISTER, FORCE_ENABLE_ADDR, None, None, Some(data))
  }

  /** Drive enable and disable can never succeed. */
  lemma CustomCommandAlwaysFails(device: seq<byte> -> seq<byte>, data: Payload)
    ensures CustomCommand(true, device, data) == Failure(StructError)
  {
  }

  /** The RPM write of `send_rpm_command`: `value` to register 0x0089 of
      slave 1. */
  function RpmWrite(value: int): Result<seq<byte>, RequestError>
  {
    BuildRequest(SLAVE_ID, WRITE_SINGLE_REGISTER, RPM_CONTROL_ADDR, Some(value), None, None)
  }

  /** `send_rpm_command` (modbus_controller_mige.py lines 246-268): enable
      the drive (its failure is only shown and then overwritten), then write
      the entry's RPM to register 0x0089. The entry is reported sent exactly
      when it fits 16 bits and the drive's answer to the write is accepted;
      a drive that echoes its request always accepts. */
  function SendRpmCommand(connected: bool, device: seq<byte> -> seq<byte>, entry: Option<int>): (r: RpmStatus)
    ensures !connected <==> r == NotConnectedWarning
    ensures connected && entry.None? ==> r == InvalidEntry
    ensures r.Sent? ==> entry == Some(r.rpm) && InU16(r.rpm)
    ensures connected && entry.Some? && !InU16(entry.value) ==> r == SendFailed(StructError)
    ensures connected && entry.Some? && InU16(entry.value) ==>
      (r.Sent? <==> ValidateResponse(SLAVE_ID, WRITE_SINGLE_REGISTER, device(RpmWrite(entry.value).value)).Success?)
    ensures connected && entry.Some? && (forall f :: device(f) == f) ==> (r.Sent? <==> InU16(entry.value))
  {
    if !connected then NotConnectedWarning
    else if entry.None? then InvalidEntry
    else
      var _ := CustomCommand(true, device, IntValue(1));
      EchoAcceptsRpmWrite(entry.value);
      match SendModbusRequest(true, device, SLAVE_ID, WRITE_SINGLE_REGISTER, RPM_CONTROL_ADDR, entry, None, None)
      case Success(_) => Sent(entry.value)
      case Failure(e) => SendFailed(e)
  }

  /** The echo of an RPM write that fits 16 bits is accepted. */
  lemma EchoAcceptsRpmWrite(value: int)
    ensures InU16(value) ==>
      RpmWrite(value).Success? && ValidateResponse(SLAVE_ID, WRITE_SINGLE_REGISTER, RpmWrite(value).value).Success?
  {
    if InU16(value) {
      WriteEchoRoundTrip(SLAVE_ID, RPM_CONTROL_ADDR, value);
    }
  }

  function Abs(x: int): nat {
    if x < 0 then -x else x
  }

  /** `set_direction` (modbus_controller_mige.py lines 273-285): the RPM
      `set_direction` puts in the entry box: the magnitude of the entry
      (1000 when it is 0), negated for "cw"; when the entry is not an int it
      is 1000, whatever the direction. */
  function DirectionRpm(entry: Option<int>, direction: string): (r: int)
    ensures entry.None? ==> r == DEFAULT_RPM
    ensures entry.Some? ==> Abs(r) == (if entry.value == 0 then DEFAULT_RPM else Abs(entry.value))
    ensures entry.Some? ==> (r < 0 <==> direction == "cw")
    ensures r != 0
  {
    if entry.None? then DEFAULT_RPM
    else
      var rpm := if Abs(entry.value) == 0 then DEFAULT_RPM else Abs(entry.value);
      if direction == "cw" then -rpm else rpm
  }

  /** `set_direction(direction)`: set the entry, then send it. */
  function SetDirection(connected: bool, device: seq<byte> -> seq<byte>, entry: Option<int>, direction: string): RpmStatus
  {
    SendRpmCommand(connected, device, Some(DirectionRpm(entry, direction)))
  }

  /** Clockwise never reaches the drive: once the entry parses, the RPM is
      negative and `struct.pack('>HH')` rejects it. */
  lemma ClockwiseNeverSent(device: seq<byte> -> seq<byte>, rpm: int)
    ensures SetDirection(true, device, Some(rpm), "cw") == SendFailed(StructError)
  {
  }

  /** Counter-clockwise sends the magnitude when it fits 16 bits. */
  lemma CounterClockwiseSent(device: seq<byte> -> seq<byte>, rpm: int)
    requires 0 < Abs(rpm) < 0x10000
    requires forall frame :: device(frame) == frame
    ensures SetDirection(true, device, Some(rpm), "ccw") == Sent(Abs(rpm))
  {
    assert DirectionRpm(Some(rpm), "ccw") == Abs(rpm);
    var r := SendRpmCommand(true, device, Some(Abs(rpm)));
    assert r.Sent? && r.rpm == Abs(rpm);
  }

  /** `stop_spindle` (modbus_controller_mige.py lines 295-300): the stop
      write of 0 RPM to register 0x0089; for slave 1 it is
      `01 06 00 89 00 00` and its CRC. */
  lemma StopRequestLayout(slaveId: byte)
    ensures BuildRequest(slaveId, WRITE_SINGLE_REGISTER, RPM_CONTROL_ADDR, Some(0), None, None).Success?
    ensures BuildRequest(slaveId, WRITE_SINGLE_REGISTER, RPM_CONTROL_ADDR, Some(0), None, None).value[..6]
      == [slaveId, 6, 0, 0x89, 0, 0]
  {
  }

  /** The signed single-register write that clockwise evidently needs:
      the value as its 16-bit two's-complement pattern (`'>Hh'`). */
  function BuildSignedWrite(slaveId: byte, address: int, value: int): (r: Result<seq<byte>, RequestError>)
    ensures r.Success? <==> InU16(address) && InI16(value)
    ensures r.Success? ==> |r.value| == 8 && r.value[..2] == [slaveId, WRITE_SINGLE_REGISTER]
    ensures r.Success? ==> BeValue(r.value[2], r.value[3]) == address
    ensures r.Success? ==> UnpackBeI16(r.value[4], r.value[5]) == value
    ensures r.Success? ==> CrcValid(r.value)
    ensures r.Success? ==> r.value == Frame(slaveId, WRITE_SINGLE_REGISTER, r.value[2..6])
  {
    match (PackBeU16(address), PackBeI16(value))
    case (Some(a), Some(v)) =>
      SignedRoundTrip(value);
      var f := Frame(slaveId, WRITE_SINGLE_REGISTER, a + v);
      assert f[2..6] == a + v;
      Success(f)
    case _ => Failure(StructError)
  }

  /** `set_direction` with the signed write: the RPM reaches a drive that
      echoes its request whenever it fits a signed 16-bit value, in both
      directions, for every magnitude up to 32767. */
  function SetDirectionSigned(connected: bool, device: seq<byte> -> seq<byte>, entry: Option<int>, direction: string): (r: RpmStatus)
    ensures !connected <==> r == NotConnectedWarning
    ensures connected && !InI16(DirectionRpm(entry, direction)) ==> r == SendFailed(StructError)
    ensures connected && InI16(DirectionRpm(entry, direction)) ==>
      var f := BuildSignedWrite(SLAVE_ID, RPM_CONTROL_ADDR, DirectionRpm(entry, direction)).value;
      (r.Sent? <==> ValidateResponse(SLAVE_ID, WRITE_SINGLE_REGISTER, device(f)).Success?)
    ensures connected && (forall f :: device(f) == f) ==>
      (r == Sent(DirectionRpm(entry, direction)) <==> InI16(DirectionRpm(entry, direction)))
  {
    if !connected then NotConnectedWarning
    else
      var rpm := DirectionRpm(entry, direction);
      match BuildSignedWrite(SLAVE_ID, RPM_CONTROL_ADDR, rpm)
      case Failure(e) => SendFailed(e)
      case Success(frame) =>
        ReplyRoundTrip(SLAVE_ID, WRITE_SINGLE_REGISTER, frame[2..6]);
        match ValidateResponse(SLAVE_ID, WRITE_SINGLE_REGISTER, device(frame))
        case Success(_) => Sent(rpm)
        case Failure(e) => SendFailed(e)
  }

  /** With the signed write, counter-clockwise sends the magnitude. */
  lemma CounterClockwiseSignedSent(device: seq<byte> -> seq<byte>, rpm: int)
    requires 0 < Abs(rpm) < 0x8000
    requires forall frame :: device(frame) == frame
    ensures SetDirectionSigned(true, device, Some(rpm), "ccw") == Sent(Abs(rpm))
  {
    assert DirectionRpm(Some(rpm), "ccw") == Abs(rpm);
  }

  /** With the signed write, clockwise sends the negated RPM, and the value
      field the drive echoes decodes back to it. */
  lemma ClockwiseSignedSent(device: seq<byte> -> seq<byte>, rpm: int)
    requires 0 < Abs(rpm) < 0x8000
    requires forall frame :: device(frame) == frame
    ensures SetDirectionSigned(true, device, Some(rpm), "cw") == Sent(-(Abs(rpm) as int))
    ensures var f := BuildSignedWrite(SLAVE_ID, RPM_CONTROL_ADDR, -(Abs(rpm) as int)).value;
      UnpackBeI16(f[4], f[5]) == -(Abs(rpm) as int)
  {
    var v := -(Abs(rpm) as int);
    assert DirectionRpm(Some(rpm), "cw") == v;
    var f := BuildSignedWrite(SLAVE_ID, RPM_CONTROL_ADDR, v).value;
    assert f == Frame(SLAVE_ID, WRITE_SINGLE_REGISTER, f[2..6]);
    ReplyRoundTrip(SLAVE_ID, WRITE_SINGLE_REGISTER, f[2..6]);
    assert ValidateResponse(SLAVE_ID, WRITE_SINGLE_REGISTER, device(f)).Success?;
  }
}
