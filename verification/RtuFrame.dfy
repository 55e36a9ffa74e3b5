/** The Modbus RTU engine of modbus_controller_mige.py (`send_modbus_request`):
    building the request frame (slave id, function code, PDU, CRC) and
    validating the reply in the order the code checks it. Every exception
    the code raises, including the incidental `struct.error`, `TypeError`
    and `IndexError`, is an explicit error value. */
module RtuFrame {
  import opened Wrappers
  import opened Bytes
  import opened Crc

  const READ_HOLDING_REGISTERS: byte := 0x03
  const READ_INPUT_REGISTERS: byte := 0x04
  const WRITE_SINGLE_REGISTER: byte := 0x06
  const CUSTOM_FUNCTION: byte := 0x42

  /** Why a request did not return a payload. */
  datatype RequestError =
    | NotConnected            // serial.SerialException before anything is sent
    | UnsupportedFunctionCode // ValueError("Function code tidak didukung.")
    | StructError             // struct.pack rejected a field
    | TypeError               // an int custom payload concatenated to bytes
    | NoResponse              // nothing was read back
    | CrcInvalid
    | SlaveIdMismatch
    | DriverError(code: byte) // exception reply carrying its error code
    | FunctionCodeMismatch
    | IndexError              // a reply too short for the byte being read

  /** The `custom_data` argument: bytes, or the int that `enable_drive` and
      `disable_drive` pass. */
  datatype Payload = RawBytes(bytes: seq<byte>) | IntValue(n: int)

  /** True for the function codes the engine builds a PDU for. */
  predicate Supported(fc: int) {
    fc == 0x03 || fc == 0x04 || fc == 0x06 || fc == CUSTOM_FUNCTION
  }

  /** `struct.pack('>HH', a, b)` where `b` may be `None`. */
  function PackU16Pair(a: int, b: Option<int>): (r: Result<seq<byte>, RequestError>)
    ensures r.Success? <==> InU16(a) && b.Some? && InU16(b.value)
    ensures r.Failure? ==> r.error == StructError
    ensures r.Success? ==>
      |r.value| == 4 && BeValue(r.value[0], r.value[1]) == a && BeValue(r.value[2], r.value[3]) == b.value
  {
    if b.None? then Failure(StructError)
    else match (PackBeU16(a), PackBeU16(b.value))
      case (Some(x), Some(y)) => Success(x + y)
      case _ => Failure(StructError)
  }

  /** The PDU after the function code: register address and count for the
      two reads, address and value for the single-register write, the
      caller's custom data for 0x42. */
  function BuildPdu(fc: int, address: int, value: Option<int>, count: Option<int>,
                    custom: Option<Payload>): (r: Result<Payload, RequestError>)
    ensures r.Success? ==> Supported(fc)
    ensures r.Failure? ==>
      r.error == if Supported(fc) && !(fc == CUSTOM_FUNCTION && custom.None?) then StructError else UnsupportedFunctionCode
    ensures fc == CUSTOM_FUNCTION && custom.Some? ==> r == Success(custom.value)
    ensures r.Success? && fc != CUSTOM_FUNCTION ==>
      r.value.RawBytes? && |r.value.bytes| == 4 && BeValue(r.value.bytes[0], r.value.bytes[1]) == address
    ensures r.Success? && fc == 0x06 ==> value.Some? && BeValue(r.value.bytes[2], r.value.bytes[3]) == value.value
    ensures r.Success? && (fc == 0x03 || fc == 0x04) ==>
      count.Some? && BeValue(r.value.bytes[2], r.value.bytes[3]) == count.value
  {
    if fc == 0x03 || fc == 0x04 then
      var pdu :- PackU16Pair(address, count);
      Success(RawBytes(pdu))
    else if fc == 0x06 then
      var pdu :- PackU16Pair(address, value);
      Success(RawBytes(pdu))
    else if fc == CUSTOM_FUNCTION && custom.Some? then
      Success(custom.value)
    else
      Failure(UnsupportedFunctionCode)
  }

  /** The ADU `slave id, function code, payload` followed by its CRC, low
      byte first. */
  function Frame(slaveId: byte, fc: byte, payload: seq<byte>): (r: seq<byte>)
    ensures |r| == |payload| + 4
    ensures r[0] == slaveId && r[1] == fc && r[2..|r| - 2] == payload
    ensures r[..|r| - 2] == [slaveId, fc] + payload
    ensures r[|r| - 2..] == CalculateCrc(r[..|r| - 2])
  {
    var adu := [slaveId, fc] + payload;
    adu + CalculateCrc(adu)
  }

  /** True when the last two bytes of `frame` are the CRC of the rest. */
  predicate CrcValid(frame: seq<byte>) {
    |frame| >= 2 && CalculateCrc(frame[..|frame| - 2]) == frame[|frame| - 2..]
  }

  /** True when `send_modbus_request` gets as far as writing a frame. */
  predicate RequestAccepted(slaveId: int, fc: int, address: int, value: Option<int>,
                            count: Option<int>, custom: Option<Payload>) {
    0 <= slaveId < 256
    && ((fc == 0x03 || fc == 0x04) ==> InU16(address) && count.Some? && InU16(count.value))
    && (fc == 0x06 ==> InU16(address) && value.Some? && InU16(value.value))
    && (fc == CUSTOM_FUNCTION ==> custom.Some? && custom.value.RawBytes?)
    && Supported(fc)
  }

  /** `send_modbus_request` (modbus_controller_mige.py lines 44-55): the
      frame that is written to the port. */
  function BuildRequest(slaveId: int, fc: int, address: int, value: Option<int>,
                        count: Option<int>, custom: Option<Payload>): (r: Result<seq<byte>, RequestError>)
    ensures r.Success? <==> RequestAccepted(slaveId, fc, address, value, count, custom)
    ensures r.Success? ==> CrcValid(r.value) && |r.value| >= 4 && r.value[0] == slaveId && r.value[1] == fc
    ensures r.Success? && fc != CUSTOM_FUNCTION ==>
      |r.value| == 8 && BeValue(r.value[2], r.value[3]) == address
    ensures r.Success? && fc == 0x06 ==> BeValue(r.value[4], r.value[5]) == value.value
    ensures r.Success? && (fc == 0x03 || fc == 0x04) ==> BeValue(r.value[4], r.value[5]) == count.value
    ensures r.Success? && fc == CUSTOM_FUNCTION ==> r.value[2..|r.value| - 2] == custom.value.bytes
    ensures !Supported(fc) ==> r == Failure(UnsupportedFunctionCode)
  {
    var pdu :- BuildPdu(fc, address, value, count, custom);
    if !(0 <= slaveId < 256) then Failure(StructError)
    else if pdu.IntValue? then Failure(TypeError)
    else
      var frame := Frame(slaveId, fc, pdu.bytes);
      assert frame[|frame| - 2..] == CalculateCrc(frame[..|frame| - 2]);
      Success(frame)
  }

  /** `response[-2:]`: the last two bytes, or all of a shorter reply. */
  function CrcField(response: seq<byte>): (r: seq<byte>)
    ensures |r| <= 2
    ensures |response| >= 2 ==> r == response[|response| - 2..]
  {
    if |response| >= 2 then response[|response| - 2..] else response
  }

  /** `response[:-2]`: all but the last two bytes, or nothing. */
  function DataPart(response: seq<byte>): (r: seq<byte>)
    ensures |response| >= 2 ==> r == response[..|response| - 2]
  {
    if |response| >= 2 then response[..|response| - 2] else []
  }

  /** `calculate_crc(response[:-2]) == response[-2:]` holds exactly for
      the replies of at least two bytes that end with their own CRC. */
  lemma CrcCheckIsCrcValid(response: seq<byte>)
    ensures CalculateCrc(DataPart(response)) == CrcField(response) <==> CrcValid(response)
  {
    if |response| < 2 {
      assert |CalculateCrc(DataPart(response))| == 2;
    }
  }

  /** `response[2:-2]`: empty for replies shorter than four bytes. */
  function PayloadPart(response: seq<byte>): (r: seq<byte>)
    ensures |response| >= 4 ==> r == response[2..|response| - 2]
    ensures |response| < 4 ==> r == []
  {
    if |response| >= 4 then response[2..|response| - 2] else []
  }

  /** `send_modbus_request` (modbus_controller_mige.py lines 68-91): the
      payload of a reply, or the first check it fails. The CRC is checked
      first, over `response[:-2]` against `response[-2:]`; then the slave
      id, the exception bit (whose error code is `response[2]`), and the
      function code. */
  function ValidateResponse(slaveId: int, fc: int, response: seq<byte>): (r: Result<seq<byte>, RequestError>)
    ensures |response| == 0 ==> r == Failure(NoResponse)
    ensures r.Success? <==> CrcValid(response) && response[0] == slaveId && response[1] == fc && fc < 0x80
    ensures r.Success? ==> r.value == PayloadPart(response)
  {
    CrcCheckIsCrcValid(response);
    if |response| == 0 then Failure(NoResponse)
    else if CalculateCrc(DataPart(response)) != CrcField(response) then Failure(CrcInvalid)
    else if |response| < 2 then Failure(IndexError)
    else if response[0] != slaveId then Failure(SlaveIdMismatch)
    else if ExceptionBit(response[1]) then
      if |response| > 2 then Failure(DriverError(response[2])) else Failure(IndexError)
    else if response[1] != fc then Failure(FunctionCodeMismatch)
    else Success(PayloadPart(response))
  }

  /** `response_fc & 0x80` is non-zero. */
  predicate ExceptionBit(fc: byte) {
    fc >= 0x80
  }

  /** The whole request: build, exchange with the device, validate. The
      device is a parameter: the bytes it answers with for the frame it is
      sent (the serial port, the 0.1 s wait and `ser.in_waiting` are not
      part of this model). */
  function SendModbusRequest(connected: bool, device: seq<byte> -> seq<byte>,
                             slaveId: int, fc: int, address: int, value: Option<int>,
                             count: Option<int>, custom: Option<Payload>): (r: Result<seq<byte>, RequestError>)
    ensures !connected ==> r == Failure(NotConnected)
    ensures connected && !RequestAccepted(slaveId, fc, address, value, count, custom) ==>
      r == BuildRequest(slaveId, fc, address, value, count, custom).PropagateFailure()
    ensures connected && RequestAccepted(slaveId, fc, address, value, count, custom) ==>
      r == ValidateResponse(slaveId, fc, device(BuildRequest(slaveId, fc, address, value, count, custom).value))
  {
    if !connected then Failure(NotConnected)
    else
      var frame :- BuildRequest(slaveId, fc, address, value, count, custom);
      ValidateResponse(slaveId, fc, device(frame))
  }

  /** A device reply framed like a request validates to its payload: the
      validation accepts exactly what framing produces. */
  lemma ReplyRoundTrip(slaveId: byte, fc: byte, payload: seq<byte>)
    requires fc < 0x80
    ensures ValidateResponse(slaveId, fc, Frame(slaveId, fc, payload)) == Success(payload)
  {
    var f := Frame(slaveId, fc, payload);
    assert f[|f| - 2..] == CalculateCrc(f[..|f| - 2]);
  }

  /** Conversely, every accepted reply of four bytes or more is the frame
      of the payload returned. */
  lemma AcceptedReplyIsFrame(slaveId: int, fc: int, response: seq<byte>)
    requires ValidateResponse(slaveId, fc, response).Success?
    requires |response| >= 4
    ensures response == Frame(response[0], response[1], ValidateResponse(slaveId, fc, response).value)
  {
    var n := |response|;
    var payload := response[2..n - 2];
    var adu := [response[0], response[1]] + payload;
    assert adu == response[..n - 2];
    assert CrcValid(response);
    assert CalculateCrc(adu) == response[n - 2..];
    assert response == response[..n - 2] + response[n - 2..];
  }

  /** A write is answered by an echo of the request; validating the echo
      returns the address and value bytes that were sent. */
  lemma WriteEchoRoundTrip(slaveId: int, address: int, value: int)
    requires BuildRequest(slaveId, 0x06, address, Some(value), None, None).Success?
    ensures var frame := BuildRequest(slaveId, 0x06, address, Some(value), None, None).value;
      ValidateResponse(slaveId, 0x06, frame) == Success(frame[2..6])
  {
    var frame := BuildRequest(slaveId, 0x06, address, Some(value), None, None).value;
    assert frame == Frame(slaveId, 0x06, frame[2..6]);
    ReplyRoundTrip(slaveId, 0x06, frame[2..6]);
  }

  /** A reply whose last two bytes are not the CRC of the rest is rejected
      as CrcInvalid before anything else about it is looked at. */
  lemma CorruptCrcRejected(slaveId: int, fc: int, adu: seq<byte>, crc: seq<byte>)
    requires |crc| == 2 && crc != CalculateCrc(adu)
    ensures ValidateResponse(slaveId, fc, adu + crc) == Failure(CrcInvalid)
  {
    var r := adu + crc;
    assert r[..|r| - 2] == adu && r[|r| - 2..] == crc;
  }

  /** A single byte can never carry a valid CRC. */
  lemma OneByteReplyRejected(slaveId: int, fc: int, b: byte)
    ensures ValidateResponse(slaveId, fc, [b]) == Failure(CrcInvalid)
  {
    assert |CalculateCrc([])| == 2;
  }

  /** A well-framed reply from another slave is reported as such, whatever
      its function code. */
  lemma OtherSlaveRejected(slaveId: int, fc: int, other: byte, replyFc: byte, payload: seq<byte>)
    requires other != slaveId
    ensures ValidateResponse(slaveId, fc, Frame(other, replyFc, payload)) == Failure(SlaveIdMismatch)
  {
    var f := Frame(other, replyFc, payload);
    assert f[|f| - 2..] == CalculateCrc(f[..|f| - 2]);
  }

  /** An exception reply (function code with bit 7 set) yields the driver's
      error code, and is checked before the function code is compared. */
  lemma ExceptionReplyReported(slaveId: byte, fc: int, replyFc: byte, code: byte, rest: seq<byte>)
    requires replyFc >= 0x80
    ensures ValidateResponse(slaveId, fc, Frame(slaveId, replyFc, [code] + rest)) == Failure(DriverError(code))
  {
    var f := Frame(slaveId, replyFc, [code] + rest);
    assert f[|f| - 2..] == CalculateCrc(f[..|f| - 2]);
    assert f[2] == ([code] + rest)[0];
  }

  /** A normal reply for another function code is a mismatch. */
  lemma OtherFunctionRejected(slaveId: byte, fc: int, replyFc: byte, payload: seq<byte>)
    requires replyFc < 0x80 && replyFc != fc
    ensures ValidateResponse(slaveId, fc, Frame(slaveId, replyFc, payload)) == Failure(FunctionCodeMismatch)
  {
    var f := Frame(slaveId, replyFc, payload);
    assert f[|f| - 2..] == CalculateCrc(f[..|f| - 2]);
  }

  /** A two-byte reply that carries a valid CRC and an exception function
      code gets past every check up to reading the error code
      `response[2]`, which raises IndexError. (`FF FF`, the CRC of no
      bytes, is such a reply from slave 255.) */
  lemma TwoByteExceptionReply(slaveId: int, fc: int, response: seq<byte>)
    requires |response| == 2 && CrcValid(response)
    requires response[0] == slaveId && response[1] >= 0x80
    ensures ValidateResponse(slaveId, fc, response) == Failure(IndexError)
  {
  }

  /** The layout of a single-register write: slave id, 0x06, then the
      address and the value high byte first (writing 1000 to register
      0x0089 of slave 1 starts `01 06 00 89 03 E8`). */
  lemma WriteRequestLayout(slaveId: byte, address: int, value: int)
    requires InU16(address) && InU16(value)
    ensures BuildRequest(slaveId, 0x06, address, Some(value), None, None).Success?
    ensures BuildRequest(slaveId, 0x06, address, Some(value), None, None).value[..6]
      == [slaveId, 0x06, address / 256, address % 256, value / 256, value % 256]
  {
  }

  /** The layout of a register read: slave id, function code, then the
      start address and the register count high byte first. */
  lemma ReadRequestLayout(slaveId: byte, fc: byte, address: int, count: int)
    requires (fc == READ_HOLDING_REGISTERS || fc == READ_INPUT_REGISTERS) && InU16(address) && InU16(count)
    ensures BuildRequest(slaveId, fc, address, None, Some(count), None).Success?
    ensures BuildRequest(slaveId, fc, address, None, Some(count), None).value[..6]
      == [slaveId, fc, address / 256, address % 256, count / 256, count % 256]
  {
  }
}
