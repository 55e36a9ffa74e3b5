/** modbus_parser.py: a capture log with one byte per row is grouped into
    commands wherever the timestamps jump by more than one second, each
    command's last four hex characters are taken as its CRC, and the rest
    is matched against a fixed table of spindle commands. */
module ModbusParser {
  import opened Wrappers
  import opened Hex
  import opened Text
  import opened Segmenter

  /** A gap longer than this, in seconds, starts a new command. */
  const GAP_THRESHOLD: real := 1.0

  /** A row of the capture as `csv.DictReader` yields it: column name to
      field text. */
  type Row = map<string, string>

  /** `group_and_translate_modbus_data` (modbus_parser.py lines 51-52):
      `row.get(name) or row.get('"name"')`; the quoted column is consulted
      when the plain one is missing or empty. */
  function Field(row: Row, name: string): (r: Option<string>)
    ensures name in row && row[name] != "" ==> r == Some(row[name])
    ensures (name !in row || row[name] == "") ==>
      r == (if "\"" + name + "\"" in row then Some(row["\"" + name + "\""]) else None)
  {
    var quoted := "\"" + name + "\"";
    if name in row && row[name] != "" then Some(row[name])
    else if quoted in row then Some(row[quoted])
    else None
  }

  /** `group_and_translate_modbus_data` (modbus_parser.py line 58): the
      byte's hex text with any `0x` removed, upper-cased and padded to two
      characters. */
  function ByteToken(data: string): (r: string)
    ensures |r| >= 2
    ensures var t := ToUpper(RemoveAll(data, "0x"));
      (|t| >= 2 ==> r == t)
      && (|t| == 1 && !HasSign(t) ==> r == ['0', t[0]])
      && (|t| == 1 && HasSign(t) ==> r == [t[0], '0'])
      && (|t| == 0 ==> r == "00")
  {
    ZFill(ToUpper(RemoveAll(data, "0x")), 2)
  }

  /** `group_and_translate_modbus_data` (modbus_parser.py lines 50-58): the
      timed byte a row contributes; `None` when a column is missing or the
      time is not a float (the row is skipped). */
  function ParseRow(row: Row, float: string -> Option<real>): (r: Option<Record<string>>)
    ensures r.Some? <==>
      Field(row, "start_time").Some? && Field(row, "data").Some? && float(Field(row, "start_time").value).Some?
    ensures r.Some? ==> r.value.time == float(Field(row, "start_time").value).value
    ensures r.Some? ==> r.value.token == ByteToken(Field(row, "data").value)
  {
    match (Field(row, "start_time"), Field(row, "data"))
    case (Some(timeText), Some(data)) =>
      (match float(timeText)
       case Some(t) => Some(Record(t, ByteToken(data)))
       case None => None)
    case _ => None
  }

  /** The row parser the grouping loop applies. */
  function RowParser(float: string -> Option<real>): Row -> Option<Record<string>>
  {
    row => ParseRow(row, float)
  }

  /** `last_time`: the time of the last accepted byte, once there is one. */
  predicate LastTimeIs(recs: seq<Record<string>>, lastTime: real)
  {
    |recs| > 0 ==> lastTime == recs[|recs| - 1].time
  }

  /** `group_and_translate_modbus_data` (modbus_parser.py lines 44-74): the
      grouping loop. Its result is the gap segmentation of the accepted
      bytes with a one-second threshold, each segment joined into one
      string. */
  method GroupCommands(rows: seq<Row>, float: string -> Option<real>) returns (commands: seq<string>)
    ensures commands == Join(Segments(Accepted(rows, RowParser(float)), GAP_THRESHOLD))
  {
    commands := [];
    var current: seq<string> := [];
    var lastTime: real := 0.0;
    ghost var recs: seq<Record<string>> := [];
    ProgressStart(GAP_THRESHOLD);
    for i := 0 to |rows|
      invariant recs == Accepted(rows[..i], RowParser(float))
      invariant Progress(recs, GAP_THRESHOLD, commands, current)
      invariant LastTimeIs(recs, lastTime)
    {
      AcceptedStep(rows, i, RowParser(float));
      var parsed := ParseRow(rows[i], float);
      if parsed.None? {
        continue;
      }
      var rec := parsed.value;
      if |current| > 0 && rec.time - lastTime > GAP_THRESHOLD {
        ProgressSplit(recs, rec, GAP_THRESHOLD, commands, current);
        commands := commands + [Concat(current)];
        current := [];
      } else {
        ProgressExtend(recs, rec, GAP_THRESHOLD, commands, current);
      }
      current := current + [rec.token];
      lastTime := rec.time;
      recs := recs + [rec];
    }
    assert rows[..|rows|] == rows;
    ProgressFinish(recs, GAP_THRESHOLD, commands, current);
    if |current| > 0 {
      commands := commands + [Concat(current)];
    }
  }

  /** Every command holds at least one byte token, so it is at least two
      characters long. */
  lemma CommandsNonEmpty(recs: seq<Record<string>>, k: nat)
    requires forall i :: 0 <= i < |recs| ==> |recs[i].token| >= 2
    requires k < |Segments(recs, GAP_THRESHOLD)|
    ensures |Join(Segments(recs, GAP_THRESHOLD))[k]| >= 2
  {
    var segs := Segments(recs, GAP_THRESHOLD);
    SegmentsIsGapPartition(recs, GAP_THRESHOLD);
    var seg := segs[k];
    assert |seg| > 0;
    forall j | 0 <= j < |seg|
      ensures |Tokens(seg)[j]| >= 2
    {
      FlattenMember(segs, k, j);
    }
    ConcatLength(Tokens(seg), 2);
  }

  lemma AcceptedTokensWide(rows: seq<Row>, float: string -> Option<real>)
    ensures forall i :: 0 <= i < |Accepted(rows, RowParser(float))| ==> |Accepted(rows, RowParser(float))[i].token| >= 2
    decreases |rows|
  {
    if |rows| > 0 {
      AcceptedTokensWide(rows[..|rows| - 1], float);
    }
  }

  /** The log's commands, concatenated, spell every accepted byte token in
      capture order; each command is at least one byte long. */
  lemma CommandsCoverLog(rows: seq<Row>, float: string -> Option<real>)
    ensures var cmds := Join(Segments(Accepted(rows, RowParser(float)), GAP_THRESHOLD));
      Concat(cmds) == Concat(Tokens(Accepted(rows, RowParser(float))))
      && (|cmds| == 0 <==> |Accepted(rows, RowParser(float))| == 0)
      && forall k :: 0 <= k < |cmds| ==> |cmds[k]| >= 2
  {
    var recs := Accepted(rows, RowParser(float));
    SegmentsKeepTokens(recs, GAP_THRESHOLD);
    AcceptedTokensWide(rows, float);
    forall k | 0 <= k < |Segments(recs, GAP_THRESHOLD)|
      ensures |Join(Segments(recs, GAP_THRESHOLD))[k]| >= 2
    {
      CommandsNonEmpty(recs, k);
    }
  }

  /** The meaning `translate_modbus_command` gives a command. */
  datatype Translation =
    | SpeedRequest
    | RotateRight
    | RotateLeft
    | Stop
    | SetSpeed(speed: nat)
    | SetSpeedInvalid
    | SpeedResponse(speed: nat)
    | SpeedResponseInvalid
    | Unknown

  const SET_SPEED_PREFIX: string := "01060004"
  const SPEED_RESPONSE_PREFIX: string := "010302"


  /** The exact commands of the table start with neither prefix, and a
      set-speed command does not start with the response prefix. */
  lemma TableIsDisjoint()
    ensures !(SET_SPEED_PREFIX <= "010301080001") && !(SPEED_RESPONSE_PREFIX <= "010301080001")
    ensures !(SET_SPEED_PREFIX <= "010600020001") && !(SPEED_RESPONSE_PREFIX <= "010600020001")
    ensures !(SET_SPEED_PREFIX <= "010600020002") && !(SPEED_RESPONSE_PREFIX <= "010600020002")
    ensures !(SET_SPEED_PREFIX <= "010600020004") && !(SPEED_RESPONSE_PREFIX <= "010600020004")
  {
    assert "010301080001"[3] != SET_SPEED_PREFIX[3] && "010301080001"[5] != SPEED_RESPONSE_PREFIX[5];
    assert "010600020001"[7] != SET_SPEED_PREFIX[7] && "010600020001"[3] != SPEED_RESPONSE_PREFIX[3];
    assert "010600020002"[7] != SET_SPEED_PREFIX[7] && "010600020002"[3] != SPEED_RESPONSE_PREFIX[3];
    assert "010600020004"[7] != SET_SPEED_PREFIX[7] && "010600020004"[3] != SPEED_RESPONSE_PREFIX[3];
  }

  /** `translate_modbus_command` (modbus_parser.py lines 5-32): the exact
      commands first, then the two prefixes, the first matching rule
      winning. The speed is read from a fixed character slice; an empty or
      non-hex slice gives the "invalid" translation. Since the rules are
      disjoint, each translation is characterised by its own rule alone. */
  function Classify(command: string): (r: Translation)
    ensures r == SpeedRequest <==> command == "010301080001"
    ensures r == RotateRight <==> command == "010600020001"
    ensures r == RotateLeft <==> command == "010600020002"
    ensures r == Stop <==> command == "010600020004"
    ensures (r.SetSpeed? || r == SetSpeedInvalid) <==> SET_SPEED_PREFIX <= command
    ensures r.SetSpeed? <==> SET_SPEED_PREFIX <= command && ParseHexInt(Slice(command, 8, 12)).Some?
    ensures r.SetSpeed? ==> r.speed == HexValue(Slice(command, 8, 12)) && r.speed < 0x10000
    ensures (r.SpeedResponse? || r == SpeedResponseInvalid) <==>
      SPEED_RESPONSE_PREFIX <= command && !(SET_SPEED_PREFIX <= command)
    ensures r.SpeedResponse? <==>
      SPEED_RESPONSE_PREFIX <= command && !(SET_SPEED_PREFIX <= command) && ParseHexInt(Slice(command, 6, 10)).Some?
    ensures r.SpeedResponse? ==> r.speed == HexValue(Slice(command, 6, 10)) && r.speed < 0x10000
    ensures r == Unknown <==>
      command !in {"010301080001", "010600020001", "010600020002", "010600020004"}
      && !(SET_SPEED_PREFIX <= command) && !(SPEED_RESPONSE_PREFIX <= command)
  {
    TableIsDisjoint();
    if command == "010301080001" then SpeedRequest
    else if command == "010600020001" then RotateRight
    else if command == "010600020002" then RotateLeft
    else if command == "010600020004" then Stop
    else if SET_SPEED_PREFIX <= command then
      var field := Slice(command, 8, 12);
      (match ParseHexInt(field)
       case Some(v) => ShortHexIsU16(field); SetSpeed(v)
       case None => SetSpeedInvalid)
    else if SPEED_RESPONSE_PREFIX <= command then
      var field := Slice(command, 6, 10);
      (match ParseHexInt(field)
       case Some(v) => ShortHexIsU16(field); SpeedResponse(v)
       case None => SpeedResponseInvalid)
    else Unknown
  }

  const SET_SPEED_LABEL: string := "Perintah: Atur kecepatan spindle ke "
  const SPEED_RESPONSE_LABEL: string := "Response: Kecepatan spindle adalah "

  /** The text printed for a translation. A speed is printed in decimal
      after its label, so the line reads back as the speed. */
  function Describe(t: Translation): (r: string)
    ensures t.SetSpeed? ==> SET_SPEED_LABEL <= r && SpellsDecimal(r[|SET_SPEED_LABEL|..], t.speed)
    ensures t.SpeedResponse? ==> SPEED_RESPONSE_LABEL <= r && SpellsDecimal(r[|SPEED_RESPONSE_LABEL|..], t.speed)
  {
    match t
    case SpeedRequest => "Request: Kecepatan spindle"
    case RotateRight => "Perintah: Putar spindle ke kanan"
    case RotateLeft => "Perintah: Putar spindle ke kiri"
    case Stop => "Perintah: Hentikan spindle"
    case SetSpeed(v) =>
      var r := SET_SPEED_LABEL + NatToString(v);
      assert r[|SET_SPEED_LABEL|..] == NatToString(v);
      r
    case SetSpeedInvalid => "Perintah: Atur kecepatan spindle (nilai kecepatan tidak valid)"
    case SpeedResponse(v) =>
      var r := SPEED_RESPONSE_LABEL + NatToString(v);
      assert r[|SPEED_RESPONSE_LABEL|..] == NatToString(v);
      r
    case SpeedResponseInvalid => "Response: Kecepatan spindle (nilai tidak valid)"
    case Unknown => "Perintah tidak dikenal"
  }

  /** A set-speed command whose value field holds four hex digits
      translates to that value; what follows the field is ignored. */
  lemma SetSpeedRoundTrip(digits: string, rest: string)
    requires |digits| == 4 && IsHexString(digits)
    ensures Classify(SET_SPEED_PREFIX + digits + rest) == SetSpeed(HexValue(digits))
  {
    var c := SET_SPEED_PREFIX + digits + rest;
    assert SET_SPEED_PREFIX <= c;
    assert Slice(c, 8, 12) == digits;
  }

  /** In particular every speed up to 0xFFFF, written as `%04x`, reads
      back as itself. */
  lemma SetSpeedOfFormat(speed: nat)
    requires speed < 0x10000
    ensures Classify(SET_SPEED_PREFIX + Format04x(speed)) == SetSpeed(speed)
  {
    SetSpeedRoundTrip(Format04x(speed), "");
    assert SET_SPEED_PREFIX + Format04x(speed) + "" == SET_SPEED_PREFIX + Format04x(speed);
  }

  /** A speed response carrying four hex digits after the byte count
      translates to their value. */
  lemma SpeedResponseRoundTrip(digits: string, rest: string)
    requires |digits| == 4 && IsHexString(digits)
    ensures Classify(SPEED_RESPONSE_PREFIX + digits + rest) == SpeedResponse(HexValue(digits))
  {
    var c := SPEED_RESPONSE_PREFIX + digits + rest;
    assert SPEED_RESPONSE_PREFIX <= c;
    assert c[3] != SET_SPEED_PREFIX[3];
    assert Slice(c, 6, 10) == digits;
  }

  /** A set-speed prefix with nothing after it has no value to read. */
  lemma BareSetSpeedIsInvalid()
    ensures Classify(SET_SPEED_PREFIX) == SetSpeedInvalid
  {
  }

  /** `group_and_translate_modbus_data` (modbus_parser.py lines 78-88): a
      command longer than four characters is split into its body and a
      four-character CRC; a shorter one is kept whole. */
  function SplitCrc(command: string): (r: (string, Option<string>))
    ensures r.1.Some? <==> |command| > 4
    ensures r.1.Some? ==> |r.1.value| == 4 && r.0 + r.1.value == command
    ensures r.1.None? ==> r.0 == command
  {
    if |command| > 4 then (command[..|command| - 4], Some(command[|command| - 4..])) else (command, None)
  }

  /** `group_and_translate_modbus_data` (modbus_parser.py lines 80-88): the
      line printed for one command. */
  function ReportLine(command: string): string
  {
    var (body, crc) := SplitCrc(command);
    if crc.Some? then "Perintah: " + body + " (CRC: " + crc.value + ") -> " + Describe(Classify(body))
    else "Perintah: " + body + " -> " + Describe(Classify(body))
  }

  /** A captured speed write with its CRC still attached: the CRC is
      split off, the body translates to the speed, and the printed line
      shows the body, the CRC and the speed. */
  lemma CapturedSetSpeed(digits: string, crc: string)
    requires |digits| == 4 && IsHexString(digits) && |crc| == 4
    ensures SplitCrc(SET_SPEED_PREFIX + digits + crc) == (SET_SPEED_PREFIX + digits, Some(crc))
    ensures Classify(SET_SPEED_PREFIX + digits) == SetSpeed(HexValue(digits))
    ensures ReportLine(SET_SPEED_PREFIX + digits + crc) ==
      "Perintah: " + (SET_SPEED_PREFIX + digits) + " (CRC: " + crc + ") -> "
      + ("Perintah: Atur kecepatan spindle ke " + NatToString(HexValue(digits)))
  {
    var body := SET_SPEED_PREFIX + digits;
    var c := body + crc;
    assert c[..|c| - 4] == body;
    assert c[|c| - 4..] == crc;
    SetSpeedRoundTrip(digits, "");
    assert body + "" == body;
    assert Describe(Classify(body)) == "Perintah: Atur kecepatan spindle ke " + NatToString(HexValue(digits));
  }

  /** A set-speed body translates to its value field. */
  lemma SetSpeedExample()
    ensures Classify("010600040013") == SetSpeed(19)
  {
    assert "010600040013" == SET_SPEED_PREFIX + "0013" + "";
    SetSpeedRoundTrip("0013", "");
    assert HexValue("0013") == 19 by {
      assert "0013"[..3] == "001" && "001"[..2] == "00" && "00"[..1] == "0" && "0"[..0] == "";
      assert HexValue("00") == 0;
    }
  }

  /** A speed reply too short to carry a CRC still has its full value
      field read: `010302012C` translates to 300. */
  lemma SpeedReplyExample()
    ensures Classify("010302012C") == SpeedResponse(300)
  {
    assert "010302012C" == SPEED_RESPONSE_PREFIX + "012C" + "";
    SpeedResponseRoundTrip("012C", "");
    assert HexValue("012C") == 300 by {
      assert "012C"[..3] == "012" && "012"[..2] == "01" && "01"[..1] == "0" && "0"[..0] == "";
      assert HexValue("01") == 1;
    }
  }

  /** The stop command of the leo controller is not in the table. */
  lemma LeoStopIsUnknown()
    ensures Classify("010660000005") == Unknown
  {
    assert "010660000005"[4] != SET_SPEED_PREFIX[4] && "010660000005"[3] != SPEED_RESPONSE_PREFIX[3];
  }
}
