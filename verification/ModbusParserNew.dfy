/** modbus_parser_new.py: the second capture-log parser. Rows are plain
    CSV fields after a header; bytes are grouped into messages at gaps of
    more than 0.1 s, and each message is interpreted by prefix with its
    CRC still attached. */
module ModbusParserNew {
  import opened Wrappers
  import opened Hex
  import opened Text
  import opened Segmenter

  /** A gap longer than this, in seconds, starts a new message. */
  const GAP_THRESHOLD: real := 0.1

  /** `group_and_parse_from_file` (modbus_parser_new.py line 29): the rows
      after the header; `None` when the file has no header row to skip
      (`next` raises). */
  function DataRows(csvRows: seq<seq<string>>): (r: Option<seq<seq<string>>>)
    ensures r.None? <==> |csvRows| == 0
    ensures r.Some? ==> [csvRows[0]] + r.value == csvRows
  {
    if |csvRows| == 0 then None else Some(csvRows[1..])
  }

  /** `group_and_parse_from_file` (modbus_parser_new.py lines 37-39): the
      timed byte a row contributes; `None` when it has fewer than two fields
      or the time is not a float (the row is skipped). The byte text is only
      stripped and freed of `0x`, so it may be empty. */
  function ParseRow(row: seq<string>, float: string -> Option<real>): (r: Option<Record<string>>)
    ensures r.Some? <==> |row| >= 2 && float(row[0]).Some?
    ensures r.Some? ==> r.value.time == float(row[0]).value
    ensures r.Some? ==> r.value.token == RemoveAll(Strip(row[1]), "0x")
  {
    if |row| < 2 then None
    else match float(row[0])
      case Some(t) => Some(Record(t, RemoveAll(Strip(row[1]), "0x")))
      case None => None
  }

  /** The row parser the grouping loop applies. */
  function RowParser(float: string -> Option<real>): seq<string> -> Option<Record<string>>
  {
    row => ParseRow(row, float)
  }

  /** `last_time`: the time of the last accepted byte, `None` before the
      first. */
  predicate LastTimeOf(recs: seq<Record<string>>, lastTime: Option<real>)
  {
    (lastTime.Some? <==> |recs| > 0) && (lastTime.Some? ==> lastTime.value == recs[|recs| - 1].time)
  }

  /** `group_and_parse_from_file` (modbus_parser_new.py lines 31-53): the
      grouping loop. Its result is the gap segmentation of the accepted
      bytes with a 0.1 s threshold, each segment joined into one string: the
      same algorithm as the other parser, with another threshold. */
  method GroupMessages(rows: seq<seq<string>>, float: string -> Option<real>) returns (messages: seq<string>)
    ensures messages == Join(Segments(Accepted(rows, RowParser(float)), GAP_THRESHOLD))
  {
    messages := [];
    var current: seq<string> := [];
    var lastTime: Option<real> := None;
    ghost var recs: seq<Record<string>> := [];
    ProgressStart(GAP_THRESHOLD);
    for i := 0 to |rows|
      invariant recs == Accepted(rows[..i], RowParser(float))
      invariant Progress(recs, GAP_THRESHOLD, messages, current)
      invariant LastTimeOf(recs, lastTime)
    {
      AcceptedStep(rows, i, RowParser(float));
      var parsed := ParseRow(rows[i], float);
      if parsed.None? {
        continue;
      }
      var rec := parsed.value;
      if lastTime.Some? && rec.time - lastTime.value > GAP_THRESHOLD {
        ProgressSplit(recs, rec, GAP_THRESHOLD, messages, current);
        if |current| > 0 {
          messages := messages + [Concat(current)];
        }
        current := [];
      } else {
        ProgressExtend(recs, rec, GAP_THRESHOLD, messages, current);
      }
      current := current + [rec.token];
      lastTime := Some(rec.time);
      recs := recs + [rec];
    }
    assert rows[..|rows|] == rows;
    ProgressFinish(recs, GAP_THRESHOLD, messages, current);
    if |current| > 0 {
      messages := messages + [Concat(current)];
    }
  }

  /** The meaning `parse_modbus_messages` gives a message. */
  datatype Interpretation =
    | RotateRight
    | RotateLeft
    | Stop
    | RunAtSpeed(speed: nat)
    | SpeedRequest
    | Unknown

  /** `int(speed_hex, 16)` raised: the exception is not caught. */
  datatype ParseError = ValueError

  const SET_SPEED_PREFIX: string := "01060004"


  /** The direction and stop prefixes do not start with the set-speed
      prefix, and the speed request prefix starts with none of the others. */
  lemma PrefixesAreDisjoint()
    ensures !(SET_SPEED_PREFIX <= "010600020001") && !(SET_SPEED_PREFIX <= "010600020002")
    ensures !(SET_SPEED_PREFIX <= "010600020004")
    ensures !(SET_SPEED_PREFIX <= "010301080001")
  {
    assert "010600020001"[7] != SET_SPEED_PREFIX[7] && "010600020002"[7] != SET_SPEED_PREFIX[7];
    assert "010600020004"[7] != SET_SPEED_PREFIX[7] && "010301080001"[3] != SET_SPEED_PREFIX[3];
  }

  /** At most one of the fixed prefixes starts any message. */
  lemma PrefixesExclusive(h: string)
    ensures !("010600020001" <= h && "010600020002" <= h)
    ensures !("010600020001" <= h && "010600020004" <= h)
    ensures !("010600020002" <= h && "010600020004" <= h)
    ensures "010301080001" <= h ==> !("010600020001" <= h) && !("010600020002" <= h) && !("010600020004" <= h)
  {
    if |h| >= 12 {
      assert "010600020001" <= h ==> h[11] == '1';
      assert "010600020002" <= h ==> h[11] == '2';
      assert "010600020004" <= h ==> h[11] == '4';
      assert "010301080001" <= h ==> h[3] == '3';
    }
  }

  /** `parse_modbus_messages` (modbus_parser_new.py lines 8-23): prefix
      rules tried in order, so a message is recognised with its CRC (or
      anything else) still after the prefix. A set-speed message whose
      characters 8..12 are not hex raises. */
  function ParseModbusMessage(h: string): (r: Result<Interpretation, ParseError>)
    ensures r == Success(RotateRight) <==> "010600020001" <= h
    ensures r == Success(RotateLeft) <==> "010600020002" <= h
    ensures r == Success(Stop) <==> "010600020004" <= h
    ensures (r.Failure? || r.value.RunAtSpeed?) <==> SET_SPEED_PREFIX <= h
    ensures r.Failure? <==> SET_SPEED_PREFIX <= h && ParseHexInt(Slice(h, 8, 12)).None?
    ensures r.Success? && r.value.RunAtSpeed? ==>
      r.value.speed == HexValue(Slice(h, 8, 12)) && r.value.speed < 0x10000
    ensures r == Success(SpeedRequest) <==> "010301080001" <= h
    ensures r == Success(Unknown) <==>
      !("010600020001" <= h) && !("010600020002" <= h) && !("010600020004" <= h)
      && !(SET_SPEED_PREFIX <= h) && !("010301080001" <= h)
  {
    PrefixesAreDisjoint();
    PrefixesExclusive(h);
    if "010600020001" <= h then Success(RotateRight)
    else if "010600020002" <= h then Success(RotateLeft)
    else if "010600020004" <= h then Success(Stop)
    else if SET_SPEED_PREFIX <= h then
      var field := Slice(h, 8, 12);
      (match ParseHexInt(field)
       case Some(v) => ShortHexIsU16(field); Success(RunAtSpeed(v))
       case None => Failure(ValueError))
    else if "010301080001" <= h then Success(SpeedRequest)
    else Success(Unknown)
  }

  const RUN_AT_SPEED_LABEL: string := "Memutar spindle dengan kecepatan "

  /** The text printed for an interpretation. A speed is printed in
      decimal after its label, so the line reads back as the speed. */
  function Describe(t: Interpretation): (r: string)
    ensures t.RunAtSpeed? ==> RUN_AT_SPEED_LABEL <= r && SpellsDecimal(r[|RUN_AT_SPEED_LABEL|..], t.speed)
  {
    match t
    case RotateRight => "Perintah berputar ke kanan"
    case RotateLeft => "Perintah berputar ke kiri"
    case Stop => "Perintah berhenti"
    case RunAtSpeed(v) =>
      var r := RUN_AT_SPEED_LABEL + NatToString(v);
      assert r[|RUN_AT_SPEED_LABEL|..] == NatToString(v);
      r
    case SpeedRequest => "Request kecepatan spindle"
    case Unknown => "Perintah tidak dikenal"
  }

  /** `group_and_parse_from_file` (modbus_parser_new.py line 56): the line
      printed for one message. */
  function Line(msg: string, t: Interpretation): string
  {
    "Data: " + msg + ", Terjemahan: " + Describe(t)
  }

  /** `group_and_parse_from_file` (modbus_parser_new.py lines 25-56):
      skip the header, group the remaining rows into messages and report
      each one. `None` is the file without a header row, where `next`
      raises before anything is printed. */
  method GroupAndParseFromFile(csvRows: seq<seq<string>>, float: string -> Option<real>)
    returns (report: Option<(seq<string>, bool)>)
    ensures report.None? <==> |csvRows| == 0
    ensures report.Some? ==>
      report.value == Report(Join(Segments(Accepted(csvRows[1..], RowParser(float)), GAP_THRESHOLD)))
  {
    match DataRows(csvRows)
    case None =>
      report := None;
    case Some(rows) =>
      var messages := GroupMessages(rows, float);
      report := Some(Report(messages));
  }

  /** `group_and_parse_from_file` (modbus_parser_new.py lines 55-56): the
      lines printed, and whether the report stopped at a message whose
      interpretation raised. */
  function Report(msgs: seq<string>): (r: (seq<string>, bool))
    ensures |r.0| <= |msgs|
    ensures r.1 <==> |r.0| < |msgs|
  {
    if |msgs| == 0 then ([], false)
    else match ParseModbusMessage(msgs[0])
      case Failure(_) => ([], true)
      case Success(t) =>
        var rest := Report(msgs[1..]);
        ([Line(msgs[0], t)] + rest.0, rest.1)
  }

  /** Each printed line shows its message and interpretation, and a report
      that stops does so at a message that raised. */
  lemma {:induction false} ReportContents(msgs: seq<string>)
    ensures forall k :: 0 <= k < |Report(msgs).0| ==>
      ParseModbusMessage(msgs[k]).Success? && Report(msgs).0[k] == Line(msgs[k], ParseModbusMessage(msgs[k]).value)
    ensures Report(msgs).1 ==> ParseModbusMessage(msgs[|Report(msgs).0|]).Failure?
  {
    if |msgs| > 0 && ParseModbusMessage(msgs[0]).Success? {
      var rest := msgs[1..];
      ReportContents(rest);
      forall k | 1 <= k < |Report(msgs).0|
        ensures msgs[k] == rest[k - 1]
      {
      }
    }
  }

  /** The report stops exactly when some message fails to parse, right at
      the first such message. */
  lemma ReportStopsAtFirstFailure(msgs: seq<string>)
    ensures Report(msgs).1 <==> exists k :: 0 <= k < |msgs| && ParseModbusMessage(msgs[k]).Failure?
    ensures Report(msgs).1 ==> forall k :: 0 <= k < |Report(msgs).0| ==> ParseModbusMessage(msgs[k]).Success?
  {
    ReportContents(msgs);
    var r := Report(msgs);
    if r.1 {
      assert ParseModbusMessage(msgs[|r.0|]).Failure?;
    }
  }

  /** A message holding only the set-speed prefix has an empty value
      field and raises. */
  lemma BareSetSpeedRaises()
    ensures ParseModbusMessage(SET_SPEED_PREFIX) == Failure(ValueError)
  {
    assert Slice(SET_SPEED_PREFIX, 8, 12) == [];
  }

  /** The CRC stays attached: a direction or stop command followed by
      anything is still recognised. */
  lemma FixedCommandWithCrc(prefix: string, t: Interpretation, crc: string)
    requires (prefix, t) == ("010600020001", RotateRight) || (prefix, t) == ("010600020002", RotateLeft)
      || (prefix, t) == ("010600020004", Stop) || (prefix, t) == ("010301080001", SpeedRequest)
    ensures ParseModbusMessage(prefix + crc) == Success(t)
  {
    assert prefix <= prefix + crc;
  }

  /** A set-speed message reads its value from the four characters after
      the prefix; the CRC after them is ignored. */
  lemma SetSpeedWithCrc(digits: string, crc: string)
    requires |digits| == 4 && IsHexString(digits)
    ensures ParseModbusMessage(SET_SPEED_PREFIX + digits + crc) == Success(RunAtSpeed(HexValue(digits)))
  {
    var h := SET_SPEED_PREFIX + digits + crc;
    assert SET_SPEED_PREFIX <= h;
    assert Slice(h, 8, 12) == digits;
  }

  /** The two parsers cut a log alike whenever no gap lies between 0.1 s
      and 1 s. */
  lemma ThresholdsAgree(recs: seq<Record<string>>)
    requires NoGapBetween(recs, GAP_THRESHOLD, 1.0)
    ensures Segments(recs, GAP_THRESHOLD) == Segments(recs, 1.0)
  {
    SameSegmentsAcrossThresholds(recs, GAP_THRESHOLD, 1.0);
  }
}
