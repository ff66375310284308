/** The call-log record parser. A call line reads
    `M:<caller><gap><callee>` where the gap has four characters and its third
    one is the call kind (the log tool writes ` (M)`, ` (I)`, ...). */
module Records {
  import opened Common
  import opened MethodId

  /** One call edge read from the log. */
  datatype Record = Record(caller: Method, callee: Method, callType: char)

  /** What `extract_method_record` makes of one line: not a call record
      (`None`), a record, or one of its assertion/index failures. */
  datatype LineParse = NotRecord | Parsed(record: Record) | Malformed(error: ParseError)

  /** The marker that opens every call record. */
  const RecordMarker: string := "M:"

  /** `extract_method_record`. The call kind is read at two characters past
      the caller; reading it past the end of the line is the source's
      `IndexError`, reported as `MissingCallType` with the line (that
      payload is the model's own: Python's message names no line). The
      callee is parsed four characters past the caller, from a clamped slice
      as in Python. */
  function ExtractMethodRecord(line: string): (r: LineParse)
    ensures r.NotRecord? <==> !IsPrefix(RecordMarker, line)
    ensures IsPrefix(RecordMarker, line) && ExtractMethod(line[2..]).Err? ==>
              r == Malformed(MethodMismatch(line[2..]))
    ensures IsPrefix(RecordMarker, line) && ExtractMethod(line[2..]).Ok? ==>
              var at := 2 + ExtractMethod(line[2..]).value.1 + 2;
              && (at >= |line| ==> r == Malformed(MissingCallType(line)))
              && (at < |line| ==>
                    var tail := line[if at + 2 <= |line| then at + 2 else |line|..];
                    ExtractMethod(tail).Err? ==> r == Malformed(MethodMismatch(tail)))
  {
    if !IsPrefix(RecordMarker, line) then NotRecord
    else
      match ExtractMethod(line[2..])
      case Err(e) => Malformed(e)
      case Ok((caller, len)) =>
        var at := 2 + len + 2;
        if at >= |line| then Malformed(MissingCallType(line))
        else
          var start := if at + 2 <= |line| then at + 2 else |line|;
          match ExtractMethod(line[start..])
          case Err(e) => Malformed(e)
          case Ok((callee, _)) => Parsed(Record(caller, callee, line[at]))
  }

  /** The layout of a call line carrying `rec`, stated on characters: the
      marker, the caller's canonical string, a four-character gap whose third
      character is the call kind, then the callee's canonical string followed
      by anything (the trailing newline, say). */
  predicate IsRecordLine(line: string, rec: Record) {
    var n := |ToString(rec.caller)|;
    && WellFormed(rec.caller) && WellFormed(rec.callee)
    && n + 6 <= |line|
    && line[..2] == RecordMarker
    && line[2..2 + n] == ToString(rec.caller)
    && line[n + 4] == rec.callType
    && IsPrefix(ToString(rec.callee), line[n + 6..])
  }

  /** The parser accepts a line with a given record exactly when the line
      has the record layout. */
  lemma RecordLineIff(line: string, rec: Record)
    ensures ExtractMethodRecord(line) == Parsed(rec) <==> IsRecordLine(line, rec)
  {
    if ExtractMethodRecord(line) == Parsed(rec) {
      ParsedIsRecordLine(line);
    }
    if IsRecordLine(line, rec) {
      RecordLineParses(line, rec);
    }
  }

  /** Soundness: every parsed record is laid out as the format says. */
  lemma ParsedIsRecordLine(line: string)
    requires ExtractMethodRecord(line).Parsed?
    ensures IsRecordLine(line, ExtractMethodRecord(line).record)
  {
    var rec := ExtractMethodRecord(line).record;
    ParsedRecordParts(line);
    var rest := line[2..];
    var len := ExtractMethod(rest).value.1;
    PartsLaidOut(line, rest, line[len + 6..], rec, len);
  }

  /** The two parses of a record line, each sound, give the layout. */
  lemma PartsLaidOut(line: string, rest: string, tail: string, rec: Record, len: nat)
    requires IsPrefix(RecordMarker, line) && rest == line[2..] && len + 6 <= |line| && tail == line[len + 6..]
    requires ExtractMethod(rest).Ok? && ExtractMethod(rest).value.0 == rec.caller && ExtractMethod(rest).value.1 == len
    requires ExtractMethod(tail).Ok? && ExtractMethod(tail).value.0 == rec.callee
    requires line[len + 4] == rec.callType
    ensures IsRecordLine(line, rec)
  {
    assert WellFormed(rec.caller) && len == |ToString(rec.caller)| && line[2..2 + len] == ToString(rec.caller) by {
      ExtractMethodSound(rest);
      assert rest[..len] == line[2..2 + len];
    }
    assert WellFormed(rec.callee) && IsPrefix(ToString(rec.callee), tail) by {
      ExtractMethodSound(tail);
    }
  }

  /** Where the parts of a parsed record come from. */
  lemma ParsedRecordParts(line: string)
    requires ExtractMethodRecord(line).Parsed?
    ensures IsPrefix(RecordMarker, line) && ExtractMethod(line[2..]).Ok?
    ensures var len := ExtractMethod(line[2..]).value.1;
            && len + 6 <= |line|
            && ExtractMethod(line[len + 6..]).Ok?
            && ExtractMethodRecord(line).record.caller == ExtractMethod(line[2..]).value.0
            && ExtractMethodRecord(line).record.callType == line[len + 4]
            && ExtractMethodRecord(line).record.callee == ExtractMethod(line[len + 6..]).value.0
  {
  }

  /** Completeness: a line laid out as the format says parses to its
      record. */
  lemma RecordLineParses(line: string, rec: Record)
    requires IsRecordLine(line, rec)
    ensures ExtractMethodRecord(line) == Parsed(rec)
  {
    var n := |ToString(rec.caller)|;
    var rest := line[2..];
    assert rest[..n] == ToString(rec.caller) by {
      assert rest[..n] == line[2..2 + n];
    }
    ExtractMethodComplete(rest, rec.caller, n);
    var tail := line[n + 6..];
    ExtractMethodComplete(tail, rec.callee, |ToString(rec.callee)|);
    RecordFromParts(line, rest, tail, rec, n);
  }

  lemma RecordFromParts(line: string, rest: string, tail: string, rec: Record, n: nat)
    requires IsPrefix(RecordMarker, line) && rest == line[2..] && n + 6 <= |line|
    requires ExtractMethod(rest).Ok? && ExtractMethod(rest).value.0 == rec.caller
    requires ExtractMethod(rest).value.1 == n && line[n + 4] == rec.callType
    requires tail == line[n + 6..] && ExtractMethod(tail).Ok? && ExtractMethod(tail).value.0 == rec.callee
    ensures ExtractMethodRecord(line).Parsed?
    ensures ExtractMethodRecord(line).record == rec
  {
  }

  /** The canonical log line for a record with a given gap. */
  function FormatRecord(rec: Record, gap: string): string {
    RecordMarker + ToString(rec.caller) + gap + ToString(rec.callee)
  }

  /** Round trip: a formatted record line, with any trailing text, parses
      back to the record whenever the gap is four characters long and
      carries the call kind third. */
  lemma ParseFormattedRecord(rec: Record, gap: string, trailing: string)
    requires WellFormed(rec.caller) && WellFormed(rec.callee)
    requires |gap| == 4 && gap[2] == rec.callType
    ensures ExtractMethodRecord(FormatRecord(rec, gap) + trailing) == Parsed(rec)
  {
    var line := FormatRecord(rec, gap) + trailing;
    var a, b := ToString(rec.caller), ToString(rec.callee);
    assert line == RecordMarker + a + gap + b + trailing;
    assert line[2..2 + |a|] == a;
    assert line[|a| + 4] == gap[2];
    assert line[|a| + 6..] == b + trailing;
    RecordLineParses(line, rec);
  }
}
