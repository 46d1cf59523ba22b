/**
 * The QUESO/DRAM calibration driver's resume protocol. One submission reads the hours
 * left on the allocation from the scheduler, classifies the run directory from its
 * failure log and its metric file, writes a speculative failure marker when a fresh
 * run has time, runs the model (or reports a prior failure, or copies finished
 * metrics), and on success replaces the markers with the metrics.
 */
module QuesoDriver {
  import opened Outcomes
  import opened Text
  import opened JobFiles

  /** The fewest hours left for which a fresh run writes the failure marker first. */
  const HoursNeeded: int := 23
  /** The line count of a finished metric file. */
  const CompleteLineCount: nat := 20
  /** The contents of the failure marker `fail_log.txt`. */
  const FailMarker: string := "fail"
  /** The results file of a failed (or not yet finished) run. */
  const FailResult: string := "fail\n"

  /** Hours left from the `squeue --format=%.10L` output: the last space-separated token
      of the stripped output, split at colons; the third field from the end read as an
      integer, 0 when there are fewer than three fields, and ValueError (which the driver
      does not catch) when that field is not an integer. */
  function HoursLeft(squeueOutput: string): (r: Result<int, Exception>)
    ensures r.Failure? ==> r.error == ValueError
  {
    HoursOfStripped(Strip(squeueOutput))
  }

  /** The hours field of the stripped output: the last space-separated token split at
      colons, the third field from the end read by `int`, 0 when there are fewer than
      three fields (the IndexError the driver catches). */
  function HoursOfStripped(text: string): Result<int, Exception> {
    HoursOfFields(Split(LastToken(text), ':'))
  }

  /** `text.split(' ')[-1]` */
  function LastToken(text: string): string {
    var tokens := Split(text, ' ');
    tokens[|tokens| - 1]
  }

  /** `int(fields[-3])`, or 0 for the IndexError of fewer than three fields. */
  function HoursOfFields(fields: seq<string>): Result<int, Exception> {
    if |fields| < 3 then Success(0) else ParseInt(fields[|fields| - 3])
  }

  /** The hours field of a time left `hh:mm:ss` after a header is read by `int`. */
  lemma HoursLeftOfFields(header: string, hh: string, mm: string, ss: string)
    requires |header| > 0 && !IsSpace(header[0])
    requires |ss| > 0 && NoSpace(hh) && NoSpace(mm) && NoSpace(ss)
    requires ':' !in hh && ':' !in mm && ':' !in ss
    ensures HoursLeft(header + " " + (hh + ":" + mm + ":" + ss)) == ParseInt(hh)
  {
    var text := Strip(header + " " + (hh + ":" + mm + ":" + ss));
    ClockFields(header, hh, mm, ss);
    ThirdFromEnd(text, hh, mm, ss);
  }

  /** Text whose last token has the colon fields `hh`, `mm`, `ss` gives `int(hh)` hours. */
  lemma ThirdFromEnd(text: string, hh: string, mm: string, ss: string)
    requires Split(LastToken(text), ':') == [hh, mm, ss]
    ensures HoursOfStripped(text) == ParseInt(hh)
  {
    assert HoursOfFields([hh, mm, ss]) == ParseInt(hh);
  }

  /** A time left of `h:mm:ss` after a header gives `h` hours. */
  lemma HoursLeftOfClock(header: string, h: nat, mm: string, ss: string)
    requires |header| > 0 && !IsSpace(header[0])
    requires |ss| > 0 && NoSpace(mm) && NoSpace(ss) && ':' !in mm && ':' !in ss
    ensures HoursLeft(header + " " + (Str(h) + ":" + mm + ":" + ss)) == Success(h)
  {
    assert ':' !in Str(h) by { assert forall i :: 0 <= i < |Str(h)| ==> IsDigit(Str(h)[i]); }
    HoursLeftOfFields(header, Str(h), mm, ss);
    ParseIntStr(h);
  }

  /** A time left of `m:ss` (under an hour) has only two fields and counts as 0 hours. */
  lemma HoursLeftUnderAnHour(header: string, mm: string, ss: string)
    requires |header| > 0 && !IsSpace(header[0])
    requires |ss| > 0 && NoSpace(mm) && NoSpace(ss) && ':' !in mm && ':' !in ss
    ensures HoursLeft(header + " " + (mm + ":" + ss)) == Success(0)
  {
    var clock := mm + ":" + ss;
    assert NoSpace(clock);
    LastTokenIsClock(header, clock);
    assert clock == mm + [':'] + ss;
    SplitAtSep(mm, ':', ss);
    SplitWithoutSep(ss, ':');
  }

  /** A time left of `d-hh:mm:ss` (a day or more) makes `int` raise ValueError, because
      the third field from the end is `d-hh`, whatever the padding of either number. */
  lemma HoursLeftWithDaysRaises(header: string, days: string, hours: string, mm: string, ss: string)
    requires |header| > 0 && !IsSpace(header[0])
    requires |days| > 0 && AllDigits(days) && |hours| > 0 && AllDigits(hours)
    requires |ss| > 0 && NoSpace(mm) && NoSpace(ss) && ':' !in mm && ':' !in ss
    ensures HoursLeft(header + " " + (days + "-" + hours + ":" + mm + ":" + ss)).Failure?
  {
    var field := days + "-" + hours;
    assert forall i :: 0 <= i < |field| ==> field[i] == '-' || IsDigit(field[i]);
    assert NoSpace(field) && ':' !in field;
    HoursLeftOfFields(header, field, mm, ss);
    InnerDashRaises(days, hours);
  }

  /** `int('d-hh')` raises ValueError. */
  lemma InnerDashRaises(days: string, hours: string)
    requires |days| > 0 && AllDigits(days) && |hours| > 0 && AllDigits(hours)
    ensures ParseInt(days + "-" + hours).Failure?
  {
    var field := days + "-" + hours;
    assert forall i :: 0 <= i < |field| ==> field[i] == '-' || IsDigit(field[i]);
    assert NoSpace(field);
    StripNoSpace(field);
    assert field[0] == days[0] && IsDigit(days[0]);
    assert field[|days|] == '-';
  }

  /** `s` right-justified in `width` columns, as a `.` in an squeue format field asks. */
  function RightJustify(s: string, width: nat): string {
    Spaces(PadWidth(s, width)) + s
  }

  /** The blanks needed to right-justify `s` in `width` columns: none when it fills them. */
  function PadWidth(s: string, width: nat): nat {
    if |s| >= width then 0 else width - |s|
  }

  /** What `squeue --format=%.10L` prints for one job: the column header (`TIME_LEFT`)
      and the time left, each right-justified in ten columns on a line of its own. */
  function SqueueOutput(header: string, value: string): string {
    RightJustify(header, 10) + "\n" + RightJustify(value, 10) + "\n"
  }

  /** Whitespace around the scheduler's output does not change the hours read from it. */
  lemma HoursLeftIgnoresSurroundingSpace(w1: string, s: string, w2: string)
    requires AllSpace(w1) && AllSpace(w2)
    ensures HoursLeft(w1 + s + w2) == HoursLeft(s)
  {
    var t := w1 + s + w2;
    StripSurrounding(w1, s, w2);
    assert Strip(t) == Strip(s);
    assert HoursOfStripped(Strip(t)) == HoursOfStripped(Strip(s));
  }

  /** Stripping the scheduler's output leaves the header and the justified value, with
      the newline between them. */
  lemma SqueueLine(header: string, value: string)
    ensures Strip(SqueueOutput(header, value)) == Strip(header + "\n" + RightJustify(value, 10))
  {
    var rv := RightJustify(value, 10);
    var lead := Spaces(PadWidth(header, 10));
    RegroupLine(lead, header, "\n", rv);
    assert AllSpace(lead) && AllSpace("\n");
    StripSurrounding(lead, header + "\n" + rv, "\n");
  }

  /** The text `HoursLeft` splits for a padded value: the header line, then the value
      after at least one blank. */
  lemma SqueuePadded(header: string, value: string)
    requires |value| < 10
    ensures HoursLeft(SqueueOutput(header, value))
         == HoursLeft((header + "\n" + Spaces(10 - |value| - 1)) + " " + value)
  {
    SqueueLine(header, value);
    PaddedLine(header, value);
    SameStrip(SqueueOutput(header, value), (header + "\n" + Spaces(10 - |value| - 1)) + " " + value);
  }

  /** A padded value is the rest of the padding, one blank, and the value. */
  lemma PaddedLine(header: string, value: string)
    requires |value| < 10
    ensures header + "\n" + RightJustify(value, 10)
         == (header + "\n" + Spaces(10 - |value| - 1)) + " " + value
  {
    JustifiedPad(value);
    RegroupPad(header, "\n", Spaces(10 - |value| - 1), " ", value);
  }

  /** A value shorter than the column gets at least one blank before it. */
  lemma JustifiedPad(value: string)
    requires |value| < 10
    ensures RightJustify(value, 10) == Spaces(10 - |value| - 1) + " " + value
  {
    var k := 10 - |value| - 1;
    assert PadWidth(value, 10) == k + 1;
    assert Spaces(k + 1) == Spaces(k) + " ";
  }

  /** Texts that strip alike give the same hours. */
  lemma SameStrip(a: string, b: string)
    requires Strip(a) == Strip(b)
    ensures HoursLeft(a) == HoursLeft(b)
  {
  }

  /** Concatenation regrouped: the blanks of the padding join the header line. */
  lemma RegroupPad(b: string, n: string, d: string, sp: string, v: string)
    ensures b + n + (d + sp + v) == b + n + d + sp + v
  {
  }

  /** A time left of `h:mm:ss` as squeue prints it reads as `h` hours. */
  lemma HoursLeftOfSqueueClock(header: string, h: nat, mm: string, ss: string)
    requires |header| > 0 && !IsSpace(header[0])
    requires |ss| > 0 && NoSpace(mm) && NoSpace(ss) && ':' !in mm && ':' !in ss
    requires |Str(h) + ":" + mm + ":" + ss| < 10
    ensures HoursLeft(SqueueOutput(header, Str(h) + ":" + mm + ":" + ss)) == Success(h)
  {
    var value := Str(h) + ":" + mm + ":" + ss;
    SqueuePadded(header, value);
    var front := header + "\n" + Spaces(10 - |value| - 1);
    assert front[0] == header[0];
    HoursLeftOfClock(front, h, mm, ss);
  }

  /** A time left of `mm:ss` as squeue prints it counts as 0 hours. */
  lemma HoursLeftOfSqueueMinutes(header: string, mm: string, ss: string)
    requires |header| > 0 && !IsSpace(header[0])
    requires |ss| > 0 && NoSpace(mm) && NoSpace(ss) && ':' !in mm && ':' !in ss
    requires |mm + ":" + ss| < 10
    ensures HoursLeft(SqueueOutput(header, mm + ":" + ss)) == Success(0)
  {
    var value := mm + ":" + ss;
    SqueuePadded(header, value);
    var front := header + "\n" + Spaces(10 - |value| - 1);
    assert front[0] == header[0];
    HoursLeftUnderAnHour(front, mm, ss);
  }

  /** A time left of `d-hh:mm:ss` as squeue prints it makes `int` raise ValueError,
      whether it fills all ten columns or is padded. */
  lemma HoursLeftOfSqueueDays(header: string, days: string, hours: string, mm: string, ss: string)
    requires |header| > 0 && NoSpace(header) && ':' !in header
    requires |days| > 0 && AllDigits(days) && |hours| > 0 && AllDigits(hours)
    requires |ss| > 0 && NoSpace(mm) && NoSpace(ss) && ':' !in mm && ':' !in ss
    requires |days + "-" + hours + ":" + mm + ":" + ss| <= 10
    ensures HoursLeft(SqueueOutput(header, days + "-" + hours + ":" + mm + ":" + ss)).Failure?
  {
    var value := days + "-" + hours + ":" + mm + ":" + ss;
    if |value| < 10 {
      SqueuePadded(header, value);
      var front := header + "\n" + Spaces(10 - |value| - 1);
      assert front[0] == header[0];
      HoursLeftWithDaysRaises(front, days, hours, mm, ss);
    } else {
      DaysFillColumn(header, days, hours, mm, ss);
    }
  }

  /** A ten-column days value follows the header's newline with no blank, so the last
      token is the whole output and the third field from the end is `header\nd-hh`. */
  lemma DaysFillColumn(header: string, days: string, hours: string, mm: string, ss: string)
    requires |header| > 0 && NoSpace(header) && ':' !in header
    requires |days| > 0 && AllDigits(days) && |hours| > 0 && AllDigits(hours)
    requires |ss| > 0 && NoSpace(mm) && NoSpace(ss) && ':' !in mm && ':' !in ss
    requires |days + "-" + hours + ":" + mm + ":" + ss| == 10
    ensures HoursLeft(SqueueOutput(header, days + "-" + hours + ":" + mm + ":" + ss)).Failure?
  {
    var value := days + "-" + hours + ":" + mm + ":" + ss;
    SqueueFull(header, value);
    DaysFieldSplit(header, days, hours, mm, ss);
    DayFieldRaises(header, days, hours);
    ThirdFromEnd(Strip(header + "\n" + value), header + "\n" + (days + "-" + hours), mm, ss);
  }

  /** `int` of the header line followed by `d-hh` raises ValueError. */
  lemma DayFieldRaises(header: string, days: string, hours: string)
    requires |header| > 0 && NoSpace(header)
    requires |days| > 0 && AllDigits(days) && |hours| > 0 && AllDigits(hours)
    ensures ParseInt(header + "\n" + (days + "-" + hours)).Failure?
  {
    var field := days + "-" + hours;
    assert field[|days|] == '-';
    assert NoSpace(field) by {
      assert forall i :: 0 <= i < |field| ==> field[i] == '-' || IsDigit(field[i]);
    }
    FieldWithNewlineRaises(header, field);
  }

  /** A value that fills its column follows the header's newline directly. */
  lemma SqueueFull(header: string, value: string)
    requires |value| >= 10
    ensures HoursLeft(SqueueOutput(header, value)) == HoursLeft(header + "\n" + value)
  {
    assert PadWidth(value, 10) == 0 && Spaces(0) + value == value;
    SqueueLine(header, value);
    SameStrip(SqueueOutput(header, value), header + "\n" + value);
  }

  /** Concatenation regrouped: the unpadded output around the line that is split. */
  lemma RegroupLine(a: string, b: string, n: string, v: string)
    ensures a + b + n + v + n == a + (b + n + v) + n
  {
  }

  /** Without a blank in it, the output is one token whose colon fields are the header
      line with `d-hh`, then `mm` and `ss`. */
  lemma DaysFieldSplit(header: string, days: string, hours: string, mm: string, ss: string)
    requires |header| > 0 && NoSpace(header) && ':' !in header
    requires AllDigits(days) && AllDigits(hours)
    requires |ss| > 0 && NoSpace(mm) && NoSpace(ss) && ':' !in mm && ':' !in ss
    ensures var inner := header + "\n" + (days + "-" + hours + ":" + mm + ":" + ss);
            Split(LastToken(Strip(inner)), ':') == [header + "\n" + (days + "-" + hours), mm, ss]
  {
    DaysInnerToken(header, days, hours, mm, ss);
    DaysInnerFields(header, days, hours, mm, ss);
  }

  /** The whole ten-column output is one token: it has no blank and nothing to strip. */
  lemma DaysInnerToken(header: string, days: string, hours: string, mm: string, ss: string)
    requires |header| > 0 && NoSpace(header) && ':' !in header
    requires AllDigits(days) && AllDigits(hours)
    requires |ss| > 0 && NoSpace(mm) && NoSpace(ss) && ':' !in mm && ':' !in ss
    ensures var inner := header + "\n" + (days + "-" + hours + ":" + mm + ":" + ss);
            LastToken(Strip(inner)) == inner
  {
    var field := header + "\n" + (days + "-" + hours);
    var inner := header + "\n" + (days + "-" + hours + ":" + mm + ":" + ss);
    RegroupFields(header + "\n", days, "-", hours, ":", mm, ss);
    assert inner == field + [':'] + (mm + [':'] + ss);
    assert inner[0] == header[0] && inner[|inner| - 1] == ss[|ss| - 1];
    StripTrimmed(inner);
    DaysFieldChars(header, days, hours);
    assert ' ' !in mm by { forall i | 0 <= i < |mm| ensures mm[i] != ' ' { assert !IsSpace(mm[i]); } }
    assert ' ' !in ss by { forall i | 0 <= i < |ss| ensures ss[i] != ' ' { assert !IsSpace(ss[i]); } }
    assert ' ' !in inner;
    SplitWithoutSep(inner, ' ');
  }

  /** The colon fields of the ten-column output: the header line with `d-hh`, then
      the minutes and the seconds. */
  lemma DaysInnerFields(header: string, days: string, hours: string, mm: string, ss: string)
    requires NoSpace(header) && ':' !in header
    requires AllDigits(days) && AllDigits(hours)
    requires ':' !in mm && ':' !in ss
    ensures var inner := header + "\n" + (days + "-" + hours + ":" + mm + ":" + ss);
            Split(inner, ':') == [header + "\n" + (days + "-" + hours), mm, ss]
  {
    var field := header + "\n" + (days + "-" + hours);
    RegroupFields(header + "\n", days, "-", hours, ":", mm, ss);
    DaysFieldChars(header, days, hours);
    SplitAtSep(field, ':', mm + [':'] + ss);
    SplitAtSep(mm, ':', ss);
    SplitWithoutSep(ss, ':');
  }

  /** The field `header\nd-hh` holds neither a blank nor a colon. */
  lemma DaysFieldChars(header: string, days: string, hours: string)
    requires NoSpace(header) && ':' !in header && AllDigits(days) && AllDigits(hours)
    ensures var field := header + "\n" + (days + "-" + hours);
            ' ' !in field && ':' !in field
  {
    var field := header + "\n" + (days + "-" + hours);
    forall i | 0 <= i < |field| ensures field[i] != ' ' && field[i] != ':' {
      if i < |header| {
        assert field[i] == header[i] && !IsSpace(header[i]) && header[i] in header;
      } else if i > |header| && i < |header| + 1 + |days| {
        assert field[i] == days[i - |header| - 1];
      } else if i > |header| + 1 + |days| {
        assert field[i] == hours[i - |header| - 2 - |days|];
      }
    }
  }

  /** Concatenation regrouped: the days field before the first colon. */
  lemma RegroupFields(p: string, d: string, dash: string, h: string, c: string, m: string, s: string)
    ensures p + (d + dash + h + c + m + c + s) == p + (d + dash + h) + c + (m + c + s)
  {
  }

  /** `int` of a header line followed by a field that is not a number raises ValueError:
      the newline is neither whitespace at an end nor a digit, and even after a lone sign
      header, where `int` skips it, what follows is not all digits. */
  lemma FieldWithNewlineRaises(header: string, rest: string)
    requires |header| > 0 && NoSpace(header)
    requires |rest| > 0 && NoSpace(rest) && !AllDigits(rest)
    ensures ParseInt(header + "\n" + rest).Failure?
  {
    var field := header + "\n" + rest;
    assert field[0] == header[0] && field[|field| - 1] == rest[|rest| - 1];
    StripTrimmed(field);
    NewlineFieldStripped(header, rest);
  }

  /** The same for the text once stripped. */
  lemma NewlineFieldStripped(header: string, rest: string)
    requires |header| > 0 && NoSpace(header)
    requires |rest| > 0 && NoSpace(rest) && !AllDigits(rest)
    ensures ParseStripped(header + "\n" + rest).Failure?
  {
    var field := header + "\n" + rest;
    assert field[|header|] == '\n';
    if field[0] == '-' || field[0] == '+' {
      var u := field[1..];
      if |header| > 1 {
        assert u[0] == header[1];
        assert TrimStart(u) == u;
        assert u[|header| - 1] == '\n';
      } else {
        assert u == "\n" + rest;
        TrimStartSpace("\n", rest);
        assert TrimStart(rest) == rest;
      }
    }
  }

  /** The clock fields of the last token of `header + " " + hh:mm:ss`. */
  lemma ClockFields(header: string, hh: string, mm: string, ss: string)
    requires |header| > 0 && !IsSpace(header[0])
    requires |ss| > 0 && NoSpace(hh) && NoSpace(mm) && NoSpace(ss)
    requires ':' !in hh && ':' !in mm && ':' !in ss
    ensures Split(LastToken(Strip(header + " " + (hh + ":" + mm + ":" + ss))), ':') == [hh, mm, ss]
  {
    var clock := hh + ":" + mm + ":" + ss;
    LastTokenIsClock(header, clock);
    assert clock == hh + [':'] + (mm + [':'] + ss);
    SplitAtSep(hh, ':', mm + [':'] + ss);
    SplitAtSep(mm, ':', ss);
    SplitWithoutSep(ss, ':');
  }

  /** The last space-separated token of `header + " " + clock` is the clock. */
  lemma LastTokenIsClock(header: string, clock: string)
    requires |header| > 0 && !IsSpace(header[0])
    requires |clock| > 0 && NoSpace(clock)
    ensures LastToken(Strip(header + " " + clock)) == clock
  {
    var s := header + " " + clock;
    assert s[0] == header[0] && s[|s| - 1] == clock[|clock| - 1];
    StripTrimmed(s);
    assert ' ' !in clock by {
      forall i | 0 <= i < |clock| ensures clock[i] != ' ' { assert !IsSpace(clock[i]); }
    }
    LastPieceAfterSep(header, ' ', clock);
    assert s == header + [' '] + clock;
  }

  /** Whatever precedes the last separator, the last piece of a split is what follows it. */
  lemma {:induction false} LastPieceAfterSep(a: string, sep: char, b: string)
    requires sep !in b
    ensures var pieces := Split(a + [sep] + b, sep);
            |pieces| >= 2 && pieces[|pieces| - 1] == b
    decreases |a|
  {
    var s := a + [sep] + b;
    if |a| == 0 {
      SplitAtSep(a, sep, b);
      SplitWithoutSep(b, sep);
    } else {
      assert s[1..] == a[1..] + [sep] + b;
      LastPieceAfterSep(a[1..], sep, b);
    }
  }

  /** Some line of the failure log contains `fail`. */
  predicate AnySaysFail(lines: seq<string>) {
    exists i :: 0 <= i < |lines| && Contains(lines[i], FailMarker)
  }

  /** The decision before the run: whether to run the model, whether a prior failure is
      to be reported, and the directory after the speculative markers. */
  datatype GateResult = GateResult(runModel: bool, fail: bool, dir: Directory)

  /** The gate: a failure log decides alone (any line with `fail` means a prior failure,
      otherwise run); else a metric file of exactly 20 lines means finished, any other
      length means run; else the run goes ahead, writing `fail` to the failure log and to
      the results first when at least 23 hours remain. */
  function Gate(dir: Directory, hoursLeft: int): (g: GateResult)
    ensures g.fail ==> !g.runModel
    ensures !g.runModel ==> dir.failLog.Some? || dir.outputs.Some?
    ensures g.dir.outputs == dir.outputs
    ensures g.dir != dir ==> dir.failLog.None? && dir.outputs.None? && hoursLeft >= HoursNeeded
  {
    if dir.failLog.Some? then
      var failed := AnySaysFail(ReadLines(dir.failLog.value));
      GateResult(!failed, failed, dir)
    else if dir.outputs.Some? then
      var complete := |ReadLines(dir.outputs.value)| == CompleteLineCount;
      GateResult(!complete, false, dir)
    else if hoursLeft >= HoursNeeded then
      GateResult(true, false, dir.(failLog := Some(FailMarker), results := Some(FailResult)))
    else
      GateResult(true, false, dir)
  }

  /** The loop over the failure log's lines: `run_model` is cleared and `fail` set as soon
      as one line contains `fail`. (`fail` is left unbound in Python when no line does;
      it is read only when `run_model` is false.) */
  method ScanFailLog(lines: seq<string>) returns (runModel: bool, fail: bool)
    ensures runModel <==> !AnySaysFail(lines)
    ensures fail <==> !runModel
  {
    runModel, fail := true, false;
    for i := 0 to |lines|
      invariant runModel <==> forall j :: 0 <= j < i ==> !Contains(lines[j], FailMarker)
      invariant fail <==> !runModel
    {
      if Contains(lines[i], FailMarker) {
        runModel, fail := false, true;
      }
    }
  }

  /** The gate as the driver runs it, marker writes included. */
  method RunGate(dir: Directory, hoursLeft: int) returns (runModel: bool, fail: bool, after: Directory)
    ensures GateResult(runModel, fail, after) == Gate(dir, hoursLeft)
  {
    runModel, fail, after := true, false, dir;
    if dir.failLog.Some? {
      runModel, fail := ScanFailLog(ReadLines(dir.failLog.value));
    } else if dir.outputs.Some? {
      if |ReadLines(dir.outputs.value)| == CompleteLineCount {
        runModel := false;
      }
    } else if hoursLeft >= HoursNeeded {
      after := after.(failLog := Some(FailMarker));
      after := after.(results := Some(FailResult));
    }
  }

  /** A skipped run: the prior failure is reported as `fail`, or the finished metric file
      is copied to the results. */
  function Report(dir: Directory, fail: bool): (r: Directory)
    ensures r.failLog == dir.failLog && r.outputs == dir.outputs
    ensures fail ==> r.results == Some(FailResult)
    ensures !fail ==> r.results == dir.outputs
  {
    if fail then dir.(results := Some(FailResult)) else dir.(results := dir.outputs)
  }

  /** A finished run: the metric file is overwritten with the bundle one value per line,
      the failure log is removed, and the results hold the same lines. */
  function RecordSuccess(dir: Directory, bundle: seq<string>): (r: Directory)
    ensures r.failLog.None? && r.outputs == Some(JoinLines(bundle)) && r.results == r.outputs
    ensures EndsLine(r.outputs.value)
  {
    Directory(None, Some(JoinLines(bundle)), Some(JoinLines(bundle)))
  }

  /** One submission of the driver. An unparsable time left stops it before it touches
      the directory. */
  function Submit(dir: Directory, squeueOutput: string, outcome: RunOutcome): (s: Submission)
    ensures !s.ran ==> s.dir.failLog == dir.failLog && s.dir.outputs == dir.outputs
    ensures outcome.Crashed? ==> s.dir.outputs == dir.outputs
    ensures s.ran && outcome.Succeeded? ==> s.dir.failLog.None? && s.dir.results == s.dir.outputs
    ensures s.ran ==> HoursLeft(squeueOutput).Success?
  {
    match HoursLeft(squeueOutput)
    case Failure(_) => Submission(false, dir)
    case Success(h) =>
      var g := Gate(dir, h);
      if !g.runModel then Submission(false, Report(g.dir, g.fail))
      else
        match outcome
        case Crashed => Submission(true, g.dir)
        case Succeeded(bundle) => Submission(true, RecordSuccess(g.dir, bundle))
  }

  /** One submission as the driver runs it, step by step. */
  method RunSubmission(dir: Directory, squeueOutput: string, outcome: RunOutcome)
    returns (ran: bool, after: Directory)
    ensures Submission(ran, after) == Submit(dir, squeueOutput, outcome)
  {
    ran, after := false, dir;
    var hoursLeft := HoursLeft(squeueOutput);
    if hoursLeft.Failure? {
      return;
    }
    var runModel, fail;
    runModel, fail, after := RunGate(dir, hoursLeft.value);
    if runModel {
      ran := true;
      if outcome.Succeeded? {
        assert "" + JoinLines(outcome.bundle) == JoinLines(outcome.bundle);
        var outputs := WriteMetrics("", outcome.bundle);
        after := after.(outputs := Some(outputs));
        if after.failLog.Some? {
          after := after.(failLog := None);
        }
        var results := WriteMetrics("", outcome.bundle);
        after := after.(results := Some(results));
      }
    } else if fail {
      after := after.(results := Some(FailResult));
    } else {
      after := after.(results := after.outputs);
    }
  }

  /** A failure log with a `fail` line stops the run and reports `fail`, leaving the
      markers as they were. */
  lemma PriorFailureReported(dir: Directory, squeueOutput: string, outcome: RunOutcome)
    requires HoursLeft(squeueOutput).Success?
    requires dir.failLog.Some? && AnySaysFail(ReadLines(dir.failLog.value))
    ensures Submit(dir, squeueOutput, outcome) == Submission(false, dir.(results := Some(FailResult)))
  {
  }

  /** A failure log without a `fail` line lets the run go ahead and writes no marker. */
  lemma CleanFailLogRuns(dir: Directory, hoursLeft: int)
    requires dir.failLog.Some? && !AnySaysFail(ReadLines(dir.failLog.value))
    ensures Gate(dir, hoursLeft) == GateResult(true, false, dir)
  {
  }

  /** When a failure log exists the metric file is never consulted: the gate decides the
      same whatever it holds, so a failure wins over finished metrics. */
  lemma FailLogTakesPrecedence(dir: Directory, hoursLeft: int, outputs: Option<string>)
    requires dir.failLog.Some?
    ensures Gate(dir.(outputs := outputs), hoursLeft).runModel == Gate(dir, hoursLeft).runModel
    ensures Gate(dir.(outputs := outputs), hoursLeft).fail == Gate(dir, hoursLeft).fail
  {
  }

  /** With no failure log, a 20-line metric file skips the run and is copied to the results. */
  lemma FinishedMetricsCopied(dir: Directory, squeueOutput: string, outcome: RunOutcome)
    requires HoursLeft(squeueOutput).Success?
    requires dir.failLog.None? && dir.outputs.Some?
    requires |ReadLines(dir.outputs.value)| == CompleteLineCount
    ensures Submit(dir, squeueOutput, outcome) == Submission(false, dir.(results := dir.outputs))
  {
  }

  /** With no failure log, a metric file of any other length means run, with no marker. */
  lemma IncompleteMetricsRun(dir: Directory, hoursLeft: int)
    requires dir.failLog.None? && dir.outputs.Some?
    requires |ReadLines(dir.outputs.value)| != CompleteLineCount
    ensures Gate(dir, hoursLeft) == GateResult(true, false, dir)
  {
  }

  /** A fresh directory with at least 23 hours left gets `fail` in the failure log and in
      the results before the model runs. */
  lemma FreshRunMarksFirst(dir: Directory, hoursLeft: int)
    requires dir.failLog.None? && dir.outputs.None? && hoursLeft >= HoursNeeded
    ensures Gate(dir, hoursLeft)
         == GateResult(true, false, dir.(failLog := Some(FailMarker), results := Some(FailResult)))
  {
  }

  /** A fresh directory with fewer than 23 hours left still runs the model; it only
      skips the speculative marker. */
  lemma ShortAllocationStillRuns(dir: Directory, hoursLeft: int)
    requires dir.failLog.None? && dir.outputs.None? && hoursLeft < HoursNeeded
    ensures Gate(dir, hoursLeft) == GateResult(true, false, dir)
  {
  }

  /** An unparsable time left ends the submission before anything runs or is written. */
  lemma UnparsableTimeTouchesNothing(dir: Directory, squeueOutput: string, outcome: RunOutcome)
    requires HoursLeft(squeueOutput).Failure?
    ensures Submit(dir, squeueOutput, outcome) == Submission(false, dir)
  {
  }

  /** A successful run with a 20-value bundle leaves a finished directory: every later
      submission skips the model and leaves the directory exactly as it is. */
  lemma SuccessIsFinal(dir: Directory, squeueOutput: string, bundle: seq<string>,
                       laterOutput: string, laterOutcome: RunOutcome)
    requires Submit(dir, squeueOutput, Succeeded(bundle)).ran
    requires |bundle| == CompleteLineCount
    requires forall i :: 0 <= i < |bundle| ==> '\n' !in bundle[i]
    requires HoursLeft(laterOutput).Success?
    ensures var after := Submit(dir, squeueOutput, Succeeded(bundle)).dir;
            && after == Directory(None, Some(JoinLines(bundle)), Some(JoinLines(bundle)))
            && Submit(after, laterOutput, laterOutcome) == Submission(false, after)
  {
    var after := Directory(None, Some(JoinLines(bundle)), Some(JoinLines(bundle)));
    SuccessfulRunRecords(dir, squeueOutput, bundle);
    ReadJoinLines(bundle);
    FinishedIsFixed(after, laterOutput, laterOutcome);
  }

  /** A submission that ran and succeeded leaves the bundle in the metric file and the
      results, and no failure log. */
  lemma SuccessfulRunRecords(dir: Directory, squeueOutput: string, bundle: seq<string>)
    requires Submit(dir, squeueOutput, Succeeded(bundle)).ran
    ensures Submit(dir, squeueOutput, Succeeded(bundle)).dir
         == Directory(None, Some(JoinLines(bundle)), Some(JoinLines(bundle)))
  {
  }

  /** A directory with no failure log whose metric file is finished and already copied
      to the results is left as it is by any submission that parses the time left. */
  lemma FinishedIsFixed(dir: Directory, squeueOutput: string, outcome: RunOutcome)
    requires dir.failLog.None? && dir.outputs.Some? && dir.results == dir.outputs
    requires |ReadLines(dir.outputs.value)| == CompleteLineCount
    requires HoursLeft(squeueOutput).Success?
    ensures Submit(dir, squeueOutput, outcome) == Submission(false, dir)
  {
  }

  /** A fresh run that marked itself and then crashed is reported as failed by every
      later submission, which leaves the directory exactly as it is. */
  lemma CrashAfterMarkIsFinal(dir: Directory, squeueOutput: string,
                              laterOutput: string, laterOutcome: RunOutcome)
    requires dir.failLog.None? && dir.outputs.None?
    requires HoursLeft(squeueOutput).Success? && HoursLeft(squeueOutput).value >= HoursNeeded
    requires HoursLeft(laterOutput).Success?
    ensures var after := Submit(dir, squeueOutput, Crashed).dir;
            && after == Directory(Some(FailMarker), None, Some(FailResult))
            && Submit(after, laterOutput, laterOutcome) == Submission(false, after)
  {
    var after := Directory(Some(FailMarker), None, Some(FailResult));
    MarkedCrashLeavesMarkers(dir, squeueOutput);
    MarkerSaysFail();
    PriorFailureReported(after, laterOutput, laterOutcome);
  }

  /** The failure marker, read back, has a line containing `fail`. */
  lemma MarkerSaysFail()
    ensures AnySaysFail(ReadLines(FailMarker))
  {
    ReadOneLineUnterminated(FailMarker);
    assert Contains(ReadLines(FailMarker)[0], FailMarker);
  }

  /** A fresh run with at least 23 hours left that crashes leaves exactly its markers. */
  lemma MarkedCrashLeavesMarkers(dir: Directory, squeueOutput: string)
    requires dir.failLog.None? && dir.outputs.None?
    requires HoursLeft(squeueOutput).Success? && HoursLeft(squeueOutput).value >= HoursNeeded
    ensures Submit(dir, squeueOutput, Crashed) == Submission(true, Directory(Some(FailMarker), None, Some(FailResult)))
  {
  }

  /** A fresh run with fewer than 23 hours left that crashes leaves the directory
      unchanged, so the next submission runs the model again. */
  lemma ShortAllocationCrashRetries(dir: Directory, squeueOutput: string)
    requires dir.failLog.None? && dir.outputs.None?
    requires HoursLeft(squeueOutput).Success? && HoursLeft(squeueOutput).value < HoursNeeded
    ensures Submit(dir, squeueOutput, Crashed) == Submission(true, dir)
  {
  }

  /** A file of one unterminated line reads back as that line. */
  lemma ReadOneLineUnterminated(s: string)
    requires |s| > 0 && '\n' !in s
    ensures ReadLines(s) == [s]
  {
    assert LineEnd(s) == |s|;
    assert s[..|s|] == s && s[|s|..] == "";
  }
}
