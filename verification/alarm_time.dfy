/**
 * The alarm time format of app.py: `EditAlarmDialog.validate_time` and the
 * `map(int, time.split(':'))` that `AlarmManager.update_alarm` schedules from.
 */
module AlarmTime {
  import opened Wrappers
  import opened PyText

  /**
   * `re.match(r'^\d{2}:\d{2}$', s)` with ASCII digits: two digits, a colon,
   * two digits, then the end of the string or a single final newline (Python's
   * `$` also matches just before a trailing "\n").
   */
  predicate MatchesTimePattern(s: string): (b: bool)
    ensures b <==> |s| >= 5 && AllDigits(s[..2]) && s[2] == ':' && AllDigits(s[3..5]) && (s[5..] == "" || s[5..] == "\n")
  {
    TimePatternSlices(s);
    && (|s| == 5 || (|s| == 6 && s[5] == '\n'))
    && IsDigit(s[0]) && IsDigit(s[1])
    && s[2] == ':'
    && IsDigit(s[3]) && IsDigit(s[4])
  }

  /** The pattern's pieces, read character by character. */
  lemma TimePatternSlices(s: string)
    ensures |s| >= 5 ==> (AllDigits(s[..2]) <==> IsDigit(s[0]) && IsDigit(s[1]))
    ensures |s| >= 5 ==> (AllDigits(s[3..5]) <==> IsDigit(s[3]) && IsDigit(s[4]))
    ensures |s| >= 5 ==> ((s[5..] == "" || s[5..] == "\n") <==> (|s| == 5 || (|s| == 6 && s[5] == '\n')))
  {
    if |s| >= 5 {
      assert s[..2] == [s[0], s[1]];
      assert s[3..5] == [s[3], s[4]];
      if |s| == 6 {
        assert s[5..] == [s[5]];
      }
    }
  }

  /** The hour a pattern-matching string spells in its first two characters. */
  function HourField(s: string): nat
    requires MatchesTimePattern(s)
  {
    10 * DigitValue(s[0]) + DigitValue(s[1])
  }

  /** The minute a pattern-matching string spells in characters 3 and 4. */
  function MinuteField(s: string): nat
    requires MatchesTimePattern(s)
  {
    10 * DigitValue(s[3]) + DigitValue(s[4])
  }

  /**
   * `hour, minute = map(int, s.split(':'))`: `None` stands for the
   * `ValueError` raised when there are not exactly two pieces or a piece is
   * not an integer. So a time parses exactly when it holds one colon with an
   * integer on each side, and then it is those two integers.
   */
  function ParseTime(s: string): (r: Option<(int, int)>)
    ensures forall i :: SoleSeparatorAt(s, ':', i) ==>
      && (r.Some? <==> ParseInt(s[..i]).Some? && ParseInt(s[i + 1..]).Some?)
      && (r.Some? ==> r.value == (ParseInt(s[..i]).value, ParseInt(s[i + 1..]).value))
  {
    SplitInTwo(s, ':');
    var parts := Split(s, ':');
    if |parts| == 2 && ParseInt(parts[0]).Some? && ParseInt(parts[1]).Some? then
      Some((ParseInt(parts[0]).value, ParseInt(parts[1]).value))
    else None
  }

  /** A time parses only when it holds exactly one colon. */
  lemma ParsedTimeHasOneColon(s: string)
    requires ParseTime(s).Some?
    ensures exists i :: SoleSeparatorAt(s, ':', i)
  {
    SplitInTwo(s, ':');
  }

  /** A time `AlarmManager.update_alarm` can schedule: it parses and `CronTrigger` accepts its fields. */
  predicate Schedulable(s: string) {
    ParseTime(s).Some? && 0 <= ParseTime(s).value.0 < 24 && 0 <= ParseTime(s).value.1 < 60
  }

  /** On a string the pattern accepts, splitting and `int` recover exactly its two digit fields. */
  lemma PatternParses(s: string)
    requires MatchesTimePattern(s)
    ensures ParseTime(s) == Some((HourField(s), MinuteField(s)))
  {
    var hh, tail := s[..2], s[3..];
    var mm, pad := s[3..5], s[5..];
    assert s == hh + [':'] + tail;
    assert tail == mm + pad;
    assert ':' !in hh by {
      assert hh == [s[0], s[1]];
    }
    assert ':' !in tail by {
      assert tail == [s[3], s[4]] || tail == [s[3], s[4], '\n'];
    }
    SplitAtSingleSeparator(hh, tail, ':');
    assert Split(s, ':') == [hh, tail];
    HourFieldParses(s, hh);
    MinuteFieldParses(s, mm, pad);
  }

  lemma HourFieldParses(s: string, hh: string)
    requires MatchesTimePattern(s) && hh == s[..2]
    ensures ParseInt(hh) == Some(HourField(s))
  {
    assert hh == [s[0], s[1]];
    assert AllDigits(hh);
    ParseDigits(hh);
    TwoDigitsValue(hh);
    assert DigitsValue(hh) == HourField(s);
  }

  lemma MinuteFieldParses(s: string, mm: string, pad: string)
    requires MatchesTimePattern(s) && mm == s[3..5] && pad == s[5..]
    ensures ParseInt(mm + pad) == Some(MinuteField(s))
  {
    assert mm == [s[3], s[4]];
    assert AllDigits(mm);
    assert forall i :: 0 <= i < |pad| ==> IsSpace(pad[i]);
    ParseDigitsWithTrailingSpace(mm, pad);
    TwoDigitsValue(mm);
    assert DigitsValue(mm) == MinuteField(s);
  }

  /**
   * `EditAlarmDialog.validate_time`: the pattern is checked first, then the
   * two fields are split off, converted with `int` and range-checked.
   */
  function ValidateTime(s: string): (ok: bool)
    ensures ok <==> MatchesTimePattern(s) && HourField(s) < 24 && MinuteField(s) < 60
  {
    if !MatchesTimePattern(s) then false
    else
      PatternParses(s);
      var (hour, minute) := ParseTime(s).value;
      0 <= hour < 24 && 0 <= minute < 60
  }

  /** Every time `validate_time` accepts can be scheduled by `update_alarm`. */
  lemma ValidatedTimeIsSchedulable(s: string)
    requires ValidateTime(s)
    ensures Schedulable(s)
    ensures ParseTime(s) == Some((HourField(s), MinuteField(s)))
  {
    PatternParses(s);
  }

  /** Well-formed times inside the day are accepted, including the trailing newline `$` lets through. */
  lemma AcceptedExamples()
    ensures ValidateTime("00:00") && ValidateTime("23:59") && ValidateTime("07:00")
    ensures ValidateTime("23:59\n")
  {
    assert HourField("23:59") == 23 && MinuteField("23:59") == 59;
    assert HourField("23:59\n") == 23 && MinuteField("23:59\n") == 59;
    assert HourField("07:00") == 7 && MinuteField("07:00") == 0;
    assert HourField("00:00") == 0 && MinuteField("00:00") == 0;
  }

  /** Out-of-range fields and every deviation from two digits, colon, two digits are rejected. */
  lemma RejectedExamples()
    ensures !ValidateTime("24:00") && !ValidateTime("12:60")
    ensures !ValidateTime("7:00") && !ValidateTime("07:0") && !ValidateTime("07-00")
    ensures !ValidateTime("07:00\n\n") && !ValidateTime(" 07:00") && !ValidateTime("")
  {
    assert HourField("24:00") == 24;
    assert MinuteField("12:60") == 60;
    assert !MatchesTimePattern("7:00");
    assert !MatchesTimePattern("07:0");
  }
}
