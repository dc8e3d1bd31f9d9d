/** Expressions and their meaning, and some that the parser accepts and the scheduler does not honour. */
module ScheduleExamples {
  import opened Clock
  import opened CronForms
  import opened CronParser
  import opened CronRendering
  import opened CronSearch
  import opened CrontabRule
  import opened SchedulerRun
  import opened Text

  /** A field of one value. */
  function Only(value: nat): seq<Item> {
    [Item(One(value), None)]
  }

  const EVERY := [Item(Star, None)]

  /** Midnight on the given day of February, whatever the weekday. */
  function InFebruary(day: nat): ScheduleForm {
    ScheduleForm(Only(0), Only(0), Only(day), Only(2), EVERY)
  }

  lemma Numerals()
    ensures Decimal(0) == "0" && Decimal(1) == "1" && Decimal(2) == "2" && Decimal(5) == "5" && Decimal(6) == "6"
    ensures Decimal(15) == "15" && Decimal(29) == "29" && Decimal(30) == "30"
  {
    assert Decimal(2) == "2" && Decimal(3) == "3";
  }

  lemma BlanksOfFive(a: string, b: string, c: string, d: string, e: string)
    ensures Blanks([a, b, c, d, e]) == a + " " + b + " " + c + " " + d + " " + e
  {
    assert Join([e], ' ') == e;
    assert Join([d, e], ' ') == d + " " + e;
    assert Join([c, d, e], ' ') == c + " " + (d + " " + e) by {
      assert [c, d, e][1..] == [d, e];
    }
    assert Join([b, c, d, e], ' ') == b + " " + (c + " " + (d + " " + e)) by {
      assert [b, c, d, e][1..] == [c, d, e];
    }
    assert [a, b, c, d, e][1..] == [b, c, d, e];
  }

  lemma InFebruaryText(day: nat)
    requires 1 <= day <= 31
    ensures Fits(InFebruary(day))
    ensures FormText(InFebruary(day)) == "0" + " " + "0" + " " + Decimal(day) + " " + "2" + " " + "*"
  {
    Numerals();
    hide Fitting, FieldText, Decimal, Blanks;
    SimpleFields(0, 0, 59);
    SimpleFields(0, 0, 23);
    SimpleFields(day, 1, 31);
    SimpleFields(2, 1, 12);
    SimpleFields(0, 0, 6);
    BlanksOfFive("0", "0", Decimal(day), "2", "*");
  }

  /** What it means. */
  function FebruaryDay(day: nat): CronSchedule {
    CronSchedule(CronField({0}, false), CronField({0}, false), CronField({day}, false), CronField({2}, false),
                 CronField(Interval(0, 6), true))
  }

  lemma InFebruaryMeans(day: nat)
    requires 1 <= day <= 31
    ensures ScheduleOf(InFebruary(day)) == FebruaryDay(day)
  {
    hide FieldOf;
    SimpleFields(0, 0, 59);
    SimpleFields(0, 0, 23);
    SimpleFields(day, 1, 31);
    SimpleFields(2, 1, 12);
    SimpleFields(0, 0, 6);
  }

  lemma FebruaryNeverRecurs(day: nat)
    requires 29 <= day <= 31
    ensures var s := FebruaryDay(day); !Recurs(s) && 2 in s.month.allowed && (29 in s.day.allowed <==> day == 29)
  {
  }

  lemma InFebruaryParses(day: nat, text: string)
    requires 29 <= day <= 31 && Fits(InFebruary(day)) && text == FormText(InFebruary(day))
    ensures var parsed := ParseCronSchedule(text);
            && parsed == Ok(FebruaryDay(day)) && Usable(parsed.value) && !Recurs(parsed.value)
            && 2 in parsed.value.month.allowed && (29 in parsed.value.day.allowed <==> day == 29)
  {
    hide *;
    InFebruaryMeans(day);
    FebruaryNeverRecurs(day);
    ParseSchedule(InFebruary(day));
    ParsedIsUsable(text);
  }

  /** Where no start finds a match, `Next` is always the fallback. */
  lemma NeverMatches(s: CronSchedule, offset: int, t: int)
    requires Usable(s) && !Recurs(s) && !(2 in s.month.allowed && 29 in s.day.allowed)
    ensures NextInstant(s, offset, t) == t + MINUTE && !Matches(s, offset, NextInstant(s, offset, t))
  {
    hide Recurs, Usable, Matches, NextInstant;
    SomeStartMatches(s, offset);
    NextIsLeast(s, offset, t);
  }

  /** A run whose job starts, without delay, in a minute that the schedule does not name. */
  ghost predicate RunsOffSchedule(s: CronSchedule, offset: int, trace: seq<State>) {
    && IsRun(SchedulerConfig(s, offset), trace)
    && var executions := trace[|trace| - 1].executions;
       |executions| == 1 && executions[0].started == executions[0].armed && !Matches(s, offset, executions[0].started)
  }

  lemma OffScheduleRun(s: CronSchedule, offset: int) returns (trace: seq<State>)
    requires Usable(s) && !Recurs(s)
    ensures RunsOffSchedule(s, offset, trace)
  {
    hide Recurs, Usable, Matches, NextInstant, IsRun;
    var after := OthersFallBack(s, offset);
    NextIsAlwaysLater(s, offset);
    trace := OneExecution(SchedulerConfig(s, offset), after, 0);
  }

  /** `0 0 30 2 *` is accepted. It names no date, and the job is run again one minute after each time it has ended. */
  lemma ImpossibleDateExample(offset: int) returns (trace: seq<State>)
    ensures ParseCronSchedule("0 0 30 2 *").Ok?
    ensures var s := ParseCronSchedule("0 0 30 2 *").value;
            && !Recurs(s)
            && (forall t :: NextInstant(s, offset, t) == t + MINUTE && !Matches(s, offset, NextInstant(s, offset, t)))
            && RunsOffSchedule(s, offset, trace)
  {
    hide *;
    Numerals();
    InFebruaryText(30);
    assert FormText(InFebruary(30)) == "0 0 30 2 *";
    InFebruaryParses(30, "0 0 30 2 *");
    var s := FebruaryDay(30);
    forall t ensures NextInstant(s, offset, t) == t + MINUTE && !Matches(s, offset, NextInstant(s, offset, t)) {
      NeverMatches(s, offset, t);
    }
    trace := OffScheduleRun(s, offset);
  }

  /** `0 0 29 2 *` names a date of leap years. Some starts find it; in other years the job is run at other minutes. */
  lemma LeapDayExample(offset: int) returns (trace: seq<State>)
    ensures ParseCronSchedule("0 0 29 2 *").Ok?
    ensures var s := ParseCronSchedule("0 0 29 2 *").value;
            && !Recurs(s)
            && (exists t :: Matches(s, offset, NextInstant(s, offset, t)))
            && RunsOffSchedule(s, offset, trace)
  {
    hide *;
    Numerals();
    InFebruaryText(29);
    assert FormText(InFebruary(29)) == "0 0 29 2 *";
    InFebruaryParses(29, "0 0 29 2 *");
    var s := FebruaryDay(29);
    SomeStartMatches(s, offset);
    trace := OffScheduleRun(s, offset);
  }

  /** Midnight on the first of June, or on a Monday. */
  function JuneOrMonday(): ScheduleForm {
    ScheduleForm(Only(0), Only(0), Only(1), Only(6), Only(1))
  }

  lemma JuneOrMondayText()
    ensures Fits(JuneOrMonday())
    ensures FormText(JuneOrMonday()) == "0" + " " + "0" + " " + "1" + " " + "6" + " " + "1"
  {
    Numerals();
    hide Fitting, FieldText, Decimal, Blanks;
    SimpleFields(0, 0, 59);
    SimpleFields(0, 0, 23);
    SimpleFields(1, 1, 31);
    SimpleFields(6, 1, 12);
    SimpleFields(1, 0, 6);
    BlanksOfFive("0", "0", "1", "6", "1");
  }

  lemma JuneOnly()
    ensures !StandardDays(ScheduleOf(JuneOrMonday()))
  {
    hide FieldOf;
    SimpleFields(1, 1, 31);
    SimpleFields(6, 1, 12);
    SimpleFields(1, 0, 6);
    assert 1 !in ScheduleOf(JuneOrMonday()).month.allowed;
  }

  lemma JuneOrMondayParses(text: string)
    requires Fits(JuneOrMonday()) && text == FormText(JuneOrMonday())
    ensures var parsed := ParseCronSchedule(text);
            parsed == Ok(ScheduleOf(JuneOrMonday())) && Usable(parsed.value) && !StandardDays(parsed.value)
  {
    hide *;
    JuneOnly();
    ParseSchedule(JuneOrMonday());
    ParsedIsUsable(text);
  }

  /** `0 0 1 6 1`: some Monday outside June is named by the standard's rule and not by the program's. */
  lemma MondayExample() returns (n: int)
    ensures ParseCronSchedule("0 0 1 6 1").Ok?
    ensures var s := ParseCronSchedule("0 0 1 6 1").value; !MatchesDay(s, n) && StandardDay(s, n)
  {
    hide *;
    JuneOrMondayText();
    assert FormText(JuneOrMonday()) == "0 0 1 6 1";
    JuneOrMondayParses("0 0 1 6 1");
    n := StandardDayDiffers(ScheduleOf(JuneOrMonday()));
  }

  // ---------- Some fields ----------

  lemma FieldValues(items: seq<Item>, min: int, max: int, allowed: set<int>)
    requires forall v :: v in allowed <==> min <= v <= max && SomeMeans(items, min, max, v)
    ensures FieldOf(items, min, max).allowed == allowed
  {
    hide SomeMeans, Interval;
    var meant := FieldOf(items, min, max).allowed;
    forall v ensures v in meant <==> v in allowed {
      assert v in Interval(min, max) <==> min <= v <= max;
    }
    assert meant == allowed;
  }

  /** `1-5` is Monday to Friday. */
  lemma WorkdaysExample()
    ensures ParseField("1-5", 0, 6) == Ok(CronField({1, 2, 3, 4, 5}, false))
  {
    Numerals();
    var items := [Item(Span(1, 5), None)];
    hide ParseField, FieldOf, SomeMeans, Means, Decimal;
    assert FieldText(items) == "1-5";
    forall v ensures v in {1, 2, 3, 4, 5} <==> 0 <= v <= 6 && SomeMeans(items, 0, 6, v) {
      StepOne(items[0], 0, 6, v);
    }
    FieldValues(items, 0, 6, {1, 2, 3, 4, 5});
    ParseItems(items, 0, 6);
  }

  /** `5-1` is out of range. */
  lemma BackwardsExample()
    ensures ParseField("5-1", 0, 6) == Err(OutOfRange)
  {
    Numerals();
    var items := [Item(Span(5, 1), None)];
    hide ParseField, Decimal;
    assert FieldText(items) == "5-1";
    RejectItems(items, 0, 0, 6);
  }

  lemma QuarterMeans(v: int)
    ensures SomeMeans([Item(Star, Some(15))], 0, 59, v) <==> v in {0, 15, 30, 45}
  {
    var item := Item(Star, Some(15));
    assert [item][0] == item;
    if v in {0, 15, 30, 45} {
      var i: nat := v / 15;
      assert v == First(item, 0, 59) + i * StepOf(item);
    }
  }

  // `*/15` is every quarter of an hour.
  lemma QuartersExample()
    ensures ParseField("*/15", 0, 59) == Ok(CronField({0, 15, 30, 45}, false))
  {
    Numerals();
    var items := [Item(Star, Some(15))];
    hide ParseField, FieldOf, SomeMeans, Decimal;
    assert FieldText(items) == "*/15";
    forall v ensures v in {0, 15, 30, 45} <==> 0 <= v <= 59 && SomeMeans(items, 0, 59, v) {
      QuarterMeans(v);
    }
    FieldValues(items, 0, 59, {0, 15, 30, 45});
    ParseItems(items, 0, 59);
  }
}
