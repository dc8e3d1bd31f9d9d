/** Writing schedules down: every schedule of explicit values has an expression that parses to exactly that schedule. */
module CronRendering {
  import opened Text
  import opened CronParser

  function Digit(n: int): (c: char)
    requires 0 <= n <= 9
    ensures IsDigit(c) && c as int - '0' as int == n
  {
    "0123456789"[n]
  }

  function Decimal(n: nat): (s: string)
    ensures s != "" && AllDigits(s) && DigitsValue(s) == n
  {
    if n < 10 then [Digit(n)] else
      var init := Decimal(n / 10);
      var s := init + [Digit(n % 10)];
      assert s[..|s| - 1] == init;
      s
  }

  lemma AtoiDecimal(n: nat)
    ensures Atoi(Decimal(n)) == if n <= MAX_INT64 then Some(n) else None
  {
  }

  lemma DigitsHave(s: string, c: char)
    requires AllDigits(s) && !IsDigit(c)
    ensures c !in s
  {
  }

  lemma DecimalIsToken(n: nat, min: int, max: int)
    requires Bounds(min, max) && min <= n <= max
    ensures GoodToken(Decimal(n), min, max) && TokenRange(Decimal(n), min, max) == Range(n, n, 1)
    ensures TrimSpace(Decimal(n)) == Decimal(n) && Decimal(n) != "*"
  {
  }

  // ---------- One field ----------

  predicate Listing(values: seq<nat>, min: int, max: int) {
    values != [] && forall k :: 0 <= k < |values| ==> min <= values[k] <= max
  }

  function Numerals(values: seq<nat>): (r: seq<string>)
    ensures |r| == |values|
  {
    seq(|values|, k requires 0 <= k < |values| => Decimal(values[k]))
  }

  /** The values, in decimal, separated by commas. */
  function RenderField(values: seq<nat>): string
    requires values != []
  {
    Join(Numerals(values), ',')
  }

  function ExplicitField(values: seq<nat>): CronField {
    CronField(set v | v in values, false)
  }

  lemma RenderedTokens(values: seq<nat>, min: int, max: int)
    requires Bounds(min, max) && Listing(values, min, max)
    ensures Tokens(RenderField(values)) == Numerals(values)
  {
    var numerals := Numerals(values);
    forall k | 0 <= k < |values| ensures ',' !in numerals[k] && TrimSpace(numerals[k]) == numerals[k] {
      DigitsHave(numerals[k], ',');
      DecimalIsToken(values[k], min, max);
    }
    SplitJoin(numerals, ',');
    assert Tokens(RenderField(values)) == numerals;
  }

  /** Parsing undoes rendering: any non-empty set of in-range values can be asked for. */
  lemma ParseRenderedField(values: seq<nat>, min: int, max: int)
    requires Bounds(min, max) && Listing(values, min, max)
    ensures ParseField(RenderField(values), min, max) == Ok(ExplicitField(values))
  {
    var tokens := Numerals(values);
    RenderedTokens(values, min, max);
    forall k | 0 <= k < |tokens|
      ensures GoodToken(tokens[k], min, max) && tokens[k] != "*"
      ensures Produced(tokens[k], min, max) == [values[k]]
    {
      DecimalIsToken(values[k], min, max);
      assert Steps(values[k] + 1, values[k], 1) == [];
    }
    assert AllGood(tokens, min, max);
    AcceptedTokens(tokens, min, max);
    var field := ParseTokens(tokens, min, max).value;
    AllowedValues(tokens, min, max, 0);
    forall v ensures v in field.allowed <==> v in values {
      AllowedValues(tokens, min, max, v);
      if v in values {
        var k :| 0 <= k < |values| && values[k] == v;
        assert v in Produced(tokens[k], min, max);
      }
    }
    assert field.allowed == set v | v in values;
  }

  lemma WeekdayToken(n: nat)
    requires n <= 7
    ensures GoodToken(Decimal(n), 0, 6) && Decimal(n) != "*" && Produced(Decimal(n), 0, 6) == [n % 7]
  {
    AtoiDecimal(n);
    DigitsHave(Decimal(n), '/');
    DigitsHave(Decimal(n), '-');
    SevenIsSundayOnlyAlone(Decimal(n));
    assert ParseToken(Decimal(n), 0, 6) == Ok(Range(n % 7, n % 7, 1));
    assert Steps(n % 7 + 1, n % 7, 1) == [];
  }

  /** A range of weekdays cannot end in 7. */
  lemma NoRangeToSeven(n: nat)
    requires n <= 7
    ensures ParseToken(Decimal(n) + "-7", 0, 6) == Err(OutOfRange)
  {
    var digits, seven := Decimal(n), Decimal(7);
    var token := digits + ['-'] + seven;
    assert seven == "7" && token == digits + "-7";
    DigitsHave(digits, '/');
    DigitsHave(digits, '-');
    AtoiDecimal(n);
    AtoiDecimal(7);
    SplitFirst(digits, seven, '-');
    assert Split(seven, '-') == [seven];
    hide Decimal, Atoi, Split;
    SevenIsSundayOnlyAlone(token);
  }

  /** In the weekday field 7 is Sunday as well as 0: a list of values from 0 to 7 parses to the days it names. */
  lemma ParseRenderedWeekdays(values: seq<nat>)
    requires Listing(values, 0, 7)
    ensures ParseField(RenderField(values), 0, 6) == Ok(CronField(set v | v in values :: v % 7, false))
  {
    var tokens := Numerals(values);
    RenderedTokens(values, 0, 7);
    forall k | 0 <= k < |tokens|
      ensures GoodToken(tokens[k], 0, 6) && tokens[k] != "*" && Produced(tokens[k], 0, 6) == [values[k] % 7]
    {
      WeekdayToken(values[k]);
    }
    AcceptedTokens(tokens, 0, 6);
    var field := ParseTokens(tokens, 0, 6).value;
    AllowedValues(tokens, 0, 6, 0);
    hide Produced, RenderField, ParseToken;
    forall day ensures day in field.allowed <==> exists k :: 0 <= k < |values| && values[k] % 7 == day {
      AllowedValues(tokens, 0, 6, day);
    }
    forall k | 0 <= k < |values| ensures values[k] in values {
    }
    assert field.allowed == set v | v in values :: v % 7;
  }

  // ---------- The whole expression ----------

  predicate Word(s: string) {
    s != "" && forall k :: 0 <= k < |s| ==> !IsSpace(s[k])
  }

  lemma {:induction false} WordLengthOf(head: string, tail: string)
    requires forall k :: 0 <= k < |head| ==> !IsSpace(head[k])
    requires tail != "" ==> IsSpace(tail[0])
    ensures WordLength(head + tail) == |head|
  {
    var s := head + tail;
    if head != "" {
      assert s[1..] == head[1..] + tail;
      WordLengthOf(head[1..], tail);
    }
  }

  /** The first word, when nothing or white space follows it. */
  lemma FieldsHead(head: string, tail: string)
    requires Word(head) && (tail != "" ==> IsSpace(tail[0]))
    ensures Fields(head + tail) == [head] + Fields(tail)
  {
    var s := head + tail;
    WordLengthOf(head, tail);
    assert TrimLeft(s) == s;
    assert s[..|head|] == head && s[|head|..] == tail;
  }

  lemma {:induction false} FieldsAfter(space: string, s: string)
    requires forall k :: 0 <= k < |space| ==> IsSpace(space[k])
    ensures TrimLeft(space + s) == TrimLeft(s) && Fields(space + s) == Fields(s)
  {
    if space == "" {
      assert space + s == s;
    } else {
      assert (space + s)[1..] == space[1..] + s;
      FieldsAfter(space[1..], s);
    }
  }

  // ---------- A step that overflows ----------

  lemma TwoWithStepTokens(step: nat)
    requires 1 <= step <= MAX_INT64
    ensures Tokens("2/" + Decimal(step)) == ["2/" + Decimal(step)]
  {
  }

  lemma TwoWithStepRange(step: nat)
    requires 1 <= step <= MAX_INT64
    ensures ParseToken("2/" + Decimal(step), 0, 59) == Ok(Range(2, 2, step))
  {
    var digits := Decimal(step);
    var expr := "2/" + digits;
    DigitsHave(digits, '/');
    AtoiDecimal(step);
    SplitFirst("2", digits, '/');
    assert "2" + ['/'] + digits == expr;
    assert ParseStep(expr) == Ok(("2", step));
    AtoiDecimal(2);
    assert Decimal(2) == "2";
    assert ParseBase("2", 0, 59) == Ok((2, 2));
  }

  lemma OverflowSteps()
    ensures 0 in Steps(2, 2, MAX_INT64) && !InProgression(0, Range(2, 2, MAX_INT64))
  {
  }

  /** A field of one token allows what the token's loop appends and means the token's progression. */
  lemma SingleToken(expr: string, min: int, max: int, r: Range, v: int)
    requires Bounds(min, max) && expr != "" && Tokens(expr) == [expr] && ParseToken(expr, min, max) == Ok(r)
    ensures ParseField(expr, min, max).Ok? && AllGood(Tokens(expr), min, max)
    ensures v in ParseField(expr, min, max).value.allowed <==> v in Steps(r.start, r.end, r.step)
    ensures Denoted(Tokens(expr), min, max, v) <==> InProgression(v, r)
  {
    var tokens := Tokens(expr);
    assert GoodToken(expr, min, max);
    AcceptedTokens(tokens, min, max);
    AllowedValues(tokens, min, max, v);
    assert Produced(tokens[0], min, max) == Steps(r.start, r.end, r.step);
    assert TokenRange(tokens[0], min, max) == r;
  }

  /** The minute field `2/9223372036854775807` means minute 2, but minute 0 is allowed too. */
  lemma OverflowExample(step: nat) returns (expr: string)
    requires step == MAX_INT64
    ensures expr == "2/" + Decimal(step)
    ensures ParseField(expr, 0, 59).Ok? && AllGood(Tokens(expr), 0, 59)
    ensures 0 in ParseField(expr, 0, 59).value.allowed && !Denoted(Tokens(expr), 0, 59, 0)
  {
    expr := "2/" + Decimal(step);
    TwoWithStepTokens(step);
    TwoWithStepRange(step);
    OverflowSteps();
    SingleToken(expr, 0, 59, Range(2, 2, step), 0);
  }
}
