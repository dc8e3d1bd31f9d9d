/** The five-field cron expression parser of registry/scheduler.go. */
module CronParser {
  import opened Text

  datatype TokenError =
    | EmptyToken | InvalidStepSyntax | InvalidStep | InvalidRange | InvalidRangeStart | InvalidRangeEnd
    | InvalidValue | OutOfRange
  datatype CronError =
    | FieldCount(count: nat) | Minute(cause: TokenError) | Hour(cause: TokenError) | DayOfMonth(cause: TokenError)
    | Month(cause: TokenError) | DayOfWeek(cause: TokenError)

  datatype Result<+T, +E> = Ok(value: T) | Err(error: E) {
    predicate IsFailure() {
      Err?
    }
    function PropagateFailure<U>(): Result<U, E>
      requires Err?
    {
      Err(error)
    }
    function Extract(): T
      requires Ok?
    {
      value
    }
  }

  /** `start`, `start + step`, ... up to `end`. */
  datatype Range = Range(start: int, end: int, step: int)

  /** `allowed` holds the keys of the Go map behind `match`; `wildcard` is true only for a `*` token. */
  datatype CronField = CronField(allowed: set<int>, wildcard: bool)

  datatype CronSchedule =
    CronSchedule(minute: CronField, hour: CronField, day: CronField, month: CronField, weekday: CronField)

  /** The bounds of the five fields all satisfy this. */
  predicate Bounds(min: int, max: int) {
    0 <= min <= max <= 59
  }

  // ---------- Syntax of one token ----------

  function ParseStep(token: string): Result<(string, int), TokenError> {
    if '/' in token then
      var parts := Split(token, '/');
      if |parts| != 2 then Err(InvalidStepSyntax)
      else
        var step := Atoi(parts[1]);
        if step.None? || step.value <= 0 then Err(InvalidStep) else Ok((parts[0], step.value))
    else Ok((token, 1))
  }

  function ParseBase(base: string, min: int, max: int): Result<(int, int), TokenError> {
    if base == "*" || base == "" then Ok((min, max))
    else if '-' in base then
      var parts := Split(base, '-');
      if |parts| != 2 then Err(InvalidRange)
      else if Atoi(parts[0]).None? then Err(InvalidRangeStart)
      else if Atoi(parts[1]).None? then Err(InvalidRangeEnd)
      else Ok((Atoi(parts[0]).value, Atoi(parts[1]).value))
    else if Atoi(base).None? then Err(InvalidValue)
    else
      var value := Atoi(base).value;
      var day := if max == 6 && value == 7 then 0 else value;
      Ok((day, day))
  }

  function ParseToken(token: string, min: int, max: int): (r: Result<Range, TokenError>)
    ensures r.Ok? ==> min <= r.value.start <= r.value.end <= max && 0 < r.value.step <= MAX_INT64
  {
    var (base, step) :- ParseStep(token);
    var (start, end) :- ParseBase(base, min, max);
    if start < min || end > max || start > end then Err(OutOfRange) else Ok(Range(start, end, step))
  }

  /**
   In the weekday field 7 stands for Sunday as a bare value, with or without a step, but not as the end of a range.
   */
  lemma SevenIsSundayOnlyAlone(token: string)
    requires ParseStep(token).Ok?
    ensures var (base, step) := ParseStep(token).value;
            && (Atoi(base) == Some(7) && '-' !in base ==> ParseToken(token, 0, 6) == Ok(Range(0, 0, step)))
            && ('-' in base && ParseBase(base, 0, 6).Ok? && ParseBase(base, 0, 6).value.1 == 7
                ==> ParseToken(token, 0, 6) == Err(OutOfRange))
  {
  }

  // ---------- The step loop, in 64-bit arithmetic ----------

  /** Steps this large can push a minute, hour, day, month or weekday past the largest 64-bit integer. */
  const HUGE_STEP := MAX_INT64 - 59

  /** What the loop variable can be: small, or wrapped around to just above the least 64-bit integer. */
  predicate LoopValue(value: int, end: int, step: int) {
    && 0 <= end <= 59 && 0 < step <= MAX_INT64
    && (value > end || 0 <= value || (step > HUGE_STEP && (-59 <= value || MIN_INT64 <= value <= MIN_INT64 + 58)))
  }

  function LoopRank(value: int, end: int, step: int): nat
    requires LoopValue(value, end, step)
  {
    if value > end then 0
    else if step <= HUGE_STEP then end - value + 1
    else if -59 <= value then value + 60
    else value - MIN_INT64 + 60
  }

  /** The values that `for value := start; value <= end; value += step` appends, from `value` on. */
  function Steps(value: int, end: int, step: int): (values: seq<int>)
    requires LoopValue(value, end, step)
    decreases LoopRank(value, end, step)
  {
    if value > end then [] else [value] + Steps(AddInt64(value, step), end, step)
  }

  /** The values a range is meant to denote. */
  ghost predicate InProgression(v: int, r: Range) {
    v <= r.end && exists i: nat :: v == r.start + i * r.step
  }

  /** A progression is its first value and the progression from the second. */
  lemma ProgressionUnfolds(r: Range, v: int)
    requires r.step > 0
    ensures InProgression(v, r) <==> (v == r.start <= r.end || InProgression(v, r.(start := r.start + r.step)))
  {
    var r' := r.(start := r.start + r.step);
    if InProgression(v, r) {
      var i: nat :| v == r.start + i * r.step;
      assert i > 0 ==> v == r'.start + (i - 1) * r.step;
    }
    if InProgression(v, r') {
      var i: nat :| v == r'.start + i * r.step;
      assert v == r.start + (i + 1) * r.step;
    }
    assert r.start == r.start + 0 * r.step;
  }

  lemma ProgressionEmpty(r: Range, v: int)
    requires r.step > 0 && r.start > r.end
    ensures !InProgression(v, r)
  {
  }

  lemma {:induction false} StepsWithoutOverflow(value: int, end: int, step: int, v: int)
    requires LoopValue(value, end, step) && 0 <= value && (value <= end ==> value + step <= MAX_INT64)
    ensures v in Steps(value, end, step) <==> InProgression(v, Range(value, end, step))
    decreases LoopRank(value, end, step)
  {
    hide InProgression;
    if value > end {
      ProgressionEmpty(Range(value, end, step), v);
    } else {
      ProgressionUnfolds(Range(value, end, step), v);
      StepsWithoutOverflow(value + step, end, step, v);
    }
  }

  ghost predicate Denotes(values: seq<int>, r: Range) {
    forall v :: v in values <==> InProgression(v, r)
  }

  predicate ValidRange(r: Range) {
    0 <= r.start <= r.end <= 59 && 0 < r.step <= MAX_INT64
  }

  lemma ProgressionInBounds(r: Range, v: int)
    requires ValidRange(r) && InProgression(v, r)
    ensures r.start <= v <= r.end
  {
  }

  /** The second value of the loop when the first addition overflows. */
  lemma OverflowValue(r: Range) returns (w: int)
    requires ValidRange(r) && r.start + r.step > MAX_INT64
    ensures w < 0 && w in Steps(r.start, r.end, r.step)
  {
    w := r.start + r.step - TWO_TO_64;
    assert Steps(r.start, r.end, r.step) == [r.start] + ([w] + Steps(AddInt64(w, r.step), r.end, r.step));
  }

  /**
   The loop yields exactly the arithmetic progression if and only if the first addition does not overflow. When it
   does overflow, the loop also appends a negative number, which no progression from `start` contains.
   */
  lemma StepsDenoteProgression(r: Range)
    requires ValidRange(r)
    ensures Denotes(Steps(r.start, r.end, r.step), r) <==> r.start + r.step <= MAX_INT64
  {
    if r.start + r.step <= MAX_INT64 {
      forall v ensures v in Steps(r.start, r.end, r.step) <==> InProgression(v, r) {
        StepsWithoutOverflow(r.start, r.end, r.step, v);
      }
    } else {
      var w := OverflowValue(r);
      if InProgression(w, r) {
        ProgressionInBounds(r, w);
      }
    }
  }

  /** The values from `value` down in strides of `d`. */
  ghost predicate InDescent(v: int, value: int, d: int) {
    exists j: nat :: v == value - j * d
  }

  lemma DescentUnfolds(v: int, value: int, d: int)
    requires d > 0
    ensures InDescent(v, value, d) <==> v == value || InDescent(v, value - d, d)
  {
    if InDescent(v, value, d) {
      var j: nat :| v == value - j * d;
      assert j > 0 ==> v == value - d - (j - 1) * d;
    }
    if InDescent(v, value - d, d) {
      var j: nat :| v == value - d - j * d;
      assert v == value - (j + 1) * d;
    }
    assert value == value - 0 * d;
  }

  lemma DescentBelow(v: int, value: int, d: int)
    requires d > 0 && InDescent(v, value, d)
    ensures v <= value
  {
  }

  /** One turn of the loop. */
  lemma OneTurn(value: int, end: int, step: int, v: int)
    requires LoopValue(value, end, step)
    ensures value > end ==> v !in Steps(value, end, step)
    ensures value <= end ==>
              var next := AddInt64(value, step);
              && LoopValue(next, end, step)
              && (v in Steps(value, end, step) <==> v == value || v in Steps(next, end, step))
  {
  }

  /** One addition of a huge step leaves the loop, or wraps around and the next one comes back lower. */
  lemma HugeStepsUnfold(value: int, end: int, step: int, v: int)
    requires LoopValue(value, end, step) && step > HUGE_STEP && -59 <= value <= end && v >= 0
    ensures value + step <= MAX_INT64 ==> (v in Steps(value, end, step) <==> v == value)
    ensures value + step > MAX_INT64 ==>
              var next := value - (TWO_TO_64 - 2 * step);
              next < value && -59 <= next
              && (v in Steps(value, end, step) <==> v == value || v in Steps(next, end, step))
  {
    hide Steps;
    var w := AddInt64(value, step);
    OneTurn(value, end, step, v);
    OneTurn(w, end, step, v);
  }

  lemma {:induction false} HugeSteps(value: int, end: int, step: int, v: int)
    requires LoopValue(value, end, step) && step > HUGE_STEP && -59 <= value <= end && v >= 0
    ensures v in Steps(value, end, step) <==> InDescent(v, value, TWO_TO_64 - 2 * step)
    decreases value + 60
  {
    hide InDescent, Steps;
    var d := TWO_TO_64 - 2 * step;
    DescentUnfolds(v, value, d);
    HugeStepsUnfold(value, end, step, v);
    if value + step > MAX_INT64 {
      HugeSteps(value - d, end, step, v);
    } else if InDescent(v, value - d, d) {
      DescentBelow(v, value - d, d);
    }
  }

  /** A value that the loop reaches only by wrapping around. */
  ghost predicate Wrapped(v: int, r: Range) {
    r.start + r.step > MAX_INT64 && InDescent(v, r.start - (TWO_TO_64 - 2 * r.step), TWO_TO_64 - 2 * r.step)
  }

  /** What the loop appends that `match` can ever be asked for: the progression, and the wrapped values. */
  lemma StepsClosedForm(r: Range, v: int)
    requires ValidRange(r) && v >= 0
    ensures v in Steps(r.start, r.end, r.step) <==> InProgression(v, r) || Wrapped(v, r)
  {
    hide InDescent;
    if r.start + r.step <= MAX_INT64 {
      StepsWithoutOverflow(r.start, r.end, r.step, v);
    } else {
      HugeSteps(r.start, r.end, r.step, v);
      DescentUnfolds(v, r.start, TWO_TO_64 - 2 * r.step);
      hide Steps;
      ProgressionUnfolds(r, v);
      ProgressionEmpty(r.(start := r.start + r.step), v);
    }
  }

  /** The first addition fits in 64 bits, or the value two additions later, wrapped, is below the lower bound. */
  predicate Harmless(r: Range, min: int) {
    r.start + r.step <= MAX_INT64 || r.start + 2 * r.step - TWO_TO_64 < min
  }

  lemma HarmlessToken(r: Range, min: int, v: int)
    requires ValidRange(r) && Harmless(r, min) && v >= min
    ensures !Wrapped(v, r)
  {
    if Wrapped(v, r) {
      DescentBelow(v, r.start - (TWO_TO_64 - 2 * r.step), TWO_TO_64 - 2 * r.step);
    }
  }

  /**
   Between the bounds of the field, the loop yields exactly the arithmetic progression if and only if the token is
   harmless.
   */
  lemma TokenDenotation(r: Range, min: int, max: int)
    requires ValidRange(r) && 0 <= min <= r.start && r.end <= max
    ensures (forall v :: min <= v <= max ==> (v in Steps(r.start, r.end, r.step) <==> InProgression(v, r)))
            <==> Harmless(r, min)
  {
    hide Steps;
    var d := TWO_TO_64 - 2 * r.step;
    forall v | min <= v <= max
      ensures v in Steps(r.start, r.end, r.step) <==> InProgression(v, r) || Wrapped(v, r)
    {
      StepsClosedForm(r, v);
      if InDescent(v, r.start - d, d) {
        DescentBelow(v, r.start - d, d);
      }
    }
    if r.start + r.step > MAX_INT64 && r.start - d >= min {
      DescentUnfolds(r.start - d, r.start - d, d);
      assert Wrapped(r.start - d, r);
      NotInProgression(r, r.start - d);
    } else {
      forall v | min <= v <= max ensures !Wrapped(v, r) {
        HarmlessToken(r, min, v);
      }
    }
  }

  lemma NotInProgression(r: Range, v: int)
    requires ValidRange(r) && v < r.start
    ensures !InProgression(v, r)
  {
    if InProgression(v, r) {
      ProgressionInBounds(r, v);
    }
  }

  /** expandCronToken: the values of one comma token. */
  function ExpandToken(token: string, min: int, max: int): Result<seq<int>, TokenError>
    requires Bounds(min, max)
  {
    var range :- ParseToken(token, min, max);
    Ok(Steps(range.start, range.end, range.step))
  }

  method ExpandCronToken(token: string, min: int, max: int) returns (r: Result<seq<int>, TokenError>)
    requires Bounds(min, max)
    ensures r == ExpandToken(token, min, max)
  {
    var parsed := ParseToken(token, min, max);
    if parsed.Err? {
      return Err(parsed.error);
    }
    var Range(start, end, step) := parsed.value;
    var values: seq<int> := [];
    var value := start;
    while value <= end
      invariant LoopValue(value, end, step)
      invariant values + Steps(value, end, step) == Steps(start, end, step)
      decreases LoopRank(value, end, step)
    {
      values := values + [value];
      value := AddInt64(value, step);
    }
    assert values + Steps(value, end, step) == values;
    return Ok(values);
  }

  // ---------- One field ----------

  function Values(values: seq<int>): set<int> {
    set v | v in values
  }

  /** The trimmed comma tokens of a field. */
  function Tokens(expr: string): seq<string> {
    var parts := Split(expr, ',');
    seq(|parts|, k requires 0 <= k < |parts| => TrimSpace(parts[k]))
  }

  function AddToken(before: Result<CronField, TokenError>, token: string, min: int, max: int):
      Result<CronField, TokenError>
    requires Bounds(min, max)
  {
    if before.Err? then before
    else if token == "" then Err(EmptyToken)
    else
      var values :- ExpandToken(token, min, max);
      Ok(CronField(before.value.allowed + Values(values), before.value.wildcard || token == "*"))
  }

  /** Tokens are taken from left to right; the first bad one decides the error. */
  function ParseTokens(tokens: seq<string>, min: int, max: int): Result<CronField, TokenError>
    requires Bounds(min, max)
  {
    if tokens == [] then Ok(CronField({}, false))
    else AddToken(ParseTokens(tokens[..|tokens| - 1], min, max), tokens[|tokens| - 1], min, max)
  }

  /** parseCronField. */
  function ParseField(expr: string, min: int, max: int): Result<CronField, TokenError>
    requires Bounds(min, max)
  {
    ParseTokens(Tokens(expr), min, max)
  }

  lemma ParseTokensExtend(tokens: seq<string>, k: nat, min: int, max: int)
    requires Bounds(min, max) && k < |tokens|
    ensures ParseTokens(tokens[..k + 1], min, max) == AddToken(ParseTokens(tokens[..k], min, max), tokens[k], min, max)
  {
    assert tokens[..k + 1][..k] == tokens[..k];
  }

  lemma {:induction false} FirstErrorStays(tokens: seq<string>, k: nat, min: int, max: int)
    requires Bounds(min, max) && k <= |tokens|
    requires ParseTokens(tokens[..k], min, max).Err?
    ensures ParseTokens(tokens, min, max) == ParseTokens(tokens[..k], min, max)
    decreases |tokens| - k
  {
    if k < |tokens| {
      ParseTokensExtend(tokens, k, min, max);
      FirstErrorStays(tokens, k + 1, min, max);
    } else {
      assert tokens[..k] == tokens;
    }
  }

  method AllowAll(before: set<int>, values: seq<int>) returns (allowed: set<int>)
    ensures allowed == before + Values(values)
  {
    allowed := before;
    for k := 0 to |values|
      invariant allowed == before + Values(values[..k])
    {
      assert Values(values[..k + 1]) == Values(values[..k]) + {values[k]} by {
        assert values[..k + 1] == values[..k] + [values[k]];
      }
      allowed := allowed + {values[k]};
    }
    assert values[..|values|] == values;
  }

  method ParseCronField(expr: string, min: int, max: int) returns (r: Result<CronField, TokenError>)
    requires Bounds(min, max)
    ensures r == ParseField(expr, min, max)
  {
    var allowed: set<int> := {};
    var wildcard := false;
    var parts := Split(expr, ',');
    ghost var tokens := Tokens(expr);
    for i := 0 to |parts|
      invariant ParseTokens(tokens[..i], min, max) == Ok(CronField(allowed, wildcard))
    {
      var part := TrimSpace(parts[i]);
      ParseTokensExtend(tokens, i, min, max);
      if part == "" {
        FirstErrorStays(tokens, i + 1, min, max);
        return Err(EmptyToken);
      }
      if part == "*" {
        wildcard := true;
      }
      var values := ExpandCronToken(part, min, max);
      if values.Err? {
        FirstErrorStays(tokens, i + 1, min, max);
        return Err(values.error);
      }
      allowed := AllowAll(allowed, values.value);
    }
    assert tokens[..|parts|] == tokens;
    return Ok(CronField(allowed, wildcard));
  }

  predicate GoodToken(token: string, min: int, max: int) {
    token != "" && ParseToken(token, min, max).Ok?
  }

  /** The range of an accepted token. */
  function TokenRange(token: string, min: int, max: int): (r: Range)
    requires Bounds(min, max) && GoodToken(token, min, max)
    ensures ValidRange(r) && min <= r.start && r.end <= max
  {
    ParseToken(token, min, max).value
  }

  lemma LastTokenDecides(tokens: seq<string>, min: int, max: int)
    requires Bounds(min, max) && tokens != []
    ensures ParseTokens(tokens, min, max).Ok? <==>
            ParseTokens(tokens[..|tokens| - 1], min, max).Ok? && GoodToken(tokens[|tokens| - 1], min, max)
  {
  }

  ghost predicate AllGood(tokens: seq<string>, min: int, max: int) {
    forall k :: 0 <= k < |tokens| ==> GoodToken(tokens[k], min, max)
  }

  lemma AllGoodExtend(tokens: seq<string>, min: int, max: int)
    requires tokens != []
    ensures AllGood(tokens, min, max) <==>
            AllGood(tokens[..|tokens| - 1], min, max) && GoodToken(tokens[|tokens| - 1], min, max)
  {
  }

  /** A field is accepted if and only if every comma token is non-empty and has a range inside the bounds. */
  lemma {:induction false} AcceptedTokens(tokens: seq<string>, min: int, max: int)
    requires Bounds(min, max)
    ensures ParseTokens(tokens, min, max).Ok? <==> AllGood(tokens, min, max)
  {
    if tokens != [] {
      var init := tokens[..|tokens| - 1];
      LastTokenDecides(tokens, min, max);
      AcceptedTokens(init, min, max);
      AllGoodExtend(tokens, min, max);
    }
  }

  /** What the step loop appends for a good token. */
  function Produced(token: string, min: int, max: int): seq<int>
    requires Bounds(min, max) && GoodToken(token, min, max)
  {
    var r := TokenRange(token, min, max);
    Steps(r.start, r.end, r.step)
  }

  ghost predicate ProducedBy(tokens: seq<string>, min: int, max: int, v: int)
    requires Bounds(min, max)
    requires AllGood(tokens, min, max)
  {
    exists k :: 0 <= k < |tokens| && v in Produced(tokens[k], min, max)
  }

  lemma {:induction false} AllowedValues(tokens: seq<string>, min: int, max: int, v: int)
    requires Bounds(min, max) && ParseTokens(tokens, min, max).Ok?
    ensures AllGood(tokens, min, max)
    ensures v in ParseTokens(tokens, min, max).value.allowed <==> ProducedBy(tokens, min, max, v)
    ensures ParseTokens(tokens, min, max).value.wildcard <==> "*" in tokens
  {
    AcceptedTokens(tokens, min, max);
    if tokens != [] {
      var n := |tokens| - 1;
      var init := tokens[..n];
      AllowedValues(init, min, max, v);
      assert tokens == init + [tokens[n]];
      if ProducedBy(init, min, max, v) {
        var k :| 0 <= k < |init| && v in Produced(init[k], min, max);
        assert v in Produced(tokens[k], min, max);
      }
      if ProducedBy(tokens, min, max, v) && v !in Produced(tokens[n], min, max) {
        var k :| 0 <= k < |tokens| && v in Produced(tokens[k], min, max);
        assert v in Produced(init[k], min, max);
      }
    }
  }

  // ---------- What a field means ----------

  /** A value that some token of the field denotes. */
  ghost predicate Denoted(tokens: seq<string>, min: int, max: int, v: int)
    requires Bounds(min, max) && AllGood(tokens, min, max)
  {
    exists k :: 0 <= k < |tokens| && InProgression(v, TokenRange(tokens[k], min, max))
  }

  /** No token's first addition leaves the 64-bit integers. */
  ghost predicate NoOverflow(tokens: seq<string>, min: int, max: int)
    requires Bounds(min, max) && AllGood(tokens, min, max)
  {
    forall k :: 0 <= k < |tokens| ==>
      TokenRange(tokens[k], min, max).start + TokenRange(tokens[k], min, max).step <= MAX_INT64
  }

  /** A value that some token of the field adds by wrapping around. */
  ghost predicate Extra(tokens: seq<string>, min: int, max: int, v: int)
    requires Bounds(min, max) && AllGood(tokens, min, max)
  {
    exists k :: 0 <= k < |tokens| && Wrapped(v, TokenRange(tokens[k], min, max))
  }

  /** What an accepted field allows within its bounds. */
  lemma FieldClosedForm(expr: string, min: int, max: int, v: int)
    requires Bounds(min, max) && ParseField(expr, min, max).Ok? && min <= v <= max
    ensures AllGood(Tokens(expr), min, max)
    ensures v in ParseField(expr, min, max).value.allowed <==>
            Denoted(Tokens(expr), min, max, v) || Extra(Tokens(expr), min, max, v)
  {
    hide InProgression, Wrapped, Steps, ParseTokens;
    var tokens := Tokens(expr);
    AllowedValues(tokens, min, max, v);
    forall k | 0 <= k < |tokens|
      ensures v in Produced(tokens[k], min, max) <==>
              InProgression(v, TokenRange(tokens[k], min, max)) || Wrapped(v, TokenRange(tokens[k], min, max))
    {
      StepsClosedForm(TokenRange(tokens[k], min, max), v);
    }
  }

  /**
   Within its bounds an accepted field allows exactly the union of its tokens' progressions if and only if each value
   added by wrapping around is denoted by some token anyway; `wildcard` records exactly the token `*`.
   */
  lemma FieldDenotation(expr: string, min: int, max: int)
    requires Bounds(min, max) && ParseField(expr, min, max).Ok?
    ensures AllGood(Tokens(expr), min, max)
    ensures var field := ParseField(expr, min, max).value;
            && (field.wildcard <==> "*" in Tokens(expr))
            && ((forall v :: min <= v <= max ==> (v in field.allowed <==> Denoted(Tokens(expr), min, max, v)))
                <==> forall v :: min <= v <= max && Extra(Tokens(expr), min, max, v) ==>
                       Denoted(Tokens(expr), min, max, v))
  {
    var tokens := Tokens(expr);
    AllowedValues(tokens, min, max, 0);
    hide Denoted, Extra, ParseTokens, Tokens;
    forall v | min <= v <= max
      ensures v in ParseField(expr, min, max).value.allowed
              <==> Denoted(tokens, min, max, v) || Extra(tokens, min, max, v)
    {
      FieldClosedForm(expr, min, max, v);
    }
  }

  /** In particular a field means what it says when no token overflows, or wraps around to within the bounds. */
  lemma HarmlessField(expr: string, min: int, max: int)
    requires Bounds(min, max) && ParseField(expr, min, max).Ok? && AllGood(Tokens(expr), min, max)
    requires forall k :: 0 <= k < |Tokens(expr)| ==> Harmless(TokenRange(Tokens(expr)[k], min, max), min)
    ensures forall v :: min <= v <= max ==>
              (v in ParseField(expr, min, max).value.allowed <==> Denoted(Tokens(expr), min, max, v))
  {
    hide Tokens, ParseField, InDescent, InProgression, ParseToken;
    var tokens := Tokens(expr);
    forall v, k | min <= v <= max && 0 <= k < |tokens| ensures !Wrapped(v, TokenRange(tokens[k], min, max)) {
      HarmlessToken(TokenRange(tokens[k], min, max), min, v);
    }
    FieldDenotation(expr, min, max);
  }

  /** Counting also the keys that no minute, hour or date has: exactly if no token overflows. */
  lemma KeyDenotation(expr: string, min: int, max: int)
    requires Bounds(min, max) && ParseField(expr, min, max).Ok?
    ensures AllGood(Tokens(expr), min, max)
    ensures var field := ParseField(expr, min, max).value;
            NoOverflow(Tokens(expr), min, max) <==>
              forall v :: v in field.allowed <==> Denoted(Tokens(expr), min, max, v)
  {
    var tokens := Tokens(expr);
    var field := ParseField(expr, min, max).value;
    AllowedValues(tokens, min, max, 0);
    if NoOverflow(tokens, min, max) {
      forall v ensures v in field.allowed <==> Denoted(tokens, min, max, v) {
        AllowedValues(tokens, min, max, v);
        forall k | 0 <= k < |tokens|
          ensures v in Produced(tokens[k], min, max) <==> InProgression(v, TokenRange(tokens[k], min, max))
        {
          StepsDenoteProgression(TokenRange(tokens[k], min, max));
        }
      }
    } else {
      var k :| 0 <= k < |tokens|
        && TokenRange(tokens[k], min, max).start + TokenRange(tokens[k], min, max).step > MAX_INT64;
      var w := OverflowValue(TokenRange(tokens[k], min, max));
      AllowedValues(tokens, min, max, w);
      assert w in Produced(tokens[k], min, max);
      forall j | 0 <= j < |tokens| ensures !InProgression(w, TokenRange(tokens[j], min, max)) {
        if InProgression(w, TokenRange(tokens[j], min, max)) {
          ProgressionInBounds(TokenRange(tokens[j], min, max), w);
        }
      }
    }
  }

  /** The field allows a value inside its bounds, and all of them if it is a wildcard. */
  ghost predicate UsableField(field: CronField, min: int, max: int) {
    && (exists v :: min <= v <= max && v in field.allowed)
    && (field.wildcard ==> forall v :: min <= v <= max ==> v in field.allowed)
  }

  /** Every accepted field is usable, whether or not a token overflows. */
  lemma FieldUsable(expr: string, min: int, max: int)
    requires Bounds(min, max) && ParseField(expr, min, max).Ok?
    ensures UsableField(ParseField(expr, min, max).value, min, max)
  {
    var tokens := Tokens(expr);
    var field := ParseField(expr, min, max).value;
    AllowedValues(tokens, min, max, 0);
    var v := TokenRange(tokens[0], min, max).start;
    AllowedValues(tokens, min, max, v);
    assert v in Produced(tokens[0], min, max);
    if field.wildcard {
      var k :| 0 <= k < |tokens| && tokens[k] == "*";
      assert TokenRange("*", min, max) == Range(min, max, 1);
      StepsDenoteProgression(Range(min, max, 1));
      forall v | min <= v <= max ensures v in field.allowed {
        AllowedValues(tokens, min, max, v);
        assert v == min + (v - min) * 1;
        assert InProgression(v, Range(min, max, 1));
        assert v in Produced(tokens[k], min, max);
      }
    }
  }

  // ---------- The whole expression ----------

  function ParseCronSchedule(expr: string): Result<CronSchedule, CronError> {
    var parts := Fields(expr);
    if |parts| != 5 then Err(FieldCount(|parts|))
    else
      var minute := ParseField(parts[0], 0, 59);
      if minute.Err? then Err(Minute(minute.error)) else
      var hour := ParseField(parts[1], 0, 23);
      if hour.Err? then Err(Hour(hour.error)) else
      var day := ParseField(parts[2], 1, 31);
      if day.Err? then Err(DayOfMonth(day.error)) else
      var month := ParseField(parts[3], 1, 12);
      if month.Err? then Err(Month(month.error)) else
      var weekday := ParseField(parts[4], 0, 6);
      if weekday.Err? then Err(DayOfWeek(weekday.error)) else
      Ok(CronSchedule(minute.value, hour.value, day.value, month.value, weekday.value))
  }

  ghost predicate Usable(s: CronSchedule) {
    && UsableField(s.minute, 0, 59) && UsableField(s.hour, 0, 23) && UsableField(s.day, 1, 31)
    && UsableField(s.month, 1, 12) && UsableField(s.weekday, 0, 6)
  }

  lemma ParsedIsUsable(expr: string)
    requires ParseCronSchedule(expr).Ok?
    ensures Usable(ParseCronSchedule(expr).value)
  {
    var parts := Fields(expr);
    FieldUsable(parts[0], 0, 59);
    FieldUsable(parts[1], 0, 23);
    FieldUsable(parts[2], 1, 31);
    FieldUsable(parts[3], 1, 12);
    FieldUsable(parts[4], 0, 6);
  }
}
