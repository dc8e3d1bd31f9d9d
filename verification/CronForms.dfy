/**
 What expressions mean: tokens `*`, `a`, `a-b`, each with or without a step `/k`, and a bare `/k`, lists of them, and
 five such fields; and which error a bad expression gets.
 */
module CronForms {
  import opened CronParser
  import opened CronRendering
  import opened Text

  // ---------- One token ----------

  datatype Base = Star | Blank | One(value: nat) | Span(first: nat, last: nat)

  /** A token, with its step if it has one. */
  datatype Item = Item(base: Base, step: Option<nat>)

  function BaseText(base: Base): string {
    match base
    case Star => "*"
    case Blank => ""
    case One(value) => Decimal(value)
    case Span(first, last) => Decimal(first) + "-" + Decimal(last)
  }

  function ItemText(item: Item): string {
    BaseText(item.base) + (if item.step.Some? then "/" + Decimal(item.step.value) else "")
  }

  /** The first value: the lower bound, the value, or the start of the range; Sunday may be written 7. */
  function First(item: Item, min: int, max: int): int {
    match item.base
    case Star => min
    case Blank => min
    case One(value) => if max == 6 && value == 7 then 0 else value
    case Span(first, _) => first
  }

  /** The last value: the upper bound, the value itself, or the end of the range. */
  function Last(item: Item, min: int, max: int): int {
    match item.base
    case Star => max
    case Blank => max
    case One(value) => First(item, min, max)
    case Span(_, last) => last
  }

  function StepOf(item: Item): int {
    if item.step.Some? then item.step.value else 1
  }

  /** What is wrong with the token, in the order in which it is looked at. */
  function Fault(item: Item, min: int, max: int): Option<TokenError> {
    if !(1 <= StepOf(item) <= MAX_INT64) then Some(InvalidStep)
    else if item.base.One? && item.base.value > MAX_INT64 then Some(InvalidValue)
    else if item.base.Span? && item.base.first > MAX_INT64 then Some(InvalidRangeStart)
    else if item.base.Span? && item.base.last > MAX_INT64 then Some(InvalidRangeEnd)
    else if min <= First(item, min, max) <= Last(item, min, max) <= max then None
    else Some(OutOfRange)
  }

  lemma BaseTextHas(base: Base)
    ensures '/' !in BaseText(base) && ',' !in BaseText(base)
    ensures '-' in BaseText(base) <==> base.Span?
    ensures BaseText(base) == "*" <==> base.Star?
    ensures BaseText(base) == "" <==> base.Blank?
  {
    match base
    case Star =>
    case Blank =>
    case One(value) =>
      DigitsHave(Decimal(value), '/');
      DigitsHave(Decimal(value), ',');
      DigitsHave(Decimal(value), '-');
      DigitsHave(Decimal(value), '*');
    case Span(first, last) =>
      DigitsHave(Decimal(first), '/');
      DigitsHave(Decimal(first), ',');
      DigitsHave(Decimal(last), '/');
      DigitsHave(Decimal(last), ',');
      assert BaseText(base)[|Decimal(first)|] == '-';
  }

  lemma SplitNone(s: string, c: char)
    requires c !in s
    ensures Split(s, c) == [s]
  {
  }

  lemma ParseStepText(base: string, step: string)
    requires '/' !in base && '/' !in step
    ensures ParseStep(base + "/" + step) ==
            if Atoi(step).None? || Atoi(step).value <= 0 then Err(InvalidStep) else Ok((base, Atoi(step).value))
  {
    var token := base + "/" + step;
    SplitFirst(base, step, '/');
    SplitNone(step, '/');
    hide Split, Atoi;
    assert token == base + ['/'] + step && token[|base|] == '/';
    assert Split(token, '/') == [base, step];
  }

  lemma ParseItemStep(item: Item)
    ensures ParseStep(ItemText(item)) ==
            if 1 <= StepOf(item) <= MAX_INT64 then Ok((BaseText(item.base), StepOf(item))) else Err(InvalidStep)
  {
    var base := BaseText(item.base);
    BaseTextHas(item.base);
    if item.step.Some? {
      AtoiDecimal(item.step.value);
      DigitsHave(Decimal(item.step.value), '/');
      ParseStepText(base, Decimal(item.step.value));
      hide BaseText, Decimal, Atoi, ParseStep;
      assert ItemText(item) == base + "/" + Decimal(item.step.value);
    } else {
      hide BaseText;
      assert ItemText(item) == base;
    }
  }

  lemma ParseValue(value: nat, min: int, max: int)
    ensures ParseBase(Decimal(value), min, max) ==
            if value > MAX_INT64 then Err(InvalidValue)
            else Ok((First(Item(One(value), None), min, max), First(Item(One(value), None), min, max)))
  {
    var digits := Decimal(value);
    AtoiDecimal(value);
    DigitsHave(digits, '-');
    DigitsHave(digits, '*');
    hide Decimal, Atoi, Split;
  }

  lemma ParseEnds(a: string, b: string, min: int, max: int)
    requires '-' !in a && '-' !in b
    ensures ParseBase(a + "-" + b, min, max) ==
            if Atoi(a).None? then Err(InvalidRangeStart) else if Atoi(b).None? then Err(InvalidRangeEnd)
            else Ok((Atoi(a).value, Atoi(b).value))
  {
    var base := a + "-" + b;
    SplitFirst(a, b, '-');
    SplitNone(b, '-');
    hide Split, Atoi;
    assert base == a + ['-'] + b && base[|a|] == '-';
    assert Split(base, '-') == [a, b];
  }

  lemma ParseSpan(first: nat, last: nat, min: int, max: int)
    ensures ParseBase(Decimal(first) + "-" + Decimal(last), min, max) ==
            if first > MAX_INT64 then Err(InvalidRangeStart) else if last > MAX_INT64 then Err(InvalidRangeEnd)
            else Ok((first, last))
  {
    AtoiDecimal(first);
    AtoiDecimal(last);
    DigitsHave(Decimal(first), '-');
    DigitsHave(Decimal(last), '-');
    ParseEnds(Decimal(first), Decimal(last), min, max);
    hide Decimal, Atoi, ParseBase;
  }

  lemma ParseItemBase(item: Item, min: int, max: int)
    ensures ParseBase(BaseText(item.base), min, max) ==
            match item.base
            case One(value) =>
              if value > MAX_INT64 then Err(InvalidValue) else Ok((First(item, min, max), Last(item, min, max)))
            case Span(first, last) =>
              if first > MAX_INT64 then Err(InvalidRangeStart) else if last > MAX_INT64 then Err(InvalidRangeEnd)
              else Ok((first, last))
            case _ => Ok((min, max))
  {
    match item.base
    case Star =>
    case Blank =>
    case One(value) =>
      ParseValue(value, min, max);
      hide ParseBase;
    case Span(first, last) =>
      ParseSpan(first, last, min, max);
      hide ParseBase;
  }

  /**
   A token is accepted if and only if its numbers are 64-bit ones, its step is not 0 and its first and last values are
   in order and within the bounds; so `a-b` with a > b is out of range. It then stands for every step-th value from the
   first to the last.
   */
  lemma ParseItem(item: Item, min: int, max: int)
    ensures ParseToken(ItemText(item), min, max) ==
            match Fault(item, min, max)
            case None => Ok(Range(First(item, min, max), Last(item, min, max), StepOf(item)))
            case Some(e) => Err(e)
  {
    ParseItemStep(item);
    ParseItemBase(item, min, max);
    hide ParseStep, ParseBase, ItemText, BaseText;
  }

  // ---------- Other texts ----------

  lemma ThreeParts(a: string, b: string, c: string, sep: char)
    ensures |Split(a + [sep] + b + [sep] + c, sep)| >= 3
  {
    SplitCount(a + [sep] + b, c, sep);
    SplitCount(a, b, sep);
    hide Split;
  }

  /** Two slashes or more are a bad step. */
  lemma TooManySlashes(a: string, b: string, c: string, min: int, max: int)
    ensures ParseToken(a + "/" + b + "/" + c, min, max) == Err(InvalidStepSyntax)
  {
    ThreeParts(a, b, c, '/');
    hide Split, ParseBase, Atoi;
    var token := a + "/" + b + "/" + c;
    assert token[|a|] == '/';
  }

  /** Two dashes or more are a bad range, also where a number might be meant to be negative. */
  lemma TooManyDashes(a: string, b: string, c: string, min: int, max: int)
    requires '/' !in a && '/' !in b && '/' !in c
    ensures ParseToken(a + "-" + b + "-" + c, min, max) == Err(InvalidRange)
  {
    ThreeParts(a, b, c, '-');
    hide Split, Atoi;
    var token := a + "-" + b + "-" + c;
    assert token[|a|] == '-';
    assert '/' !in token;
  }

  /** A number is decimal digits, perhaps after a sign, within 64 bits. */
  lemma AtoiIff(s: string, v: int)
    ensures Atoi(s) == Some(v) <==>
            && MIN_INT64 <= v <= MAX_INT64 && exists digits ::
                 && digits != "" && AllDigits(digits)
                 && ((s == digits && v == DigitsValue(digits)) || (s == "+" + digits && v == DigitsValue(digits))
                     || (s == "-" + digits && -v == DigitsValue(digits)))
  {
    hide DigitsValue;
    if Atoi(s).Some? {
      var digits := if s[0] == '-' || s[0] == '+' then s[1..] else s;
      assert s == digits || s == [s[0]] + digits;
    }
    forall digits | digits != "" && AllDigits(digits) ensures "+" + digits == s ==> s[1..] == digits {
    }
    forall digits | digits != "" && AllDigits(digits) ensures "-" + digits == s ==> s[1..] == digits {
    }
  }

  /** A word that is neither of these nor a number is a bad value. */
  lemma NotANumber(s: string, min: int, max: int)
    requires '/' !in s && '-' !in s && s != "" && s != "*" && Atoi(s).None?
    ensures ParseToken(s, min, max) == Err(InvalidValue)
  {
  }

  // ---------- Lists of tokens ----------

  function Texts(items: seq<Item>): (r: seq<string>)
    ensures |r| == |items|
  {
    seq(|items|, k requires 0 <= k < |items| => ItemText(items[k]))
  }

  /** The tokens, separated by commas. */
  function FieldText(items: seq<Item>): string
    requires items != []
  {
    Join(Texts(items), ',')
  }

  /** What is wrong with a token of a list; there, an empty one is wrong too. */
  function ListFault(item: Item, min: int, max: int): Option<TokenError> {
    if item == Item(Blank, None) then Some(EmptyToken) else Fault(item, min, max)
  }

  /** A value that the token means: first + i * step, up to last. */
  ghost predicate Means(item: Item, min: int, max: int, v: int) {
    v <= Last(item, min, max) && exists i: nat :: v == First(item, min, max) + i * StepOf(item)
  }

  ghost predicate SomeMeans(items: seq<Item>, min: int, max: int, v: int) {
    exists k :: 0 <= k < |items| && Means(items[k], min, max, v)
  }

  /** The step loop stays within 64 bits. */
  predicate NoWrap(item: Item, min: int, max: int) {
    First(item, min, max) + StepOf(item) <= MAX_INT64
  }

  /** The tokens are accepted. */
  predicate Fitting(items: seq<Item>, min: int, max: int) {
    items != [] && forall k :: 0 <= k < |items| ==> ListFault(items[k], min, max).None? && NoWrap(items[k], min, max)
  }

  function Interval(min: int, max: int): (r: set<int>)
    ensures forall v :: v in r <==> min <= v <= max
    decreases max - min
  {
    if min > max then {} else Interval(min, max - 1) + {max}
  }

  /** What the list means: all values that some token means; a wildcard if one token is `*`. */
  ghost function FieldOf(items: seq<Item>, min: int, max: int): CronField {
    CronField((set v | v in Interval(min, max) && SomeMeans(items, min, max, v)), Item(Star, None) in items)
  }

  lemma NoSpaces(item: Item)
    ensures forall k :: 0 <= k < |ItemText(item)| ==> !IsSpace(ItemText(item)[k])
    ensures TrimSpace(ItemText(item)) == ItemText(item)
  {
    DigitsAreNoSpaces(item);
    hide ItemText;
    assert TrimLeft(ItemText(item)) == ItemText(item);
  }

  lemma DigitsAreNoSpaces(item: Item)
    ensures forall k :: 0 <= k < |ItemText(item)| ==> !IsSpace(ItemText(item)[k])
  {
    hide Decimal;
    forall n: nat, k | 0 <= k < |Decimal(n)| ensures !IsSpace(Decimal(n)[k]) {
      assert IsDigit(Decimal(n)[k]);
    }
  }

  lemma NoCommas(item: Item)
    ensures ',' !in ItemText(item)
  {
    BaseTextHas(item.base);
    if item.step.Some? {
      DigitsHave(Decimal(item.step.value), ',');
    }
    hide BaseText, Decimal;
  }

  lemma FieldTokens(items: seq<Item>)
    requires items != []
    ensures Tokens(FieldText(items)) == Texts(items)
  {
    hide ItemText, TrimSpace;
    forall k | 0 <= k < |items| ensures ',' !in Texts(items)[k] && TrimSpace(Texts(items)[k]) == Texts(items)[k] {
      NoCommas(items[k]);
      NoSpaces(items[k]);
    }
    SplitJoin(Texts(items), ',');
  }

  lemma ItemIsStar(item: Item)
    ensures ItemText(item) == "*" <==> item == Item(Star, None)
    ensures ItemText(item) == "" <==> item == Item(Blank, None)
  {
    BaseTextHas(item.base);
    if item.step.Some? {
      assert ItemText(item)[|BaseText(item.base)|] == '/';
    }
  }

  /** A good token, and what it denotes. */
  lemma GoodItem(item: Item, min: int, max: int)
    requires Bounds(min, max)
    ensures GoodToken(ItemText(item), min, max) <==> ListFault(item, min, max).None?
    ensures ListFault(item, min, max).None? ==>
              TokenRange(ItemText(item), min, max) == Range(First(item, min, max), Last(item, min, max), StepOf(item))
  {
    ParseItem(item, min, max);
    ItemIsStar(item);
    hide ItemText, ParseToken;
  }

  lemma ProducedIff(item: Item, min: int, max: int, v: int)
    requires Bounds(min, max) && ListFault(item, min, max).None? && NoWrap(item, min, max)
    ensures GoodToken(ItemText(item), min, max)
    ensures v in Produced(ItemText(item), min, max) <==> Means(item, min, max, v)
  {
    GoodItem(item, min, max);
    var r := Range(First(item, min, max), Last(item, min, max), StepOf(item));
    StepsDenoteProgression(r);
    hide ItemText, Steps, GoodToken;
  }

  lemma MeansInBounds(items: seq<Item>, min: int, max: int, v: int)
    requires Fitting(items, min, max) && SomeMeans(items, min, max, v)
    ensures min <= v <= max
  {
  }

  lemma ItemsAllow(items: seq<Item>, min: int, max: int)
    requires Bounds(min, max) && Fitting(items, min, max)
    ensures ParseField(FieldText(items), min, max).Ok?
    ensures var field := ParseField(FieldText(items), min, max).value;
            && (field.wildcard <==> "*" in Texts(items))
            && (forall v :: v in field.allowed <==> SomeMeans(items, min, max, v))
  {
    var tokens := Texts(items);
    FieldTokens(items);
    hide ItemText, ParseTokens, Produced, Means, GoodToken, ListFault, NoWrap, FieldText, Tokens;
    forall k | 0 <= k < |tokens| ensures GoodToken(tokens[k], min, max) {
      GoodItem(items[k], min, max);
    }
    AcceptedTokens(tokens, min, max);
    AllowedValues(tokens, min, max, 0);
    forall v ensures v in ParseTokens(tokens, min, max).value.allowed <==> SomeMeans(items, min, max, v) {
      AllowedValues(tokens, min, max, v);
      forall k | 0 <= k < |items| ensures v in Produced(tokens[k], min, max) <==> Means(items[k], min, max, v) {
        ProducedIff(items[k], min, max, v);
      }
    }
  }

  lemma StarAmong(items: seq<Item>)
    ensures "*" in Texts(items) <==> Item(Star, None) in items
  {
    hide ItemText;
    if "*" in Texts(items) {
      var k :| 0 <= k < |items| && Texts(items)[k] == "*";
      ItemIsStar(items[k]);
    }
    if Item(Star, None) in items {
      var k :| 0 <= k < |items| && items[k] == Item(Star, None);
      ItemIsStar(items[k]);
      assert Texts(items)[k] == "*";
    }
  }

  lemma FieldIs(field: CronField, items: seq<Item>, min: int, max: int)
    requires field.wildcard <==> Item(Star, None) in items
    requires forall v :: v in field.allowed <==> SomeMeans(items, min, max, v)
    requires forall v :: SomeMeans(items, min, max, v) ==> min <= v <= max
    ensures field == FieldOf(items, min, max)
  {
    hide SomeMeans, Interval;
    var allowed := FieldOf(items, min, max).allowed;
    forall v ensures v in field.allowed <==> v in allowed {
      assert v in Interval(min, max) <==> min <= v <= max;
    }
    assert field.allowed == allowed;
  }

  /** An accepted list of tokens allows exactly the values that some token means, and `*` alone makes a wildcard. */
  lemma ParseItems(items: seq<Item>, min: int, max: int)
    requires Bounds(min, max) && Fitting(items, min, max)
    ensures ParseField(FieldText(items), min, max) == Ok(FieldOf(items, min, max))
  {
    assert items != [];
    hide *;
    ItemsAllow(items, min, max);
    StarAmong(items);
    forall v ensures SomeMeans(items, min, max, v) ==> min <= v <= max {
      if SomeMeans(items, min, max, v) {
        MeansInBounds(items, min, max, v);
      }
    }
    FieldIs(ParseField(FieldText(items), min, max).value, items, min, max);
  }

  lemma FirstBadToken(tokens: seq<string>, k: nat, min: int, max: int, e: TokenError)
    requires Bounds(min, max) && k < |tokens| && ParseTokens(tokens[..k], min, max).Ok?
    requires if tokens[k] == "" then e == EmptyToken else ExpandToken(tokens[k], min, max) == Err(e)
    ensures ParseTokens(tokens, min, max) == Err(e)
  {
    hide ExpandToken, ParseTokens;
    ParseTokensExtend(tokens, k, min, max);
    FirstErrorStays(tokens, k + 1, min, max);
  }

  /** A list with a bad token is rejected with the error of the first one. */
  lemma RejectItems(items: seq<Item>, k: nat, min: int, max: int)
    requires Bounds(min, max) && k < |items|
    requires (forall j :: 0 <= j < k ==> ListFault(items[j], min, max).None?) && ListFault(items[k], min, max).Some?
    ensures ParseField(FieldText(items), min, max) == Err(ListFault(items[k], min, max).value)
  {
    var tokens := Texts(items);
    FieldTokens(items);
    hide ItemText, ParseTokens, GoodToken, FieldText, ExpandToken, ListFault, Tokens;
    forall j | 0 <= j < k ensures GoodToken(tokens[..k][j], min, max) {
      GoodItem(items[j], min, max);
    }
    AcceptedTokens(tokens[..k], min, max);
    BadItem(items[k], min, max);
    FirstBadToken(tokens, k, min, max, ListFault(items[k], min, max).value);
  }

  lemma BadItem(item: Item, min: int, max: int)
    requires Bounds(min, max) && ListFault(item, min, max).Some?
    ensures var e := ListFault(item, min, max).value;
            if ItemText(item) == "" then e == EmptyToken else ExpandToken(ItemText(item), min, max) == Err(e)
  {
    ParseItem(item, min, max);
    ItemIsStar(item);
    hide ItemText, ParseToken, Fault;
  }

  // ---------- The whole expression ----------

  /** Words separated by single blanks. */
  function Blanks(words: seq<string>): string {
    if words == [] then "" else Join(words, ' ')
  }

  /** Blanks, tabs and line ends. */
  predicate White(gap: string) {
    forall k :: 0 <= k < |gap| ==> gap[k] in {' ', '\t', '\n', '\r'}
  }

  /** Every gap is white space, and all but the last, which follows the last word, have some. */
  predicate Gaps(words: seq<string>, gaps: seq<string>) {
    && |gaps| == |words| && (forall k :: 0 <= k < |gaps| ==> White(gaps[k]))
    && (forall k :: 0 <= k < |gaps| - 1 ==> gaps[k] != "")
  }

  function Spaced(words: seq<string>, gaps: seq<string>): string
    requires |gaps| == |words|
  {
    if words == [] then "" else words[0] + (gaps[0] + Spaced(words[1..], gaps[1..]))
  }

  lemma WhiteIsSpace(gap: string)
    requires White(gap)
    ensures forall k :: 0 <= k < |gap| ==> IsSpace(gap[k])
  {
  }

  lemma {:induction false} FieldsOfSpaced(words: seq<string>, gaps: seq<string>)
    requires Gaps(words, gaps) && forall k :: 0 <= k < |words| ==> Word(words[k])
    ensures Fields(Spaced(words, gaps)) == words
  {
    if words == [] {
      assert TrimLeft("") == "";
    } else {
      FieldsOfSpaced(words[1..], gaps[1..]);
      var rest := Spaced(words[1..], gaps[1..]);
      assert White(gaps[0]);
      assert |words| > 1 ==> gaps[0] != "";
      assert |words| == 1 ==> rest == "";
      WhiteIsSpace(gaps[0]);
      hide Fields, Word, White, IsSpace;
      FieldsHead(words[0], gaps[0] + rest);
      FieldsAfter(gaps[0], rest);
    }
  }

  lemma {:induction false} BlanksAreGaps(words: seq<string>) returns (gaps: seq<string>)
    ensures Gaps(words, gaps) && Spaced(words, gaps) == Blanks(words)
  {
    if |words| <= 1 {
      gaps := if words == [] then [] else [""];
      assert words != [] ==> words[0] + ("" + "") == words[0];
    } else {
      var rest := BlanksAreGaps(words[1..]);
      gaps := [" "] + rest;
      assert gaps[1..] == rest;
      assert Blanks(words) == words[0] + (" " + Blanks(words[1..]));
    }
  }

  lemma FieldsOfBlanks(words: seq<string>)
    requires forall k :: 0 <= k < |words| ==> Word(words[k])
    ensures Fields(Blanks(words)) == words
  {
    var gaps := BlanksAreGaps(words);
    FieldsOfSpaced(words, gaps);
  }

  lemma {:induction false} TrimRightOf(s: string, trail: string)
    requires (s != "" ==> !IsSpace(s[|s| - 1])) && forall k :: 0 <= k < |trail| ==> IsSpace(trail[k])
    ensures TrimRight(s + trail) == s
  {
    if trail == "" {
      assert s + trail == s;
    } else {
      var init := trail[..|trail| - 1];
      TrimRightOf(s, init);
      assert (s + trail)[..|s + trail| - 1] == s + init;
    }
  }

  lemma TrimsWord(lead: string, word: string, trail: string)
    requires White(lead) && White(trail) && Word(word)
    ensures TrimSpace(lead + word + trail) == word
  {
    WhiteIsSpace(lead);
    WhiteIsSpace(trail);
    hide White;
    FieldsAfter(lead, word + trail);
    hide Fields;
    assert lead + word + trail == lead + (word + trail);
    assert TrimLeft(word + trail) == word + trail;
    TrimRightOf(word, trail);
  }

  /** White space around a token does not matter. */
  lemma PaddingIrrelevant(lead: string, word: string, trail: string, min: int, max: int)
    requires Bounds(min, max) && White(lead) && White(trail) && Word(word) && ',' !in word
    ensures ParseField(lead + word + trail, min, max) == ParseField(word, min, max)
  {
    TrimsWord(lead, word, trail);
    TrimsWord("", word, "");
    assert "" + word + "" == word;
    hide TrimSpace, ParseTokens, Word;
    assert Tokens(lead + word + trail) == [word] == Tokens(word);
  }

  lemma SameFields(expr: string, other: string)
    requires Fields(expr) == Fields(other)
    ensures ParseCronSchedule(expr) == ParseCronSchedule(other)
  {
    hide Fields, ParseField;
  }

  /** It does not matter which white space separates the words, nor how much of it, nor whether some is around them. */
  lemma SpacingIrrelevant(lead: string, words: seq<string>, gaps: seq<string>)
    requires White(lead) && Gaps(words, gaps) && forall k :: 0 <= k < |words| ==> Word(words[k])
    ensures ParseCronSchedule(lead + Spaced(words, gaps)) == ParseCronSchedule(Blanks(words))
  {
    hide Fields, Word, IsSpace, Spaced, Blanks, ParseCronSchedule;
    FieldsOfSpaced(words, gaps);
    FieldsOfBlanks(words);
    WhiteIsSpace(lead);
    FieldsAfter(lead, Spaced(words, gaps));
    SameFields(lead + Spaced(words, gaps), Blanks(words));
  }

  /** The bounds of the five fields: minute, hour, day of month, month, weekday. */
  function Lower(k: nat): int {
    if k == 2 || k == 3 then 1 else 0
  }

  function Upper(k: nat): int {
    if k == 0 then 59 else if k == 1 then 23 else if k == 2 then 31 else if k == 3 then 12 else 6
  }

  function FieldError(k: nat, cause: TokenError): CronError {
    if k == 0 then Minute(cause) else if k == 1 then Hour(cause) else if k == 2 then DayOfMonth(cause)
    else if k == 3 then Month(cause) else DayOfWeek(cause)
  }

  function Field(words: seq<string>, k: nat): Result<CronField, TokenError>
    requires |words| == 5 && k < 5
  {
    ParseField(words[k], Lower(k), Upper(k))
  }

  /** An expression of any other number of words than five is rejected with that number. */
  lemma WrongCount(words: seq<string>)
    requires |words| != 5 && forall k :: 0 <= k < |words| ==> Word(words[k])
    ensures ParseCronSchedule(Blanks(words)) == Err(FieldCount(|words|))
  {
    hide Word, Blanks, Fields, ParseField;
    FieldsOfBlanks(words);
  }

  /** Of five words the first bad one decides the error. */
  lemma FirstBadField(words: seq<string>, k: nat)
    requires |words| == 5 && k < 5 && forall j :: 0 <= j < |words| ==> Word(words[j])
    requires (forall j :: 0 <= j < k ==> Field(words, j).Ok?) && Field(words, k).Err?
    ensures ParseCronSchedule(Blanks(words)) == Err(FieldError(k, Field(words, k).error))
  {
    FieldsOfBlanks(words);
    hide Word, Blanks, Fields, ParseField;
    assert 0 < k ==> Field(words, 0).Ok?;
    assert 1 < k ==> Field(words, 1).Ok?;
    assert 2 < k ==> Field(words, 2).Ok?;
    assert 3 < k ==> Field(words, 3).Ok?;
  }

  lemma GoodFields(words: seq<string>, fields: seq<CronField>)
    requires |words| == |fields| == 5
    requires forall j :: 0 <= j < 5 ==> Word(words[j]) && Field(words, j) == Ok(fields[j])
    ensures ParseCronSchedule(Blanks(words)) ==
            Ok(CronSchedule(fields[0], fields[1], fields[2], fields[3], fields[4]))
  {
    FieldsOfBlanks(words);
    hide Word, Blanks, Fields, ParseField;
    assert Field(words, 0).Ok? && Field(words, 1).Ok? && Field(words, 2).Ok? && Field(words, 3).Ok?;
    assert Field(words, 4).Ok?;
  }

  /** Five lists of tokens. */
  datatype ScheduleForm =
    ScheduleForm(minute: seq<Item>, hour: seq<Item>, day: seq<Item>, month: seq<Item>, weekday: seq<Item>)

  predicate Fits(form: ScheduleForm) {
    && Fitting(form.minute, 0, 59) && Fitting(form.hour, 0, 23) && Fitting(form.day, 1, 31)
    && Fitting(form.month, 1, 12) && Fitting(form.weekday, 0, 6)
  }

  function Items(form: ScheduleForm, k: nat): seq<Item> {
    if k == 0 then form.minute else if k == 1 then form.hour else if k == 2 then form.day
    else if k == 3 then form.month else form.weekday
  }

  function FormWords(form: ScheduleForm): (words: seq<string>)
    requires Fits(form)
    ensures |words| == 5
  {
    [FieldText(form.minute), FieldText(form.hour), FieldText(form.day), FieldText(form.month), FieldText(form.weekday)]
  }

  /** The expression. */
  function FormText(form: ScheduleForm): string
    requires Fits(form)
  {
    Blanks(FormWords(form))
  }

  /** What the expression means. */
  ghost function ScheduleOf(form: ScheduleForm): CronSchedule {
    CronSchedule(FieldOf(form.minute, 0, 59), FieldOf(form.hour, 0, 23), FieldOf(form.day, 1, 31),
                 FieldOf(form.month, 1, 12), FieldOf(form.weekday, 0, 6))
  }

  lemma {:induction false} JoinNoSpaces(parts: seq<string>)
    requires parts != [] && parts[0] != "" && forall k :: 0 <= k < |parts| ==> parts[k] == "" || Word(parts[k])
    ensures Word(Join(parts, ','))
  {
    hide Join;
    JoinChars(parts);
    JoinStarts(parts);
  }

  lemma JoinStarts(parts: seq<string>)
    requires parts != [] && parts[0] != ""
    ensures Join(parts, ',') != ""
  {
  }

  lemma {:induction false} JoinChars(parts: seq<string>)
    requires parts != [] && forall k :: 0 <= k < |parts| ==> parts[k] == "" || Word(parts[k])
    ensures forall i :: 0 <= i < |Join(parts, ',')| ==> !IsSpace(Join(parts, ',')[i])
  {
    if |parts| > 1 {
      JoinChars(parts[1..]);
      assert !IsSpace(',');
    }
  }

  lemma FieldTextIsWord(items: seq<Item>, min: int, max: int)
    requires Fitting(items, min, max)
    ensures Word(FieldText(items))
  {
    hide ItemText;
    forall k | 0 <= k < |items| ensures Texts(items)[k] != "" && Word(Texts(items)[k]) {
      NoSpaces(items[k]);
      ItemIsStar(items[k]);
    }
    JoinNoSpaces(Texts(items));
  }

  lemma FormField(form: ScheduleForm, k: nat)
    requires k < 5 && Fits(form)
    ensures Fitting(Items(form, k), Lower(k), Upper(k)) && FormWords(form)[k] == FieldText(Items(form, k))
  {
    hide Fitting, FieldText;
  }

  lemma FieldParses(form: ScheduleForm, k: nat)
    requires k < 5 && Fits(form)
    ensures var words := FormWords(form);
            Word(words[k]) && Field(words, k) == Ok(FieldOf(Items(form, k), Lower(k), Upper(k)))
  {
    FormField(form, k);
    assert Bounds(Lower(k), Upper(k));
    hide FieldText, FieldOf, Fitting, ParseField, Word, Lower, Upper, Items, FormWords;
    FieldTextIsWord(Items(form, k), Lower(k), Upper(k));
    ParseItems(Items(form, k), Lower(k), Upper(k));
  }

  /** Five accepted lists, written with blanks between, parse to exactly the schedule that they mean. */
  lemma ParseSchedule(form: ScheduleForm)
    requires Fits(form)
    ensures ParseCronSchedule(FormText(form)) == Ok(ScheduleOf(form))
  {
    var s := ScheduleOf(form);
    var fields := [s.minute, s.hour, s.day, s.month, s.weekday];
    hide FieldText, FieldOf, Fitting, ParseField, Word, Field, Blanks, ParseCronSchedule, FormWords;
    forall k | 0 <= k < 5 ensures Word(FormWords(form)[k]) && Field(FormWords(form), k) == Ok(fields[k]) {
      FieldParses(form, k);
    }
    GoodFields(FormWords(form), fields);
  }

  lemma StepOne(item: Item, min: int, max: int, x: int)
    requires item.step.None?
    ensures Means(item, min, max, x) <==> First(item, min, max) <= x <= Last(item, min, max)
    ensures SomeMeans([item], min, max, x) <==> Means(item, min, max, x)
  {
    if First(item, min, max) <= x {
      var i: nat := x - First(item, min, max);
      assert x == First(item, min, max) + i * StepOf(item);
    }
    assert [item][0] == item;
  }

  /** The simplest fields: `*`, and a single value. */
  lemma SimpleFields(v: nat, min: int, max: int)
    requires Bounds(min, max)
    ensures Fitting([Item(Star, None)], min, max) && FieldText([Item(Star, None)]) == "*"
    ensures FieldOf([Item(Star, None)], min, max) == CronField(Interval(min, max), true)
    ensures min <= v <= max ==> Fitting([Item(One(v), None)], min, max)
    ensures FieldText([Item(One(v), None)]) == Decimal(v)
    ensures min <= v <= max ==> FieldOf([Item(One(v), None)], min, max) == CronField({v as int}, false)
  {
    hide Interval;
    var star, one := [Item(Star, None)], [Item(One(v), None)];
    forall x ensures SomeMeans(star, min, max, x) <==> min <= x <= max {
      StepOne(star[0], min, max, x);
    }
    forall x ensures min <= v <= max ==> (SomeMeans(one, min, max, x) <==> x == v) {
      StepOne(one[0], min, max, x);
    }
    assert Decimal(v) + "" == Decimal(v);
    assert Item(Star, None) !in one;
  }
}
