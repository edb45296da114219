/**
 * TryParseSale (Program.cs): a message counts as a sale when its text, as it
 * is (not trimmed), begins with a match of ^\$?([\d,]+(?:\.\d{2})?) whose
 * group, with the commas removed, is accepted by decimal.TryParse.
 * Amounts are whole cents: the pattern never captures more than two
 * fraction digits.
 */
module SaleParser {

  import opened Wrappers
  import opened Numerals
  import opened Messages

  predicate AllDigitsOrCommas(s: string)
  {
    forall k :: 0 <= k < |s| ==> IsDigitOrComma(s[k])
  }

  predicate AllDigits(s: string)
  {
    forall k :: 0 <= k < |s| ==> IsDigit(s[k])
  }

  /** What the optional group (?:\.\d{2}) can match at the head of s. */
  predicate StartsWithCents(s: string)
  {
    |s| >= 3 && s[0] == '.' && IsDigit(s[1]) && IsDigit(s[2])
  }

  /** What the greedy [\d,]+ consumes at the head of s: the longest run of digits and commas. */
  function RunLength(s: string): (n: nat)
    ensures n <= |s| && AllDigitsOrCommas(s[..n])
    ensures n < |s| ==> !IsDigitOrComma(s[n])
  {
    if s == [] || !IsDigitOrComma(s[0]) then 0
    else
      var n := 1 + RunLength(s[1..]);
      assert s[..n] == [s[0]] + s[1..][..n - 1];
      n
  }

  /**
   * The text after the optional leading '$'. The ensures only unfold the body
   * for later proofs; AmountPrefixBody relates it to the amount shape.
   */
  function AfterDollar(input: string): (body: string)
    ensures |input| > 0 && input[0] == '$' ==> body == input[1..]
    ensures !(|input| > 0 && input[0] == '$') ==> body == input
  {
    if |input| > 0 && input[0] == '$' then input[1..] else input
  }

  /** Group 1 of a successful match, split at the decimal point: the digit-and-comma run and the optional ".dd". */
  datatype AmountText = AmountText(run: string, cents: string)

  /**
   * Regex.Match(input, @"^\$?([\d,]+(?:\.\d{2})?)"). The '$' is optional, so
   * when it is followed by no digit or comma the engine backtracks to match
   * the run at the '$' itself, which fails.
   */
  function MatchAmount(input: string): (m: Option<AmountText>)
    ensures m.Some? ==> |m.value.run| > 0 && AllDigitsOrCommas(m.value.run)
    ensures m.Some? ==> m.value.cents == [] || (|m.value.cents| == 3 && StartsWithCents(m.value.cents))
  {
    var body := AfterDollar(input);
    var n := RunLength(body);
    if n == 0 then None
    else Some(AmountText(body[..n], if StartsWithCents(body[n..]) then body[n..n + 3] else []))
  }

  /** string.Replace(",", ""). */
  function RemoveCommas(s: string): (r: string)
    ensures forall k :: 0 <= k < |r| ==> r[k] != ','
    ensures AllDigitsOrCommas(s) ==> AllDigits(r)
  {
    if s == [] then []
    else
      var init := s[..|s| - 1];
      var c := s[|s| - 1];
      var head := RemoveCommas(init);
      assert AllDigitsOrCommas(s) ==> AllDigitsOrCommas(init);
      if c == ',' then head else head + [c]
  }

  /** Removing the commas keeps every digit, so the value the digits spell. */
  lemma {:induction false} RemoveCommasKeepsDigits(s: string)
    ensures ValueOf(RemoveCommas(s)) == ValueOf(s)
    ensures AllDigitsOrCommas(s) ==> |RemoveCommas(s)| == DigitCount(s)
  {
    if s != [] {
      var init := s[..|s| - 1];
      var c := s[|s| - 1];
      RemoveCommasKeepsDigits(init);
      var head := RemoveCommas(init);
      assert AllDigitsOrCommas(s) ==> AllDigitsOrCommas(init);
      if c != ',' {
        assert (head + [c])[..|head|] == head;
      }
    }
  }

  /** The strings the pattern can hand to decimal.TryParse once its commas are gone. */
  predicate IsPlainAmount(s: string)
  {
    AllDigits(s) || (|s| >= 3 && AllDigits(s[..|s| - 3]) && StartsWithCents(s[|s| - 3..]))
  }

  /**
   * decimal.TryParse under the invariant culture, on those strings, in cents:
   * it needs at least one digit, and accepts a number with no digit before
   * the decimal point (".50" is half a dollar). The ensures only unfold the
   * body for later proofs; DecimalDollars and DecimalCents state the value.
   */
  function DecimalTryParseCents(s: string): (r: Option<nat>)
    requires IsPlainAmount(s)
    ensures r.None? <==> s == []
    ensures r.Some? ==> r.value == if AllDigits(s) then ValueOf(s) * 100 else ValueOf(s)
  {
    if s == [] then None
    else if AllDigits(s) then Some(ValueOf(s) * 100)
    else Some(ValueOf(s))
  }

  /** Two digits spell a number below 100. */
  lemma TwoDigitValue(t: string)
    requires |t| == 2 && IsDigit(t[0]) && IsDigit(t[1])
    ensures ValueOf(t) < 100 && DigitCount(t) == 2
  {
    var head := t[..1];
    assert head[..0] == [];
    assert ValueOf(head) == DigitValue(t[0]) && DigitCount(head) == 1;
    assert ValueOf(t) == ValueOf(head) * 10 + DigitValue(t[1]);
  }

  /** What decimal.TryParse reads from digits alone: whole dollars. */
  lemma DecimalDollars(s: string)
    requires s != [] && AllDigits(s)
    ensures var v := DecimalTryParseCents(s).value; v % 100 == 0 && v / 100 == ValueOf(s)
  {
    DivModHundred(ValueOf(s), 0);
  }

  /** What decimal.TryParse reads from digits, '.' and two digits: the dollars before the point and the cents after it. */
  lemma DecimalCents(s: string)
    requires IsPlainAmount(s) && !AllDigits(s)
    ensures var v := DecimalTryParseCents(s).value;
      v / 100 == ValueOf(s[..|s| - 3]) && v % 100 == ValueOf(s[|s| - 2..])
  {
    var whole := s[..|s| - 3];
    var frac := s[|s| - 2..];
    assert ValueOf(s) == ValueOf(whole) * 100 + ValueOf(frac) && ValueOf(frac) < 100 by {
      assert s == whole + (['.'] + frac);
      CentsValue(whole, frac);
    }
    DivModHundred(ValueOf(whole), ValueOf(frac));
  }

  /** Digits, a '.' and two digits spell the dollars times 100 plus the cents. */
  lemma CentsValue(whole: string, frac: string)
    requires |frac| == 2 && IsDigit(frac[0]) && IsDigit(frac[1])
    ensures ValueOf(whole + (['.'] + frac)) == ValueOf(whole) * 100 + ValueOf(frac)
    ensures ValueOf(frac) < 100
  {
    var point := ['.'] + frac;
    assert ValueOf(point) == ValueOf(frac) && DigitCount(point) == 2 by {
      assert ['.'][..0] == [];
      assert ValueOf(['.']) == 0 && DigitCount(['.']) == 0;
      ValueOfAppend(['.'], frac);
      TwoDigitValue(frac);
    }
    assert Pow10(2) == 100;
    ValueOfAppend(whole, point);
  }

  lemma DivModHundred(a: nat, c: nat)
    requires c < 100
    ensures (a * 100 + c) / 100 == a && (a * 100 + c) % 100 == c
  {
  }

  lemma {:induction false} RemoveCommasAppend(s: string, t: string)
    ensures RemoveCommas(s + t) == RemoveCommas(s) + RemoveCommas(t)
  {
    if t == [] {
      assert s + t == s;
    } else {
      var t' := t[..|t| - 1];
      assert (s + t)[..|s + t| - 1] == s + t';
      assert (s + t)[|s + t| - 1] == t[|t| - 1];
      RemoveCommasAppend(s, t');
    }
  }

  lemma {:induction false} RemoveCommasWithoutCommas(s: string)
    requires forall k :: 0 <= k < |s| ==> s[k] != ','
    ensures RemoveCommas(s) == s
  {
    if s != [] {
      RemoveCommasWithoutCommas(s[..|s| - 1]);
    }
  }

  /** What the matched group becomes once its commas are gone. */
  lemma NumberOfMatch(a: AmountText)
    requires |a.run| > 0 && AllDigitsOrCommas(a.run)
    requires a.cents == [] || (|a.cents| == 3 && StartsWithCents(a.cents))
    ensures var number := RemoveCommas(a.run + a.cents);
      && IsPlainAmount(number)
      && (AllDigits(number) <==> a.cents == [])
      && (number == [] <==> DigitCount(a.run) == 0 && a.cents == [])
      && ValueOf(number) == ValueOf(a.run + a.cents)
  {
    var number := RemoveCommas(a.run + a.cents);
    var digits := RemoveCommas(a.run);
    assert number == digits + a.cents by {
      RemoveCommasAppend(a.run, a.cents);
      RemoveCommasWithoutCommas(a.cents);
    }
    assert |digits| == DigitCount(a.run) by {
      RemoveCommasKeepsDigits(a.run);
    }
    assert ValueOf(number) == ValueOf(a.run + a.cents) by {
      RemoveCommasKeepsDigits(a.run + a.cents);
    }
    if a.cents != [] {
      DigitsAndCents(digits, a.cents);
    } else {
      assert number == digits;
    }
  }

  /** Digits followed by ".dd" form a plain amount that is not all digits. */
  lemma DigitsAndCents(digits: string, cents: string)
    requires AllDigits(digits)
    requires |cents| == 3 && StartsWithCents(cents)
    ensures IsPlainAmount(digits + cents) && !AllDigits(digits + cents)
  {
    var number := digits + cents;
    assert number[..|number| - 3] == digits;
    assert number[|number| - 3..] == cents;
    assert number[|number| - 3] == '.';
  }

  /**
   * TryParseSale: the entry for userName, or None where the source returns
   * false with a null entry. The amount is the matched digits read as
   * dollars, or as cents when the two cent digits were matched.
   */
  function TryParseSale(input: string, userName: string): Option<Sale>
  {
    match MatchAmount(input)
    case None => None
    case Some(amount) =>
      NumberOfMatch(amount);
      match DecimalTryParseCents(RemoveCommas(amount.run + amount.cents))
      case None => None
      case Some(cents) => Some(Sale(cents, userName))
  }

  /**
   * No match, no sale; a match yields the matched digits read as dollars, or
   * as cents when the two cent digits were matched, for userName, except for
   * a match with no digit at all, which decimal.TryParse rejects.
   */
  lemma TryParseSaleMeaning(input: string, userName: string)
    ensures MatchAmount(input).None? ==> TryParseSale(input, userName).None?
    ensures MatchAmount(input).Some? ==>
      var a := MatchAmount(input).value;
      TryParseSale(input, userName) ==
        if DigitCount(a.run) == 0 && a.cents == [] then None
        else Some(Sale(PrefixCents(a.run, a.cents), userName))
  {
    if MatchAmount(input).Some? {
      NumberOfMatch(MatchAmount(input).value);
    }
  }

  /**
   * The pattern, stated declaratively: after an optional '$', the input is a
   * non-empty run of digits and commas that the next character does not
   * extend, then either ".dd" or nothing (and then nothing only when ".dd"
   * does not follow), then anything.
   */
  ghost predicate IsAmountPrefix(input: string, run: string, cents: string, rest: string)
  {
    && (input == run + cents + rest || input == "$" + run + cents + rest)
    && |run| > 0 && AllDigitsOrCommas(run)
    && (cents == [] || (|cents| == 3 && StartsWithCents(cents)))
    && (cents + rest == [] || !IsDigitOrComma((cents + rest)[0]))
    && (cents == [] ==> !StartsWithCents(rest))
  }

  /** The amount the source gets from such a prefix, in cents. */
  function PrefixCents(run: string, cents: string): nat
  {
    ValueOf(run + cents) * (if cents == [] then 100 else 1)
  }

  lemma {:induction false} RunLengthOfRun(run: string, tail: string)
    requires AllDigitsOrCommas(run)
    requires tail == [] || !IsDigitOrComma(tail[0])
    ensures RunLength(run + tail) == |run|
  {
    if run != [] {
      assert (run + tail)[1..] == run[1..] + tail;
      RunLengthOfRun(run[1..], tail);
    } else {
      assert run + tail == tail;
    }
  }

  /** Skipping the optional '$' of a text that is body, with or without a '$' in front, gives body back. */
  lemma AfterDollarOf(input: string, body: string)
    requires input == body || input == "$" + body
    requires body != [] && body[0] != '$'
    ensures AfterDollar(input) == body
  {
    if input == "$" + body {
      assert input[1..] == body;
    } else {
      assert input[0] == body[0];
    }
  }

  /** The text is what follows the optional '$', with or without one in front. */
  lemma AfterDollarSplit(input: string)
    ensures input == AfterDollar(input) || input == "$" + AfterDollar(input)
  {
    if |input| > 0 && input[0] == '$' {
      assert input == [input[0]] + input[1..];
    }
  }

  /** The text after the optional '$' of an amount prefix is its run, cents and rest. */
  lemma AmountPrefixBody(input: string, run: string, cents: string, rest: string)
    requires IsAmountPrefix(input, run, cents, rest)
    ensures AfterDollar(input) == run + (cents + rest)
  {
    var body := run + (cents + rest);
    assert run + cents + rest == body;
    assert "$" + run + cents + rest == "$" + body;
    assert body[0] == run[0];
    AfterDollarOf(input, body);
  }

  lemma MatchOfAmountPrefix(input: string, run: string, cents: string, rest: string)
    requires IsAmountPrefix(input, run, cents, rest)
    ensures MatchAmount(input) == Some(AmountText(run, cents))
  {
    var body := AfterDollar(input);
    var tail := cents + rest;
    assert body == run + tail by {
      AmountPrefixBody(input, run, cents, rest);
    }
    RunLengthOfRun(run, tail);
    assert body[..|run|] == run;
    assert body[|run|..] == tail;
    if cents != [] {
      assert body[|run|..|run| + 3] == cents;
    } else {
      assert tail == rest;
    }
  }

  /**
   * Every amount prefix is parsed: the sale is the run's digits in dollars
   * plus the two cent digits, unless the run is all commas and no cents
   * follow, where decimal.TryParse rejects the empty string.
   */
  lemma ParseOfAmountPrefix(input: string, userName: string, run: string, cents: string, rest: string)
    requires IsAmountPrefix(input, run, cents, rest)
    ensures TryParseSale(input, userName) ==
      if DigitCount(run) == 0 && cents == [] then None else Some(Sale(PrefixCents(run, cents), userName))
  {
    MatchOfAmountPrefix(input, run, cents, rest);
    TryParseSaleMeaning(input, userName);
  }

  /** Text that starts with neither a digit nor a comma, after at most one '$', is never a sale. */
  lemma ParseNeedsLeadingAmount(input: string, userName: string)
    requires AfterDollar(input) == [] || !IsDigitOrComma(AfterDollar(input)[0])
    ensures TryParseSale(input, userName) == None
  {
    TryParseSaleMeaning(input, userName);
  }

  /** A successful match splits the text after the '$' into an amount prefix and the rest. */
  lemma MatchIsAmountPrefix(input: string)
    requires MatchAmount(input).Some?
    ensures var a := MatchAmount(input).value;
      IsAmountPrefix(input, a.run, a.cents, AfterDollar(input)[|a.run| + |a.cents|..])
  {
    var body := AfterDollar(input);
    var n := RunLength(body);
    if StartsWithCents(body[n..]) {
      MatchWithCents(input);
    } else {
      MatchWithoutCents(input);
    }
  }

  lemma MatchWithCents(input: string)
    requires RunLength(AfterDollar(input)) > 0
    requires StartsWithCents(AfterDollar(input)[RunLength(AfterDollar(input))..])
    ensures var a := MatchAmount(input).value;
      IsAmountPrefix(input, a.run, a.cents, AfterDollar(input)[|a.run| + |a.cents|..])
  {
    var body := AfterDollar(input);
    var n := RunLength(body);
    var run := body[..n];
    var tail := body[n..];
    var cents := tail[..3];
    var rest := tail[3..];
    assert MatchAmount(input).value == AmountText(run, cents) by {
      assert body[n..n + 3] == cents;
    }
    assert body == run + cents + rest by {
      assert body == run + tail;
      assert tail == cents + rest;
    }
    assert body[n + 3..] == rest;
    PrefixOfBody(input, run, cents, rest);
  }

  lemma MatchWithoutCents(input: string)
    requires RunLength(AfterDollar(input)) > 0
    requires !StartsWithCents(AfterDollar(input)[RunLength(AfterDollar(input))..])
    ensures var a := MatchAmount(input).value;
      IsAmountPrefix(input, a.run, a.cents, AfterDollar(input)[|a.run| + |a.cents|..])
  {
    var body := AfterDollar(input);
    var n := RunLength(body);
    var run := body[..n];
    var tail := body[n..];
    assert MatchAmount(input).value == AmountText(run, []);
    assert body == run + [] + tail;
    PrefixOfBody(input, run, [], tail);
  }

  /** The parts of what follows the optional '$' that meet the pattern's conditions form an amount prefix. */
  lemma PrefixOfBody(input: string, run: string, cents: string, rest: string)
    requires AfterDollar(input) == run + cents + rest
    requires |run| > 0 && AllDigitsOrCommas(run)
    requires cents == [] || (|cents| == 3 && StartsWithCents(cents))
    requires cents + rest == [] || !IsDigitOrComma((cents + rest)[0])
    requires cents == [] ==> !StartsWithCents(rest)
    ensures IsAmountPrefix(input, run, cents, rest)
  {
    AfterDollarSplit(input);
    assert "$" + (run + cents + rest) == "$" + run + cents + rest;
  }

  /** Every sale comes from an amount prefix, and from the one its value says. */
  lemma ParsedSaleHasAmountPrefix(input: string, userName: string)
    requires TryParseSale(input, userName).Some?
    ensures exists run, cents, rest ::
      && IsAmountPrefix(input, run, cents, rest)
      && TryParseSale(input, userName) == Some(Sale(PrefixCents(run, cents), userName))
  {
    var a := MatchAmount(input).value;
    var rest := AfterDollar(input)[|a.run| + |a.cents|..];
    MatchIsAmountPrefix(input);
    ParseOfAmountPrefix(input, userName, a.run, a.cents, rest);
  }

  /** Round trip: the bot's own "$" + N2 rendering of an amount, followed by anything, parses back to that amount. */
  lemma ParseFormattedAmount(cents: nat, userName: string, rest: string, dollar: bool)
    ensures TryParseSale((if dollar then "$" else "") + FormatN2(cents) + rest, userName) == Some(Sale(cents, userName))
  {
    var text := FormatN2(cents);
    var run := GroupThousands(cents / 100);
    var frac := text[|text| - 3..];
    assert text == run + frac;
    var input := (if dollar then "$" else "") + text + rest;
    assert input == run + frac + rest || input == "$" + run + frac + rest by {
      if dollar {
        assert input == "$" + text + rest;
      } else {
        assert input == text + rest;
      }
    }
    assert IsAmountPrefix(input, run, frac, rest) by {
      assert (frac + rest)[0] == '.';
    }
    assert DigitCount(run) > 0 by {
      assert run[..1] == [run[0]] && run[..1][..0] == [];
      ValueOfAppend(run[..1], run[1..]);
      assert run == run[..1] + run[1..];
    }
    assert PrefixCents(run, frac) == cents by {
      assert ValueOf(run + frac) == cents;
    }
    ParseOfAmountPrefix(input, userName, run, frac, rest);
  }

  /** ParseSales: the parse loop over a list of messages (sales.Add for each success), in message order. */
  function SalesIn(msgs: seq<Message>): (r: seq<Sale>)
    ensures |r| <= |msgs|
  {
    if msgs == [] then []
    else
      var last := msgs[|msgs| - 1];
      SalesIn(msgs[..|msgs| - 1]) + ToSeq(TryParseSale(last.text, last.userName))
  }

  /** Every sale comes from a message that parses to it. */
  lemma {:induction false} SalesFromMessages(msgs: seq<Message>)
    ensures forall s :: s in SalesIn(msgs) ==> exists m :: m in msgs && TryParseSale(m.text, m.userName) == Some(s)
  {
    if msgs != [] {
      var init := msgs[..|msgs| - 1];
      var last := msgs[|msgs| - 1];
      SalesFromMessages(init);
      assert forall m :: m in init ==> m in msgs;
      assert last in msgs;
    }
  }

  lemma {:induction false} SalesInAppend(a: seq<Message>, b: seq<Message>)
    ensures SalesIn(a + b) == SalesIn(a) + SalesIn(b)
  {
    if b == [] {
      assert a + b == a;
    } else {
      var b' := b[..|b| - 1];
      var last := b[|b| - 1];
      var tail := ToSeq(TryParseSale(last.text, last.userName));
      assert (a + b)[..|a + b| - 1] == a + b';
      assert (a + b)[|a + b| - 1] == last;
      assert SalesIn(a + b) == SalesIn(a + b') + tail;
      SalesInAppend(a, b');
      assert SalesIn(a) + SalesIn(b') + tail == SalesIn(a) + (SalesIn(b') + tail);
    }
  }

  /** Example: a dollar sign and two cent digits. */
  lemma DollarAndCentsExample(u: string)
    ensures TryParseSale("$12.50 thanks!", u) == Some(Sale(1250, u))
  {
    assert IsAmountPrefix("$12.50 thanks!", "12", ".50", " thanks!") by {
      assert "$12.50 thanks!" == "$" + "12" + ".50" + " thanks!";
    }
    assert ValueOf("12.50") == 1250 by {
      assert "12.50"[..4] == "12.5" && "12.5"[..3] == "12." && "12."[..2] == "12";
      assert "12"[..1] == "1" && "1"[..0] == "";
    }
    assert "12" + ".50" == "12.50";
    ParseOfAmountPrefix("$12.50 thanks!", u, "12", ".50", " thanks!");
  }

  /** Example: a thousands separator, whole dollars. */
  lemma ThousandsExample(u: string)
    ensures TryParseSale("1,250 cash", u) == Some(Sale(125000, u))
  {
    assert IsAmountPrefix("1,250 cash", "1,250", "", " cash") by {
      assert "1,250 cash" == "1,250" + "" + " cash";
    }
    assert ValueOf("1,250") == 1250 by {
      assert "1,250"[..4] == "1,25" && "1,25"[..3] == "1,2" && "1,2"[..2] == "1,";
      assert "1,"[..1] == "1" && "1"[..0] == "";
    }
    assert "1,250" + "" == "1,250";
    ParseOfAmountPrefix("1,250 cash", u, "1,250", "", " cash");
  }

  /** A single fraction digit does not complete the optional group: "12.5" is twelve dollars. */
  lemma OneFractionDigitExample(u: string)
    ensures TryParseSale("12.5", u) == Some(Sale(1200, u))
  {
    assert IsAmountPrefix("12.5", "12", "", ".5") by {
      assert "12.5" == "12" + "" + ".5";
    }
    assert ValueOf("12") == 12 by {
      assert "12"[..1] == "1" && "1"[..0] == "";
    }
    assert "12" + "" == "12";
    ParseOfAmountPrefix("12.5", u, "12", "", ".5");
  }

  /** Examples: texts that do not count. */
  lemma NonSaleExamples(u: string)
    ensures TryParseSale("great job", u) == None
    ensures TryParseSale("see you $12 later", u) == None
    ensures TryParseSale(" 12", u) == None
    ensures TryParseSale(",,", u) == None
  {
    ParseNeedsLeadingAmount("great job", u);
    ParseNeedsLeadingAmount("see you $12 later", u);
    ParseNeedsLeadingAmount(" 12", u);
    assert DigitCount(",,") == 0 by {
      assert ",,"[..1] == "," && ","[..0] == "";
    }
    assert ",," + "" + "" == ",,";
    ParseOfAmountPrefix(",,", u, ",,", "", "");
  }
}
