/** The page-range notation of the toolkit: a user string such as
    "1-5, 8-10" is cut into range tokens, and each token is read as a
    1-indexed inclusive pair of page numbers. */
module PageRanges {
  import opened Outcomes
  import opened PyText

  /** A parsed token "<start>-<end>": 1-indexed, inclusive. Nothing checks
      start <= end or that the pages exist; both are read by int(), so they
      are never negative. */
  datatype PageRange = PageRange(start: nat, end: nat)

  /** parse_page_ranges: one token per comma-separated piece, each stripped. */
  function ParsePageRanges(input: string): (tokens: seq<string>)
    ensures |tokens| == multiset(input)[','] + 1
  {
    SplitCount(input, ',');
    var pieces := Split(input, ',');
    seq(|pieces|, i requires 0 <= i < |pieces| => Strip(pieces[i]))
  }

  /** The tokens come from the pieces of the input in order: the pieces
      joined back with commas are the input, and each token is its piece
      with the surrounding whitespace removed. */
  lemma ParsePageRangesPieces(input: string)
    ensures Join(Split(input, ','), ',') == input
    ensures forall i :: 0 <= i < |Split(input, ',')| ==>
      Surrounds(Split(input, ',')[i], ParsePageRanges(input)[i])
  {
    JoinSplit(input, ',');
    var pieces := Split(input, ',');
    forall i | 0 <= i < |pieces|
      ensures Surrounds(pieces[i], ParsePageRanges(input)[i])
    {
      StripSurrounded(pieces[i]);
    }
  }

  /** No token has whitespace at either end or holds a comma. */
  lemma ParsePageRangesTokens(input: string)
    ensures forall i :: 0 <= i < |ParsePageRanges(input)| ==>
      Trimmed(ParsePageRanges(input)[i]) && ',' !in ParsePageRanges(input)[i]
  {
    SplitCount(input, ',');
    var pieces := Split(input, ',');
    forall i | 0 <= i < |pieces|
      ensures Trimmed(ParsePageRanges(input)[i]) && ',' !in ParsePageRanges(input)[i]
    {
      StripIsTrimmed(pieces[i], Whitespace);
      StripWithin(pieces[i], Whitespace, ',');
    }
  }

  /** Typing the tokens back, separated by bare commas, yields them again. */
  lemma ParsePageRangesOfJoin(tokens: seq<string>)
    requires |tokens| >= 1
    requires forall i :: 0 <= i < |tokens| ==> Trimmed(tokens[i]) && ',' !in tokens[i]
    ensures ParsePageRanges(Join(tokens, ',')) == tokens
  {
    SplitJoin(tokens, ',');
    var r := ParsePageRanges(Join(tokens, ','));
    forall i | 0 <= i < |tokens| ensures r[i] == tokens[i] {
      StripTrimmed(tokens[i], Whitespace);
    }
  }

  /** A token cut at its dashes must give exactly two pieces, start and end,
      each read by int(); anything else is a ValueError. */
  function ParseRange(token: string): (r: Result<PageRange>)
    ensures r.Err? ==> r.error == BadRangeToken(token)
  {
    var halves := Split(token, '-');
    if |halves| != 2 then Err(BadRangeToken(token))
    else match (ParseInt(halves[0]), ParseInt(halves[1]))
      case (Some(start), Some(end)) => Ok(PageRange(start, end))
      case _ => Err(BadRangeToken(token))
  }

  /** Unpacking into two names needs exactly one dash. */
  lemma ParseRangeOneDash(token: string)
    ensures multiset(token)['-'] != 1 ==> ParseRange(token) == Err(BadRangeToken(token))
  {
    SplitCount(token, '-');
  }

  /** The token a user types for a range. */
  function FormatRange(pr: PageRange): string {
    NatToString(pr.start) + "-" + NatToString(pr.end)
  }

  lemma ParseFormatRange(pr: PageRange)
    requires WithinDigitLimit(pr)
    ensures ParseRange(FormatRange(pr)) == Ok(pr)
  {
    var a, b := NatToString(pr.start), NatToString(pr.end);
    assert '-' !in a && '-' !in b by {
      assert forall i :: 0 <= i < |a| ==> IsDigit(a[i]);
      assert forall i :: 0 <= i < |b| ==> IsDigit(b[i]);
    }
    SplitJoin([a, b], '-');
    assert Join([a, b], '-') == a + ['-'] + Join([b], '-');
    assert FormatRange(pr) == Join([a, b], '-');
    ParseIntOfNatToString(pr.start);
    ParseIntOfNatToString(pr.end);
  }

  /** Both numbers of a range are short enough for int() to read back. */
  predicate WithinDigitLimit(pr: PageRange) {
    |NatToString(pr.start)| <= MaxStrDigits && |NatToString(pr.end)| <= MaxStrDigits
  }

  /** A token whose end has more digits than int() converts is malformed,
      even though its start is a valid page number. */
  lemma ParseRangeTooLong(digits: string)
    requires AllDigits(digits) && |digits| > MaxStrDigits
    ensures ParseRange("1-" + digits) == Err(BadRangeToken("1-" + digits))
  {
    assert '-' !in digits;
    SplitWithout(digits, '-');
    SplitAt("1", '-', digits);
    assert "1" + ['-'] + digits == "1-" + digits;
    ParseIntTooLong(digits);
    ParseRangeBadEnd("1-" + digits, "1", digits);
  }

  /** A start followed by one of the separators U+001C..U+001F is malformed:
      parse_page_ranges keeps that character inside the token, and int()
      rejects it although strip() would not. */
  lemma ParseRangeSeparator(c: char)
    requires c in Whitespace - IntWhitespace
    ensures ParseRange("1" + [c] + "-5") == Err(BadRangeToken("1" + [c] + "-5"))
  {
    var x := "1" + [c];
    assert '-' !in x;
    SplitWithout("5", '-');
    SplitAt(x, '-', "5");
    assert x + ['-'] + "5" == "1" + [c] + "-5";
    ParseIntSeparator("1", c);
  }

  /** A token that splits in two is malformed when its end is not a number. */
  lemma ParseRangeBadEnd(token: string, x: string, y: string)
    requires Split(token, '-') == [x, y] && ParseInt(y) == None
    ensures ParseRange(token) == Err(BadRangeToken(token))
  {
  }

  /** A token with nothing before or after its dash is malformed. */
  lemma ParseRangeHalfOpen(n: nat)
    ensures ParseRange("-" + NatToString(n)).Err?
    ensures ParseRange(NatToString(n) + "-").Err?
  {
    var a := NatToString(n);
    assert '-' !in a by {
      assert forall i :: 0 <= i < |a| ==> IsDigit(a[i]);
    }
    SplitAt([], '-', a);
    assert [] + ['-'] + a == "-" + a;
    SplitWithout(a, '-');
    SplitAt(a, '-', []);
    assert a + ['-'] + [] == a + "-";
    assert Split([], '-') == [[]];
    ParseIntBlank([]);
  }

  /** Tokens parsed one after the other with `parse`; the first failure is
      the error raised, otherwise the values in token order. */
  function ParseEach<T>(tokens: seq<string>, parse: string -> Result<T>): (r: Result<seq<T>>)
    ensures r.Ok? ==> |r.value| == |tokens|
  {
    if tokens == [] then Ok([])
    else
      var front := ParseEach(tokens[..|tokens| - 1], parse);
      var back := parse(tokens[|tokens| - 1]);
      if front.Err? then front
      else if back.Err? then Err(back.error)
      else Ok(front.value + [back.value])
  }

  /** Parsing succeeds exactly when every token parses, and then yields each
      token's value at the token's position. */
  lemma {:induction false} ParseEachOk<T>(tokens: seq<string>, parse: string -> Result<T>)
    ensures ParseEach(tokens, parse).Ok? <==> forall i :: 0 <= i < |tokens| ==> parse(tokens[i]).Ok?
    ensures ParseEach(tokens, parse).Ok? ==>
      forall i :: 0 <= i < |tokens| ==> ParseEach(tokens, parse).value[i] == parse(tokens[i]).value
    decreases |tokens|
  {
    if tokens != [] {
      var init := tokens[..|tokens| - 1];
      ParseEachOk(init, parse);
      assert forall i :: 0 <= i < |init| ==> init[i] == tokens[i];
    }
  }

  /** When every token parses to the value at its position, the list parses
      to those values. */
  lemma {:induction false} ParseEachAll<T>(tokens: seq<string>, parse: string -> Result<T>, values: seq<T>)
    requires |values| == |tokens|
    requires forall i :: 0 <= i < |tokens| ==> parse(tokens[i]) == Ok(values[i])
    ensures ParseEach(tokens, parse) == Ok(values)
    decreases |tokens|
  {
    if tokens != [] {
      var k := |tokens| - 1;
      ParseEachAll(tokens[..k], parse, values[..k]);
      assert values[..k] + [values[k]] == values;
    }
  }

  /** The error reported is that of the first token that fails. */
  lemma {:induction false} ParseEachFirstError<T>(tokens: seq<string>, parse: string -> Result<T>, i: nat)
    requires i < |tokens| && parse(tokens[i]).Err?
    requires forall j :: 0 <= j < i ==> parse(tokens[j]).Ok?
    ensures ParseEach(tokens, parse) == Err(parse(tokens[i]).error)
    decreases |tokens|
  {
    var init := tokens[..|tokens| - 1];
    assert forall j :: 0 <= j < |init| ==> init[j] == tokens[j];
    if i < |tokens| - 1 {
      ParseEachFirstError(init, parse, i);
    } else {
      ParseEachOk(init, parse);
    }
  }

  /** A failed list reports the error of one of its tokens. */
  lemma {:induction false} ParseEachError<T>(tokens: seq<string>, parse: string -> Result<T>)
    ensures ParseEach(tokens, parse).Err? ==>
      exists i :: 0 <= i < |tokens| && parse(tokens[i]) == Err(ParseEach(tokens, parse).error)
    decreases |tokens|
  {
    if tokens != [] {
      var init := tokens[..|tokens| - 1];
      ParseEachError(init, parse);
      if ParseEach(init, parse).Err? {
        var i :| 0 <= i < |init| && parse(init[i]) == Err(ParseEach(init, parse).error);
        assert init[i] == tokens[i];
      }
    }
  }

  /** Every range token of a list, read in order (extract_pages line 85,
      delete_pages lines 145-146). */
  function ParseRanges(tokens: seq<string>): (r: Result<seq<PageRange>>)
    ensures r.Ok? ==> |r.value| == |tokens|
    ensures r.Err? ==> exists i :: 0 <= i < |tokens| && r.error == BadRangeToken(tokens[i])
  {
    ParseEachError(tokens, ParseRange);
    ParseEach(tokens, ParseRange)
  }

  /** The tokens a user types for a list of ranges: "a-b", "c-d", ... */
  function FormatRanges(ranges: seq<PageRange>): seq<string> {
    seq(|ranges|, i requires 0 <= i < |ranges| => FormatRange(ranges[i]))
  }

  /** The string a user types for a list of ranges: "a-b,c-d,...". */
  function TypeRanges(ranges: seq<PageRange>): string {
    Join(FormatRanges(ranges), ',')
  }

  /** A formatted range has no surrounding blanks and no comma. */
  lemma FormatRangeClean(pr: PageRange)
    ensures Trimmed(FormatRange(pr)) && ',' !in FormatRange(pr)
  {
    var a, b := NatToString(pr.start), NatToString(pr.end);
    var t := FormatRange(pr);
    assert t == a + "-" + b;
    assert t[0] == a[0] && t[|t| - 1] == b[|b| - 1];
    DigitNotSpace(a[0]);
    DigitNotSpace(b[|b| - 1]);
    assert forall j :: 0 <= j < |a| ==> a[j] != ',';
    assert forall j :: 0 <= j < |b| ==> b[j] != ',';
  }

  /** Formatted range tokens are read back one for one. */
  lemma ParseFormattedRanges(ranges: seq<PageRange>)
    requires forall i :: 0 <= i < |ranges| ==> WithinDigitLimit(ranges[i])
    ensures ParseRanges(FormatRanges(ranges)) == Ok(ranges)
  {
    var typed := FormatRanges(ranges);
    forall i | 0 <= i < |typed| ensures ParseRange(typed[i]) == Ok(ranges[i]) {
      ParseFormatRange(ranges[i]);
    }
    ParseEachAll(typed, ParseRange, ranges);
  }

  /** A range list typed as "a-b,c-d,..." is read back with its order and
      its numbers intact. */
  lemma ParseTypedRanges(ranges: seq<PageRange>)
    requires |ranges| >= 1
    requires forall i :: 0 <= i < |ranges| ==> WithinDigitLimit(ranges[i])
    ensures ParseRanges(ParsePageRanges(TypeRanges(ranges))) == Ok(ranges)
  {
    var typed := FormatRanges(ranges);
    forall i | 0 <= i < |typed| ensures Trimmed(typed[i]) && ',' !in typed[i] {
      FormatRangeClean(ranges[i]);
    }
    ParsePageRangesOfJoin(typed);
    ParseFormattedRanges(ranges);
  }
}
