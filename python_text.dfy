/** The few Python string operations the toolkit relies on: str.split with an
    explicit separator, str.strip() without arguments, str(n) and int(s) on
    non-negative decimal numbers. */
module PyText {
  import opened Outcomes

  /** The characters Python's str.isspace() accepts, which str.strip() removes. */
  const Whitespace: set<char> := {
    '\t', '\n', '\U{0B}', '\U{0C}', '\r', '\U{1C}', '\U{1D}', '\U{1E}', '\U{1F}', ' ',
    '\U{85}', '\U{A0}', '\U{1680}', '\U{2000}', '\U{2001}', '\U{2002}', '\U{2003}',
    '\U{2004}', '\U{2005}', '\U{2006}', '\U{2007}', '\U{2008}', '\U{2009}', '\U{200A}',
    '\U{2028}', '\U{2029}', '\U{202F}', '\U{205F}', '\U{3000}'
  }

  /** The whitespace int() skips around a numeral. CPython reads every
      non-ASCII whitespace character as a space and then skips only ASCII tab,
      newline, vertical tab, form feed, carriage return and space; the four
      ASCII separators U+001C..U+001F, which str.isspace() accepts, are
      invalid characters to int(). */
  const IntWhitespace: set<char> := Whitespace - {'\U{1C}', '\U{1D}', '\U{1E}', '\U{1F}'}

  /** Every character of s is in ws. */
  predicate AllIn(s: string, ws: set<char>) {
    forall i :: 0 <= i < |s| ==> s[i] in ws
  }

  /** A string with no character of ws at either end. */
  predicate TrimmedBy(s: string, ws: set<char>) {
    s == [] || (s[0] !in ws && s[|s| - 1] !in ws)
  }

  /** A string with no whitespace at either end. */
  predicate Trimmed(s: string) {
    TrimmedBy(s, Whitespace)
  }

  predicate AllSpace(s: string) {
    AllIn(s, Whitespace)
  }

  // ---------------------------------------------------------------- split

  /** s.split(sep): the pieces between occurrences of sep, empty pieces kept. */
  function Split(s: string, sep: char): (parts: seq<string>)
    ensures |parts| >= 1
    decreases |s|
  {
    if s == [] then [[]]
    else
      var rest := Split(s[1..], sep);
      if s[0] == sep then [[]] + rest
      else [[s[0]] + rest[0]] + rest[1..]
  }

  /** One more piece than there are separators, and no piece holds one. */
  lemma {:induction false} SplitCount(s: string, sep: char)
    ensures |Split(s, sep)| == multiset(s)[sep] + 1
    ensures forall i :: 0 <= i < |Split(s, sep)| ==> sep !in Split(s, sep)[i]
    decreases |s|
  {
    if s != [] {
      SplitCount(s[1..], sep);
      assert s == [s[0]] + s[1..];
    }
  }

  /** sep.join(parts). */
  function Join(parts: seq<string>, sep: char): string {
    if parts == [] then []
    else if |parts| == 1 then parts[0]
    else parts[0] + [sep] + Join(parts[1..], sep)
  }

  /** Splitting loses nothing: joining the pieces gives the input back. */
  lemma {:induction false} JoinSplit(s: string, sep: char)
    ensures Join(Split(s, sep), sep) == s
    decreases |s|
  {
    if s != [] {
      var rest := Split(s[1..], sep);
      var parts := Split(s, sep);
      JoinSplit(s[1..], sep);
      assert Join(rest, sep) == s[1..];
      if s[0] == sep {
        assert parts == [[]] + rest;
        assert parts[1..] == rest;
        assert Join(parts, sep) == [] + [sep] + Join(rest, sep);
      } else if |rest| == 1 {
        assert parts == [[s[0]] + rest[0]];
        assert Join(parts, sep) == [s[0]] + rest[0];
      } else {
        assert parts == [[s[0]] + rest[0]] + rest[1..];
        assert parts[1..] == rest[1..];
        assert Join(rest, sep) == rest[0] + [sep] + Join(rest[1..], sep);
        assert Join(parts, sep) == [s[0]] + rest[0] + [sep] + Join(rest[1..], sep);
      }
      assert [s[0]] + s[1..] == s;
    }
  }

  lemma {:induction false} SplitWithout(a: string, sep: char)
    requires sep !in a
    ensures Split(a, sep) == [a]
    decreases |a|
  {
    if a != [] {
      assert sep !in a[1..];
      SplitWithout(a[1..], sep);
      assert a[0] != sep;
      assert [a[0]] + a[1..] == a;
    }
  }

  lemma {:induction false} SplitAt(a: string, sep: char, t: string)
    requires sep !in a
    ensures Split(a + [sep] + t, sep) == [a] + Split(t, sep)
    decreases |a|
  {
    if a == [] {
      assert a + [sep] + t == [sep] + t;
      assert ([sep] + t)[1..] == t;
    } else {
      assert (a + [sep] + t)[1..] == a[1..] + [sep] + t;
      SplitAt(a[1..], sep, t);
      assert [a[0]] + a[1..] == a;
    }
  }

  /** Splitting a join of separator-free pieces gives the pieces back. */
  lemma {:induction false} SplitJoin(parts: seq<string>, sep: char)
    requires |parts| >= 1
    requires forall i :: 0 <= i < |parts| ==> sep !in parts[i]
    ensures Split(Join(parts, sep), sep) == parts
    decreases |parts|
  {
    if |parts| == 1 {
      SplitWithout(parts[0], sep);
    } else {
      SplitJoin(parts[1..], sep);
      SplitAt(parts[0], sep, Join(parts[1..], sep));
    }
  }

  // ---------------------------------------------------------------- strip

  /** How many characters of ws s starts with (what lstrip(ws) drops). */
  function LeadingSpace(s: string, ws: set<char>): (k: nat)
    ensures k <= |s|
    decreases |s|
  {
    if s != [] && s[0] in ws then 1 + LeadingSpace(s[1..], ws) else 0
  }

  /** How many characters of ws s ends with (what rstrip(ws) drops). */
  function TrailingSpace(s: string, ws: set<char>): (k: nat)
    ensures k <= |s|
    decreases |s|
  {
    if s != [] && s[|s| - 1] in ws then 1 + TrailingSpace(s[..|s| - 1], ws) else 0
  }

  /** The counted prefix is all in ws and is followed by a character outside it. */
  lemma {:induction false} LeadingSpaceSpan(s: string, ws: set<char>)
    ensures AllIn(s[..LeadingSpace(s, ws)], ws)
    ensures LeadingSpace(s, ws) == |s| || s[LeadingSpace(s, ws)] !in ws
    decreases |s|
  {
    if s != [] && s[0] in ws {
      LeadingSpaceSpan(s[1..], ws);
      assert s[..LeadingSpace(s, ws)] == [s[0]] + s[1..][..LeadingSpace(s[1..], ws)];
    }
  }

  /** The counted suffix is all in ws and is preceded by a character outside it. */
  lemma {:induction false} TrailingSpaceSpan(s: string, ws: set<char>)
    ensures AllIn(s[|s| - TrailingSpace(s, ws)..], ws)
    ensures TrailingSpace(s, ws) == |s| || s[|s| - TrailingSpace(s, ws) - 1] !in ws
    decreases |s|
  {
    if s != [] && s[|s| - 1] in ws {
      var init := s[..|s| - 1];
      TrailingSpaceSpan(init, ws);
      var k := TrailingSpace(init, ws);
      assert TrailingSpace(s, ws) == k + 1;
      assert s[|s| - (k + 1)..] == init[|init| - k..] + [s[|s| - 1]];
    }
  }

  /** s.strip(chars) for the characters ws: s without its leading and
      trailing characters of ws. */
  function StripChars(s: string, ws: set<char>): (r: string)
    ensures |r| <= |s|
  {
    var t := s[LeadingSpace(s, ws)..];
    t[..|t| - TrailingSpace(t, ws)]
  }

  /** s.strip(): s without its leading and trailing whitespace. */
  function Strip(s: string): (r: string)
    ensures |r| <= |s|
  {
    StripChars(s, Whitespace)
  }

  /** Nothing strip(ws) returns starts or ends with a character of ws. */
  lemma StripIsTrimmed(s: string, ws: set<char>)
    ensures TrimmedBy(StripChars(s, ws), ws)
  {
    var t := s[LeadingSpace(s, ws)..];
    LeadingSpaceSpan(s, ws);
    TrailingSpaceSpan(t, ws);
    var r := t[..|t| - TrailingSpace(t, ws)];
    if r != [] {
      assert r[0] == s[LeadingSpace(s, ws)];
      assert r[|r| - 1] == t[|t| - TrailingSpace(t, ws) - 1];
    }
  }

  /** Stripping only removes characters. */
  lemma StripWithin(s: string, ws: set<char>, c: char)
    requires c !in s
    ensures c !in StripChars(s, ws)
  {
    var t := s[LeadingSpace(s, ws)..];
    assert forall i :: 0 <= i < |t| ==> t[i] == s[LeadingSpace(s, ws) + i];
  }

  lemma {:induction false} LeadingSpacePadded(lead: string, rest: string, ws: set<char>)
    requires AllIn(lead, ws)
    requires rest == [] || rest[0] !in ws
    ensures LeadingSpace(lead + rest, ws) == |lead|
    decreases |lead|
  {
    if lead != [] {
      assert (lead + rest)[1..] == lead[1..] + rest;
      LeadingSpacePadded(lead[1..], rest, ws);
    } else {
      assert lead + rest == rest;
    }
  }

  lemma {:induction false} TrailingSpacePadded(rest: string, trail: string, ws: set<char>)
    requires AllIn(trail, ws)
    requires rest == [] || rest[|rest| - 1] !in ws
    ensures TrailingSpace(rest + trail, ws) == |trail|
    decreases |trail|
  {
    if trail != [] {
      var s := rest + trail;
      assert s[..|s| - 1] == rest + trail[..|trail| - 1];
      TrailingSpacePadded(rest, trail[..|trail| - 1], ws);
    } else {
      assert rest + trail == rest;
    }
  }

  /** strip(ws) removes exactly the surrounding characters of ws, and nothing
      of a core trimmed of them. */
  lemma StripPadded(lead: string, core: string, trail: string, ws: set<char>)
    requires AllIn(lead, ws) && AllIn(trail, ws) && TrimmedBy(core, ws)
    ensures StripChars(lead + core + trail, ws) == core
  {
    var s := lead + core + trail;
    if core == [] {
      assert s == (lead + trail) + [];
      LeadingSpacePadded(lead + trail, [], ws);
    } else {
      assert s == lead + (core + trail);
      LeadingSpacePadded(lead, core + trail, ws);
      assert s[|lead|..] == core + trail;
      TrailingSpacePadded(core, trail, ws);
      assert (core + trail)[..|core|] == core;
    }
  }

  /** outer is inner with whitespace around it. */
  ghost predicate Surrounds(outer: string, inner: string) {
    exists lead, trail :: AllSpace(lead) && AllSpace(trail) && outer == lead + inner + trail
  }

  /** The whitespace strip() removes from each end of s. */
  lemma StripMargins(s: string) returns (lead: string, trail: string)
    ensures AllSpace(lead) && AllSpace(trail)
    ensures s == lead + Strip(s) + trail
  {
    var a := LeadingSpace(s, Whitespace);
    var t := s[a..];
    var b := |t| - TrailingSpace(t, Whitespace);
    lead, trail := s[..a], t[b..];
    LeadingSpaceSpan(s, Whitespace);
    TrailingSpaceSpan(t, Whitespace);
    assert Strip(s) == t[..b];
    CutThree(s, a, b);
  }

  /** Cutting s at a, and its rest at b, gives three pieces that rejoin to s. */
  lemma CutThree(s: string, a: nat, b: nat)
    requires a <= |s| && b <= |s| - a
    ensures s == s[..a] + s[a..][..b] + s[a..][b..]
  {
    var t := s[a..];
    assert t[..b] + t[b..] == t;
    assert s[..a] + t == s;
  }

  /** strip() removes nothing but the whitespace around its result. */
  lemma StripSurrounded(s: string)
    ensures Surrounds(s, Strip(s))
  {
    var lead, trail := StripMargins(s);
  }

  /** A string with nothing of ws to strip is returned unchanged. */
  lemma StripTrimmed(s: string, ws: set<char>)
    requires TrimmedBy(s, ws)
    ensures StripChars(s, ws) == s
  {
    StripPadded([], s, [], ws);
    assert [] + s + [] == s;
  }

  // ---------------------------------------------------------------- numbers

  predicate IsDigit(c: char) { '0' <= c <= '9' }

  predicate AllDigits(s: string) {
    forall i :: 0 <= i < |s| ==> IsDigit(s[i])
  }

  /** The value of s read as decimal digits, most significant first, or None
      when some character of s is not a digit. */
  function ParseDigits(s: string): Option<nat> {
    if s == [] then Some(0)
    else match ParseDigits(s[..|s| - 1])
      case None => None
      case Some(v) =>
        if IsDigit(s[|s| - 1]) then Some(10 * v + (s[|s| - 1] as int - '0' as int)) else None
  }

  lemma DigitNotSpace(c: char)
    requires IsDigit(c)
    ensures c !in Whitespace && c !in IntWhitespace
  {
  }

  function DigitChar(d: nat): (c: char)
    requires d < 10
    ensures IsDigit(c) && c as int - '0' as int == d
  {
    (d + '0' as int) as char
  }

  /** str(n) for n >= 0: the canonical decimal numeral, without leading zeros. */
  function NatToString(n: nat): (s: string)
    ensures s != [] && AllDigits(s)
    ensures ParseDigits(s) == Some(n)
    ensures s[0] == '0' <==> n == 0
  {
    if n < 10 then [DigitChar(n)]
    else
      var s := NatToString(n / 10) + [DigitChar(n % 10)];
      assert s[..|s| - 1] == NatToString(n / 10);
      s
  }

  /** The longest decimal numeral int() converts under Python's default
      integer string conversion limit (sys.int_info.default_max_str_digits);
      leading zeros count toward it. */
  const MaxStrDigits: nat := 4300

  /** int(s) on a piece of a range token, which never holds a '-': the
      whitespace int() skips around the numeral is ignored, an optional '+'
      sign is allowed, and then one to MaxStrDigits decimal digits must follow;
      anything else is a ValueError (None). */
  function ParseInt(s: string): (r: Option<nat>)
    ensures r.Some? ==> StripChars(s, IntWhitespace) != []
    ensures r.Some? ==> IsDigit(StripChars(s, IntWhitespace)[|StripChars(s, IntWhitespace)| - 1])
    ensures r.Some? ==> |StripChars(s, IntWhitespace)| <= MaxStrDigits + 1
  {
    var t := StripChars(s, IntWhitespace);
    var digits := if t != [] && t[0] == '+' then t[1..] else t;
    if digits == [] || |digits| > MaxStrDigits then None else ParseDigits(digits)
  }

  /** int(str(n)) == n whenever str(n) is within the conversion limit. */
  lemma ParseIntOfNatToString(n: nat)
    requires |NatToString(n)| <= MaxStrDigits
    ensures ParseInt(NatToString(n)) == Some(n)
  {
    var s := NatToString(n);
    DigitNotSpace(s[0]);
    DigitNotSpace(s[|s| - 1]);
    StripTrimmed(s, IntWhitespace);
  }

  /** A numeral longer than the conversion limit is a ValueError. */
  lemma ParseIntTooLong(s: string)
    requires AllDigits(s) && |s| > MaxStrDigits
    ensures ParseInt(s) == None
  {
    DigitNotSpace(s[0]);
    DigitNotSpace(s[|s| - 1]);
    StripTrimmed(s, IntWhitespace);
  }

  /** A blank piece (the side of "-5" or "3-") is not a number, whichever
      str.isspace() characters it holds. */
  lemma ParseIntBlank(s: string)
    requires AllSpace(s)
    ensures ParseInt(s) == None
  {
    var a := LeadingSpace(s, IntWhitespace);
    var t := StripChars(s, IntWhitespace);
    if t != [] {
      assert t[0] == s[a] && t[|t| - 1] == s[a + |t| - 1];
      assert !IsDigit(t[|t| - 1]);
    }
  }

  /** int() rejects a numeral followed by a separator character U+001C..U+001F,
      although strip() would remove that character. */
  lemma ParseIntSeparator(digits: string, c: char)
    requires digits != [] && AllDigits(digits)
    requires c in Whitespace - IntWhitespace
    ensures Strip(digits + [c]) == digits
    ensures ParseInt(digits + [c]) == None
  {
    DigitNotSpace(digits[0]);
    DigitNotSpace(digits[|digits| - 1]);
    StripPadded([], digits, [c], Whitespace);
    assert [] + digits + [c] == digits + [c];
    var s := digits + [c];
    assert s[0] == digits[0];
    StripTrimmed(s, IntWhitespace);
  }

  /** str is injective, so numbered names never collide. */
  lemma NatToStringInjective(m: nat, n: nat)
    ensures NatToString(m) == NatToString(n) ==> m == n
  {
  }
}
