/**
 * Price-pattern extraction of the tracker: `re.search(r'₹(\d+[\.,]\d+)', text)`,
 * then `group(1).replace(',', '')`, then `float(...)`.
 *
 * The regular expression is modelled twice: as a hand-written scanner
 * (DigitRunEnd, MatchAt, SearchFrom) and as a declarative statement of which
 * match a backtracking engine with greedy quantifiers reports (PatternAt,
 * GreedyAt, LeftmostGreedy). The lemmas prove that the two agree.
 */
module PricePattern {
  import opened Wrappers

  /** U+20B9 INDIAN RUPEE SIGN, the literal that starts the pattern. */
  const Rupee: char := '\U{20B9}'

  /** `\d`, restricted to the ASCII digits. */
  predicate IsDigit(c: char)
  {
    '0' <= c <= '9'
  }

  /** The character class `[\.,]`. */
  predicate IsSeparator(c: char)
  {
    c == '.' || c == ','
  }

  /** Every character of `s[a..b]` is a digit. */
  ghost predicate DigitsBetween(s: string, a: int, b: int)
  {
    0 <= a <= b <= |s| && forall m :: a <= m < b ==> IsDigit(s[m])
  }

  predicate AllDigits(s: string)
  {
    forall m :: 0 <= m < |s| ==> IsDigit(s[m])
  }

  // ---------------------------------------------------------------------------
  // What the regular expression means
  // ---------------------------------------------------------------------------

  /**
   * The pattern matches `s[i..k]`: a rupee sign at `i`, one or more digits,
   * exactly one separator at `j`, one or more digits up to `k`.
   */
  ghost predicate PatternAt(s: string, i: int, j: int, k: int)
  {
    0 <= i && i + 1 < j && j + 1 < k <= |s|
    && s[i] == Rupee
    && DigitsBetween(s, i + 1, j)
    && IsSeparator(s[j])
    && DigitsBetween(s, j + 1, k)
  }

  /**
   * Among the matches starting at `i`, the one a backtracking engine with
   * greedy quantifiers reports first: the longest first digit run, and for
   * it the longest second digit run.
   */
  ghost predicate GreedyAt(s: string, i: int, j: int, k: int)
  {
    PatternAt(s, i, j, k)
    && forall j', k' :: PatternAt(s, i, j', k') ==> j' < j || (j' == j && k' <= k)
  }

  /** No match of the pattern starts at any index in `[lo, hi)`. */
  ghost predicate NoMatchIn(s: string, lo: int, hi: int)
  {
    forall i, j, k :: lo <= i < hi ==> !PatternAt(s, i, j, k)
  }

  /** A match: start `start`, separator at `sep`, end (exclusive) `end`. */
  datatype Span = Span(start: nat, sep: nat, end: nat)

  /** What `re.search` reports: the greedy match at the leftmost start that has one. */
  ghost predicate LeftmostGreedy(s: string, sp: Span)
  {
    GreedyAt(s, sp.start, sp.sep, sp.end) && NoMatchIn(s, 0, sp.start)
  }

  // ---------------------------------------------------------------------------
  // The scanner
  // ---------------------------------------------------------------------------

  /** End of the longest run of digits that starts at `a`. */
  function DigitRunEnd(s: string, a: nat): (b: nat)
    requires a <= |s|
    ensures a <= b <= |s|
    ensures DigitsBetween(s, a, b)
    ensures b == |s| || !IsDigit(s[b])
    decreases |s| - a
  {
    if a < |s| && IsDigit(s[a]) then DigitRunEnd(s, a + 1) else a
  }

  /** Trying the pattern at one start position, each digit run taken greedily. */
  function MatchAt(s: string, i: nat): Option<Span>
    requires i <= |s|
  {
    if i < |s| && s[i] == Rupee then
      var j := DigitRunEnd(s, i + 1);
      if i + 1 < j && j < |s| && IsSeparator(s[j]) then
        var k := DigitRunEnd(s, j + 1);
        if j + 1 < k then Some(Span(i, j, k)) else None
      else None
    else None
  }

  /** Trying the start positions `i`, `i + 1`, ... in order; the first match wins. */
  function SearchFrom(s: string, i: nat): (r: Option<Span>)
    requires i <= |s|
    ensures r.Some? ==> i <= r.value.start < r.value.sep < r.value.end <= |s|
    decreases |s| - i
  {
    match MatchAt(s, i)
    case Some(sp) => Some(sp)
    case None => if i == |s| then None else SearchFrom(s, i + 1)
  }

  /** `re.search` of the price pattern. */
  function Search(s: string): (r: Option<Span>)
    ensures r.Some? ==> r.value.start < r.value.sep < r.value.end <= |s|
  {
    SearchFrom(s, 0)
  }

  /** Any run of digits from `a` ends at or before the longest one. */
  lemma DigitRunBound(s: string, a: nat, b: int)
    requires a <= |s| && DigitsBetween(s, a, b)
    ensures b <= DigitRunEnd(s, a)
  {
  }

  /** A run of digits followed by a non-digit is the longest one. */
  lemma DigitRunExact(s: string, a: nat, b: int)
    requires a <= |s| && DigitsBetween(s, a, b)
    requires b < |s| && !IsDigit(s[b])
    ensures b == DigitRunEnd(s, a)
  {
    DigitRunBound(s, a, b);
  }

  /** A match reported at `i` is the greedy match at `i`. */
  lemma MatchAtSound(s: string, i: nat)
    requires i <= |s| && MatchAt(s, i).Some?
    ensures MatchAt(s, i).value.start == i
    ensures GreedyAt(s, i, MatchAt(s, i).value.sep, MatchAt(s, i).value.end)
  {
    var sp := MatchAt(s, i).value;
    forall j', k' | PatternAt(s, i, j', k')
      ensures j' < sp.sep || (j' == sp.sep && k' <= sp.end)
    {
      DigitRunExact(s, i + 1, j');
      DigitRunBound(s, j' + 1, k');
    }
  }

  /** When nothing is reported at `i`, the pattern has no match starting at `i`. */
  lemma MatchAtComplete(s: string, i: nat)
    requires i <= |s| && MatchAt(s, i).None?
    ensures NoMatchIn(s, i, i + 1)
  {
    forall i', j, k | i <= i' < i + 1 && PatternAt(s, i', j, k)
      ensures false
    {
      DigitRunExact(s, i + 1, j);
      DigitRunBound(s, j + 1, k);
    }
  }

  /** The scan from `i` reports the greedy match at the first start from `i` that has one. */
  lemma {:induction false} SearchFromCorrect(s: string, i: nat)
    requires i <= |s|
    ensures SearchFrom(s, i).Some? ==>
      var sp := SearchFrom(s, i).value;
      GreedyAt(s, sp.start, sp.sep, sp.end) && NoMatchIn(s, i, sp.start)
    ensures SearchFrom(s, i).None? ==> NoMatchIn(s, i, |s| + 1)
    decreases |s| - i
  {
    if MatchAt(s, i).Some? {
      MatchAtSound(s, i);
    } else {
      MatchAtComplete(s, i);
      if i < |s| {
        SearchFromCorrect(s, i + 1);
      }
    }
  }

  /** There is at most one leftmost greedy match. */
  lemma LeftmostGreedyUnique(s: string, a: Span, b: Span)
    requires LeftmostGreedy(s, a) && LeftmostGreedy(s, b)
    ensures a == b
  {
  }

  /**
   * Search is `re.search`: it reports exactly the leftmost greedy match, and
   * reports nothing exactly when the pattern matches nowhere.
   */
  lemma SearchIsLeftmostGreedy(s: string, sp: Span)
    ensures Search(s) == Some(sp) <==> LeftmostGreedy(s, sp)
    ensures Search(s).None? <==> NoMatchIn(s, 0, |s| + 1)
  {
    SearchFromCorrect(s, 0);
    if Search(s).Some? {
      assert LeftmostGreedy(s, Search(s).value);
      if LeftmostGreedy(s, sp) {
        LeftmostGreedyUnique(s, sp, Search(s).value);
      }
      var w := Search(s).value;
      assert PatternAt(s, w.start, w.sep, w.end);
    }
  }

  // ---------------------------------------------------------------------------
  // Group 1, comma stripping and float()
  // ---------------------------------------------------------------------------

  /** `str.replace(',', '')`. */
  function StripCommas(t: string): (r: string)
    ensures forall c :: c in r <==> c in t && c != ','
    ensures |r| <= |t|
  {
    if t == [] then []
    else if t[0] == ',' then StripCommas(t[1..])
    else [t[0]] + StripCommas(t[1..])
  }

  /** The value of a decimal digit; no other character reaches it. */
  function DigitValue(c: char): nat
  {
    if IsDigit(c) then c as int - '0' as int else 0
  }

  /** The number a string of decimal digits denotes. */
  function DigitsValue(ds: string): nat
  {
    if ds == [] then 0
    else DigitsValue(ds[..|ds| - 1]) * 10 + DigitValue(ds[|ds| - 1])
  }

  function Pow10(n: nat): nat
  {
    if n == 0 then 1 else 10 * Pow10(n - 1)
  }

  /** Index of the first `.` in `t`, or `|t|` when there is none. */
  function DotIndex(t: string): (p: nat)
    ensures p <= |t|
    ensures p < |t| ==> t[p] == '.'
    ensures forall m :: 0 <= m < p ==> t[m] != '.'
  {
    if t == [] then 0
    else if t[0] == '.' then 0
    else 1 + DotIndex(t[1..])
  }

  /** `x / 10^places`, one division by ten at a time. */
  function Shift(x: real, places: nat): (r: real)
    ensures x >= 0.0 ==> r >= 0.0
  {
    if places == 0 then x else Shift(x, places - 1) / 10.0
  }

  /**
   * `float(t)` on the plain decimal literals: digits, optionally a `.` and
   * more digits, at least one digit in all. The value is the number the
   * digits spell with the point left out, shifted right by the number of
   * digits after the point. None stands for the ValueError float raises.
   */
  function ParseFloat(t: string): Option<real>
  {
    var p := DotIndex(t);
    var whole := t[..p];
    var frac := if p < |t| then t[p + 1..] else "";
    if |whole| + |frac| > 0 && AllDigits(whole) && AllDigits(frac) then
      Some(Shift(DigitsValue(whole + frac) as real, |frac|))
    else None
  }

  lemma AllDigitsAppend(a: string, b: string)
    requires AllDigits(a) && AllDigits(b)
    ensures AllDigits(a + b)
  {
    forall m | 0 <= m < |a + b| ensures IsDigit((a + b)[m]) {
      if m < |a| { assert (a + b)[m] == a[m]; } else { assert (a + b)[m] == b[m - |a|]; }
    }
  }

  lemma AllDigitsSlice(a: string, lo: nat, hi: nat)
    requires AllDigits(a) && lo <= hi <= |a|
    ensures AllDigits(a[lo..hi])
  {
    forall m | 0 <= m < hi - lo ensures IsDigit(a[lo..hi][m]) { assert a[lo..hi][m] == a[lo + m]; }
  }

  /** Writing digits `b` after digits `a` multiplies `a`'s value by a power of ten. */
  lemma {:induction false} DigitsValueAppend(a: string, b: string)
    requires AllDigits(a) && AllDigits(b)
    ensures AllDigits(a + b)
    ensures DigitsValue(a + b) == DigitsValue(a) * Pow10(|b|) + DigitsValue(b)
    decreases |b|
  {
    AllDigitsAppend(a, b);
    if b == [] {
      assert a + b == a;
    } else {
      var ab := a + b;
      var b' := b[..|b| - 1];
      AllDigitsSlice(b, 0, |b| - 1);
      DigitsValueAppend(a, b');
      assert ab[..|ab| - 1] == a + b';
      var d := DigitValue(b[|b| - 1]);
      assert ab[|ab| - 1] == b[|b| - 1];
      assert DigitsValue(ab) == DigitsValue(a + b') * 10 + d;
      assert DigitsValue(b) == DigitsValue(b') * 10 + d;
      ShiftDigit(DigitsValue(a), Pow10(|b'|), DigitsValue(b'), d);
    }
  }

  lemma ShiftDigit(x: int, p: int, y: int, d: int)
    ensures (x * p + y) * 10 + d == x * (p * 10) + (y * 10 + d)
  {
  }

  /** float() of a digit string is the number it denotes. */
  lemma ParseFloatDigits(a: string)
    requires AllDigits(a) && |a| > 0
    ensures ParseFloat(a) == Some(DigitsValue(a) as real)
  {
    assert '.' !in a by {
      forall m | 0 <= m < |a| ensures a[m] != '.' { assert IsDigit(a[m]); }
    }
    assert DotIndex(a) == |a|;
    assert a[..|a|] == a && a + "" == a;
  }

  /** float() of `a.b`, with digit strings `a` and `b`, is the number `ab` over `10^|b|`. */
  lemma ParseFloatFraction(a: string, b: string)
    requires AllDigits(a) && AllDigits(b) && |a| + |b| > 0
    ensures AllDigits(a + b)
    ensures ParseFloat(a + "." + b) == Some(Shift(DigitsValue(a + b) as real, |b|))
  {
    AllDigitsAppend(a, b);
    var t := a + "." + b;
    assert t[|a|] == '.';
    assert forall m :: 0 <= m < |a| ==> t[m] == a[m];
    assert DotIndex(t) == |a|;
    assert t[..|a|] == a;
    assert t[|a| + 1..] == b;
  }

  /**
   * The number the group `whole`, `sep`, `frac` denotes once its commas are
   * dropped: the digits of both runs read as one number, which a `.`
   * separator divides by ten for each digit after it.
   */
  function GroupDigitsValue(whole: string, sep: char, frac: string): real
  {
    var n := DigitsValue(whole + frac) as real;
    if sep == ',' then n else Shift(n, |frac|)
  }

  /**
   * A group with a thousands comma denotes its first run scaled by a power
   * of ten per digit of the second, plus the second.
   */
  lemma CommaGroupValue(whole: string, frac: string)
    requires AllDigits(whole) && AllDigits(frac)
    ensures GroupDigitsValue(whole, ',', frac) == (DigitsValue(whole) * Pow10(|frac|) + DigitsValue(frac)) as real
  {
    DigitsValueAppend(whole, frac);
  }

  /** The value the captured group of a match denotes. */
  ghost function GroupValue(s: string, sp: Span): real
    requires PatternAt(s, sp.start, sp.sep, sp.end)
  {
    GroupDigitsValue(s[sp.start + 1..sp.sep], s[sp.sep], s[sp.sep + 1..sp.end])
  }

  /** What the extraction yields from an element's text. */
  datatype PriceScan =
    | NoMatch            // `re.search` returned None
    | Parsed(price: real)
    | Unparseable        // float() would raise ValueError

  /** The extraction, as the tracker performs it on an element's text. */
  function ExtractPrice(text: string): PriceScan
  {
    match Search(text)
    case None => NoMatch
    case Some(sp) =>
      match ParseFloat(StripCommas(text[sp.start + 1..sp.end]))
      case None => Unparseable
      case Some(v) => Parsed(v)
  }

  lemma StripCommasAppend(a: string, b: string)
    ensures StripCommas(a + b) == StripCommas(a) + StripCommas(b)
  {
    if a == [] {
      assert a + b == b;
    } else {
      assert (a + b)[1..] == a[1..] + b;
      StripCommasAppend(a[1..], b);
    }
  }

  /** On one character, `replace(',', '')` deletes a comma and keeps anything else. */
  lemma StripCommasChar(c: char)
    ensures StripCommas([c]) == if c == ',' then [] else [c]
  {
    assert [c][1..] == [];
  }

  lemma StripCommasNoComma(a: string)
    requires ',' !in a
    ensures StripCommas(a) == a
  {
    if a != [] {
      StripCommasNoComma(a[1..]);
    }
  }

  lemma DigitsBetweenSlice(s: string, a: int, b: int)
    requires DigitsBetween(s, a, b)
    ensures AllDigits(s[a..b])
  {
    forall m | 0 <= m < b - a ensures IsDigit(s[a..b][m]) { assert s[a..b][m] == s[a + m]; }
  }

  lemma NoCommaInDigits(a: string)
    requires AllDigits(a)
    ensures ',' !in a
  {
    forall m | 0 <= m < |a| ensures a[m] != ',' { assert IsDigit(a[m]); }
  }

  /** Dropping the commas of a group: a `,` separator vanishes, a `.` stays. */
  lemma StripGroup(whole: string, sep: char, frac: string)
    requires AllDigits(whole) && IsSeparator(sep) && AllDigits(frac)
    ensures StripCommas(whole + [sep] + frac) == if sep == ',' then whole + frac else whole + "." + frac
  {
    NoCommaInDigits(whole);
    NoCommaInDigits(frac);
    StripCommasNoComma(whole);
    StripCommasNoComma(frac);
    StripCommasAppend(whole + [sep], frac);
    StripCommasAppend(whole, [sep]);
    var s := StripCommas([sep]);
    StripCommasChar(sep);
    calc {
      StripCommas(whole + [sep] + frac);
      StripCommas(whole + [sep]) + StripCommas(frac);
      whole + s + frac;
    }
    if sep == ',' {
      assert whole + s + frac == whole + frac;
    } else {
      assert whole + s + frac == whole + "." + frac;
    }
  }

  /** A group with a `,`: dropping it leaves one digit string, read as an integer. */
  lemma ParseCommaGroup(whole: string, frac: string)
    requires AllDigits(whole) && AllDigits(frac) && |whole| > 0
    ensures ParseFloat(StripCommas(whole + [','] + frac)) == Some(GroupDigitsValue(whole, ',', frac))
  {
    StripGroup(whole, ',', frac);
    AllDigitsAppend(whole, frac);
    ParseFloatDigits(whole + frac);
  }

  /** A group with a `.`: it stays, and float() reads a fraction. */
  lemma ParseDotGroup(whole: string, frac: string)
    requires AllDigits(whole) && AllDigits(frac) && |whole| > 0
    ensures ParseFloat(StripCommas(whole + ['.'] + frac)) == Some(GroupDigitsValue(whole, '.', frac))
  {
    StripGroup(whole, '.', frac);
    ParseFloatFraction(whole, frac);
  }

  /** A group, commas dropped, is a literal float() accepts, denoting GroupDigitsValue. */
  lemma ParseGroup(g: string, whole: string, sep: char, frac: string)
    requires AllDigits(whole) && IsSeparator(sep) && AllDigits(frac) && |whole| > 0
    requires g == whole + [sep] + frac
    ensures ParseFloat(StripCommas(g)) == Some(GroupDigitsValue(whole, sep, frac))
  {
    if sep == ',' {
      ParseCommaGroup(whole, frac);
    } else {
      ParseDotGroup(whole, frac);
    }
  }

  /** The captured group is its digit run, the separator, and its second digit run. */
  lemma GroupSlices(text: string, sp: Span)
    requires PatternAt(text, sp.start, sp.sep, sp.end)
    ensures text[sp.start + 1..sp.end] == text[sp.start + 1..sp.sep] + [text[sp.sep]] + text[sp.sep + 1..sp.end]
  {
    assert text[sp.start + 1..sp.end] == text[sp.start + 1..sp.sep] + text[sp.sep..sp.end];
    assert text[sp.sep..sp.end] == [text[sp.sep]] + text[sp.sep + 1..sp.end];
  }

  lemma GroupValueOfSlices(text: string, sp: Span)
    requires PatternAt(text, sp.start, sp.sep, sp.end)
    ensures GroupValue(text, sp) == GroupDigitsValue(text[sp.start + 1..sp.sep], text[sp.sep], text[sp.sep + 1..sp.end])
  {
  }

  /** The group of a match, commas dropped, is a literal float() accepts, denoting GroupValue. */
  lemma GroupParses(text: string, sp: Span)
    requires PatternAt(text, sp.start, sp.sep, sp.end)
    ensures ParseFloat(StripCommas(text[sp.start + 1..sp.end])) == Some(GroupValue(text, sp))
  {
    DigitsBetweenSlice(text, sp.start + 1, sp.sep);
    DigitsBetweenSlice(text, sp.sep + 1, sp.end);
    GroupSlices(text, sp);
    ParseGroup(text[sp.start + 1..sp.end], text[sp.start + 1..sp.sep], text[sp.sep], text[sp.sep + 1..sp.end]);
    GroupValueOfSlices(text, sp);
  }

  /**
   * The extraction never reaches the float() error: the stripped group is
   * digits and at most one `.`, and it denotes the group's value.
   */
  lemma ExtractPriceOfMatch(text: string, sp: Span)
    requires Search(text) == Some(sp)
    ensures GreedyAt(text, sp.start, sp.sep, sp.end)
    ensures ExtractPrice(text) == Parsed(GroupValue(text, sp))
    ensures GroupValue(text, sp) >= 0.0
  {
    SearchIsLeftmostGreedy(text, sp);
    GroupParses(text, sp);
  }

  /**
   * What float() is given: the capture with its commas dropped is made of
   * digits and holds at most one `.`.
   */
  lemma StrippedCaptureShape(text: string, sp: Span)
    requires Search(text) == Some(sp)
    ensures var t := StripCommas(text[sp.start + 1..sp.end]);
      |t| > 0
      && (forall m :: 0 <= m < |t| ==> IsDigit(t[m]) || t[m] == '.')
      && (forall m, n :: 0 <= m < n < |t| && t[m] == '.' ==> t[n] != '.')
  {
    SearchIsLeftmostGreedy(text, sp);
    var whole := text[sp.start + 1..sp.sep];
    var frac := text[sp.sep + 1..sp.end];
    DigitsBetweenSlice(text, sp.start + 1, sp.sep);
    DigitsBetweenSlice(text, sp.sep + 1, sp.end);
    GroupSlices(text, sp);
    StripGroup(whole, text[sp.sep], frac);
    var t := StripCommas(text[sp.start + 1..sp.end]);
    if text[sp.sep] == ',' {
      AllDigitsAppend(whole, frac);
    } else {
      assert t == whole + "." + frac;
      forall m | 0 <= m < |t|
        ensures IsDigit(t[m]) || t[m] == '.'
        ensures t[m] == '.' ==> m == |whole|
      {
        if m < |whole| { assert t[m] == whole[m]; }
        else if m > |whole| { assert t[m] == frac[m - |whole| - 1]; }
      }
    }
  }

  /** The three things the extraction can report, in terms of the pattern alone. */
  lemma ExtractPriceSpec(text: string)
    ensures ExtractPrice(text) != Unparseable
    ensures ExtractPrice(text) == NoMatch <==> NoMatchIn(text, 0, |text| + 1)
    ensures ExtractPrice(text).Parsed? ==> ExtractPrice(text).price >= 0.0
  {
    var sp := Span(0, 0, 0);
    SearchIsLeftmostGreedy(text, sp);
    if Search(text).Some? {
      ExtractPriceOfMatch(text, Search(text).value);
    }
  }

  /** The price extracted from a text whose search reports `sp`, in terms of the group's parts. */
  lemma PriceOfGroup(text: string, sp: Span, whole: string, sep: char, frac: string)
    requires Search(text) == Some(sp)
    requires text[sp.start + 1..sp.sep] == whole && text[sp.sep] == sep && text[sp.sep + 1..sp.end] == frac
    ensures ExtractPrice(text) == Parsed(GroupDigitsValue(whole, sep, frac))
  {
    ExtractPriceOfMatch(text, sp);
    GroupValueOfSlices(text, sp);
  }

  lemma SearchThousands()
    ensures Search([Rupee] + "1,234.56") == Some(Span(0, 2, 6))
  {
    var s := [Rupee] + "1,234.56";
    assert s[0] == Rupee && s[1] == '1' && s[2] == ',' && s[3] == '2' && s[4] == '3' && s[5] == '4' && s[6] == '.';
    DigitRunExact(s, 1, 2);
    DigitRunExact(s, 3, 6);
    assert MatchAt(s, 0) == Some(Span(0, 2, 6));
  }

  /** The group stops at the first separator: "₹1,234.56" yields 1234, not 1234.56. */
  lemma ThousandsAndDecimals()
    ensures ExtractPrice([Rupee] + "1,234.56") == Parsed(1234.0)
  {
    var s := [Rupee] + "1,234.56";
    SearchThousands();
    assert s[1..2] == "1" && s[2] == ',' && s[3..6] == "234";
    PriceOfGroup(s, Span(0, 2, 6), "1", ',', "234");
    assert "1" + "234" == "1234";
    DigitsOf1234();
  }

  lemma DigitsOf1234()
    ensures DigitsValue("1234") == 1234
  {
    assert "1234"[..3] == "123" && "123"[..2] == "12" && "12"[..1] == "1" && "1"[..0] == "";
  }
}
