/**
 The quote extractor of the portfolio tracker (app.py, lines 116-124).

 The page text is searched left to right for the first substring matching
 the pattern  [+-]?[0-9]+\.[0-9]+(?=%) : an optional sign, one or more
 digits, a decimal point, one or more digits, followed by a percent sign
 that is required but not part of the match.  The match is returned as a
 signed decimal; when there is none, or when the page could not be
 fetched, the return is 0.0.

 The pattern is described by the datatype Quote (what a match looks like)
 and the predicate QuoteAt (a match occurs at a position).  The scanner
 ScanAt/Search finds matches by plain index arithmetic and is proved sound
 and complete against QuoteAt.
 */
module QuoteExtractor {
  import opened Wrappers

  predicate IsDigit(c: char) { '0' <= c <= '9' }

  predicate IsSign(c: char) { c == '+' || c == '-' }

  /** The pattern [0-9]+ */
  predicate IsNumber(t: string) {
    |t| > 0 && forall k :: 0 <= k < |t| ==> IsDigit(t[k])
  }

  datatype Sign = Unsigned | Plus | Minus

  function SignText(sign: Sign): string {
    match sign
    case Unsigned => ""
    case Plus => "+"
    case Minus => "-"
  }

  function Pow10(n: nat): (r: nat)
    ensures r >= 1
  {
    if n == 0 then 1 else 10 * Pow10(n - 1)
  }

  function DigitValue(c: char): (d: nat)
    requires IsDigit(c)
    ensures d < 10
  {
    (c as int) - ('0' as int)
  }

  /** The value of a string of decimal digits, most significant first. */
  function NumberValue(t: string): nat
    requires forall k :: 0 <= k < |t| ==> IsDigit(t[k])
  {
    if |t| == 0 then 0 else 10 * NumberValue(t[..|t| - 1]) + DigitValue(t[|t| - 1])
  }

  /** A string of n digits denotes less than 10^n. */
  lemma {:induction false} NumberValueBound(t: string)
    requires forall k :: 0 <= k < |t| ==> IsDigit(t[k])
    ensures NumberValue(t) < Pow10(|t|)
  {
    if |t| > 0 {
      NumberValueBound(t[..|t| - 1]);
    }
  }

  /** A signed decimal as the pattern sees it: sign, integer digits and
      fraction digits, in the text they were written in. */
  datatype Quote = Quote(sign: Sign, whole: string, frac: string) {

    /** Both digit groups are non-empty strings of digits. */
    predicate Valid() {
      IsNumber(whole) && IsNumber(frac)
    }

    /** The text of the quote, without the trailing percent sign. */
    function Text(): string {
      SignText(sign) + whole + "." + frac
    }

    /** The unsigned value: the integer digits are its integer part, as
        the fraction digits add less than one. */
    function Magnitude(): (m: real)
      requires Valid()
      ensures NumberValue(whole) as real <= m < NumberValue(whole) as real + 1.0
    {
      NumberValueBound(frac);
      FractionBelowOne(NumberValue(frac), Pow10(|frac|));
      NumberValue(whole) as real + NumberValue(frac) as real / Pow10(|frac|) as real
    }

    /** What Python's float() gives for Text(), computed exactly: a minus
        sign makes it non-positive, otherwise it is non-negative, and its
        absolute value is the magnitude. */
    function Value(): (v: real)
      requires Valid()
      ensures sign == Minus ==> v <= 0.0
      ensures sign != Minus ==> v >= 0.0
      ensures (if v < 0.0 then -v else v) == Magnitude()
    {
      if sign == Minus then -Magnitude() else Magnitude()
    }
  }

  lemma FractionBelowOne(f: nat, p: nat)
    requires f < p
    ensures 0.0 <= f as real / p as real < 1.0
  {
    var x := f as real / p as real;
    assert x * (p as real) == f as real;
  }

  /** The pattern matches at position i of s with quote q: the text of q
      starts at i and is immediately followed by a percent sign. */
  ghost predicate QuoteAt(s: string, i: nat, q: Quote) {
    && q.Valid()
    && i + |q.Text()| < |s|
    && s[i..i + |q.Text()|] == q.Text()
    && s[i + |q.Text()|] == '%'
  }

  /** Some match starts at position i of s. */
  ghost predicate MatchStartsAt(s: string, i: nat) {
    exists q :: QuoteAt(s, i, q)
  }

  /** Where the scanner found a match: it starts at start, its integer
      digits at digits (after the sign, if any), its decimal point at dot,
      and the percent sign that follows it at end. */
  datatype Span = Span(start: nat, digits: nat, dot: nat, end: nat)

  /** The length of the run of digits that starts at position j. */
  function DigitRun(s: string, j: nat): (n: nat)
    requires j <= |s|
    ensures j + n <= |s|
    ensures forall k :: j <= k < j + n ==> IsDigit(s[k])
    ensures j + n == |s| || !IsDigit(s[j + n])
    decreases |s| - j
  {
    if j < |s| && IsDigit(s[j]) then 1 + DigitRun(s, j + 1) else 0
  }

  /** A digit run ends exactly at the first non-digit. */
  lemma DigitRunExact(s: string, j: nat, m: nat)
    requires j + m < |s|
    requires forall k :: j <= k < j + m ==> IsDigit(s[k])
    requires !IsDigit(s[j + m])
    ensures DigitRun(s, j) == m
  {
  }

  /** Try the pattern at position i.  The sign is taken when present, then
      the integer digits must run into the decimal point and the fraction
      digits into the percent sign, so no backtracking is needed. */
  function ScanAt(s: string, i: nat): (r: Option<Span>)
    ensures r.Some? ==> var sp := r.value;
      sp.start == i && i <= sp.digits <= i + 1 && sp.digits < sp.dot && sp.dot + 1 < sp.end < |s|
  {
    if i >= |s| then None
    else
      var j := if IsSign(s[i]) then i + 1 else i;
      var n := DigitRun(s, j);
      if n == 0 || j + n >= |s| || s[j + n] != '.' then None
      else
        var f := DigitRun(s, j + n + 1);
        if f == 0 || j + n + 1 + f >= |s| || s[j + n + 1 + f] != '%' then None
        else Some(Span(i, j, j + n, j + n + 1 + f))
  }

  /** What the scanner has seen when it reports a span: a sign exactly
      when the digits start one position late, digits up to the decimal
      point, digits up to the percent sign. */
  lemma ScanAtShape(s: string, i: nat)
    requires ScanAt(s, i).Some?
    ensures var sp := ScanAt(s, i).value;
      && (sp.digits == i + 1 <==> IsSign(s[i]))
      && (forall k :: sp.digits <= k < sp.dot ==> IsDigit(s[k]))
      && s[sp.dot] == '.'
      && (forall k :: sp.dot < k < sp.end ==> IsDigit(s[k]))
      && s[sp.end] == '%'
  {
  }

  /** The quote a span delimits. */
  function QuoteOf(s: string, sp: Span): Quote
    requires sp.start <= sp.digits <= sp.start + 1 && sp.digits < sp.dot < sp.end < |s|
  {
    var sign := if sp.digits == sp.start then Unsigned
                else if s[sp.start] == '-' then Minus else Plus;
    Quote(sign, s[sp.digits..sp.dot], s[sp.dot + 1..sp.end])
  }

  /** Position k of s is position k - a of the slice s[a..b]. */
  lemma SliceChars(s: string, a: nat, b: nat)
    requires a <= b <= |s|
    ensures forall k :: a <= k < b ==> s[a..b][k - a] == s[k]
  {
  }

  /** A slice of s over positions holding digits is all digits. */
  lemma DigitSlice(s: string, a: nat, b: nat)
    requires a <= b <= |s|
    requires forall k :: a <= k < b ==> IsDigit(s[k])
    ensures forall m :: 0 <= m < b - a ==> IsDigit(s[a..b][m])
  {
    forall m | 0 <= m < b - a ensures IsDigit(s[a..b][m]) {
      assert s[a..b][m] == s[a + m];
    }
  }

  /** A slice of s equals a + b exactly when its two parts equal a and b. */
  lemma SliceSplit(s: string, i: nat, a: string, b: string)
    requires i + |a| + |b| <= |s|
    ensures s[i..i + |a| + |b|] == a + b <==>
              s[i..i + |a|] == a && s[i + |a|..i + |a| + |b|] == b
  {
    var x, y := s[i..i + |a|], s[i + |a|..i + |a| + |b|];
    assert s[i..i + |a| + |b|] == x + y;
    if x + y == a + b {
      assert x == (x + y)[..|a|] == (a + b)[..|a|] == a;
      assert y == (x + y)[|a|..] == (a + b)[|a|..] == b;
    }
  }

  /** The quote q is written at position i of s, piece by piece, and
      followed by a percent sign. */
  ghost predicate WrittenAt(s: string, i: nat, q: Quote) {
    var j := i + |SignText(q.sign)|;
    var d := j + |q.whole|;
    var e := d + 1 + |q.frac|;
    && e < |s|
    && s[i..j] == SignText(q.sign)
    && s[j..d] == q.whole
    && s[d] == '.'
    && s[d + 1..e] == q.frac
    && s[e] == '%'
  }

  /** A match is its pieces written one after the other. */
  lemma QuoteAtWritten(s: string, i: nat, q: Quote)
    requires q.Valid()
    ensures QuoteAt(s, i, q) <==> WrittenAt(s, i, q)
  {
    var sign := SignText(q.sign);
    var a := sign + q.whole;
    var b := a + ".";
    var d := i + |a|;
    if i + |q.Text()| < |s| {
      assert q.Text() == b + q.frac;
      SliceSplit(s, i, b, q.frac);
      SliceSplit(s, i, a, ".");
      SliceSplit(s, i, sign, q.whole);
      assert s[d..d + 1] == [s[d]];
    }
  }

  /** Whatever the scanner finds at i is a match of the pattern at i. */
  lemma ScanAtSound(s: string, i: nat)
    requires ScanAt(s, i).Some?
    ensures QuoteAt(s, i, QuoteOf(s, ScanAt(s, i).value))
  {
    ScanAtShape(s, i);
    SpanQuote(s, ScanAt(s, i).value);
  }

  /** A span with a sign exactly when the digits start late, digits up to
      the decimal point and digits up to the percent sign delimits a match. */
  lemma SpanQuote(s: string, sp: Span)
    requires sp.start <= sp.digits <= sp.start + 1 && sp.digits < sp.dot && sp.dot + 1 < sp.end < |s|
    requires sp.digits == sp.start + 1 <==> IsSign(s[sp.start])
    requires forall k :: sp.digits <= k < sp.dot ==> IsDigit(s[k])
    requires s[sp.dot] == '.'
    requires forall k :: sp.dot < k < sp.end ==> IsDigit(s[k])
    requires s[sp.end] == '%'
    ensures QuoteAt(s, sp.start, QuoteOf(s, sp))
  {
    var i := sp.start;
    var q := QuoteOf(s, sp);
    DigitSlice(s, sp.digits, sp.dot);
    DigitSlice(s, sp.dot + 1, sp.end);
    assert q.Valid();
    if sp.digits == i + 1 {
      assert s[i..i + 1] == [s[i]];
    }
    assert WrittenAt(s, i, q);
    QuoteAtWritten(s, i, q);
  }

  /** The scanner's verdict, given the sign and the two digit runs. */
  lemma ScanAtFinds(s: string, i: nat, j: nat, n: nat, f: nat)
    requires i < |s| && j == (if IsSign(s[i]) then i + 1 else i)
    requires j + n + 1 + f < |s| && n > 0 && f > 0
    requires DigitRun(s, j) == n && s[j + n] == '.'
    requires DigitRun(s, j + n + 1) == f && s[j + n + 1 + f] == '%'
    ensures ScanAt(s, i) == Some(Span(i, j, j + n, j + n + 1 + f))
  {
  }

  /** The digit groups of a written quote are whole digit runs. */
  lemma WrittenRuns(s: string, i: nat, q: Quote)
    requires q.Valid() && WrittenAt(s, i, q)
    ensures var j := i + |SignText(q.sign)|;
      DigitRun(s, j) == |q.whole| && DigitRun(s, j + |q.whole| + 1) == |q.frac|
  {
    var j := i + |SignText(q.sign)|;
    var d := j + |q.whole|;
    SliceChars(s, j, d);
    DigitRunExact(s, j, |q.whole|);
    SliceChars(s, d + 1, d + 1 + |q.frac|);
    DigitRunExact(s, d + 1, |q.frac|);
  }

  /** The first character of a written quote tells its sign. */
  lemma WrittenSign(s: string, i: nat, q: Quote)
    requires q.Valid() && WrittenAt(s, i, q)
    ensures i < |s|
    ensures (if IsSign(s[i]) then i + 1 else i) == i + |SignText(q.sign)|
    ensures q.sign == (if !IsSign(s[i]) then Unsigned else if s[i] == '-' then Minus else Plus)
  {
    var j := i + |SignText(q.sign)|;
    if q.sign == Unsigned {
      assert s[i] == s[j..j + |q.whole|][0] == q.whole[0];
    } else {
      assert s[i] == s[i..j][0];
    }
  }

  /** The quote a span delimits, given its pieces. */
  lemma QuoteOfIs(s: string, sp: Span, q: Quote)
    requires sp.start <= sp.digits <= sp.start + 1 && sp.digits < sp.dot < sp.end < |s|
    requires s[sp.digits..sp.dot] == q.whole && s[sp.dot + 1..sp.end] == q.frac
    requires q.sign == if sp.digits == sp.start then Unsigned
                       else if s[sp.start] == '-' then Minus else Plus
    ensures QuoteOf(s, sp) == q
  {
  }

  /** The scanner's verdict and the quote it delimits, given the sign, the
      two digit runs and the text of the digit groups. */
  lemma ScanAtFindsQuote(s: string, i: nat, j: nat, n: nat, f: nat, q: Quote)
    requires i < |s| && j == (if IsSign(s[i]) then i + 1 else i)
    requires j + n + 1 + f < |s| && n > 0 && f > 0
    requires DigitRun(s, j) == n && s[j + n] == '.'
    requires DigitRun(s, j + n + 1) == f && s[j + n + 1 + f] == '%'
    requires s[j..j + n] == q.whole && s[j + n + 1..j + n + 1 + f] == q.frac
    requires q.sign == (if !IsSign(s[i]) then Unsigned else if s[i] == '-' then Minus else Plus)
    ensures ScanAt(s, i).Some? && QuoteOf(s, ScanAt(s, i).value) == q
  {
    ScanAtFinds(s, i, j, n, f);
    QuoteOfIs(s, Span(i, j, j + n, j + n + 1 + f), q);
  }

  /** The scanner finds every quote written at i, and only that one. */
  lemma ScanAtWritten(s: string, i: nat, q: Quote)
    requires q.Valid() && WrittenAt(s, i, q)
    ensures ScanAt(s, i).Some? && QuoteOf(s, ScanAt(s, i).value) == q
  {
    var j := i + |SignText(q.sign)|;
    var n, f := |q.whole|, |q.frac|;
    assert i < |s| && j == (if IsSign(s[i]) then i + 1 else i)
        && q.sign == (if !IsSign(s[i]) then Unsigned else if s[i] == '-' then Minus else Plus) by {
      WrittenSign(s, i, q);
    }
    assert DigitRun(s, j) == n && DigitRun(s, j + n + 1) == f by {
      WrittenRuns(s, i, q);
    }
    ScanAtFindsQuote(s, i, j, n, f, q);
  }

  /** Every match of the pattern at i is found by the scanner, and it is
      the only match at i. */
  lemma ScanAtComplete(s: string, i: nat, q: Quote)
    requires QuoteAt(s, i, q)
    ensures ScanAt(s, i).Some? && QuoteOf(s, ScanAt(s, i).value) == q
  {
    QuoteAtWritten(s, i, q);
    ScanAtWritten(s, i, q);
  }

  /** The first position at or after from where the scanner finds a match. */
  function Search(s: string, from: nat): (r: Option<Span>)
    ensures r.Some? ==> from <= r.value.start && ScanAt(s, r.value.start) == r
    ensures forall k :: from <= k < |s| && (r.Some? ==> k < r.value.start) ==> ScanAt(s, k).None?
    decreases |s| - from
  {
    if from >= |s| then None
    else
      match ScanAt(s, from)
      case Some(sp) => Some(sp)
      case None => Search(s, from + 1)
  }

  /** Python's re.search over the whole text: the leftmost position where
      the scanner finds a match, or none when it finds one nowhere. */
  function FirstMatch(s: string): (r: Option<Span>)
    ensures r.Some? ==> ScanAt(s, r.value.start) == r
    ensures forall k :: 0 <= k < |s| && (r.Some? ==> k < r.value.start) ==> ScanAt(s, k).None?
  {
    Search(s, 0)
  }

  /** The first match is a match, no match starts before it, and there is
      no first match exactly when no position of the text has a match. */
  lemma FirstMatchSpec(s: string)
    ensures FirstMatch(s).None? <==> forall k :: 0 <= k < |s| ==> !MatchStartsAt(s, k)
    ensures FirstMatch(s).Some? ==>
              var sp := FirstMatch(s).value;
              && QuoteAt(s, sp.start, QuoteOf(s, sp))
              && forall k :: 0 <= k < sp.start ==> !MatchStartsAt(s, k)
  {
    var r := FirstMatch(s);
    forall k | 0 <= k < |s| && (r.Some? ==> k < r.value.start)
      ensures !MatchStartsAt(s, k)
    {
      if q :| QuoteAt(s, k, q) {
        ScanAtComplete(s, k, q);
      }
    }
    if r.Some? {
      ScanAtSound(s, r.value.start);
      assert MatchStartsAt(s, r.value.start);
    } else {
      assert forall k :: 0 <= k < |s| ==> !MatchStartsAt(s, k);
    }
  }

  /** The return figure of a page text: the value of the first match, or
      0.0 when nothing matches. */
  function ExtractReturn(text: string): (r: real)
    ensures FirstMatch(text).None? ==> r == 0.0
    ensures FirstMatch(text).Some? ==>
              var sp := FirstMatch(text).value;
              QuoteAt(text, sp.start, QuoteOf(text, sp)) && r == QuoteOf(text, sp).Value()
  {
    match FirstMatch(text)
    case None => 0.0
    case Some(sp) =>
      ScanAtSound(text, sp.start);
      QuoteOf(text, sp).Value()
  }

  /** The return figure of a fetched page: a failed fetch gives 0.0. */
  function FetchReturn(page: Option<string>): (r: real)
    ensures page.None? ==> r == 0.0
  {
    match page
    case None => 0.0
    case Some(text) => ExtractReturn(text)
  }

  /** The extractor returns the value of the leftmost match. */
  lemma ExtractLeftmost(s: string, i: nat, q: Quote)
    requires QuoteAt(s, i, q)
    requires forall k :: 0 <= k < i ==> !MatchStartsAt(s, k)
    ensures ExtractReturn(s) == q.Value()
  {
    FirstMatchSpec(s);
    assert MatchStartsAt(s, i);
    var sp := FirstMatch(s).value;
    assert MatchStartsAt(s, sp.start);
    ScanAtComplete(s, i, q);
    ScanAtComplete(s, sp.start, QuoteOf(s, sp));
  }

  /** A text without any match gives exactly 0.0. */
  lemma ExtractNoMatch(s: string)
    requires forall k :: 0 <= k < |s| ==> !MatchStartsAt(s, k)
    ensures ExtractReturn(s) == 0.0
  {
    FirstMatchSpec(s);
  }

  /** A match starts with a sign or a digit. */
  lemma MatchStartChar(s: string, i: nat, q: Quote)
    requires QuoteAt(s, i, q)
    ensures i < |s| && (IsSign(s[i]) || IsDigit(s[i]))
  {
    QuoteAtWritten(s, i, q);
    WrittenSign(s, i, q);
  }

  /** A quote preceded by text with neither digits nor signs, and followed
      by a percent sign, is the one extracted. */
  lemma ExtractAfter(pre: string, q: Quote, rest: string)
    requires q.Valid()
    requires forall k :: 0 <= k < |pre| ==> !IsDigit(pre[k]) && !IsSign(pre[k])
    ensures ExtractReturn(pre + q.Text() + "%" + rest) == q.Value()
  {
    var s := pre + q.Text() + "%" + rest;
    var t := q.Text();
    assert s[|pre|..|pre| + |t|] == t;
    assert QuoteAt(s, |pre|, q);
    forall k | 0 <= k < |pre| ensures !MatchStartsAt(s, k) {
      if q' :| QuoteAt(s, k, q') {
        MatchStartChar(s, k, q');
      }
    }
    ExtractLeftmost(s, |pre|, q);
  }

  /** A quote written at the start of the text, followed by a percent sign,
      is read back as its own value. */
  lemma ExtractWritten(q: Quote, rest: string)
    requires q.Valid()
    ensures ExtractReturn(q.Text() + "%" + rest) == q.Value()
  {
    ExtractAfter([], q, rest);
    assert [] + q.Text() == q.Text();
  }

  /** The worked example: the first of two percentages is taken. */
  lemma ExtractExample()
    ensures ExtractReturn("up -3.25% or +10.00%") == -3.25
  {
    var q := Quote(Minus, "3", "25");
    ExampleText();
    ExtractAfter("up ", q, " or +10.00%");
    ExampleValue();
  }

  /** The example text is "up ", the quote -3.25, a percent sign and the
      rest. */
  lemma ExampleText()
    ensures Quote(Minus, "3", "25").Valid()
    ensures "up " + Quote(Minus, "3", "25").Text() + "%" + " or +10.00%" == "up -3.25% or +10.00%"
  {
  }

  /** "-3.25" denotes -3.25. */
  lemma ExampleValue()
    ensures Quote(Minus, "3", "25").Value() == -3.25
  {
    assert NumberValue("3") == 3;
    assert NumberValue("25") == 25 by {
      assert "25"[..1] == "2";
    }
    assert Pow10(2) == 100;
  }
}
