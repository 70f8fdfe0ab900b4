/**
 * The assertion-expression parser, as a recursive-descent parser with ordered
 * choice. Every parser takes the input and returns either nothing (the parser
 * failed) or what it built together with the input it left unconsumed. An
 * alternative that fails is undone completely before the next one is tried; a
 * sequence, once one of its steps fails, fails as a whole.
 *
 * Assumptions for the combinator library, whose code is not part of this model:
 * - whitespace() consumes one or more spaces or tabs;
 * - float() reads `digits.digits`, integer() reads `digits` (no sign, no exponent);
 * - stringI() compares ASCII letters without regard to case;
 * - alphaChar() accepts the ASCII letters;
 * - tryString() returns what was parsed without checking that the input is exhausted.
 */
module ExpressionParser {
  import opened Optional
  import opened Ast

  /** What a parser returns: the value built and the input left over. */
  type Parsed<T> = Option<(T, string)>

  /** `rest` is what remains of `s` once some prefix of it has been consumed. */
  predicate IsSuffix(rest: string, s: string) {
    |rest| <= |s| && rest == s[|s| - |rest|..]
  }

  /** As IsSuffix, and at least one character was consumed. */
  predicate IsProperSuffix(rest: string, s: string) {
    |rest| < |s| && rest == s[|s| - |rest|..]
  }

  lemma SuffixTransitive(a: string, b: string, c: string)
    requires IsSuffix(a, b) && IsSuffix(b, c)
    ensures IsSuffix(a, c)
  {
    assert c[|c| - |b|..][|b| - |a|..] == c[|c| - |a|..];
  }

  lemma Associative(a: string, b: string, c: string)
    ensures (a + b) + c == a + (b + c)
  {
  }

  predicate IsSpace(c: char) { c == ' ' || c == '\t' }

  function Lower(c: char): char {
    if 'A' <= c <= 'Z' then (c as int + 32) as char else c
  }

  /** `s` begins with `w`, ignoring the case of letters. */
  predicate StartsWithI(s: string, w: string) {
    |w| <= |s| && forall i :: 0 <= i < |w| ==> Lower(s[i]) == Lower(w[i])
  }

  /** The `or` combinator: the first alternative if it succeeds, otherwise the second. */
  function Or<T>(first: Option<T>, second: Option<T>): (r: Option<T>)
    ensures r.Some? <==> first.Some? || second.Some?
    ensures first.Some? ==> r == first
    ensures first.None? ==> r == second
  {
    if first.Some? then first else second
  }

  /** Maps a successful token match to a fixed value. */
  function Tag<T>(rest: Option<string>, value: T): Parsed<T> {
    match rest
    case None => None
    case Some(r) => Some((value, r))
  }

  /** `string(w)` / `char(c)`: the exact text `w`. */
  function Str(w: string, s: string): (r: Option<string>)
    ensures r.Some? <==> |w| <= |s| && s[..|w|] == w
    ensures r.Some? ==> s == w + r.value
  {
    if |w| <= |s| && s[..|w|] == w then Some(s[|w|..]) else None
  }

  /** `stringI(w)`: the text `w` in any case. */
  function StrI(w: string, s: string): (r: Option<string>)
    ensures r.Some? <==> StartsWithI(s, w)
    ensures r.Some? ==> IsSuffix(r.value, s) && |s| - |r.value| == |w|
  {
    if StartsWithI(s, w) then Some(s[|w|..]) else None
  }

  /** `atLeastOne(...)` over single characters: the longest non-empty run of characters satisfying `p`. */
  function Span1(p: char -> bool, s: string): (r: Parsed<string>)
    ensures r.Some? <==> |s| > 0 && p(s[0])
    ensures r.Some? ==>
      var (run, rest) := r.value;
      |run| > 0 && All(p, run) && s == run + rest && (rest == [] || !p(rest[0]))
    decreases |s|
  {
    if |s| == 0 || !p(s[0]) then None
    else
      match Span1(p, s[1..])
      case None => Some(([s[0]], s[1..]))
      case Some((run, rest)) => Some(([s[0]] + run, rest))
  }

  /** `whitespace()`: one or more blanks, all of them consumed. */
  function Whitespace(s: string): (r: Option<string>)
    ensures r.Some? <==> |s| > 0 && IsSpace(s[0])
    ensures r.Some? ==> IsProperSuffix(r.value, s) && (r.value == [] || !IsSpace(r.value[0]))
    ensures r.Some? ==> All(IsSpace, s[..|s| - |r.value|])
  {
    match Span1(IsSpace, s)
    case None => None
    case Some((blanks, rest)) =>
      assert s[..|s| - |rest|] == blanks;
      Some(rest)
  }

  /** `whitespace()->optional()`. */
  function OptionalWhitespace(s: string): (r: string)
    ensures IsSuffix(r, s) && (r == [] || !IsSpace(r[0]))
    ensures All(IsSpace, s[..|s| - |r|])
  {
    match Whitespace(s)
    case None => s
    case Some(rest) => rest
  }

  function FloatP(s: string): (r: Parsed<Numeral>)
    ensures r.Some? ==>
      r.value.0.fraction.Some? && ValidNumeral(r.value.0) && s == NumeralText(r.value.0) + r.value.1
      && (r.value.1 == [] || !IsDigit(r.value.1[0]))
  {
    match Span1(IsDigit, s)
    case None => None
    case Some((whole, afterWhole)) =>
      match Str(".", afterWhole)
      case None => None
      case Some(afterDot) =>
        match Span1(IsDigit, afterDot)
        case None => None
        case Some((fraction, rest)) =>
          assert afterWhole == "." + afterDot;
          Some((Numeral(whole, Some(fraction)), rest))
  }

  function IntegerP(s: string): (r: Parsed<Numeral>)
    ensures r.Some? <==> |s| > 0 && IsDigit(s[0])
    ensures r.Some? ==>
      r.value.0.fraction.None? && ValidNumeral(r.value.0) && s == NumeralText(r.value.0) + r.value.1
      && (r.value.1 == [] || !IsDigit(r.value.1[0]))
  {
    match Span1(IsDigit, s)
    case None => None
    case Some((digits, rest)) => Some((Numeral(digits, None), rest))
  }

  /** `float()->or(integer())`: the numeral at the head of `s`, read as far as it goes. */
  function NumberP(s: string): (r: Parsed<Numeral>)
    ensures r.Some? <==> |s| > 0 && IsDigit(s[0])
    ensures r.Some? ==>
      ValidNumeral(r.value.0) && s == NumeralText(r.value.0) + r.value.1
      && (r.value.1 == [] || !IsDigit(r.value.1[0]))
    ensures r.Some? ==> IsProperSuffix(r.value.1, s)
    ensures r.Some? && r.value.0.fraction.None? ==>
      !(|r.value.1| >= 2 && r.value.1[0] == '.' && IsDigit(r.value.1[1]))
  {
    Or(FloatP(s), IntegerP(s))
  }

  /** timeUnitParser (ExpressionParser.php lines 75-81). */
  function TimeUnitP(s: string): (r: Parsed<TimeUnit>)
    ensures r.Some? <==>
      StartsWithI(s, "microseconds") || StartsWithI(s, "milliseconds") || StartsWithI(s, "seconds")
    ensures r.Some? ==>
      var word := TimeUnitWord(r.value.0);
      StartsWithI(s, word) && r.value.1 == s[|word|..]
  {
    Or(Or(Tag(StrI("microseconds", s), Microseconds),
          Tag(StrI("milliseconds", s), Milliseconds)),
       Tag(StrI("seconds", s), Seconds))
  }

  /** memoryUnitParser (ExpressionParser.php lines 83-89). */
  function MemoryUnitP(s: string): (r: Parsed<MemoryUnit>)
    ensures r.Some? <==>
      StartsWithI(s, "bytes") || StartsWithI(s, "kilobytes")
      || StartsWithI(s, "megabytes") || StartsWithI(s, "gigabytes")
    ensures r.Some? ==>
      var word := MemoryUnitWord(r.value.0);
      StartsWithI(s, word) && r.value.1 == s[|word|..]
  {
    Or(Or(Or(Tag(StrI("bytes", s), Bytes),
             Tag(StrI("kilobytes", s), Kilobytes)),
          Tag(StrI("megabytes", s), Megabytes)),
       Tag(StrI("gigabytes", s), Gigabytes))
  }

  /**
   * lessThanParser, which comparatorParser returns (ExpressionParser.php lines 53-56,
   * 91-98). The two-character comparators are tried before their one-character prefixes.
   */
  function ComparatorP(s: string): (r: Parsed<Comparator>)
    ensures r.Some? <==> |s| > 0 && (s[0] == '<' || s[0] == '=' || s[0] == '>')
    ensures r.Some? ==> s == ComparatorSymbol(r.value.0) + r.value.1
    ensures r.Some? && |s| >= 2 && s[0] != '=' && s[1] == '=' ==> |ComparatorSymbol(r.value.0)| == 2
  {
    Or(Or(Or(Or(Tag(Str("<=", s), LessThanOrEqual),
                Tag(Str("<", s), LessThan)),
             Tag(Str("=", s), Equal)),
          Tag(Str(">=", s), GreaterThanOrEqual)),
       Tag(Str(">", s), GreaterThan))
  }

  /** The repeated `. segment` part of sepBy2: as many dot-separated segments as follow. */
  function DotSegments(s: string): (r: (seq<string>, string))
    ensures forall segment :: segment in r.0 ==> ValidSegment(segment)
    ensures s == DottedTail(r.0) + r.1
    ensures r.0 != [] ==> r.1 == [] || !IsSegmentChar(r.1[0])
    ensures !(|r.1| >= 2 && r.1[0] == '.' && IsSegmentChar(r.1[1]))
    decreases |s|
  {
    if |s| > 0 && s[0] == '.' then
      match Span1(IsSegmentChar, s[1..])
      case None => ([], s)
      case Some((segment, rest)) =>
        var tail := DotSegments(rest);
        var segments := [segment] + tail.0;
        assert segments[0] == segment && segments[1..] == tail.0;
        assert forall x :: x in segments ==> x == segment || x in tail.0;
        assert s == "." + s[1..];
        Associative(segment, DottedTail(tail.0), tail.1);
        Associative(".", segment + DottedTail(tail.0), tail.1);
        assert DottedTail(segments) == "." + (segment + DottedTail(tail.0));
        (segments, tail.1)
    else ([], s)
  }

  /**
   * propertyAccessParser (ExpressionParser.php lines 100-105): two or more segments
   * of letters and `_`, separated by dots.
   */
  function PropertyAccessP(s: string): (r: Parsed<Value>)
    ensures r.Some? ==>
      r.value.0.PropertyAccess? && WellFormedValue(r.value.0)
      && s == PathText(r.value.0.segments) + r.value.1
    ensures r.Some? ==>
      (r.value.1 == [] || !IsSegmentChar(r.value.1[0]))
      && !(|r.value.1| >= 2 && r.value.1[0] == '.' && IsSegmentChar(r.value.1[1]))
    ensures r.Some? ==> |s| > 0 && IsSegmentChar(s[0])
  {
    match Span1(IsSegmentChar, s)
    case None => None
    case Some((first, rest)) =>
      var (more, rest') := DotSegments(rest);
      if more == [] then None
      else
        assert ([first] + more)[1..] == more;
        Some((PropertyAccess([first] + more), rest'))
  }

  /** percentageParser (ExpressionParser.php lines 125-132). */
  function PercentageP(s: string): (r: Parsed<Value>)
    ensures r.Some? ==>
      r.value.0.PercentageValue? && WellFormedValue(r.value.0) && IsProperSuffix(r.value.1, s)
  {
    var number :- NumberP(s);
    var blank := OptionalWhitespace(number.1);
    var rest :- Str("%", blank);
    SuffixTransitive(blank, number.1, s);
    SuffixTransitive(rest, blank, s);
    Some((PercentageValue(number.0), rest))
  }

  /** timeValueParser (ExpressionParser.php lines 107-114). */
  function TimeValueP(s: string): (r: Parsed<Value>)
    ensures r.Some? ==>
      r.value.0.TimeValue? && WellFormedValue(r.value.0) && IsProperSuffix(r.value.1, s)
  {
    var number :- NumberP(s);
    var blank := OptionalWhitespace(number.1);
    var unit :- TimeUnitP(blank);
    SuffixTransitive(blank, number.1, s);
    SuffixTransitive(unit.1, blank, s);
    Some((TimeValue(number.0, unit.0), unit.1))
  }

  /** memoryParser (ExpressionParser.php lines 116-123). */
  function MemoryValueP(s: string): (r: Parsed<Value>)
    ensures r.Some? ==>
      r.value.0.MemoryValue? && WellFormedValue(r.value.0) && IsProperSuffix(r.value.1, s)
  {
    var number :- NumberP(s);
    var blank := OptionalWhitespace(number.1);
    var unit :- MemoryUnitP(blank);
    SuffixTransitive(blank, number.1, s);
    SuffixTransitive(unit.1, blank, s);
    Some((MemoryValue(number.0, unit.0), unit.1))
  }

  /** valueParser (ExpressionParser.php lines 45-51): percentage, then time, then memory, then property path. */
  function ValueP(s: string): (r: Parsed<Value>)
    ensures r.Some? ==> WellFormedValue(r.value.0) && IsProperSuffix(r.value.1, s)
  {
    Or(Or(Or(PercentageP(s), TimeValueP(s)), MemoryValueP(s)), PropertyAccessP(s))
  }

  /** `string('+/-')->or(char('±'))`: the sign that opens a tolerance. */
  function SignP(s: string): (r: Option<string>)
    ensures r.Some? <==> (|s| >= 3 && s[..3] == "+/-") || (|s| > 0 && s[0] == '±')
    ensures r.Some? ==> IsProperSuffix(r.value, s)
  {
    assert |s| > 0 ==> (s[..1] == "±" <==> s[0] == '±');
    Or(Str("+/-", s), Str("±", s))
  }

  /**
   * toleranceParser (ExpressionParser.php lines 147-154): `+/-` or `±`, optional
   * blanks, then a value, which is what the parser yields.
   */
  function ToleranceP(s: string): (r: Parsed<Value>)
    ensures r.Some? ==> WellFormedValue(r.value.0) && IsProperSuffix(r.value.1, s)
    ensures r.Some? ==> (|s| >= 3 && s[..3] == "+/-") || (|s| > 0 && s[0] == '±')
  {
    var afterSign :- SignP(s);
    var blank := OptionalWhitespace(afterSign);
    var value :- ValueP(blank);
    SuffixTransitive(blank, afterSign, s);
    SuffixTransitive(value.1, blank, s);
    Some(value)
  }

  /** `toleranceParser()->optional()`. */
  function OptionalTolerance(s: string): (r: (Option<Value>, string))
    ensures IsSuffix(r.1, s) && WellFormedTolerance(r.0)
    ensures r.0.Some? <==> ToleranceP(s).Some?
    ensures r.0.None? ==> r.1 == s
    ensures r.0.Some? ==> ToleranceP(s) == Some((r.0.value, r.1))
  {
    match ToleranceP(s)
    case None => (None, s)
    case Some((t, rest)) => (Some(t), rest)
  }

  /**
   * `whitespace(), stringI(w), whitespace()`: the keyword `w`, in any case, with
   * blanks on both sides.
   */
  function SpacedWord(w: string, s: string): (r: Option<string>)
    ensures r.Some? ==> IsProperSuffix(r.value, s)
    ensures r.Some? ==>
      exists k :: 0 < k <= |s| && All(IsSpace, s[..k]) && StartsWithI(s[k..], w)
  {
    var r1 :- Whitespace(s);
    var r2 :- StrI(w, r1);
    var r3 :- Whitespace(r2);
    SuffixTransitive(r2, r1, s);
    SuffixTransitive(r3, r2, s);
    assert s[|s| - |r1|..] == r1;
    Some(r3)
  }

  /**
   * The tail shared by both expression forms: `valueParser(), whitespace()->optional(),
   * toleranceParser()->optional()`. Yields the value and the tolerance, if any.
   */
  function LastOperand(s: string): (r: Parsed<(Value, Option<Value>)>)
    ensures r.Some? <==> ValueP(s).Some?
    ensures r.Some? ==>
      WellFormedValue(r.value.0.0) && WellFormedTolerance(r.value.0.1) && IsProperSuffix(r.value.1, s)
  {
    var value :- ValueP(s);
    var blank := OptionalWhitespace(value.1);
    var tolerance := OptionalTolerance(blank);
    SuffixTransitive(blank, value.1, s);
    SuffixTransitive(tolerance.1, blank, s);
    Some(((value.0, tolerance.0), tolerance.1))
  }

  /**
   * The part of withinParser after ` within `: `valueParser(), whitespace(), stringI('of'),
   * whitespace()`, then the last operand. Yields the range and the anchor.
   */
  function RangeAndAnchor(s: string): (r: Parsed<(Value, Value)>)
    ensures r.Some? ==>
      WellFormedValue(r.value.0.0) && WellFormedValue(r.value.0.1) && IsProperSuffix(r.value.1, s)
  {
    var range :- ValueP(s);
    var r1 :- SpacedWord("of", range.1);
    var last :- LastOperand(r1);
    SuffixTransitive(r1, range.1, s);
    SuffixTransitive(last.1, r1, s);
    Some(((range.0, last.0.0), last.1))
  }

  /**
   * withinParser (ExpressionParser.php lines 58-73). The tolerance is parsed and
   * consumed, but the node is built from the three values alone.
   */
  function WithinP(s: string): (r: Parsed<Node>)
    ensures r.Some? ==>
      r.value.0.WithinRangeOf? && r.value.0.tolerance.None?
      && WellFormed(r.value.0) && IsProperSuffix(r.value.1, s)
  {
    var subject :- ValueP(s);
    var r1 :- SpacedWord("within", subject.1);
    var rest :- RangeAndAnchor(r1);
    SuffixTransitive(r1, subject.1, s);
    SuffixTransitive(rest.1, r1, s);
    Some((WithinRangeOf(subject.0, rest.0.0, rest.0.1, None), rest.1))
  }

  /** comparisonParser (ExpressionParser.php lines 134-145). */
  function ComparisonP(s: string): (r: Parsed<Node>)
    ensures r.Some? ==>
      r.value.0.Comparison? && WellFormed(r.value.0) && IsProperSuffix(r.value.1, s)
  {
    var left :- ValueP(s);
    var r1 :- Whitespace(left.1);
    var op :- ComparatorP(r1);
    var r2 :- Whitespace(op.1);
    var last :- LastOperand(r2);
    SuffixTransitive(r1, left.1, s);
    SuffixTransitive(op.1, r1, s);
    SuffixTransitive(r2, op.1, s);
    SuffixTransitive(last.1, r2, s);
    Some((Comparison(left.0, op.0, last.0.0, last.0.1), last.1))
  }

  /**
   * parse (ExpressionParser.php lines 37-43): the within-form, or else the
   * comparison-form. What is left of the input after the parsed node is returned
   * as well: no check is made that the whole input was consumed.
   */
  function Parse(expression: string): (r: Parsed<Node>)
    ensures r.Some? ==> WellFormed(r.value.0) && IsProperSuffix(r.value.1, expression)
    ensures r.Some? && r.value.0.WithinRangeOf? ==> r.value.0.tolerance.None?
  {
    Or(WithinP(expression), ComparisonP(expression))
  }
}
