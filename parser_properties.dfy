/**
 * What the assertion-expression grammar promises, proved of the parser: every
 * well-formed node survives a trip through its canonical text, the alternatives
 * are tried in their fixed order, a within-node forgets its tolerance, and a
 * lone value is not an expression.
 */
module ParserProperties {
  import opened Optional
  import opened Ast
  import opened ExpressionParser

  /** The node the parser builds from the text of `n`: a within-node loses its tolerance. */
  function DropWithinTolerance(n: Node): Node {
    match n
    case Comparison(_, _, _, _) => n
    case WithinRangeOf(subject, range, anchor, _) => WithinRangeOf(subject, range, anchor, None)
  }

  // ---------------------------------------------------------------------------
  // Tokens
  // ---------------------------------------------------------------------------

  /** A maximal run is read back exactly, whatever follows it. */
  lemma {:induction false} Span1Exact(p: char -> bool, run: string, rest: string)
    requires |run| > 0 && All(p, run)
    requires rest == [] || !p(rest[0])
    ensures Span1(p, run + rest) == Some((run, rest))
    decreases |run|
  {
    var s := run + rest;
    assert s[0] == run[0];
    if |run| > 1 {
      assert s[1..] == run[1..] + rest;
      Span1Exact(p, run[1..], rest);
      assert [run[0]] + run[1..] == run;
    } else {
      assert s[1..] == rest;
      assert [run[0]] == run;
    }
  }

  /** A single blank before a non-blank is skipped, required or optional. */
  lemma BlankExact(x: string)
    requires x == [] || !IsSpace(x[0])
    ensures Whitespace(" " + x) == Some(x)
    ensures OptionalWhitespace(" " + x) == x
  {
    Span1Exact(IsSpace, " ", x);
  }

  /** `digits` followed by neither a digit nor `.` is read as a whole number. */
  lemma IntegerExact(whole: string, rest: string)
    requires ValidNumeral(Numeral(whole, None))
    requires rest == [] || (!IsDigit(rest[0]) && rest[0] != '.')
    ensures NumberP(whole + rest) == Some((Numeral(whole, None), rest))
  {
    Span1Exact(IsDigit, whole, rest);
    assert Str(".", rest).None?;
  }

  /** `digits.digits` followed by neither a digit nor `.` is read as a number with a fraction. */
  lemma FractionExact(whole: string, fraction: string, rest: string)
    requires ValidNumeral(Numeral(whole, Some(fraction)))
    requires rest == [] || (!IsDigit(rest[0]) && rest[0] != '.')
    ensures NumberP(whole + ("." + (fraction + rest))) == Some((Numeral(whole, Some(fraction)), rest))
  {
    var afterDot := fraction + rest;
    Span1Exact(IsDigit, whole, "." + afterDot);
    assert ("." + afterDot)[..1] == "." && ("." + afterDot)[1..] == afterDot;
    Span1Exact(IsDigit, fraction, rest);
    assert FloatP(whole + ("." + afterDot)) == Some((Numeral(whole, Some(fraction)), rest));
  }

  lemma NumeralExact(n: Numeral, rest: string)
    requires ValidNumeral(n)
    requires rest == [] || (!IsDigit(rest[0]) && rest[0] != '.')
    ensures NumberP(NumeralText(n) + rest) == Some((n, rest))
  {
    match n.fraction
    case None =>
      assert NumeralText(n) + rest == n.whole + rest;
      IntegerExact(n.whole, rest);
    case Some(f) =>
      Associative(n.whole, "." + f, rest);
      Associative(".", f, rest);
      FractionExact(n.whole, f, rest);
  }

  /** Every unit word is read as its own unit, in whatever case it is written. */
  lemma TimeUnitExact(u: TimeUnit, rest: string)
    ensures TimeUnitP(TimeUnitWord(u) + rest) == Some((u, rest))
  {
    var s := TimeUnitWord(u) + rest;
    match u
    case Microseconds =>
    case Milliseconds =>
      assert Lower(s[2]) != Lower("microseconds"[2]);
    case Seconds =>
      assert Lower(s[0]) != Lower("microseconds"[0]);
      assert Lower(s[0]) != Lower("milliseconds"[0]);
  }

  lemma MemoryUnitExact(u: MemoryUnit, rest: string)
    ensures MemoryUnitP(MemoryUnitWord(u) + rest) == Some((u, rest))
  {
    var s := MemoryUnitWord(u) + rest;
    match u
    case Bytes =>
    case Kilobytes =>
      assert Lower(s[0]) != Lower("bytes"[0]);
    case Megabytes =>
      assert Lower(s[0]) != Lower("bytes"[0]);
      assert Lower(s[0]) != Lower("kilobytes"[0]);
    case Gigabytes =>
      assert Lower(s[0]) != Lower("bytes"[0]);
      assert Lower(s[0]) != Lower("kilobytes"[0]);
      assert Lower(s[0]) != Lower("megabytes"[0]);
  }

  /** A memory unit word is not a time unit. */
  lemma MemoryWordIsNotTimeUnit(u: MemoryUnit, rest: string)
    ensures TimeUnitP(MemoryUnitWord(u) + rest).None?
  {
    var s := MemoryUnitWord(u) + rest;
    match u
    case Bytes =>
      assert Lower(s[0]) != Lower("microseconds"[0]);
      assert Lower(s[0]) != Lower("milliseconds"[0]);
      assert Lower(s[0]) != Lower("seconds"[0]);
    case Kilobytes =>
      assert Lower(s[0]) != Lower("microseconds"[0]);
      assert Lower(s[0]) != Lower("milliseconds"[0]);
      assert Lower(s[0]) != Lower("seconds"[0]);
    case Megabytes =>
      assert Lower(s[1]) != Lower("microseconds"[1]);
      assert Lower(s[1]) != Lower("milliseconds"[1]);
      assert Lower(s[0]) != Lower("seconds"[0]);
    case Gigabytes =>
      assert Lower(s[0]) != Lower("microseconds"[0]);
      assert Lower(s[0]) != Lower("milliseconds"[0]);
      assert Lower(s[0]) != Lower("seconds"[0]);
  }

  /** Each comparator symbol is read as itself when no `=` follows it. */
  lemma ComparatorExact(op: Comparator, rest: string)
    requires rest == [] || rest[0] != '='
    ensures ComparatorP(ComparatorSymbol(op) + rest) == Some((op, rest))
  {
    var s := ComparatorSymbol(op) + rest;
    assert s[..|ComparatorSymbol(op)|] == ComparatorSymbol(op);
    match op
    case LessThanOrEqual =>
    case LessThan =>
      assert |s| >= 2 ==> s[1] != '=';
      assert s[..1] == "<";
    case Equal =>
      assert s[..1] == "=";
    case GreaterThanOrEqual =>
    case GreaterThan =>
      assert |s| >= 2 ==> s[1] != '=';
      assert s[..1] == ">";
  }

  /** A comparator symbol followed by anything is not the start of a keyword. */
  lemma SymbolIsNotWord(op: Comparator, rest: string, w: string)
    requires |w| > 0 && IsSegmentChar(w[0])
    ensures SpacedWord(w, " " + (ComparatorSymbol(op) + rest)).None?
  {
    var s := ComparatorSymbol(op) + rest;
    assert s[0] == ComparatorSymbol(op)[0];
    assert s[0] == '<' || s[0] == '=' || s[0] == '>';
    BlankExact(s);
    assert Lower(s[0]) != Lower(w[0]);
  }

  /** One `. segment` step of `DotSegments`, given what its parts read. */
  lemma DotSegmentsStep(s: string, segment: string, tail: string, more: seq<string>, rest: string)
    requires |s| > 0 && s[0] == '.'
    requires Span1(IsSegmentChar, s[1..]) == Some((segment, tail))
    requires DotSegments(tail) == (more, rest)
    ensures DotSegments(s) == ([segment] + more, rest)
  {
  }

  lemma {:induction false} DotSegmentsExact(segments: seq<string>, rest: string)
    requires forall segment :: segment in segments ==> ValidSegment(segment)
    requires rest == [] || (rest[0] != '.' && !IsSegmentChar(rest[0]))
    ensures DotSegments(DottedTail(segments) + rest) == (segments, rest)
    decreases |segments|
  {
    if segments != [] {
      var tail := DottedTail(segments[1..]) + rest;
      var s := DottedTail(segments) + rest;
      Associative(".", segments[0] + DottedTail(segments[1..]), rest);
      Associative(segments[0], DottedTail(segments[1..]), rest);
      assert s == "." + (segments[0] + tail);
      assert s[1..] == segments[0] + tail;
      assert segments[0] in segments;
      if segments[1..] != [] {
        assert tail[0] == '.';
      }
      Span1Exact(IsSegmentChar, segments[0], tail);
      assert forall segment :: segment in segments[1..] ==> segment in segments;
      DotSegmentsExact(segments[1..], rest);
      DotSegmentsStep(s, segments[0], tail, segments[1..], rest);
      assert [segments[0]] + segments[1..] == segments;
    } else {
      assert DottedTail(segments) + rest == rest;
    }
  }

  lemma PathExact(segments: seq<string>, rest: string)
    requires WellFormedValue(PropertyAccess(segments))
    requires rest == [] || IsSpace(rest[0])
    ensures PropertyAccessP(PathText(segments) + rest) == Some((PropertyAccess(segments), rest))
  {
    var tail := DottedTail(segments[1..]) + rest;
    Associative(segments[0], DottedTail(segments[1..]), rest);
    assert segments[0] in segments;
    Span1Exact(IsSegmentChar, segments[0], tail);
    assert forall segment :: segment in segments[1..] ==> segment in segments;
    DotSegmentsExact(segments[1..], rest);
    assert [segments[0]] + segments[1..] == segments;
  }

  /** The text of a value starts with a digit or a segment character. */
  lemma ValueTextStart(v: Value)
    requires WellFormedValue(v)
    ensures |ValueText(v)| > 0
    ensures IsDigit(ValueText(v)[0]) || IsSegmentChar(ValueText(v)[0])
    ensures IsDigit(ValueText(v)[0]) <==> !v.PropertyAccess?
  {
    match v
    case PropertyAccess(segments) =>
      assert segments[0] in segments;
    case _ =>
  }

  lemma PercentageExact(m: Numeral, rest: string)
    requires ValidNumeral(m)
    requires rest == [] || IsSpace(rest[0])
    ensures PercentageP(NumeralText(m) + ("%" + rest)) == Some((PercentageValue(m), rest))
  {
    NumeralExact(m, "%" + rest);
    assert ("%" + rest)[..1] == "%" && ("%" + rest)[1..] == rest;
  }

  /** The `%` test fails on a word, so the percentage alternative gives way. */
  lemma WordIsNotPercentage(m: Numeral, word: string)
    requires ValidNumeral(m)
    requires |word| > 0 && IsSegmentChar(word[0])
    ensures PercentageP(NumeralText(m) + (" " + word)).None?
  {
    NumeralExact(m, " " + word);
    BlankExact(word);
    assert word[..1] != "%" by { assert word[..1][0] == word[0]; }
  }

  /**
   * A number followed by any run of blanks (none included) and then a word that
   * begins with no unit word is neither a time nor a memory value.
   */
  lemma OtherWordIsNoUnit(m: Numeral, blank: string, word: string)
    requires ValidNumeral(m) && All(IsSpace, blank)
    requires |word| > 0 && !IsSpace(word[0]) && !IsDigit(word[0]) && word[0] != '.'
    requires !StartsWithI(word, "microseconds") && !StartsWithI(word, "milliseconds")
    requires !StartsWithI(word, "seconds")
    requires !StartsWithI(word, "bytes") && !StartsWithI(word, "kilobytes")
    requires !StartsWithI(word, "megabytes") && !StartsWithI(word, "gigabytes")
    ensures TimeValueP(NumeralText(m) + (blank + word)).None?
    ensures MemoryValueP(NumeralText(m) + (blank + word)).None?
  {
    var x := blank + word;
    if blank == [] {
      assert x == word;
    } else {
      assert x[0] == blank[0];
      Span1Exact(IsSpace, blank, word);
    }
    assert x[0] == (if blank == [] then word[0] else blank[0]);
    NumeralExact(m, x);
    assert OptionalWhitespace(x) == word;
  }

  /** The time-value parser, given what its number and its unit read. */
  lemma TimeValueSteps(s: string, m: Numeral, afterNumber: string, u: TimeUnit, rest: string)
    requires NumberP(s) == Some((m, afterNumber))
    requires TimeUnitP(OptionalWhitespace(afterNumber)) == Some((u, rest))
    ensures TimeValueP(s) == Some((TimeValue(m, u), rest))
  {
  }

  /** The time-value parser fails when no time unit follows the number. */
  lemma NoTimeUnitSteps(s: string, m: Numeral, afterNumber: string)
    requires NumberP(s) == Some((m, afterNumber))
    requires TimeUnitP(OptionalWhitespace(afterNumber)).None?
    ensures TimeValueP(s).None?
  {
  }

  /** The memory-value parser, given what its number and its unit read. */
  lemma MemoryValueSteps(s: string, m: Numeral, afterNumber: string, u: MemoryUnit, rest: string)
    requires NumberP(s) == Some((m, afterNumber))
    requires MemoryUnitP(OptionalWhitespace(afterNumber)) == Some((u, rest))
    ensures MemoryValueP(s) == Some((MemoryValue(m, u), rest))
  {
  }

  lemma TimeValueExact(m: Numeral, u: TimeUnit, rest: string)
    requires ValidNumeral(m)
    ensures TimeValueP(NumeralText(m) + (" " + (TimeUnitWord(u) + rest))) == Some((TimeValue(m, u), rest))
  {
    var word := TimeUnitWord(u) + rest;
    TimeUnitExact(u, rest);
    BlankExact(word);
    NumeralExact(m, " " + word);
    TimeValueSteps(NumeralText(m) + (" " + word), m, " " + word, u, rest);
  }

  lemma MemoryValueExact(m: Numeral, u: MemoryUnit, rest: string)
    requires ValidNumeral(m)
    ensures TimeValueP(NumeralText(m) + (" " + (MemoryUnitWord(u) + rest))).None?
    ensures MemoryValueP(NumeralText(m) + (" " + (MemoryUnitWord(u) + rest))) == Some((MemoryValue(m, u), rest))
  {
    var word := MemoryUnitWord(u) + rest;
    MemoryWordIsNotTimeUnit(u, rest);
    MemoryUnitExact(u, rest);
    BlankExact(word);
    NumeralExact(m, " " + word);
    NoTimeUnitSteps(NumeralText(m) + (" " + word), m, " " + word);
    MemoryValueSteps(NumeralText(m) + (" " + word), m, " " + word, u, rest);
  }

  lemma PercentageReadBack(v: Value, rest: string)
    requires v.PercentageValue? && WellFormedValue(v)
    requires rest == [] || IsSpace(rest[0])
    ensures ValueP(ValueText(v) + rest) == Some((v, rest))
  {
    Associative(NumeralText(v.magnitude), "%", rest);
    PercentageExact(v.magnitude, rest);
  }

  lemma TimeReadBack(v: Value, rest: string)
    requires v.TimeValue? && WellFormedValue(v)
    requires rest == [] || IsSpace(rest[0])
    ensures ValueP(ValueText(v) + rest) == Some((v, rest))
  {
    var word := TimeUnitWord(v.timeUnit);
    Associative(NumeralText(v.magnitude), " " + word, rest);
    Associative(" ", word, rest);
    WordIsNotPercentage(v.magnitude, word + rest);
    TimeValueExact(v.magnitude, v.timeUnit, rest);
  }

  lemma MemoryReadBack(v: Value, rest: string)
    requires v.MemoryValue? && WellFormedValue(v)
    requires rest == [] || IsSpace(rest[0])
    ensures ValueP(ValueText(v) + rest) == Some((v, rest))
  {
    var word := MemoryUnitWord(v.memoryUnit);
    Associative(NumeralText(v.magnitude), " " + word, rest);
    Associative(" ", word, rest);
    WordIsNotPercentage(v.magnitude, word + rest);
    MemoryValueExact(v.magnitude, v.memoryUnit, rest);
  }

  lemma PathReadBack(v: Value, rest: string)
    requires v.PropertyAccess? && WellFormedValue(v)
    requires rest == [] || IsSpace(rest[0])
    ensures ValueP(ValueText(v) + rest) == Some((v, rest))
  {
    var s := ValueText(v) + rest;
    ValueTextStart(v);
    assert s[0] == ValueText(v)[0];
    assert NumberP(s).None?;
    PathExact(v.segments, rest);
  }

  /**
   * A well-formed value is read back from its text when a blank or the end of the
   * input follows it, and it is read by the alternative of its own kind.
   */
  lemma ValueExact(v: Value, rest: string)
    requires WellFormedValue(v)
    requires rest == [] || IsSpace(rest[0])
    ensures ValueP(ValueText(v) + rest) == Some((v, rest))
  {
    if v.PercentageValue? {
      PercentageReadBack(v, rest);
    } else if v.TimeValue? {
      TimeReadBack(v, rest);
    } else if v.MemoryValue? {
      MemoryReadBack(v, rest);
    } else {
      PathReadBack(v, rest);
    }
  }

  /** A tolerance's text is read back as that tolerance, and what follows it is returned. */
  lemma ToleranceExact(v: Value, tail: string)
    requires WellFormedValue(v)
    requires tail == [] || IsSpace(tail[0])
    ensures OptionalTolerance(OptionalWhitespace(ToleranceText(Some(v)) + tail)) == (Some(v), tail)
  {
    var signed := "+/-" + (" " + (ValueText(v) + tail));
    assert ToleranceText(Some(v)) + tail == " " + signed by {
      Associative(" ", "+/-" + (" " + ValueText(v)), tail);
      Associative("+/-", " " + ValueText(v), tail);
      Associative(" ", ValueText(v), tail);
    }
    BlankExact(signed);
    assert All(IsSpace, " ");
    ToleranceSignExact("+/-", " ", v, tail);
  }

  /** The tolerance parser, given what its sign and its value read. */
  lemma ToleranceSteps(s: string, afterSign: string, v: Value, rest: string)
    requires SignP(s) == Some(afterSign)
    requires ValueP(OptionalWhitespace(afterSign)) == Some((v, rest))
    ensures ToleranceP(s) == Some((v, rest))
  {
  }

  /**
   * Either sign, `+/-` or `±`, followed by any run of blanks (none included) and a
   * value's text, is read as a tolerance of that value.
   */
  lemma ToleranceSignExact(sign: string, blank: string, v: Value, rest: string)
    requires sign == "+/-" || sign == "±"
    requires All(IsSpace, blank)
    requires WellFormedValue(v)
    requires rest == [] || IsSpace(rest[0])
    ensures ToleranceP(sign + (blank + (ValueText(v) + rest))) == Some((v, rest))
  {
    var x := ValueText(v) + rest;
    ValueTextStart(v);
    assert x[0] == ValueText(v)[0];
    var afterSign := blank + x;
    var s := sign + afterSign;
    assert s[..|sign|] == sign && s[|sign|..] == afterSign;
    if sign == "±" {
      assert s[0] == '±';
    }
    assert SignP(s) == Some(afterSign);
    if blank == [] {
      assert afterSign == x;
    } else {
      Span1Exact(IsSpace, blank, x);
    }
    assert OptionalWhitespace(afterSign) == x;
    ValueExact(v, rest);
    ToleranceSteps(s, afterSign, v, rest);
  }

  /** What follows the last value: the tolerance, if any, and then `tail`. */
  lemma TrailerExact(t: Option<Value>, tail: string)
    requires WellFormedTolerance(t)
    requires t.None? ==> tail == []
    requires tail == [] || IsSpace(tail[0])
    ensures OptionalTolerance(OptionalWhitespace(ToleranceText(t) + tail)) == (t, tail)
  {
    if t.Some? {
      ToleranceExact(t.value, tail);
    } else {
      assert ToleranceText(t) + tail == [];
    }
  }

  /** The last value of an expression and its tolerance are read back together. */
  lemma LastOperandExact(v: Value, t: Option<Value>, tail: string)
    requires WellFormedValue(v) && WellFormedTolerance(t)
    requires t.None? ==> tail == []
    requires tail == [] || IsSpace(tail[0])
    ensures LastOperand(ValueText(v) + (ToleranceText(t) + tail)) == Some(((v, t), tail))
  {
    ValueExact(v, ToleranceText(t) + tail);
    TrailerExact(t, tail);
  }

  lemma SpacedWordExact(w: string, rest: string)
    requires |w| > 0 && All(IsSegmentChar, w)
    requires |rest| > 0 && !IsSpace(rest[0])
    ensures SpacedWord(w, " " + (w + (" " + rest))) == Some(rest)
  {
    var afterBlank := w + (" " + rest);
    BlankExact(afterBlank);
    assert afterBlank[|w|..] == " " + rest;
    assert StrI(w, afterBlank) == Some(" " + rest) by {
      assert forall i :: 0 <= i < |w| ==> afterBlank[i] == w[i];
    }
    BlankExact(rest);
  }

  /** A keyword between single blanks is read before a value's text. */
  lemma KeywordExact(w: string, v: Value, rest: string)
    requires |w| > 0 && All(IsSegmentChar, w)
    requires WellFormedValue(v)
    ensures SpacedWord(w, " " + (w + (" " + (ValueText(v) + rest)))) == Some(ValueText(v) + rest)
  {
    var x := ValueText(v) + rest;
    ValueTextStart(v);
    assert x[0] == ValueText(v)[0];
    SpacedWordExact(w, x);
  }

  // ---------------------------------------------------------------------------
  // Expressions
  // ---------------------------------------------------------------------------

  /** The first character of a comparator symbol, which is not a blank or a letter. */
  lemma SymbolHead(op: Comparator, rest: string)
    ensures |ComparatorSymbol(op) + rest| > 0
    ensures var c := (ComparatorSymbol(op) + rest)[0]; c == '<' || c == '=' || c == '>'
  {
  }

  /** After a value, a comparator rules out the within-form. */
  lemma ComparatorIsNotWithin(left: Value, op: Comparator, rest: string)
    requires WellFormedValue(left)
    ensures WithinP(ValueText(left) + (" " + (ComparatorSymbol(op) + rest))).None?
  {
    ValueExact(left, " " + (ComparatorSymbol(op) + rest));
    SymbolIsNotWord(op, rest, "within");
  }

  /** The comparison-form succeeds when each of its steps does. */
  lemma ComparisonSteps(s: string, left: Value, afterLeft: string, afterBlank: string, op: Comparator,
                        afterOp: string, afterRight: string, right: Value, t: Option<Value>, tail: string)
    requires ValueP(s) == Some((left, afterLeft))
    requires Whitespace(afterLeft) == Some(afterBlank)
    requires ComparatorP(afterBlank) == Some((op, afterOp))
    requires Whitespace(afterOp) == Some(afterRight)
    requires LastOperand(afterRight) == Some(((right, t), tail))
    ensures ComparisonP(s) == Some((Comparison(left, op, right, t), tail))
  {
  }

  /** A comparator between two blanks, before the text of a value, is read back. */
  lemma OperatorExact(op: Comparator, afterRight: string)
    requires |afterRight| > 0 && (IsDigit(afterRight[0]) || IsSegmentChar(afterRight[0]))
    ensures Whitespace(" " + (ComparatorSymbol(op) + (" " + afterRight)))
         == Some(ComparatorSymbol(op) + (" " + afterRight))
    ensures ComparatorP(ComparatorSymbol(op) + (" " + afterRight)) == Some((op, " " + afterRight))
    ensures Whitespace(" " + afterRight) == Some(afterRight)
  {
    var afterOp := ComparatorSymbol(op) + (" " + afterRight);
    SymbolHead(op, " " + afterRight);
    BlankExact(afterOp);
    ComparatorExact(op, " " + afterRight);
    BlankExact(afterRight);
  }

  lemma ComparisonFormExact(left: Value, op: Comparator, right: Value, t: Option<Value>, tail: string)
    requires WellFormedValue(left) && WellFormedValue(right) && WellFormedTolerance(t)
    requires t.None? ==> tail == []
    requires tail == [] || IsSpace(tail[0])
    ensures
      var afterRight := ValueText(right) + (ToleranceText(t) + tail);
      ComparisonP(ValueText(left) + (" " + (ComparatorSymbol(op) + (" " + afterRight))))
        == Some((Comparison(left, op, right, t), tail))
  {
    var afterRight := ValueText(right) + (ToleranceText(t) + tail);
    var afterOp := ComparatorSymbol(op) + (" " + afterRight);
    ValueExact(left, " " + afterOp);
    ValueTextStart(right);
    assert afterRight[0] == ValueText(right)[0];
    OperatorExact(op, afterRight);
    LastOperandExact(right, t, tail);
    ComparisonSteps(ValueText(left) + (" " + afterOp), left, " " + afterOp, afterOp, op,
                    " " + afterRight, afterRight, right, t, tail);
  }

  lemma ComparisonRoundTrip(n: Node, tail: string)
    requires n.Comparison? && WellFormed(n)
    requires n.tolerance.None? ==> tail == []
    requires tail == [] || IsSpace(tail[0])
    ensures Parse(NodeText(n) + tail) == Some((n, tail))
  {
    var trailer := ToleranceText(n.tolerance) + tail;
    var afterRight := ValueText(n.right) + trailer;
    var afterOp := ComparatorSymbol(n.operator) + (" " + afterRight);
    var s := ValueText(n.left) + (" " + afterOp);
    calc {
      NodeText(n) + tail;
      (ValueText(n.left) + (" " + (ComparatorSymbol(n.operator) + (" " + (ValueText(n.right) + ToleranceText(n.tolerance)))))) + tail;
      { Associative(ValueText(n.left), " " + (ComparatorSymbol(n.operator) + (" " + (ValueText(n.right) + ToleranceText(n.tolerance)))), tail);
        Associative(" ", ComparatorSymbol(n.operator) + (" " + (ValueText(n.right) + ToleranceText(n.tolerance))), tail);
        Associative(ComparatorSymbol(n.operator), " " + (ValueText(n.right) + ToleranceText(n.tolerance)), tail);
        Associative(" ", ValueText(n.right) + ToleranceText(n.tolerance), tail);
        Associative(ValueText(n.right), ToleranceText(n.tolerance), tail); }
      s;
    }
    ComparatorIsNotWithin(n.left, n.operator, " " + afterRight);
    ComparisonFormExact(n.left, n.operator, n.right, n.tolerance, tail);
  }

  /** The text of a within-node followed by `tail`, with `tail` moved inside. */
  lemma WithinTextAppend(n: Node, tail: string)
    requires n.WithinRangeOf?
    ensures NodeText(n) + tail
         == ValueText(n.subject) + (" " + ("within" + (" " + (ValueText(n.range)
            + (" " + ("of" + (" " + (ValueText(n.anchor) + (ToleranceText(n.tolerance) + tail)))))))))
  {
    var x8 := ValueText(n.anchor) + ToleranceText(n.tolerance);
    var x7 := " " + x8;
    var x6 := "of" + x7;
    var x5 := " " + x6;
    var x4 := ValueText(n.range) + x5;
    var x3 := " " + x4;
    var x2 := "within" + x3;
    var x1 := " " + x2;
    Associative(ValueText(n.subject), x1, tail);
    Associative(" ", x2, tail);
    Associative("within", x3, tail);
    Associative(" ", x4, tail);
    Associative(ValueText(n.range), x5, tail);
    Associative(" ", x6, tail);
    Associative("of", x7, tail);
    Associative(" ", x8, tail);
    Associative(ValueText(n.anchor), ToleranceText(n.tolerance), tail);
  }

  /** The within-form succeeds when each of its steps does. */
  lemma WithinSteps(s: string, subject: Value, afterSubject: string, afterWithin: string, range: Value,
                    afterRange: string, afterOf: string, anchor: Value, t: Option<Value>, tail: string)
    requires ValueP(s) == Some((subject, afterSubject))
    requires SpacedWord("within", afterSubject) == Some(afterWithin)
    requires ValueP(afterWithin) == Some((range, afterRange))
    requires SpacedWord("of", afterRange) == Some(afterOf)
    requires LastOperand(afterOf) == Some(((anchor, t), tail))
    ensures WithinP(s) == Some((WithinRangeOf(subject, range, anchor, None), tail))
  {
  }

  /** The subject and ` within ` are read back. */
  lemma WithinHeadExact(subject: Value, range: Value, afterRange: string)
    requires WellFormedValue(subject) && WellFormedValue(range)
    ensures
      var afterSubject := " " + ("within" + (" " + (ValueText(range) + afterRange)));
      && ValueP(ValueText(subject) + afterSubject) == Some((subject, afterSubject))
      && SpacedWord("within", afterSubject) == Some(ValueText(range) + afterRange)
  {
    KeywordExact("within", range, afterRange);
    ValueExact(subject, " " + ("within" + (" " + (ValueText(range) + afterRange))));
  }

  /** ` of `, the anchor and its tolerance are read back, and `tail` is returned. */
  lemma WithinTailExact(anchor: Value, t: Option<Value>, tail: string)
    requires WellFormedValue(anchor) && WellFormedTolerance(t)
    requires t.None? ==> tail == []
    requires tail == [] || IsSpace(tail[0])
    ensures
      var afterOf := ValueText(anchor) + (ToleranceText(t) + tail);
      && SpacedWord("of", " " + ("of" + (" " + afterOf))) == Some(afterOf)
      && LastOperand(afterOf) == Some(((anchor, t), tail))
  {
    KeywordExact("of", anchor, ToleranceText(t) + tail);
    LastOperandExact(anchor, t, tail);
  }

  lemma WithinFormExact(subject: Value, range: Value, anchor: Value, t: Option<Value>, tail: string)
    requires WellFormedValue(subject) && WellFormedValue(range) && WellFormedValue(anchor)
    requires WellFormedTolerance(t)
    requires t.None? ==> tail == []
    requires tail == [] || IsSpace(tail[0])
    ensures
      var afterRange := " " + ("of" + (" " + (ValueText(anchor) + (ToleranceText(t) + tail))));
      WithinP(ValueText(subject) + (" " + ("within" + (" " + (ValueText(range) + afterRange)))))
        == Some((WithinRangeOf(subject, range, anchor, None), tail))
  {
    var afterOf := ValueText(anchor) + (ToleranceText(t) + tail);
    var afterRange := " " + ("of" + (" " + afterOf));
    var afterWithin := ValueText(range) + afterRange;
    var afterSubject := " " + ("within" + (" " + afterWithin));
    WithinHeadExact(subject, range, afterRange);
    ValueExact(range, afterRange);
    WithinTailExact(anchor, t, tail);
    WithinSteps(ValueText(subject) + afterSubject, subject, afterSubject, afterWithin, range,
                afterRange, afterOf, anchor, t, tail);
  }

  lemma WithinRoundTrip(n: Node, tail: string)
    requires n.WithinRangeOf? && WellFormed(n)
    requires n.tolerance.None? ==> tail == []
    requires tail == [] || IsSpace(tail[0])
    ensures Parse(NodeText(n) + tail) == Some((DropWithinTolerance(n), tail))
  {
    WithinTextAppend(n, tail);
    WithinFormExact(n.subject, n.range, n.anchor, n.tolerance, tail);
  }

  /**
   * Round trip: the text of a well-formed node parses back to that node (a
   * within-node without its tolerance), and whatever follows a tolerance is
   * returned unconsumed rather than rejected.
   */
  lemma RoundTrip(n: Node, tail: string)
    requires WellFormed(n)
    requires n.tolerance.None? ==> tail == []
    requires tail == [] || IsSpace(tail[0])
    ensures Parse(NodeText(n) + tail) == Some((DropWithinTolerance(n), tail))
  {
    if n.Comparison? {
      ComparisonRoundTrip(n, tail);
    } else {
      WithinRoundTrip(n, tail);
    }
  }

  /** A within-node is the same with or without a trailing tolerance. */
  lemma WithinDropsTolerance(subject: Value, range: Value, anchor: Value, tolerance: Value)
    requires WellFormedValue(subject) && WellFormedValue(range) && WellFormedValue(anchor)
    requires WellFormedValue(tolerance)
    ensures Parse(NodeText(WithinRangeOf(subject, range, anchor, Some(tolerance))))
         == Parse(NodeText(WithinRangeOf(subject, range, anchor, None)))
         == Some((WithinRangeOf(subject, range, anchor, None), ""))
  {
    var with := WithinRangeOf(subject, range, anchor, Some(tolerance));
    var without := WithinRangeOf(subject, range, anchor, None);
    WithinRoundTrip(with, "");
    WithinRoundTrip(without, "");
    assert NodeText(with) + "" == NodeText(with);
    assert NodeText(without) + "" == NodeText(without);
  }

  /** The comparison-form succeeds only on input that holds a comparator character. */
  lemma ComparisonHasOperator(s: string)
    ensures ComparisonP(s).Some? ==>
      exists i :: 0 <= i < |s| && (s[i] == '<' || s[i] == '=' || s[i] == '>')
  {
    if ComparisonP(s).Some? {
      var left := ValueP(s).value;
      var afterLeft := Whitespace(left.1).value;
      SuffixTransitive(afterLeft, left.1, s);
      assert ComparatorP(afterLeft).Some?;
      assert s[|s| - |afterLeft|] == afterLeft[0];
    }
  }

  /** The within-form succeeds only on input in which the word `within` starts somewhere. */
  lemma WithinHasKeyword(s: string)
    ensures WithinP(s).Some? ==> exists k :: 0 <= k <= |s| && StartsWithI(s[k..], "within")
  {
    if WithinP(s).Some? {
      var subject := ValueP(s).value;
      assert SpacedWord("within", subject.1).Some?;
      var k :| 0 < k <= |subject.1| && All(IsSpace, subject.1[..k]) && StartsWithI(subject.1[k..], "within");
      assert s[|s| - |subject.1| + k..] == subject.1[k..];
    }
  }

  /**
   * Where `SpacedWord` finds its word: after `k` leading blanks, with everything it
   * hands back lying past the word.
   */
  lemma SpacedWordAt(w: string, s: string)
    requires SpacedWord(w, s).Some?
    ensures exists k ::
      0 < k && k + |w| <= |s| && All(IsSpace, s[..k])
      && StartsWithI(s[k..], w) && |SpacedWord(w, s).value| <= |s| - k - |w|
  {
    var r1 := Whitespace(s).value;
    var r2 := StrI(w, r1).value;
    var r3 := Whitespace(r2).value;
    var k := |s| - |r1|;
    assert s[k..] == r1;
    assert SpacedWord(w, s).value == r3;
  }

  /** The part after ` within ` succeeds only if `of` starts somewhere in it. */
  lemma RangeAndAnchorHasOf(s: string)
    requires RangeAndAnchor(s).Some?
    ensures exists j :: 0 <= j <= |s| && StartsWithI(s[j..], "of")
  {
    var a := RangeSplit(s);
    SpacedWordAt("of", a);
    var k :| 0 < k && k + 2 <= |a| && StartsWithI(a[k..], "of");
    assert s[|s| - |a| + k..] == a[k..];
  }

  /** A successful range-and-anchor part, taken apart at its keyword. */
  lemma RangeSplit(s: string) returns (a: string)
    requires RangeAndAnchor(s).Some?
    ensures IsSuffix(a, s) && SpacedWord("of", a).Some?
  {
    a := ValueP(s).value.1;
  }

  /** A successful within-form, taken apart at its keyword. */
  lemma WithinSplit(s: string) returns (a: string, r1: string)
    requires WithinP(s).Some?
    ensures IsSuffix(a, s) && SpacedWord("within", a) == Some(r1)
    ensures RangeAndAnchor(r1).Some?
  {
    a := ValueP(s).value.1;
    r1 := SpacedWord("within", a).value;
  }

  /** Index arithmetic: `within` found in a suffix `a`, then `of` in a later suffix `r1`. */
  lemma WithinThenOf(s: string, a: string, r1: string, k: nat, j: nat)
    requires IsSuffix(a, s) && IsSuffix(r1, a)
    requires k + 6 <= |a| && StartsWithI(a[k..], "within") && |r1| <= |a| - k - 6
    requires j <= |r1| && StartsWithI(r1[j..], "of")
    ensures 0 <= |s| - |a| + k < |s| - |r1| + j <= |s|
    ensures StartsWithI(s[|s| - |a| + k..], "within") && StartsWithI(s[|s| - |r1| + j..], "of")
  {
    assert s[|s| - |a| + k..] == a[k..];
    assert s[|s| - |r1| + j..] == r1[j..];
  }

  /** The within-form succeeds only if `within` starts somewhere and `of` starts later. */
  lemma WithinHasBothKeywords(s: string)
    ensures WithinP(s).Some? ==>
      exists k, j ::
        0 <= k < j <= |s| && StartsWithI(s[k..], "within") && StartsWithI(s[j..], "of")
  {
    if WithinP(s).Some? {
      var a, r1 := WithinSplit(s);
      SpacedWordAt("within", a);
      var k :| 0 < k && k + 6 <= |a| && StartsWithI(a[k..], "within") && |r1| <= |a| - k - 6;
      RangeAndAnchorHasOf(r1);
      var j :| 0 <= j <= |r1| && StartsWithI(r1[j..], "of");
      SuffixTransitive(r1, a, s);
      WithinThenOf(s, a, r1, k, j);
    }
  }

  /**
   * An input with no comparator character, and no `of` after any `within`, in any
   * letter case, does not parse, whatever else it holds.
   */
  lemma NoOperatorNoParse(s: string)
    requires forall i :: 0 <= i < |s| ==> s[i] != '<' && s[i] != '=' && s[i] != '>'
    requires forall k, j :: 0 <= k < j <= |s| && StartsWithI(s[k..], "within") ==> !StartsWithI(s[j..], "of")
    ensures Parse(s) == None
  {
    WithinHasBothKeywords(s);
    ComparisonHasOperator(s);
  }

  /** A value with neither a comparator nor `within ... of` after it is not an expression. */
  lemma LoneValueFails(v: Value)
    requires WellFormedValue(v)
    ensures Parse(ValueText(v)) == None
  {
    ValueExact(v, "");
    assert ValueText(v) + "" == ValueText(v);
  }

  /** The kind of value read says which alternatives failed before it. */
  lemma ValueAlternativeOrder(s: string)
    ensures ValueP(s).Some? && ValueP(s).value.0.PercentageValue? <==> PercentageP(s).Some?
    ensures ValueP(s).Some? && ValueP(s).value.0.TimeValue? <==>
      PercentageP(s).None? && TimeValueP(s).Some?
    ensures ValueP(s).Some? && ValueP(s).value.0.MemoryValue? <==>
      PercentageP(s).None? && TimeValueP(s).None? && MemoryValueP(s).Some?
    ensures ValueP(s).Some? && ValueP(s).value.0.PropertyAccess? <==>
      PercentageP(s).None? && TimeValueP(s).None? && MemoryValueP(s).None? && PropertyAccessP(s).Some?
  {
  }

  /** The within-form is tried first; the comparison-form is used only when it fails. */
  lemma ParseAlternativeOrder(s: string)
    ensures Parse(s).Some? && Parse(s).value.0.WithinRangeOf? <==> WithinP(s).Some?
    ensures Parse(s).Some? && Parse(s).value.0.Comparison? <==> WithinP(s).None? && ComparisonP(s).Some?
    ensures WithinP(s).Some? ==> Parse(s) == WithinP(s)
  {
  }

  /** Text starting with a digit is never read as a property path. */
  lemma DigitIsNeverPath(s: string)
    requires |s| > 0 && IsDigit(s[0])
    ensures ValueP(s).Some? ==> !ValueP(s).value.0.PropertyAccess?
  {
    ValueAlternativeOrder(s);
  }

  /** A property path has at least one dot: text without one is not a path. */
  lemma NoDotNoPath(s: string)
    requires '.' !in s
    ensures PropertyAccessP(s).None?
  {
  }

  /** `<=` is one comparator, never `<` with a leftover `=`; likewise `>=`. */
  lemma TwoCharacterComparators(rest: string)
    ensures ComparatorP("<=" + rest) == Some((LessThanOrEqual, rest))
    ensures ComparatorP(">=" + rest) == Some((GreaterThanOrEqual, rest))
  {
    assert ("<=" + rest)[..2] == "<=";
    assert (">=" + rest)[..2] == ">=";
    assert (">=" + rest)[..1] == ">";
  }

  /** Time-unit words are recognised without regard to case. */
  lemma {:induction false} TimeUnitsIgnoreCase(s: string, t: string)
    requires |s| == |t|
    requires forall i :: 0 <= i < |s| ==> Lower(s[i]) == Lower(t[i])
    ensures TimeUnitP(s).Some? <==> TimeUnitP(t).Some?
    ensures TimeUnitP(s).Some? ==>
      TimeUnitP(s).value.0 == TimeUnitP(t).value.0 && |TimeUnitP(s).value.1| == |TimeUnitP(t).value.1|
  {
    forall w: string ensures StartsWithI(s, w) <==> StartsWithI(t, w) {
    }
  }

  /** Memory-unit words are recognised without regard to case. */
  lemma {:induction false} MemoryUnitsIgnoreCase(s: string, t: string)
    requires |s| == |t|
    requires forall i :: 0 <= i < |s| ==> Lower(s[i]) == Lower(t[i])
    ensures MemoryUnitP(s).Some? <==> MemoryUnitP(t).Some?
    ensures MemoryUnitP(s).Some? ==>
      MemoryUnitP(s).value.0 == MemoryUnitP(t).value.0 && |MemoryUnitP(s).value.1| == |MemoryUnitP(t).value.1|
  {
    forall w: string ensures StartsWithI(s, w) <==> StartsWithI(t, w) {
    }
  }
}
