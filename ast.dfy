/**
 * The abstract syntax of performance assertions (`mode.time < 5 seconds +/- 10%`,
 * `mode.mem within 2% of baseline.mem`), together with the canonical surface text
 * of every node. The text functions are the reference the parser is proved
 * against: parsing the text of a well-formed node gives back that node.
 */
module Ast {
  import opened Optional

  predicate IsDigit(c: char) { '0' <= c <= '9' }

  /** The characters of one property-path segment: a letter or `_`. */
  predicate IsSegmentChar(c: char) { 'a' <= c <= 'z' || 'A' <= c <= 'Z' || c == '_' }

  predicate All(p: char -> bool, s: string) { forall i :: 0 <= i < |s| ==> p(s[i]) }

  /**
   * A number as the grammar reads it: a run of digits, optionally followed by `.`
   * and a second run of digits. The digits are kept as text; their value is not
   * computed.
   */
  datatype Numeral = Numeral(whole: string, fraction: Option<string>)

  datatype TimeUnit = Microseconds | Milliseconds | Seconds

  datatype MemoryUnit = Bytes | Kilobytes | Megabytes | Gigabytes

  /** The value nodes. */
  datatype Value =
    | PercentageValue(magnitude: Numeral)
    | TimeValue(magnitude: Numeral, timeUnit: TimeUnit)
    | MemoryValue(magnitude: Numeral, memoryUnit: MemoryUnit)
    | PropertyAccess(segments: seq<string>)

  datatype Comparator = LessThanOrEqual | LessThan | Equal | GreaterThanOrEqual | GreaterThan

  /** The root nodes: the only nodes a parse produces. */
  datatype Node =
    | Comparison(left: Value, operator: Comparator, right: Value, tolerance: Option<Value>)
    | WithinRangeOf(subject: Value, range: Value, anchor: Value, tolerance: Option<Value>)

  predicate ValidDigits(d: string) { |d| > 0 && All(IsDigit, d) }

  predicate ValidNumeral(n: Numeral) {
    ValidDigits(n.whole) && (n.fraction.Some? ==> ValidDigits(n.fraction.value))
  }

  predicate ValidSegment(segment: string) { |segment| > 0 && All(IsSegmentChar, segment) }

  /** The shape every value the parser builds has. */
  predicate WellFormedValue(v: Value) {
    match v
    case PercentageValue(m) => ValidNumeral(m)
    case TimeValue(m, _) => ValidNumeral(m)
    case MemoryValue(m, _) => ValidNumeral(m)
    case PropertyAccess(segments) =>
      |segments| >= 2 && forall segment :: segment in segments ==> ValidSegment(segment)
  }

  predicate WellFormedTolerance(t: Option<Value>) { t.Some? ==> WellFormedValue(t.value) }

  predicate WellFormed(n: Node) {
    match n
    case Comparison(left, _, right, t) =>
      WellFormedValue(left) && WellFormedValue(right) && WellFormedTolerance(t)
    case WithinRangeOf(subject, range, anchor, t) =>
      WellFormedValue(subject) && WellFormedValue(range) && WellFormedValue(anchor) && WellFormedTolerance(t)
  }

  function TimeUnitWord(u: TimeUnit): string {
    match u
    case Microseconds => "microseconds"
    case Milliseconds => "milliseconds"
    case Seconds => "seconds"
  }

  function MemoryUnitWord(u: MemoryUnit): string {
    match u
    case Bytes => "bytes"
    case Kilobytes => "kilobytes"
    case Megabytes => "megabytes"
    case Gigabytes => "gigabytes"
  }

  function ComparatorSymbol(op: Comparator): string {
    match op
    case LessThanOrEqual => "<="
    case LessThan => "<"
    case Equal => "="
    case GreaterThanOrEqual => ">="
    case GreaterThan => ">"
  }

  function NumeralText(n: Numeral): string {
    match n.fraction
    case None => n.whole
    case Some(f) => n.whole + ("." + f)
  }

  /** `.s1.s2...`: every segment preceded by a dot. */
  function DottedTail(segments: seq<string>): string {
    if segments == [] then "" else "." + (segments[0] + DottedTail(segments[1..]))
  }

  /** `s0.s1...`: the segments joined by dots. */
  function PathText(segments: seq<string>): string {
    if segments == [] then "" else segments[0] + DottedTail(segments[1..])
  }

  function ValueText(v: Value): string {
    match v
    case PercentageValue(m) => NumeralText(m) + "%"
    case TimeValue(m, u) => NumeralText(m) + (" " + TimeUnitWord(u))
    case MemoryValue(m, u) => NumeralText(m) + (" " + MemoryUnitWord(u))
    case PropertyAccess(segments) => PathText(segments)
  }

  function ToleranceText(t: Option<Value>): string {
    match t
    case None => ""
    case Some(v) => " " + ("+/-" + (" " + ValueText(v)))
  }

  function NodeText(n: Node): string {
    match n
    case Comparison(left, op, right, t) =>
      ValueText(left) + (" " + (ComparatorSymbol(op) + (" " + (ValueText(right) + ToleranceText(t)))))
    case WithinRangeOf(subject, range, anchor, t) =>
      ValueText(subject) + (" " + ("within" + (" " + (ValueText(range)
        + (" " + ("of" + (" " + (ValueText(anchor) + ToleranceText(t)))))))))
  }
}
