/**
 * The per-second layout (video models): the first `$<amount>` heading before any
 * "Quick comparison" line is the only record, named after the heading on the
 * line before it.
 */
module VideoScan {
  import opened Text
  import opened Patterns
  import opened Decimal
  import opened Records
  import opened Scan

  /** Line `i` is a `$<amount>` heading and no line up to it opens a
      comparison block. */
  predicate PriceLine(lines: seq<string>, i: nat)
  {
    i < |lines| && !ComparisonOpened(lines, i + 1) && Group(Strip(lines[i]), DollarLiteral).Some?
  }

  function PriceLines(lines: seq<string>): nat -> bool
  {
    (i: nat) => PriceLine(lines, i)
  }

  /** The first such line. */
  function FirstPriceLine(lines: seq<string>): Option<nat>
  {
    Leftmost(PriceLines(lines), 0, |lines|)
  }

  /** `m.group(1)` of `"?(.+?)"?$` on the heading of the line before `i`, or
      empty when there is none. */
  function Description(lines: seq<string>, i: nat): string
    requires i < |lines|
  {
    if i > 0 then
      match Group(Strip(lines[i - 1]), AnyText)
      case Some(d) => d
      case None => ""
    else ""
  }

  function SecondUnit(desc: string): string
  {
    if desc != "" then "Per Second (" + desc + ")" else "Per Second"
  }

  /** The record of a price line: the described unit and the literal as
      written. */
  function PriceRecord(lines: seq<string>, i: nat): Record
    requires PriceLine(lines, i)
  {
    Record(SecondUnit(Description(lines, i)), Group(Strip(lines[i]), DollarLiteral).value)
  }

  /** The pricing list of a per-second section. */
  function VideoPricing(lines: seq<string>): seq<Record>
  {
    LeftmostSpec(PriceLines(lines), 0, |lines|);
    assert forall j: nat :: PriceLines(lines)(j) == PriceLine(lines, j);
    match FirstPriceLine(lines)
    case None => []
    case Some(i) => [PriceRecord(lines, i)]
  }

  /** The per-second branch of `extract_pricing_from_snapshot`. */
  method ScanVideo(lines: seq<string>) returns (pricing: seq<Record>)
    ensures pricing == VideoPricing(lines)
  {
    pricing := [];
    var quiet := false;
    var i := 0;
    while i < |lines|
      invariant i <= |lines|
      invariant quiet == ComparisonOpened(lines, i)
      invariant Leftmost(PriceLines(lines), i, |lines|) == FirstPriceLine(lines)
    {
      var stripped := Strip(lines[i]);
      if OpensComparison(stripped) {
        quiet := true;
      }
      ComparisonOpenedStep(lines, i);
      var price := None;
      if !quiet {
        price := Group(stripped, DollarLiteral);
      }
      PriceLineAt(lines, i, quiet, price);
      if price.Some? {
        pricing := [Record(SecondUnit(Description(lines, i)), price.value)];
        break;
      }
      i := i + 1;
    }
  }

  /** How the scan decides whether line `i` is a price line. */
  lemma PriceLineAt(lines: seq<string>, i: nat, quiet: bool, price: Option<string>)
    requires i < |lines| && quiet == ComparisonOpened(lines, i + 1)
    requires price == if quiet then None else Group(Strip(lines[i]), DollarLiteral)
    ensures Leftmost(PriceLines(lines), i, |lines|)
            == if price.Some? then Some(i) else Leftmost(PriceLines(lines), i + 1, |lines|)
    ensures price.Some? ==> PriceRecord(lines, i) == Record(SecondUnit(Description(lines, i)), price.value)
  {
    LeftmostStep(PriceLines(lines), i, |lines|);
    assert PriceLines(lines)(i) == PriceLine(lines, i);
  }

  /** The list holds one record exactly when some line is a price line, and
      then it is the record of the first one. */
  lemma VideoPricingIff(lines: seq<string>)
    ensures |VideoPricing(lines)| <= 1
    ensures |VideoPricing(lines)| == 1 <==> exists i :: 0 <= i < |lines| && PriceLine(lines, i)
    ensures |VideoPricing(lines)| == 1 ==>
              exists i: nat :: PriceLine(lines, i) && VideoPricing(lines)[0] == PriceRecord(lines, i)
                          && forall j :: 0 <= j < i ==> !PriceLine(lines, j)
  {
    LeftmostSpec(PriceLines(lines), 0, |lines|);
    assert forall j: nat :: PriceLines(lines)(j) == PriceLine(lines, j);
    match FirstPriceLine(lines)
    case Some(i) =>
      assert PriceLine(lines, i) && forall j :: 0 <= j < i ==> !PriceLine(lines, j);
    case None =>
  }

  /** The record's price is the literal as written and its unit names the
      description when there is one. */
  lemma PriceRecordShape(lines: seq<string>, i: nat)
    requires PriceLine(lines, i)
    ensures IsLiteral(PriceRecord(lines, i).price)
    ensures var d := Description(lines, i);
            PriceRecord(lines, i).unitType == (if d == "" then "Per Second" else "Per Second (" + d + ")")
    ensures i > 0 && HasHeading(Strip(lines[i - 1]), AnyText) ==> Description(lines, i) != ""
  {
  }

  /** The first price line is a price line. */
  lemma FirstPriceLineFound(lines: seq<string>)
    ensures FirstPriceLine(lines).Some? ==> PriceLine(lines, FirstPriceLine(lines).value)
  {
    LeftmostSpec(PriceLines(lines), 0, |lines|);
    if FirstPriceLine(lines).Some? {
      assert PriceLines(lines)(FirstPriceLine(lines).value);
    }
  }

  /** Every price in the list is a `$<amount>` literal as written. */
  lemma VideoPricingLiteral(lines: seq<string>)
    ensures forall r :: r in VideoPricing(lines) ==> IsLiteral(r.price)
  {
    match FirstPriceLine(lines)
    case None =>
    case Some(i) =>
      FirstPriceLineFound(lines);
      PriceRecordShape(lines, i);
      assert VideoPricing(lines) == [PriceRecord(lines, i)];
  }
}
