/**
 * The cost-only layout (embedding models): the first `Cost` heading before any
 * "Quick comparison" line whose next line carries a `$` price is the only
 * record, an `Input` price per million units.
 */
module CostScan {
  import opened Text
  import opened Patterns
  import opened Decimal
  import opened Records
  import opened Scan

  /** Line `i` is a `Cost` heading priced by the next line, and no line up to
      it opens a comparison block. */
  predicate CostLine(lines: seq<string>, i: nat)
  {
    i < |lines| && !ComparisonOpened(lines, i + 1) && Heading(Strip(lines[i]), "Cost")
    && NextPrice(lines, i).Some?
  }

  function CostLines(lines: seq<string>): nat -> bool
  {
    (i: nat) => CostLine(lines, i)
  }

  /** The first cost line, if any. */
  function FirstCostLine(lines: seq<string>): Option<nat>
  {
    Leftmost(CostLines(lines), 0, |lines|)
  }

  /** The first cost line found is a cost line. */
  lemma FirstCostLineFound(lines: seq<string>)
    ensures FirstCostLine(lines).Some? ==> CostLine(lines, FirstCostLine(lines).value)
  {
    LeftmostSpec(CostLines(lines), 0, |lines|);
    if FirstCostLine(lines).Some? {
      assert CostLines(lines)(FirstCostLine(lines).value);
    }
  }

  /** No line before the first cost line is one, and none at all when there
      is no first. */
  lemma FirstCostLineSpec(lines: seq<string>)
    ensures var r := FirstCostLine(lines);
            (r.Some? ==> CostLine(lines, r.value) && forall j :: 0 <= j < r.value ==> !CostLine(lines, j))
            && (r.None? ==> forall j :: 0 <= j < |lines| ==> !CostLine(lines, j))
  {
    LeftmostSpec(CostLines(lines), 0, |lines|);
    assert forall j: nat :: CostLines(lines)(j) == CostLine(lines, j);
  }

  /** The record of a cost line. */
  function CostRecord(lines: seq<string>, i: nat): Record
    requires CostLine(lines, i)
  {
    Record("Input", PerMillion(NextPrice(lines, i).value))
  }

  /** The pricing list of a cost-only section. */
  function CostPricing(lines: seq<string>): seq<Record>
  {
    FirstCostLineFound(lines);
    match FirstCostLine(lines)
    case None => []
    case Some(i) => [CostRecord(lines, i)]
  }

  /** The cost-only branch of `extract_pricing_from_snapshot`. The unit basis
      looked up in the ten lines before a cost line does not change the
      price, so it is not computed. */
  method ScanCost(lines: seq<string>) returns (pricing: seq<Record>)
    ensures pricing == CostPricing(lines)
  {
    pricing := [];
    var quiet := false;
    var i := 0;
    while i < |lines|
      invariant i <= |lines|
      invariant quiet == ComparisonOpened(lines, i)
      invariant Leftmost(CostLines(lines), i, |lines|) == FirstCostLine(lines)
    {
      var stripped := Strip(lines[i]);
      if OpensComparison(stripped) {
        quiet := true;
      }
      ComparisonOpenedStep(lines, i);
      var heading := Heading(stripped, "Cost");
      var price := None;
      if !quiet && heading {
        price := NextPrice(lines, i);
      }
      CostLineAt(lines, i, quiet, heading, price);
      if price.Some? {
        pricing := [Record("Input", PerMillion(price.value))];
        break;
      }
      i := i + 1;
    }
  }

  /** How the scan decides whether line `i` is a cost line. */
  lemma CostLineAt(lines: seq<string>, i: nat, quiet: bool, heading: bool, price: Option<Amount>)
    requires i < |lines| && quiet == ComparisonOpened(lines, i + 1)
    requires heading == Heading(Strip(lines[i]), "Cost")
    requires price == if !quiet && heading then NextPrice(lines, i) else None
    ensures Leftmost(CostLines(lines), i, |lines|)
            == if price.Some? then Some(i) else Leftmost(CostLines(lines), i + 1, |lines|)
    ensures price.Some? ==> CostRecord(lines, i) == Record("Input", PerMillion(price.value))
  {
    LeftmostStep(CostLines(lines), i, |lines|);
    assert CostLines(lines)(i) == CostLine(lines, i);
  }

  /** The list holds at most one record, and one exactly when some line is a
      cost line. */
  lemma CostPricingIff(lines: seq<string>)
    ensures |CostPricing(lines)| <= 1
    ensures |CostPricing(lines)| == 1 <==> exists i :: 0 <= i < |lines| && CostLine(lines, i)
  {
    FirstCostLineSpec(lines);
    if FirstCostLine(lines).Some? {
      assert CostLine(lines, FirstCostLine(lines).value);
    }
  }

  /** The record is the one of the first cost line. */
  lemma CostPricingFirst(lines: seq<string>)
    requires |CostPricing(lines)| == 1
    ensures exists i: nat :: CostLine(lines, i) && CostPricing(lines)[0] == CostRecord(lines, i)
                             && forall j :: 0 <= j < i ==> !CostLine(lines, j)
  {
    FirstCostLineSpec(lines);
    var i := FirstCostLine(lines).value;
    assert CostLine(lines, i);
  }

  /** The record is an `Input` price in decimal notation. */
  lemma CostRecordShape(lines: seq<string>, i: nat)
    requires CostLine(lines, i)
    ensures CostRecord(lines, i).unitType == "Input"
    ensures IsDecimalText(CostRecord(lines, i).price)
  {
    PerMillionIsDecimal(NextPrice(lines, i).value);
  }

  /** The price is the amount divided by a million, exactly when the amount
      has at most four decimals. */
  lemma CostRecordExact(lines: seq<string>, i: nat)
    requires CostLine(lines, i)
    ensures var a := NextPrice(lines, i).value;
            |a.frac| <= 4 ==> DenotesValue(CostRecord(lines, i).price, Mantissa(a), |a.frac| + 6)
  {
    var a := NextPrice(lines, i).value;
    if |a.frac| <= 4 {
      PerMillionExact(a);
    }
  }

  /** Every record of the list is an `Input` price in decimal notation. */
  lemma CostPricingShape(lines: seq<string>)
    ensures forall r :: r in CostPricing(lines) ==> InputDecimal(r)
  {
    match FirstCostLine(lines)
    case None =>
    case Some(i) =>
      FirstCostLineFound(lines);
      CostRecordShape(lines, i);
      assert CostPricing(lines) == [CostRecord(lines, i)];
  }

  /** An `Input` record with a price in decimal notation. */
  predicate InputDecimal(r: Record)
  {
    r.unitType == "Input" && IsDecimalText(r.price)
  }
}
