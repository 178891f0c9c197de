/**
 * The fallback layout: every `Cached input` / `Input` / `Output` heading priced
 * by the next line, with no subsections and no comparison blocks, the first
 * record of each label winning; a section that yields none but has a `Free`
 * heading is priced at zero.
 */
module FallbackScan {
  import opened Text
  import opened Patterns
  import opened Decimal
  import opened Records
  import opened Scan

  /** The record the heading for `name` on line `i` offers. */
  function LabelOffer(lines: seq<string>, i: nat, name: string): Option<Record>
    requires i < |lines|
  {
    if Heading(Strip(lines[i]), name) then
      match NextPrice(lines, i)
      case Some(a) => Some(Record(name, PerMillion(a)))
      case None => None
    else None
  }

  /** The records the label headings on line `i` offer, label by label. */
  function LineOffers(lines: seq<string>, i: nat): (os: seq<Option<Record>>)
    requires i < |lines|
    ensures |os| == |PriceLabels|
    ensures forall k :: 0 <= k < |PriceLabels| ==> os[k] == LabelOffer(lines, i, PriceLabels[k])
  {
    seq(|PriceLabels|, k requires 0 <= k < |PriceLabels| => LabelOffer(lines, i, PriceLabels[k]))
  }

  function Rows(lines: seq<string>): nat -> seq<Option<Record>>
  {
    (i: nat) => if i < |lines| then LineOffers(lines, i) else []
  }

  /** The records the first `n` lines offer, line by line. */
  function Offers(lines: seq<string>, n: nat): seq<Option<Record>>
  {
    Concat(Rows(lines), n)
  }

  /** The records the label headings give, the first of each label kept. */
  function LabelPricing(lines: seq<string>): seq<Record>
  {
    Dedup(Flatten(Offers(lines, |lines|)))
  }

  predicate FreeLine(lines: seq<string>, i: nat)
  {
    i < |lines| && Heading(Strip(lines[i]), "Free")
  }

  function FreeLines(lines: seq<string>): nat -> bool
  {
    (i: nat) => FreeLine(lines, i)
  }

  function FirstFreeLine(lines: seq<string>): Option<nat>
  {
    Leftmost(FreeLines(lines), 0, |lines|)
  }

  /** The record a `Free` heading gives. */
  const FreeRecord: Record := Record("Input", "0")

  /** The pricing list of a fallback section. */
  function FallbackPricing(lines: seq<string>): seq<Record>
  {
    var p := LabelPricing(lines);
    if p != [] then p else if FirstFreeLine(lines).Some? then [FreeRecord] else []
  }

  /** The fallback branch of `extract_pricing_from_snapshot`. */
  method ScanFallback(lines: seq<string>) returns (pricing: seq<Record>)
    ensures pricing == FallbackPricing(lines)
  {
    pricing := ScanLabels(lines);
    if |pricing| == 0 {
      var i := 0;
      while i < |lines|
        invariant i <= |lines|
        invariant Leftmost(FreeLines(lines), i, |lines|) == FirstFreeLine(lines)
      {
        LeftmostStep(FreeLines(lines), i, |lines|);
        assert FreeLines(lines)(i) == FreeLine(lines, i);
        if Heading(Strip(lines[i]), "Free") {
          pricing := [FreeRecord];
          break;
        }
        i := i + 1;
      }
    }
  }

  /** The label loops of the fallback branch. */
  method ScanLabels(lines: seq<string>) returns (pricing: seq<Record>)
    ensures pricing == LabelPricing(lines)
  {
    pricing := [];
    var i := 0;
    while i < |lines|
      invariant i <= |lines|
      invariant pricing == Dedup(Flatten(Offers(lines, i)))
    {
      pricing := ScanLine(lines, i, Offers(lines, i), pricing);
      ConcatSnoc(Rows(lines), i);
      assert Rows(lines)(i) == LineOffers(lines, i);
      i := i + 1;
    }
  }

  /** The inner loop over the labels for line `i`: each label heading priced
      by the next line is added when its label is new. */
  method ScanLine(lines: seq<string>, i: nat, ghost os: seq<Option<Record>>, pricing: seq<Record>)
    returns (pricing': seq<Record>)
    requires i < |lines| && pricing == Dedup(Flatten(os))
    ensures pricing' == Dedup(Flatten(os + LineOffers(lines, i)))
  {
    pricing' := pricing;
    var stripped := Strip(lines[i]);
    var k := 0;
    while k < |PriceLabels|
      invariant k <= |PriceLabels|
      invariant pricing' == RowPrefix(lines, i, os, k)
    {
      pricing' := ScanLabel(lines, i, stripped, PriceLabels[k], pricing');
      k := k + 1;
    }
    RowPrefixOffers(lines, i, os, k);
    assert LineOffers(lines, i)[..k] == LineOffers(lines, i);
  }

  /** The records after the labels before `k` on line `i` are scanned. */
  ghost function RowPrefix(lines: seq<string>, i: nat, os: seq<Option<Record>>, k: nat): seq<Record>
    requires i < |lines| && k <= |PriceLabels|
  {
    if k == 0 then Dedup(Flatten(os))
    else Include(RowPrefix(lines, i, os, k - 1), LabelOffer(lines, i, PriceLabels[k - 1]))
  }

  /** Scanning the labels before `k` adds the first `k` offers of the line. */
  lemma {:induction false} RowPrefixOffers(lines: seq<string>, i: nat, os: seq<Option<Record>>, k: nat)
    requires i < |lines| && k <= |PriceLabels|
    ensures RowPrefix(lines, i, os, k) == Dedup(Flatten(os + LineOffers(lines, i)[..k]))
  {
    if k == 0 {
      assert os + LineOffers(lines, i)[..0] == os;
    } else {
      RowPrefixOffers(lines, i, os, k - 1);
      DedupFlattenRow(os, LineOffers(lines, i), k - 1);
    }
  }

  /** One pass of the label loop: the heading for `name` priced by the next
      line adds its record when the label is new. */
  method ScanLabel(lines: seq<string>, i: nat, stripped: string, name: string, pricing: seq<Record>)
    returns (pricing': seq<Record>)
    requires i < |lines| && stripped == Strip(lines[i])
    ensures pricing' == Include(pricing, LabelOffer(lines, i, name))
  {
    pricing' := pricing;
    if Heading(stripped, name) {
      var price := NextPrice(lines, i);
      if price.Some? && !HasUnit(pricing, name) {
        pricing' := pricing + [Record(name, PerMillion(price.value))];
      }
    }
  }

  /** Every record a label heading offers is named after the label and priced
      with decimal text. */
  lemma OfferShape(lines: seq<string>, i: nat, name: string)
    requires i < |lines| && LabelOffer(lines, i, name).Some?
    ensures LabelOffer(lines, i, name).value.unitType == name
    ensures IsDecimalText(LabelOffer(lines, i, name).value.price)
  {
    PerMillionIsDecimal(NextPrice(lines, i).value);
  }

  /** The price a label heading offers is the per-million rendering of the
      literal on the next line, exact for at most four decimals. */
  lemma OfferExact(lines: seq<string>, i: nat, name: string)
    requires i < |lines| && LabelOffer(lines, i, name).Some?
    ensures PricedByNextLine(lines, i, LabelOffer(lines, i, name).value.price)
  {
    NextPriceExact(lines, i);
  }

  /** Every offer of the section is the offer of a label on one of its
      lines. */
  lemma OfferOrigin(lines: seq<string>, o: Option<Record>)
    requires o in Offers(lines, |lines|)
    ensures exists i, k :: 0 <= i < |lines| && 0 <= k < |PriceLabels| && o == LabelOffer(lines, i, PriceLabels[k])
  {
    ConcatFrom(Rows(lines), |lines|, o);
    var i: nat, k: nat :| i < |lines| && k < |Rows(lines)(i)| && Rows(lines)(i)[k] == o;
    assert LineOffers(lines, i)[k] == o;
  }

  /** The offer of each label on each line is among the offers. */
  lemma OfferPresent(lines: seq<string>, i: nat, k: nat)
    requires i < |lines| && k < |PriceLabels|
    ensures LabelOffer(lines, i, PriceLabels[k]) in Offers(lines, |lines|)
  {
    assert Rows(lines)(i) == LineOffers(lines, i);
    ConcatHas(Rows(lines), |lines|, i, k);
  }

  /** The label records: no label twice, each a price label with a decimal
      price. */
  lemma LabelPricingShape(lines: seq<string>)
    ensures UniqueUnits(LabelPricing(lines))
    ensures forall r :: r in LabelPricing(lines) ==> r.unitType in PriceLabels && IsDecimalText(r.price)
  {
    var os := Offers(lines, |lines|);
    DedupUnique(Flatten(os));
    DedupSubset(Flatten(os));
    FlattenMember(os);
    forall r | r in LabelPricing(lines) ensures r.unitType in PriceLabels && IsDecimalText(r.price) {
      var t :| 0 <= t < |os| && os[t] == Some(r);
      OfferOrigin(lines, os[t]);
      var i, k :| 0 <= i < |lines| && 0 <= k < |PriceLabels| && os[t] == LabelOffer(lines, i, PriceLabels[k]);
      OfferShape(lines, i, PriceLabels[k]);
    }
  }

  /** Every label record is offered by the heading for its label on some
      line and priced by the literal on the line after it. */
  lemma LabelPricingExact(lines: seq<string>, r: Record) returns (i: nat)
    requires r in LabelPricing(lines)
    ensures i < |lines| && LabelOffer(lines, i, r.unitType) == Some(r)
    ensures PricedByNextLine(lines, i, r.price)
  {
    var os := Offers(lines, |lines|);
    DedupSubset(Flatten(os));
    FlattenMember(os);
    var t :| 0 <= t < |os| && os[t] == Some(r);
    OfferOrigin(lines, os[t]);
    var k: nat;
    i, k :| 0 <= i < |lines| && 0 <= k < |PriceLabels| && os[t] == LabelOffer(lines, i, PriceLabels[k]);
    OfferShape(lines, i, PriceLabels[k]);
    OfferExact(lines, i, PriceLabels[k]);
  }

  /** No line offers a label record. */
  predicate Unpriced(lines: seq<string>)
  {
    forall i, k :: 0 <= i < |lines| && 0 <= k < |PriceLabels| ==> LabelOffer(lines, i, PriceLabels[k]).None?
  }

  /** No label record exactly when no label heading is priced by its next
      line. */
  lemma LabelPricingEmpty(lines: seq<string>)
    ensures LabelPricing(lines) == [] <==> Unpriced(lines)
  {
    var os := Offers(lines, |lines|);
    DedupEmpty(Flatten(os));
    FlattenEmpty(os);
    if LabelPricing(lines) == [] {
      forall i, k | 0 <= i < |lines| && 0 <= k < |PriceLabels|
        ensures LabelOffer(lines, i, PriceLabels[k]).None?
      {
        OfferPresent(lines, i, k);
      }
    }
    if Unpriced(lines) {
      forall t | 0 <= t < |os| ensures os[t].None? {
        OfferOrigin(lines, os[t]);
      }
    }
  }

  /** Without label records the list is the zero `Input` price exactly when
      some line is a `Free` heading, and empty otherwise. */
  lemma FreeIff(lines: seq<string>)
    requires LabelPricing(lines) == []
    ensures FallbackPricing(lines) == [FreeRecord] <==> exists i :: 0 <= i < |lines| && FreeLine(lines, i)
    ensures FallbackPricing(lines) == [] <==> forall i :: 0 <= i < |lines| ==> !FreeLine(lines, i)
  {
    LeftmostSpec(FreeLines(lines), 0, |lines|);
    assert forall j: nat :: FreeLines(lines)(j) == FreeLine(lines, j);
    if exists i :: 0 <= i < |lines| && FreeLine(lines, i) {
      var i :| 0 <= i < |lines| && FreeLine(lines, i);
      assert FreeLines(lines)(i);
    }
  }

  /** The fallback list: no unit type twice, and each record is a price label
      with a decimal price or the zero `Input` price. */
  lemma FallbackPricingShape(lines: seq<string>)
    ensures UniqueUnits(FallbackPricing(lines))
    ensures forall r :: r in FallbackPricing(lines)
                        ==> (r.unitType in PriceLabels && IsDecimalText(r.price)) || r == FreeRecord
  {
    LabelPricingShape(lines);
  }
}
