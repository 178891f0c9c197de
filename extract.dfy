/**
 * `extract_pricing_from_snapshot`: split the snapshot into lines, find the
 * pricing section, bound it, classify it and hand it to the scanner of its
 * layout.
 */
module Extract {
  import opened Text
  import opened Decimal
  import opened Patterns
  import opened Records
  import opened Section
  import TokenScan
  import ImageScan
  import UseCaseScan
  import VideoScan
  import CostScan
  import FallbackScan

  /** The lines of the pricing section that starts at `start`. */
  function SectionLines(lines: seq<string>, start: nat): (s: seq<string>)
    requires start < |lines|
    ensures 1 <= |s| <= MaxSectionLines
    ensures s == lines[start..SectionEnd(lines, start)]
  {
    lines[start..SectionEnd(lines, start)]
  }

  /** The records the scanner of the section's layout reads from it. */
  function LayoutPricing(layout: Layout, section: seq<string>): seq<Record>
  {
    match layout
    case TokenBased => TokenScan.TokenPricing(section)
    case ImageBased => ImageScan.ImagePricing(section)
    case UseCaseCost => UseCaseScan.UseCasePricing(section)
    case PerSecondVideo => VideoScan.VideoPricing(section)
    case CostOnly => CostScan.CostPricing(section)
    case Fallback => FallbackScan.FallbackPricing(section)
  }

  /** The pricing section of a snapshot, when it has one. */
  function SnapshotSection(text: string): (s: Option<seq<string>>)
    ensures s.None? <==> PricingStart(Split(text)).None?
  {
    var lines := Split(text);
    match PricingStart(lines)
    case None => None
    case Some(start) => Some(SectionLines(lines, start))
  }

  /** The records extracted from a snapshot. */
  function SnapshotPricing(text: string): seq<Record>
  {
    match SnapshotSection(text)
    case None => []
    case Some(section) => LayoutPricing(Classify(section), section)
  }

  /** `extract_pricing_from_snapshot(snapshot_text, model_name)`; the model
      name is not used. */
  method ExtractPricingFromSnapshot(snapshotText: string, modelName: string) returns (pricing: seq<Record>)
    ensures pricing == SnapshotPricing(snapshotText)
  {
    pricing := [];
    var lines := Split(snapshotText);
    var pricingStart := FindPricingSection(lines);
    if pricingStart.None? {
      return;
    }
    var start := pricingStart.value;
    var pricingEnd := FindSectionEnd(lines, start);
    var section := lines[start..pricingEnd];
    var layout := Classify(section);
    match layout
    case TokenBased =>
      pricing := TokenScan.ScanTokens(section);
    case ImageBased =>
      pricing := ImageScan.ScanImages(section);
    case UseCaseCost =>
      pricing := UseCaseScan.ScanUseCases(section);
    case PerSecondVideo =>
      pricing := VideoScan.ScanVideo(section);
    case CostOnly =>
      pricing := CostScan.ScanCost(section);
    case Fallback =>
      pricing := FallbackScan.ScanFallback(section);
  }

  /** The loop that bounds the section: from ten lines past the start up to
      150 lines past it, the first next-section heading ends it. */
  method FindSectionEnd(lines: seq<string>, start: nat) returns (pricingEnd: nat)
    requires start < |lines|
    ensures pricingEnd == SectionEnd(lines, start)
  {
    pricingEnd := Min(start + MaxSectionLines, |lines|);
    var limit := pricingEnd;
    var i := start + MinSectionLines;
    while i < limit
      invariant StopFrom(lines, i, limit) == SectionEnd(lines, start)
      decreases limit - i
    {
      var stripped := Strip(lines[i]);
      if MatchesLine(stripped, OneOf(StopHeadings)) {
        pricingEnd := i;
        return;
      }
      i := i + 1;
    }
  }

  /** A snapshot yields records only when it has a pricing heading confirmed
      by the phrase "Pricing is based on" within the next five lines, and the
      section read starts at the first such heading. */
  lemma PricingNeedsSection(text: string)
    ensures SnapshotPricing(text) != [] ==> exists i :: IsPricingStart(Split(text), i)
    ensures (forall i :: 0 <= i < |Split(text)| ==> !IsPricingStart(Split(text), i)) ==> SnapshotPricing(text) == []
  {
    var lines := Split(text);
    match PricingStart(lines)
    case None =>
    case Some(start) =>
      assert IsPricingStart(lines, start);
  }

  /** The section starts at its pricing heading, spans at most 150 lines and
      holds no next-section heading from its eleventh line on. */
  lemma SectionShape(text: string)
    requires SnapshotSection(text).Some?
    ensures var s := SnapshotSection(text).value;
            1 <= |s| <= MaxSectionLines && IsPricingHeading(s[0])
            && forall j :: MinSectionLines <= j < |s| ==> !IsStopHeading(s[j])
  {
    var lines := Split(text);
    var start := PricingStart(lines).value;
    var s := SectionLines(lines, start);
    assert s[0] == lines[start];
    forall j | MinSectionLines <= j < |s|
      ensures !IsStopHeading(s[j])
    {
      assert s[j] == lines[start + j];
    }
  }

  /** Every price of the list is plain decimal notation. */
  predicate DecimalPrices(rs: seq<Record>)
  {
    forall r :: r in rs ==> IsDecimalText(r.price)
  }

  lemma ImagePricesDecimal(section: seq<string>)
    ensures DecimalPrices(ImageScan.ImagePricing(section))
  {
    ImageScan.ImagePricingShape(section);
    LiteralPrices(ImageScan.ImagePricing(section));
  }

  lemma VideoPricesDecimal(section: seq<string>)
    ensures DecimalPrices(VideoScan.VideoPricing(section))
  {
    VideoScan.VideoPricingLiteral(section);
    LiteralPrices(VideoScan.VideoPricing(section));
  }

  lemma LiteralPrices(p: seq<Record>)
    requires forall r :: r in p ==> IsLiteral(r.price)
    ensures DecimalPrices(p)
  {
    forall r | r in p
      ensures IsDecimalText(r.price)
    {
      LiteralDecimal(r.price);
    }
  }

  lemma FallbackPricesDecimal(section: seq<string>)
    ensures DecimalPrices(FallbackScan.FallbackPricing(section))
  {
    FallbackScan.FallbackPricingShape(section);
    assert IntegerPart(FallbackScan.FreeRecord.price) == "0";
  }

  /** Every price a scanner reads is plain decimal notation. */
  lemma LayoutPricesDecimal(layout: Layout, section: seq<string>)
    ensures DecimalPrices(LayoutPricing(layout, section))
  {
    match layout
    case TokenBased =>
      TokenScan.TokenPricingShape(section);
    case ImageBased =>
      ImagePricesDecimal(section);
    case UseCaseCost =>
      UseCaseScan.UseCasePricingShape(section);
    case PerSecondVideo =>
      VideoPricesDecimal(section);
    case CostOnly =>
      CostScan.CostPricingShape(section);
      assert forall r :: r in CostScan.CostPricing(section) ==> CostScan.InputDecimal(r);
    case Fallback =>
      FallbackPricesDecimal(section);
  }

  lemma SnapshotPricesDecimal(text: string)
    ensures DecimalPrices(SnapshotPricing(text))
  {
    match SnapshotSection(text)
    case None =>
    case Some(section) =>
      LayoutPricesDecimal(Classify(section), section);
  }

  /** The layouts that read one price per unit never report a unit twice;
      the per-second and cost-only layouts report at most one record. */
  lemma LayoutUnits(layout: Layout, section: seq<string>)
    ensures layout != ImageBased && layout != UseCaseCost ==> UniqueUnits(LayoutPricing(layout, section))
    ensures layout == PerSecondVideo || layout == CostOnly ==> |LayoutPricing(layout, section)| <= 1
  {
    match layout
    case TokenBased =>
      TokenScan.TokenPricingShape(section);
    case ImageBased =>
    case UseCaseCost =>
    case PerSecondVideo =>
      VideoScan.VideoPricingIff(section);
    case CostOnly =>
      CostScan.CostPricingIff(section);
    case Fallback =>
      FallbackScan.FallbackPricingShape(section);
  }
}
