/**
 * The per-image layout: quality headings (`Standard`, `HD`, `Low`, `Medium`,
 * `High`) followed by `<w>x<h>` resolution headings, each priced by the next
 * line. Every such pair outside a "Quick comparison" block yields a record;
 * repeated unit types are all kept.
 */
module ImageScan {
  import opened Text
  import opened Patterns
  import opened Decimal
  import opened Records
  import opened Scan

  const Qualities: seq<string> := ["Standard", "HD", "Low", "Medium", "High"]
  /** Headings that end a comparison block, from line 6 of the section on. */
  const EndHeadings: seq<string> := ["Image generation", "Modalities"]
  /** The last section line on which those headings do not end a block. */
  const EndsFrom: nat := 5

  /** What the scan carries from line to line: the quality last read and
      whether it is inside a "Quick comparison" block. */
  datatype ImageCtx = ImageCtx(quality: Option<string>, quiet: bool)

  /** What line `i` means to the context. */
  datatype ImageMark = ImageMark(gate: Gate, quality: Option<string>)

  /** Line `i` ends a comparison block. */
  predicate EndsBlock(lines: seq<string>, i: nat)
    requires i < |lines|
  {
    HasHeading(Strip(lines[i]), OneOf(EndHeadings)) && i > EndsFrom
  }

  function MarkAt(lines: seq<string>, i: nat): ImageMark
    requires i < |lines|
  {
    var line := Strip(lines[i]);
    ImageMark(Gate(OpensComparison(line), EndsBlock(lines, i)), Group(line, OneOf(Qualities)))
  }

  /** The context after a line: the comparison block is entered or left, then,
      outside a block, a quality heading sets the quality. */
  function Step(c: ImageCtx, m: ImageMark): ImageCtx
  {
    var quiet := !m.gate.closes && (m.gate.opens || c.quiet);
    ImageCtx(if !quiet && m.quality.Some? then m.quality else c.quality, quiet)
  }

  /** The marks of the section's lines. Each branch keeps its own marks, context
      and fold, as each branch of the source runs its own loop with its own
      state. */
  function MarksOf(lines: seq<string>): (ms: seq<ImageMark>)
    ensures |ms| == |lines|
    ensures forall j :: 0 <= j < |lines| ==> ms[j] == MarkAt(lines, j)
  {
    seq(|lines|, j requires 0 <= j < |lines| => MarkAt(lines, j))
  }

  function CtxAfter(ms: seq<ImageMark>, n: nat): ImageCtx
    requires n <= |ms|
  {
    if n == 0 then ImageCtx(None, false) else Step(CtxAfter(ms, n - 1), ms[n - 1])
  }

  /** The context after the first `n` lines of the section. */
  function CtxBefore(lines: seq<string>, n: nat): ImageCtx
    requires n <= |lines|
  {
    CtxAfter(MarksOf(lines), n)
  }

  /** The record line `i` offers in context `c`: outside a comparison block, a
      resolution heading read after some quality, priced by the next line with
      the literal as written. */
  function OfferIn(c: ImageCtx, lines: seq<string>, i: nat): Option<Record>
    requires i < |lines|
  {
    if c.quiet then None
    else
      match Group(Strip(lines[i]), Resolution)
      case None => None
      case Some(res) =>
        match c.quality
        case None => None
        case Some(q) =>
          match NextPrice(lines, i)
          case None => None
          case Some(a) => Some(Record("Per Image (" + q + " " + res + ")", AmountText(a)))
  }

  function Candidate(lines: seq<string>, i: nat): Option<Record>
    requires i < |lines|
  {
    OfferIn(CtxBefore(lines, i + 1), lines, i)
  }

  function Offers(lines: seq<string>): (os: seq<Option<Record>>)
    ensures |os| == |lines|
    ensures forall i :: 0 <= i < |lines| ==> os[i] == Candidate(lines, i)
  {
    seq(|lines|, i requires 0 <= i < |lines| => Candidate(lines, i))
  }

  /** The pricing list of a per-image section: every record offered, in order. */
  function ImagePricing(lines: seq<string>): seq<Record>
  {
    Flatten(Offers(lines))
  }

  lemma CtxStep(lines: seq<string>, i: nat)
    requires i < |lines|
    ensures CtxBefore(lines, i + 1) == Step(CtxBefore(lines, i), MarkAt(lines, i))
  {
  }

  /** The per-image branch of `extract_pricing_from_snapshot`. */
  method ScanImages(lines: seq<string>) returns (pricing: seq<Record>)
    ensures pricing == ImagePricing(lines)
  {
    pricing := [];
    var quality: Option<string> := None;
    var quiet := false;
    ghost var os := Offers(lines);
    var i := 0;
    while i < |lines|
      invariant i <= |lines|
      invariant ImageCtx(quality, quiet) == CtxBefore(lines, i)
      invariant pricing == Flatten(os[..i])
    {
      CtxStep(lines, i);
      quality, quiet := EnterLine(lines, i, quality, quiet);
      var offered := Offer(lines, i, quality, quiet);
      assert offered == os[i];
      FlattenSnoc(os, i);
      pricing := AppendPresent(pricing, offered);
      i := i + 1;
    }
    assert os[..i] == os;
  }

  /** The comparison-block and quality updates the loop makes for line `i`. */
  method EnterLine(lines: seq<string>, i: nat, quality: Option<string>, quiet: bool)
    returns (quality': Option<string>, quiet': bool)
    requires i < |lines|
    ensures ImageCtx(quality', quiet') == Step(ImageCtx(quality, quiet), MarkAt(lines, i))
  {
    var line := Strip(lines[i]);
    quality', quiet' := quality, quiet;
    if OpensComparison(line) {
      quiet' := true;
    }
    if HasHeading(line, OneOf(EndHeadings)) && i > EndsFrom {
      quiet' := false;
    }
    if !quiet' {
      var q := Group(line, OneOf(Qualities));
      if q.Some? {
        quality' := q;
      }
    }
  }

  /** The resolution and price lookup the loop makes for line `i`. */
  method Offer(lines: seq<string>, i: nat, quality: Option<string>, quiet: bool)
    returns (offered: Option<Record>)
    requires i < |lines|
    ensures offered == OfferIn(ImageCtx(quality, quiet), lines, i)
  {
    offered := None;
    if !quiet {
      var res := Group(Strip(lines[i]), Resolution);
      if res.Some? && quality.Some? {
        var price := PriceOnNextLine(lines, i);
        if price.Some? {
          offered := Some(Record("Per Image (" + quality.value + " " + res.value + ")",
                                 AmountText(price.value)));
        }
      }
    }
  }

  /** The comparison-block gates of the marks. */
  function GatesOf(ms: seq<ImageMark>): (gs: seq<Gate>)
    ensures |gs| == |ms| && forall j :: 0 <= j < |ms| ==> gs[j] == ms[j].gate
  {
    seq(|ms|, j requires 0 <= j < |ms| => ms[j].gate)
  }

  lemma {:induction false} QuietBlocked(ms: seq<ImageMark>, n: nat)
    requires n <= |ms|
    ensures CtxAfter(ms, n).quiet == Blocked(GatesOf(ms), n)
  {
    if n > 0 {
      QuietBlocked(ms, n - 1);
    }
  }

  /** Some line before `n` opens a "Quick comparison" block and no line from
      it up to `n` ends one. */
  predicate InComparison(lines: seq<string>, n: nat)
    requires n <= |lines|
  {
    exists j :: 0 <= j < n && OpensComparison(Strip(lines[j]))
                && forall k :: j <= k < n ==> !EndsBlock(lines, k)
  }

  /** The scan is inside a comparison block exactly when one was opened and
      not yet ended. */
  lemma QuietIff(lines: seq<string>, n: nat)
    requires n <= |lines|
    ensures CtxBefore(lines, n).quiet <==> InComparison(lines, n)
  {
    var ms := MarksOf(lines);
    var gs := GatesOf(ms);
    QuietBlocked(ms, n);
    BlockedIff(gs, n);
    assert forall j :: 0 <= j < |lines| ==> gs[j] == Gate(OpensComparison(Strip(lines[j])), EndsBlock(lines, j));
    assert OpenBlock(gs, n) <==> InComparison(lines, n);
  }

  /** A line inside a comparison block contributes no record. */
  lemma ComparisonSilent(lines: seq<string>, i: nat)
    requires i < |lines| && InComparison(lines, i + 1)
    ensures Candidate(lines, i) == None
  {
    QuietIff(lines, i + 1);
  }

  /** The quality each mark sets: its quality heading, unless the scan is in a
      comparison block after it. */
  function ReadsOf(ms: seq<ImageMark>): (qs: seq<Option<string>>)
    ensures |qs| == |ms|
    ensures forall j :: 0 <= j < |ms| ==> qs[j] == if CtxAfter(ms, j + 1).quiet then None else ms[j].quality
  {
    seq(|ms|, j requires 0 <= j < |ms| => if CtxAfter(ms, j + 1).quiet then None else ms[j].quality)
  }

  lemma {:induction false} QualityLatest(ms: seq<ImageMark>, n: nat)
    requires n <= |ms|
    ensures CtxAfter(ms, n).quality == Latest(ReadsOf(ms), n)
  {
    if n > 0 {
      QualityLatest(ms, n - 1);
    }
  }

  /** The quality line `j` sets: its quality heading, read outside a
      comparison block. */
  function QualityRead(lines: seq<string>, j: nat): Option<string>
    requires j < |lines|
  {
    if CtxBefore(lines, j + 1).quiet then None else Group(Strip(lines[j]), OneOf(Qualities))
  }

  function QualityReads(lines: seq<string>): (qs: seq<Option<string>>)
    ensures |qs| == |lines| && forall j :: 0 <= j < |lines| ==> qs[j] == QualityRead(lines, j)
  {
    seq(|lines|, j requires 0 <= j < |lines| => QualityRead(lines, j))
  }

  /** The quality in force is the one the last quality heading read outside a
      comparison block named, and there is none before the first. */
  lemma QualityIff(lines: seq<string>, n: nat, q: string)
    requires n <= |lines|
    ensures CtxBefore(lines, n).quality == Some(q) <==> exists j: nat :: LastAt(QualityReads(lines), n, j, q)
    ensures CtxBefore(lines, n).quality.None? <==> forall j :: 0 <= j < n ==> QualityRead(lines, j).None?
  {
    var ms := MarksOf(lines);
    QualityLatest(ms, n);
    assert ReadsOf(ms) == QualityReads(lines);
    LatestIff(QualityReads(lines), n, q);
    LatestNone(QualityReads(lines), n);
  }

  /** The quality in force is always one of the quality headings. */
  lemma {:induction false} QualityKnown(ms: seq<ImageMark>, n: nat)
    requires n <= |ms|
    requires forall j :: 0 <= j < |ms| && ms[j].quality.Some? ==> ms[j].quality.value in Qualities
    ensures CtxAfter(ms, n).quality.Some? ==> CtxAfter(ms, n).quality.value in Qualities
  {
    if n > 0 {
      QualityKnown(ms, n - 1);
    }
  }

  /** The unit type and price of a per-image record: a quality, a resolution
      and the literal exactly as written. */
  ghost predicate ImageShaped(r: Record)
  {
    exists q, res, a :: q in Qualities && IsResolution(res) && ValidAmount(a)
                        && r == Record("Per Image (" + q + " " + res + ")", AmountText(a))
  }

  lemma CandidateShape(lines: seq<string>, i: nat)
    requires i < |lines| && Candidate(lines, i).Some?
    ensures ImageShaped(Candidate(lines, i).value)
    ensures IsLiteral(Candidate(lines, i).value.price)
  {
    CandidateParts(lines, i);
    QualityInForce(lines, i + 1);
    RecordShaped(CtxBefore(lines, i + 1).quality.value, Group(Strip(lines[i]), Resolution).value,
                 NextPrice(lines, i).value);
  }

  /** The record a line offers is built from the quality in force, the
      resolution heading and the price on the next line. */
  lemma CandidateParts(lines: seq<string>, i: nat)
    requires i < |lines| && Candidate(lines, i).Some?
    ensures CtxBefore(lines, i + 1).quality.Some?
    ensures Group(Strip(lines[i]), Resolution).Some? && NextPrice(lines, i).Some?
    ensures Candidate(lines, i).value
            == Record("Per Image (" + CtxBefore(lines, i + 1).quality.value + " "
                      + Group(Strip(lines[i]), Resolution).value + ")", AmountText(NextPrice(lines, i).value))
  {
  }

  /** The quality in force is one of the quality headings. */
  lemma QualityInForce(lines: seq<string>, n: nat)
    requires n <= |lines|
    ensures CtxBefore(lines, n).quality.Some? ==> CtxBefore(lines, n).quality.value in Qualities
  {
    QualityKnown(MarksOf(lines), n);
  }

  lemma RecordShaped(q: string, res: string, a: Amount)
    requires q in Qualities && IsResolution(res) && ValidAmount(a)
    ensures ImageShaped(Record("Per Image (" + q + " " + res + ")", AmountText(a)))
    ensures IsLiteral(AmountText(a))
  {
    LiteralRoundTrip(a);
  }

  /** Every record of the per-image list has a quality, a resolution and a
      literal price. */
  lemma ImagePricingShape(lines: seq<string>)
    ensures forall r :: r in ImagePricing(lines) ==> ImageShaped(r) && IsLiteral(r.price)
  {
    var os := Offers(lines);
    FlattenMember(os);
    forall r | r in ImagePricing(lines) ensures ImageShaped(r) && IsLiteral(r.price) {
      var i :| 0 <= i < |os| && os[i] == Some(r);
      CandidateShape(lines, i);
    }
  }

  /** A record is in the list exactly when some line offers it. */
  lemma ImagePricingMembers(lines: seq<string>, r: Record)
    ensures r in ImagePricing(lines) <==> exists i :: 0 <= i < |lines| && Candidate(lines, i) == Some(r)
  {
    var os := Offers(lines);
    FlattenMember(os);
    if exists i :: 0 <= i < |lines| && Candidate(lines, i) == Some(r) {
      var i :| 0 <= i < |lines| && Candidate(lines, i) == Some(r);
      FlattenHas(os, i);
    }
  }
}
