/**
 * Locating the pricing section of a model page snapshot and deciding which of
 * the page layouts it follows.
 */
module Section {
  import opened Text
  import opened Patterns

  const ConfirmPhrase: string := "Pricing is based on"
  /** Lines after the heading searched for the confirming phrase. */
  const ConfirmWindow: nat := 5
  /** Lines after the start skipped before a next-section heading can end it. */
  const MinSectionLines: nat := 10
  /** The most lines a section spans. */
  const MaxSectionLines: nat := 150
  const StopHeadings: seq<string> :=
    ["Modalities", "Endpoints", "Features", "Snapshots", "Rate limits", "Tools"]

  function Min(a: int, b: int): int
  {
    if a <= b then a else b
  }

  /** The stripped line is `- generic [ref=e<digits>]: Pricing`. */
  predicate IsPricingHeading(line: string)
  {
    MatchesLine(Strip(line), OneOf(["Pricing"]))
  }

  /** One of the raw lines `i+1 .. i+5` contains the confirming phrase. */
  predicate Confirmed(lines: seq<string>, i: nat)
  {
    exists j :: i + 1 <= j < Min(i + 1 + ConfirmWindow, |lines|) && Contains(lines[j], ConfirmPhrase)
  }

  predicate IsPricingStart(lines: seq<string>, i: nat)
  {
    i < |lines| && IsPricingHeading(lines[i]) && Confirmed(lines, i)
  }

  /** The first confirmed pricing heading at or after `i`. */
  function PricingStartFrom(lines: seq<string>, i: nat): Option<nat>
    requires i <= |lines|
    decreases |lines| - i
  {
    if i == |lines| then None
    else if IsPricingStart(lines, i) then Some(i)
    else PricingStartFrom(lines, i + 1)
  }

  lemma {:induction false} PricingStartFromSpec(lines: seq<string>, i: nat)
    requires i <= |lines|
    ensures var r := PricingStartFrom(lines, i);
            (r.Some? ==> i <= r.value < |lines| && IsPricingStart(lines, r.value)
                         && forall j :: i <= j < r.value ==> !IsPricingStart(lines, j))
            && (r.None? ==> forall j :: i <= j < |lines| ==> !IsPricingStart(lines, j))
    decreases |lines| - i
  {
    if i < |lines| && !IsPricingStart(lines, i) {
      PricingStartFromSpec(lines, i + 1);
    }
  }

  /** The first confirmed pricing heading, if any. */
  function PricingStart(lines: seq<string>): (r: Option<nat>)
    ensures r.Some? ==> IsPricingStart(lines, r.value)
                        && forall j :: 0 <= j < r.value ==> !IsPricingStart(lines, j)
    ensures r.None? ==> forall j :: 0 <= j < |lines| ==> !IsPricingStart(lines, j)
  {
    PricingStartFromSpec(lines, 0);
    PricingStartFrom(lines, 0)
  }

  /** `find_pricing_section`: index of the first line that is a `Pricing`
      heading with the confirming phrase in one of the next five lines. */
  method FindPricingSection(lines: seq<string>) returns (r: Option<nat>)
    ensures r == PricingStart(lines)
  {
    var i := 0;
    while i < |lines|
      invariant 0 <= i <= |lines|
      invariant PricingStartFrom(lines, i) == PricingStart(lines)
    {
      var stripped := Strip(lines[i]);
      if MatchesLine(stripped, OneOf(["Pricing"])) {
        var confirmed := ScanConfirmation(lines, i);
        if confirmed {
          return Some(i);
        }
      }
      i := i + 1;
    }
    return None;
  }

  /** The inner loop of `find_pricing_section`: looks for the confirming phrase
      in the raw lines `i+1 .. min(i+6, len(lines)) - 1`. */
  method ScanConfirmation(lines: seq<string>, i: nat) returns (found: bool)
    requires i < |lines|
    ensures found == Confirmed(lines, i)
  {
    var j := i + 1;
    var stop := Min(i + 1 + ConfirmWindow, |lines|);
    while j < stop
      invariant i + 1 <= j <= stop
      invariant forall m :: i + 1 <= m < j ==> !Contains(lines[m], ConfirmPhrase)
    {
      if Contains(lines[j], ConfirmPhrase) {
        return true;
      }
      j := j + 1;
    }
    return false;
  }

  /** The stripped line is a heading that opens the next section. */
  predicate IsStopHeading(line: string)
  {
    MatchesLine(Strip(line), OneOf(StopHeadings))
  }

  /** The first stop heading in `i .. limit - 1`, or `limit`. */
  function StopFrom(lines: seq<string>, i: nat, limit: nat): (e: nat)
    requires limit <= |lines|
    ensures e == limit || (i <= e < limit && IsStopHeading(lines[e]))
    ensures forall j :: i <= j < e && j < limit ==> !IsStopHeading(lines[j])
    decreases limit - i
  {
    if i >= limit then limit
    else if IsStopHeading(lines[i]) then i
    else StopFrom(lines, i + 1, limit)
  }

  /** Where the section that starts at `start` ends (exclusive): the first
      next-section heading from line `start + 10` on, but at most 150 lines past
      the start and never past the last line. */
  function SectionEnd(lines: seq<string>, start: nat): (e: nat)
    requires start < |lines|
    ensures start < e <= Min(start + MaxSectionLines, |lines|)
    ensures e < Min(start + MaxSectionLines, |lines|)
            ==> e >= start + MinSectionLines && IsStopHeading(lines[e])
    ensures forall j :: start + MinSectionLines <= j < e ==> !IsStopHeading(lines[j])
  {
    StopFrom(lines, start + MinSectionLines, Min(start + MaxSectionLines, |lines|))
  }

  /** The layouts a pricing section can follow; the classifier picks the first
      whose marker phrases it finds. */
  datatype Layout = TokenBased | ImageBased | UseCaseCost | PerSecondVideo | CostOnly | Fallback

  /** Some line of the section contains `phrase`. */
  predicate Mentions(lines: seq<string>, phrase: string)
  {
    exists k :: 0 <= k < |lines| && Contains(lines[k], phrase)
  }

  /** The joined section text contains a phrase exactly when one of its lines
      does. */
  lemma JoinedMentions(lines: seq<string>, phrase: string)
    requires |phrase| >= 1 && '\n' !in phrase
    ensures Contains(Join(lines), phrase) == Mentions(lines, phrase)
  {
    ContainsInJoin(lines, phrase);
  }

  predicate MentionsTokens(lines: seq<string>)
  {
    Mentions(lines, "Text tokens") || Mentions(lines, "Audio tokens") || Mentions(lines, "Image tokens")
  }

  predicate MentionsUseCase(lines: seq<string>)
  {
    Mentions(lines, "Use case") && Mentions(lines, "Cost")
  }

  /** `re.search(r'generic \[ref=e\d+\]: Cost$', text, re.MULTILINE)`: no part
      of the pattern matches a newline, so it finds a match exactly when one
      raw line ends with a `Cost` heading. */
  predicate HasCostHeading(lines: seq<string>)
  {
    exists k :: 0 <= k < |lines| && HasHeading(lines[k], OneOf(["Cost"]))
  }

  /** The layout of a section, decided on the joined section text. */
  function Classify(lines: seq<string>): (r: Layout)
    ensures r == TokenBased <==> MentionsTokens(lines)
    ensures r == ImageBased <==> !MentionsTokens(lines) && Mentions(lines, "Per image")
    ensures r == UseCaseCost
            <==> !MentionsTokens(lines) && !Mentions(lines, "Per image") && MentionsUseCase(lines)
    ensures r == PerSecondVideo
            <==> !MentionsTokens(lines) && !Mentions(lines, "Per image") && !MentionsUseCase(lines)
                 && Mentions(lines, "Per second")
    ensures r == CostOnly
            <==> !MentionsTokens(lines) && !Mentions(lines, "Per image") && !MentionsUseCase(lines)
                 && !Mentions(lines, "Per second") && HasCostHeading(lines)
  {
    var text := Join(lines);
    JoinedMentions(lines, "Text tokens");
    JoinedMentions(lines, "Audio tokens");
    JoinedMentions(lines, "Image tokens");
    JoinedMentions(lines, "Per image");
    JoinedMentions(lines, "Per second");
    JoinedMentions(lines, "Use case");
    JoinedMentions(lines, "Cost");
    var hasUseCaseCost := Contains(text, "Use case") && Contains(text, "Cost");
    var hasCostOnly := !hasUseCaseCost && HasCostHeading(lines);
    if Contains(text, "Text tokens") || Contains(text, "Audio tokens") || Contains(text, "Image tokens") then
      TokenBased
    else if Contains(text, "Per image") then ImageBased
    else if hasUseCaseCost then UseCaseCost
    else if Contains(text, "Per second") then PerSecondVideo
    else if hasCostOnly then CostOnly
    else Fallback
  }
}
