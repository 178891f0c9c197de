/**
 * The token-priced layout (`Text tokens`, `Audio tokens`, `Image tokens`): each
 * `Cached input` / `Input` / `Output` heading followed by a `$` price yields a
 * per-token record, named after the token kind of the subsection it is in.
 * Records inside "Quick comparison" blocks are skipped, and the first record of
 * each unit type wins.
 */
module TokenScan {
  import opened Text
  import opened Patterns
  import opened Decimal
  import opened Records
  import opened Scan

  /** Headings that end a "Quick comparison" block. */
  const ResetHeadings: seq<string> := ["Text tokens", "Audio tokens", "Image tokens", "Image generation"]
  /** The unit-type prefixes the token kinds give. */
  const Prefixes: seq<string> := ["", "Audio ", "Image "]

  /** What the scan carries from line to line: the unit-type prefix of the
      current subsection and whether it is inside a "Quick comparison" block. */
  datatype Ctx = Ctx(prefix: string, quiet: bool)

  const Initial: Ctx := Ctx("", false)

  predicate Resets(line: string)
  {
    HasHeading(line, OneOf(ResetHeadings))
  }

  /** The unit-type prefix a subsection heading sets, if the line is one. */
  function SubsectionPrefix(line: string): Option<string>
  {
    if Heading(line, "Text tokens") then Some("")
    else if Heading(line, "Audio tokens") then Some("Audio ")
    else if Heading(line, "Image tokens") then Some("Image ")
    else None
  }

  /** What one stripped line means to the context: the prefix it sets, if it
      is a subsection heading, whether it opens a comparison block and whether
      it is a heading that ends one. */
  datatype Mark = Mark(sub: Option<string>, opens: bool, resets: bool)

  function MarkOf(line: string): Mark
  {
    Mark(SubsectionPrefix(line), OpensComparison(line), Resets(line))
  }

  /** The context after a line with mark `m`: a subsection heading sets the
      prefix and leaves the comparison block, then the "Quick comparison" text
      enters one, then an ending heading leaves it again. */
  function Step(c: Ctx, m: Mark): Ctx
  {
    var c1 := match m.sub case Some(p) => Ctx(p, false) case None => c;
    var c2 := if m.opens then c1.(quiet := true) else c1;
    if m.resets then c2.(quiet := false) else c2
  }

  /** The marks of the stripped lines. */
  function MarksOf(lines: seq<string>): (ms: seq<Mark>)
    ensures |ms| == |lines|
    ensures forall j :: 0 <= j < |lines| ==> ms[j] == MarkOf(Strip(lines[j]))
  {
    seq(|lines|, j requires 0 <= j < |lines| => MarkOf(Strip(lines[j])))
  }

  /** The context after the first `n` marks. */
  function CtxAfter(ms: seq<Mark>, n: nat): Ctx
    requires n <= |ms|
  {
    if n == 0 then Initial else Step(CtxAfter(ms, n - 1), ms[n - 1])
  }

  /** The context after the first `n` lines of the section. */
  function CtxBefore(lines: seq<string>, n: nat): Ctx
    requires n <= |lines|
  {
    CtxAfter(MarksOf(lines), n)
  }

  /** The record line `i` offers in context `c`: outside a comparison block,
      the first label the line is a heading for, priced by the next line. */
  function OfferIn(c: Ctx, lines: seq<string>, i: nat): Option<Record>
    requires i < |lines|
  {
    if c.quiet then None
    else
      match FirstLabel(Strip(lines[i]), PriceLabels)
      case None => None
      case Some(name) =>
        match NextPrice(lines, i)
        case None => None
        case Some(a) => Some(Record(c.prefix + name, PerMillion(a)))
  }

  /** The record line `i` offers in the context the lines up to it set. */
  function Candidate(lines: seq<string>, i: nat): Option<Record>
    requires i < |lines|
  {
    OfferIn(CtxBefore(lines, i + 1), lines, i)
  }

  /** The record each line offers, in order. */
  function Offers(lines: seq<string>): (os: seq<Option<Record>>)
    ensures |os| == |lines|
    ensures forall i :: 0 <= i < |lines| ==> os[i] == Candidate(lines, i)
  {
    seq(|lines|, i requires 0 <= i < |lines| => Candidate(lines, i))
  }

  /** The pricing list of a token-priced section: the records offered, the
      first of each unit type kept. */
  function TokenPricing(lines: seq<string>): seq<Record>
  {
    Dedup(Flatten(Offers(lines)))
  }

  /** The context after one more line. */
  lemma CtxStep(lines: seq<string>, i: nat)
    requires i < |lines|
    ensures CtxBefore(lines, i + 1) == Step(CtxBefore(lines, i), MarkOf(Strip(lines[i])))
  {
  }

  /** The token branch of `extract_pricing_from_snapshot`. */
  method ScanTokens(lines: seq<string>) returns (pricing: seq<Record>)
    ensures pricing == TokenPricing(lines)
  {
    pricing := [];
    var prefix := "";
    var quiet := false;
    ghost var os := Offers(lines);
    var i := 0;
    while i < |lines|
      invariant i <= |lines|
      invariant Ctx(prefix, quiet) == CtxBefore(lines, i)
      invariant pricing == Dedup(Flatten(os[..i]))
    {
      CtxStep(lines, i);
      prefix, quiet := EnterLine(prefix, quiet, Strip(lines[i]));
      var offered := Offer(lines, i, prefix, quiet);
      assert offered == os[i];
      DedupFlattenStep(os, i);
      pricing := AppendIfNew(pricing, offered);
      i := i + 1;
    }
    assert os[..i] == os;
  }

  /** The subsection and "Quick comparison" updates the loop makes for one
      stripped line. */
  method EnterLine(prefix: string, quiet: bool, line: string) returns (prefix': string, quiet': bool)
    ensures Ctx(prefix', quiet') == Step(Ctx(prefix, quiet), MarkOf(line))
  {
    prefix', quiet' := prefix, quiet;
    if Heading(line, "Text tokens") {
      prefix', quiet' := "", false;
    } else if Heading(line, "Audio tokens") {
      prefix', quiet' := "Audio ", false;
    } else if Heading(line, "Image tokens") {
      prefix', quiet' := "Image ", false;
    }
    if OpensComparison(line) {
      quiet' := true;
    }
    if Resets(line) {
      quiet' := false;
    }
  }

  /** The label search and price lookup the loop makes for line `i`. */
  method Offer(lines: seq<string>, i: nat, prefix: string, quiet: bool) returns (offered: Option<Record>)
    requires i < |lines|
    ensures offered == OfferIn(Ctx(prefix, quiet), lines, i)
  {
    offered := None;
    if !quiet {
      var name := FindLabel(Strip(lines[i]), PriceLabels);
      if name.Some? {
        var price := PriceOnNextLine(lines, i);
        if price.Some? {
          offered := Some(Record(prefix + name.value, PerMillion(price.value)));
        }
      }
    }
  }

  /** A subsection heading also ends a comparison block. */
  lemma SubsectionResets(line: string)
    requires SubsectionPrefix(line).Some?
    ensures Resets(line)
  {
    if Heading(line, "Text tokens") {
      HeadingWiden(line, ["Text tokens"], ResetHeadings);
    } else if Heading(line, "Audio tokens") {
      HeadingWiden(line, ["Audio tokens"], ResetHeadings);
    } else {
      HeadingWiden(line, ["Image tokens"], ResetHeadings);
    }
  }

  /** A subsection heading sets one of the token kinds' prefixes and ends a
      comparison block. */
  lemma MarkSound(line: string)
    ensures MarkOf(line).sub.Some? ==> MarkOf(line).resets && MarkOf(line).sub.value in Prefixes
  {
    if SubsectionPrefix(line).Some? {
      SubsectionResets(line);
    }
  }

  /** Every subsection mark sets a known prefix and ends a comparison block. */
  predicate WellMarked(ms: seq<Mark>)
  {
    forall j :: 0 <= j < |ms| && ms[j].sub.Some? ==> ms[j].resets && ms[j].sub.value in Prefixes
  }

  lemma MarksWell(lines: seq<string>)
    ensures WellMarked(MarksOf(lines))
  {
    forall j | 0 <= j < |lines| {
      MarkSound(Strip(lines[j]));
    }
  }

  /** A mark leaves the scan in a comparison block exactly when it does not
      end one and it either opens one or the scan was already in one. */
  lemma StepQuiet(c: Ctx, m: Mark)
    requires m.sub.Some? ==> m.resets
    ensures Step(c, m).quiet == (!m.resets && (m.opens || c.quiet))
  {
  }

  /** Some mark before `n` opens a comparison block and neither it nor any
      later mark before `n` ends one. */
  predicate OpenAfter(ms: seq<Mark>, n: nat)
    requires n <= |ms|
  {
    exists j :: 0 <= j < n && ms[j].opens && forall k :: j <= k < n ==> !ms[k].resets
  }

  lemma {:induction false} QuietAfter(ms: seq<Mark>, n: nat)
    requires n <= |ms| && WellMarked(ms)
    ensures CtxAfter(ms, n).quiet <==> OpenAfter(ms, n)
  {
    if n > 0 {
      var m := n - 1;
      StepQuiet(CtxAfter(ms, m), ms[m]);
      if !ms[m].resets && ms[m].opens {
        assert forall k :: m <= k < n ==> !ms[k].resets;
      } else if !ms[m].resets {
        QuietAfter(ms, m);
        OpenAfterStep(ms, m);
      }
    }
  }

  /** A mark that neither opens nor ends a block leaves the state as it was. */
  lemma OpenAfterStep(ms: seq<Mark>, m: nat)
    requires m < |ms| && !ms[m].opens && !ms[m].resets
    ensures OpenAfter(ms, m + 1) <==> OpenAfter(ms, m)
  {
    if OpenAfter(ms, m + 1) {
      var j :| 0 <= j < m + 1 && ms[j].opens && forall k :: j <= k < m + 1 ==> !ms[k].resets;
      assert j < m;
      assert forall k :: j <= k < m ==> !ms[k].resets;
    }
    if OpenAfter(ms, m) {
      var j :| 0 <= j < m && ms[j].opens && forall k :: j <= k < m ==> !ms[k].resets;
      assert forall k :: j <= k < m + 1 ==> !ms[k].resets;
    }
  }

  /** Some line before `n` opens a "Quick comparison" block and neither it nor
      any later line before `n` is a heading that ends one. */
  predicate InComparison(lines: seq<string>, n: nat)
    requires n <= |lines|
  {
    exists j :: 0 <= j < n && OpensComparison(Strip(lines[j]))
                && forall k :: j <= k < n ==> !Resets(Strip(lines[k]))
  }

  /** The scan is inside a comparison block exactly when such a block was
      opened and not yet ended. */
  lemma QuietIff(lines: seq<string>, n: nat)
    requires n <= |lines|
    ensures CtxBefore(lines, n).quiet <==> InComparison(lines, n)
  {
    var ms := MarksOf(lines);
    MarksWell(lines);
    QuietAfter(ms, n);
    assert OpenAfter(ms, n) <==> InComparison(lines, n);
  }

  /** A line inside a comparison block contributes no record. */
  lemma ComparisonSilent(lines: seq<string>, i: nat)
    requires i < |lines| && InComparison(lines, i + 1)
    ensures Candidate(lines, i) == None
  {
    QuietIff(lines, i + 1);
  }

  /** Mark `j` is the last subsection mark before `n`, and it sets `p`. */
  predicate LastSub(ms: seq<Mark>, n: nat, j: nat, p: string)
    requires n <= |ms|
  {
    j < n && ms[j].sub == Some(p) && forall k :: j < k < n ==> ms[k].sub.None?
  }

  lemma {:induction false} PrefixAfter(ms: seq<Mark>, n: nat, p: string)
    requires n <= |ms|
    ensures CtxAfter(ms, n).prefix == p
            <==> (exists j :: LastSub(ms, n, j, p))
                 || (p == "" && forall k :: 0 <= k < n ==> ms[k].sub.None?)
  {
    if n > 0 {
      var m := n - 1;
      PrefixAfter(ms, m, p);
      if ms[m].sub.Some? {
        assert LastSub(ms, n, m, ms[m].sub.value);
        if exists j :: LastSub(ms, n, j, p) {
          var j :| LastSub(ms, n, j, p);
          assert j == m;
        }
      } else {
        if exists j :: LastSub(ms, m, j, p) {
          var j :| LastSub(ms, m, j, p);
          assert LastSub(ms, n, j, p);
        }
        if exists j :: LastSub(ms, n, j, p) {
          var j :| LastSub(ms, n, j, p);
          assert LastSub(ms, m, j, p);
        }
      }
    }
  }

  /** Line `j` is the last subsection heading before `n`, and it sets `p`. */
  predicate LastSubsection(lines: seq<string>, n: nat, j: nat, p: string)
    requires n <= |lines|
  {
    j < n && SubsectionPrefix(Strip(lines[j])) == Some(p)
    && forall k :: j < k < n ==> SubsectionPrefix(Strip(lines[k])).None?
  }

  /** The prefix in force is the one the last subsection heading set, or empty
      before the first one. */
  lemma PrefixIff(lines: seq<string>, n: nat, p: string)
    requires n <= |lines|
    ensures CtxBefore(lines, n).prefix == p
            <==> (exists j :: LastSubsection(lines, n, j, p))
                 || (p == "" && forall k :: 0 <= k < n ==> SubsectionPrefix(Strip(lines[k])).None?)
  {
    var ms := MarksOf(lines);
    PrefixAfter(ms, n, p);
    assert forall j :: LastSub(ms, n, j, p) <==> LastSubsection(lines, n, j, p);
  }

  lemma {:induction false} PrefixKnownAfter(ms: seq<Mark>, n: nat)
    requires n <= |ms| && WellMarked(ms)
    ensures CtxAfter(ms, n).prefix in Prefixes
  {
    if n > 0 {
      PrefixKnownAfter(ms, n - 1);
    }
  }

  /** The prefix is always one the token kinds give. */
  lemma PrefixKnown(lines: seq<string>, n: nat)
    requires n <= |lines|
    ensures CtxBefore(lines, n).prefix in Prefixes
  {
    MarksWell(lines);
    PrefixKnownAfter(MarksOf(lines), n);
  }

  /** The unit type is a token kind's prefix followed by one of the labels. */
  predicate IsTokenUnit(u: string)
  {
    exists p, name :: p in Prefixes && name in PriceLabels && u == p + name
  }

  /** The record has a token unit type and a plain decimal price. */
  predicate TokenShaped(r: Record)
  {
    IsTokenUnit(r.unitType) && IsDecimalText(r.price)
  }

  /** The record a line offers is token-shaped. */
  lemma CandidateShape(lines: seq<string>, i: nat)
    requires i < |lines| && Candidate(lines, i).Some?
    ensures TokenShaped(Candidate(lines, i).value)
  {
    var c := CtxBefore(lines, i + 1);
    PrefixKnown(lines, i + 1);
    var name := FirstLabel(Strip(lines[i]), PriceLabels).value;
    var a := NextPrice(lines, i).value;
    PerMillionIsDecimal(a);
    assert Candidate(lines, i).value == Record(c.prefix + name, PerMillion(a));
  }

  /** The price of the record a line offers is the per-million rendering of
      the literal on the next line, exact for at most four decimals. */
  lemma CandidateExact(lines: seq<string>, i: nat)
    requires i < |lines| && Candidate(lines, i).Some?
    ensures PricedByNextLine(lines, i, Candidate(lines, i).value.price)
  {
    var c := CtxBefore(lines, i + 1);
    var name := FirstLabel(Strip(lines[i]), PriceLabels).value;
    var a := NextPrice(lines, i).value;
    assert Candidate(lines, i).value == Record(c.prefix + name, PerMillion(a));
    NextPriceExact(lines, i);
  }

  /** Every record of the token list is the record some line offers, priced by
      the literal on the line after it. */
  lemma TokenPricingExact(lines: seq<string>, r: Record) returns (i: nat)
    requires r in TokenPricing(lines)
    ensures i < |lines| && Candidate(lines, i) == Some(r)
    ensures PricedByNextLine(lines, i, r.price)
  {
    i := DedupFlattenFirst(Offers(lines), r);
    CandidateExact(lines, i);
  }

  /** The token branch's list: unit types are distinct, each is a token
      kind's prefix and a label, and each price is plain decimal text. */
  lemma TokenPricingShape(lines: seq<string>)
    ensures UniqueUnits(TokenPricing(lines))
    ensures forall r :: r in TokenPricing(lines) ==> TokenShaped(r)
  {
    var os := Offers(lines);
    DedupUnique(Flatten(os));
    DedupSubset(Flatten(os));
    FlattenMember(os);
    forall r | r in TokenPricing(lines) ensures TokenShaped(r) {
      var i :| 0 <= i < |os| && os[i] == Some(r);
      CandidateShape(lines, i);
    }
  }

  /** Each record kept is the record of the first line that offers its unit
      type. */
  lemma TokenFirstWins(lines: seq<string>, r: Record)
    requires r in TokenPricing(lines)
    ensures exists i: nat :: FirstOffer(Offers(lines), i, r)
  {
    var i := DedupFlattenFirst(Offers(lines), r);
  }

  /** Every unit type some line offers is in the list. */
  lemma TokenCovers(lines: seq<string>, i: nat)
    requires i < |lines| && Candidate(lines, i).Some?
    ensures HasUnit(TokenPricing(lines), Candidate(lines, i).value.unitType)
  {
    DedupFlattenCovers(Offers(lines), i);
  }
}
