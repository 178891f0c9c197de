/**
 * The use-case layout (`Use case` / `Cost`, as on transcription, speech and
 * embedding pages): a use-case heading names the record, the next `$<amount>`
 * heading prices it, and the unit basis mentioned in the ten lines before the
 * price decides whether the amount is divided by a million. Each use case is
 * consumed by the price that follows it. Once a "Quick comparison" block opens,
 * the rest of the section is skipped.
 */
module UseCaseScan {
  import opened Text
  import opened Patterns
  import opened Decimal
  import opened Records
  import opened Scan

  const UseCases: seq<string> :=
    ["Transcription", "Speech generation", "Embedding", "Translation", "Diarization", "Search"]

  /** What the scan carries from line to line: the use case waiting for its
      price and whether a comparison block has opened. */
  datatype UseCtx = UseCtx(useCase: Option<string>, quiet: bool)

  /** What a line means to the context: whether it opens a comparison block,
      the use case it names and whether it is a `$<amount>` heading. */
  datatype UseMark = UseMark(opens: bool, useCase: Option<string>, cost: bool)

  function MarkAt(lines: seq<string>, i: nat): UseMark
    requires i < |lines|
  {
    var line := Strip(lines[i]);
    UseMark(OpensComparison(line), Group(line, OneOf(UseCases)), Group(line, DollarLiteral).Some?)
  }

  /** The use case in force when the line's price heading is checked. */
  function Pending(c: UseCtx, m: UseMark): Option<string>
  {
    if m.useCase.Some? then m.useCase else c.useCase
  }

  /** The context after a line: a comparison block stays open; outside one, a
      use-case heading sets the use case and a price heading consumes it. */
  function Step(c: UseCtx, m: UseMark): UseCtx
  {
    if m.opens || c.quiet then c.(quiet := true)
    else
      var u := Pending(c, m);
      UseCtx(if m.cost && u.Some? then None else u, false)
  }

  /** The marks of the section's lines; like the other branches, this one has
      its own marks and fold, mirroring its own loop in the source. */
  function MarksOf(lines: seq<string>): (ms: seq<UseMark>)
    ensures |ms| == |lines|
    ensures forall j :: 0 <= j < |lines| ==> ms[j] == MarkAt(lines, j)
  {
    seq(|lines|, j requires 0 <= j < |lines| => MarkAt(lines, j))
  }

  function CtxAfter(ms: seq<UseMark>, n: nat): UseCtx
    requires n <= |ms|
  {
    if n == 0 then UseCtx(None, false) else Step(CtxAfter(ms, n - 1), ms[n - 1])
  }

  function CtxBefore(lines: seq<string>, n: nat): UseCtx
    requires n <= |lines|
  {
    CtxAfter(MarksOf(lines), n)
  }

  /** The basis mentioned near the price is per minute or per image, which the
      scraper keeps as the amount itself. */
  predicate PerUnitBasis(nearby: string)
  {
    !Contains(nearby, "Per 1M tokens") && !Contains(nearby, "Per 1M characters")
    && (Contains(nearby, "Per minute") || Contains(nearby, "Per image"))
  }

  /** The price text for amount `a` given the text before its line. */
  function CostText(nearby: string, a: Amount): string
    requires ValidAmount(a)
  {
    if Contains(nearby, "Per 1M tokens") then PerMillion(a)
    else if Contains(nearby, "Per 1M characters") then PerMillion(a)
    else if Contains(nearby, "Per minute") then FloatText(a)
    else if Contains(nearby, "Per image") then FloatText(a)
    else PerMillion(a)
  }

  /** The price is decimal text; per minute or per image it is the amount
      itself, otherwise it is the amount divided by a million (exactly, when
      the amount has at most four decimals). */
  lemma CostTextDenotes(nearby: string, a: Amount)
    requires ValidAmount(a)
    ensures IsDecimalText(CostText(nearby, a))
    ensures PerUnitBasis(nearby) ==> DenotesValue(CostText(nearby, a), Mantissa(a), |a.frac|)
    ensures !PerUnitBasis(nearby) && |a.frac| <= 4
            ==> DenotesValue(CostText(nearby, a), Mantissa(a), |a.frac| + 6)
  {
    if PerUnitBasis(nearby) {
      assert CostText(nearby, a) == FloatText(a);
      FloatTextDenotes(a);
    } else {
      assert CostText(nearby, a) == PerMillion(a);
      PerMillionIsDecimal(a);
      if |a.frac| <= 4 {
        PerMillionExact(a);
      }
    }
  }

  /** The record line `i` offers in the context before it: outside a
      comparison block, a `$<amount>` heading while a use case is in force. */
  function OfferIn(c: UseCtx, lines: seq<string>, i: nat): Option<Record>
    requires i < |lines|
  {
    var m := MarkAt(lines, i);
    if m.opens || c.quiet then None
    else
      match Group(Strip(lines[i]), DollarLiteral)
      case None => None
      case Some(lit) =>
        match Pending(c, m)
        case None => None
        case Some(name) => Some(Record(name, CostText(Nearby(lines, i), ParseLiteral(lit))))
  }

  function Candidate(lines: seq<string>, i: nat): Option<Record>
    requires i < |lines|
  {
    OfferIn(CtxBefore(lines, i), lines, i)
  }

  function Offers(lines: seq<string>): (os: seq<Option<Record>>)
    ensures |os| == |lines|
    ensures forall i :: 0 <= i < |lines| ==> os[i] == Candidate(lines, i)
  {
    seq(|lines|, i requires 0 <= i < |lines| => Candidate(lines, i))
  }

  /** The pricing list of a use-case section: every record offered, in order. */
  function UseCasePricing(lines: seq<string>): seq<Record>
  {
    Flatten(Offers(lines))
  }

  lemma CtxStep(lines: seq<string>, i: nat)
    requires i < |lines|
    ensures CtxBefore(lines, i + 1) == Step(CtxBefore(lines, i), MarkAt(lines, i))
  {
  }

  /** The use-case branch of `extract_pricing_from_snapshot`. */
  method ScanUseCases(lines: seq<string>) returns (pricing: seq<Record>)
    ensures pricing == UseCasePricing(lines)
  {
    pricing := [];
    var useCase: Option<string> := None;
    var quiet := false;
    ghost var os := Offers(lines);
    var i := 0;
    while i < |lines|
      invariant i <= |lines|
      invariant UseCtx(useCase, quiet) == CtxBefore(lines, i)
      invariant pricing == Flatten(os[..i])
    {
      CtxStep(lines, i);
      var offered;
      useCase, quiet, offered := Visit(lines, i, useCase, quiet);
      assert offered == os[i];
      FlattenSnoc(os, i);
      pricing := AppendPresent(pricing, offered);
      i := i + 1;
    }
    assert os[..i] == os;
  }

  /** The body of the loop for line `i`. */
  method Visit(lines: seq<string>, i: nat, useCase: Option<string>, quiet: bool)
    returns (useCase': Option<string>, quiet': bool, offered: Option<Record>)
    requires i < |lines|
    ensures UseCtx(useCase', quiet') == Step(UseCtx(useCase, quiet), MarkAt(lines, i))
    ensures offered == OfferIn(UseCtx(useCase, quiet), lines, i)
  {
    var line := Strip(lines[i]);
    useCase', quiet', offered := useCase, quiet, None;
    if OpensComparison(line) {
      quiet' := true;
    }
    if !quiet' {
      var uc := Group(line, OneOf(UseCases));
      if uc.Some? {
        useCase' := uc;
      }
      var cost := Group(line, DollarLiteral);
      if cost.Some? && useCase'.Some? {
        var nearby := Nearby(lines, i);
        offered := Some(Record(useCase'.value, CostText(nearby, ParseLiteral(cost.value))));
        useCase' := None;
      }
    }
  }

  lemma {:induction false} QuietOpened(ms: seq<UseMark>, n: nat)
    requires n <= |ms|
    ensures CtxAfter(ms, n).quiet <==> exists j :: 0 <= j < n && ms[j].opens
  {
    if n > 0 {
      QuietOpened(ms, n - 1);
      if exists j :: 0 <= j < n - 1 && ms[j].opens {
        var j :| 0 <= j < n - 1 && ms[j].opens;
        assert 0 <= j < n && ms[j].opens;
      }
    }
  }

  /** The scan skips everything from the first "Quick comparison" line on. */
  lemma QuietIff(lines: seq<string>, n: nat)
    requires n <= |lines|
    ensures CtxBefore(lines, n).quiet <==> ComparisonOpened(lines, n)
  {
    var ms := MarksOf(lines);
    QuietOpened(ms, n);
    assert forall j :: 0 <= j < |lines| ==> ms[j].opens == OpensComparison(Strip(lines[j]));
    if ComparisonOpened(lines, n) {
      var j :| 0 <= j < n && OpensComparison(Strip(lines[j]));
      assert ms[j].opens;
    }
    if exists j :: 0 <= j < n && ms[j].opens {
      var j :| 0 <= j < n && ms[j].opens;
      assert OpensComparison(Strip(lines[j]));
    }
  }

  /** A line at or after a "Quick comparison" line contributes no record. */
  lemma ComparisonSilent(lines: seq<string>, i: nat)
    requires i < |lines| && ComparisonOpened(lines, i + 1)
    ensures Candidate(lines, i) == None
  {
    var ms := MarksOf(lines);
    QuietIff(lines, i);
    var j :| 0 <= j < i + 1 && OpensComparison(Strip(lines[j]));
    if j < i {
      assert ComparisonOpened(lines, i);
    }
  }

  /** The use case in force is always one of the use-case headings. */
  lemma {:induction false} UseCaseKnown(ms: seq<UseMark>, n: nat)
    requires n <= |ms|
    requires forall j :: 0 <= j < |ms| && ms[j].useCase.Some? ==> ms[j].useCase.value in UseCases
    ensures CtxAfter(ms, n).useCase.Some? ==> CtxAfter(ms, n).useCase.value in UseCases
  {
    if n > 0 {
      UseCaseKnown(ms, n - 1);
    }
  }

  /** The record a line offers is named after a use case and priced with
      decimal text. */
  lemma CandidateShape(lines: seq<string>, i: nat)
    requires i < |lines| && Candidate(lines, i).Some?
    ensures Candidate(lines, i).value.unitType in UseCases
    ensures IsDecimalText(Candidate(lines, i).value.price)
  {
    var ms := MarksOf(lines);
    UseCaseKnown(ms, i);
    var lit := Group(Strip(lines[i]), DollarLiteral).value;
    CostTextDenotes(Nearby(lines, i), ParseLiteral(lit));
  }

  /** Every record of the use-case list is named after a use case and priced
      with decimal text. */
  lemma UseCasePricingShape(lines: seq<string>)
    ensures forall r :: r in UseCasePricing(lines) ==> r.unitType in UseCases && IsDecimalText(r.price)
  {
    var os := Offers(lines);
    FlattenMember(os);
    forall r | r in UseCasePricing(lines) ensures r.unitType in UseCases && IsDecimalText(r.price) {
      var i :| 0 <= i < |os| && os[i] == Some(r);
      CandidateShape(lines, i);
    }
  }

  /** A price consumes the use case it was recorded under. */
  lemma Consumed(lines: seq<string>, i: nat)
    requires i < |lines| && Candidate(lines, i).Some?
    ensures CtxBefore(lines, i + 1).useCase.None?
  {
    CtxStep(lines, i);
  }

  /** After mark `i` leaves no use case, a use case in force before `n` was
      named by a mark after `i`. */
  lemma {:induction false} NamedSince(ms: seq<UseMark>, i: nat, n: nat)
    requires i < n <= |ms| && CtxAfter(ms, i + 1).useCase.None?
    ensures CtxAfter(ms, n).useCase.Some? ==> exists k :: i < k < n && ms[k].useCase.Some?
  {
    if n > i + 1 {
      NamedSince(ms, i, n - 1);
      if CtxAfter(ms, n).useCase.Some? && ms[n - 1].useCase.None? {
        assert CtxAfter(ms, n - 1).useCase.Some?;
      }
    }
  }

  /** No use case is priced twice: between two records some line names a use
      case again. */
  lemma NoDoubleCount(lines: seq<string>, i: nat, j: nat)
    requires i < j < |lines| && Candidate(lines, i).Some? && Candidate(lines, j).Some?
    ensures exists k :: i < k <= j && Group(Strip(lines[k]), OneOf(UseCases)).Some?
  {
    var ms := MarksOf(lines);
    Consumed(lines, i);
    NamedSince(ms, i, j);
    if ms[j].useCase.Some? {
      assert i < j <= j && Group(Strip(lines[j]), OneOf(UseCases)).Some?;
    } else {
      var k :| i < k < j && ms[k].useCase.Some?;
      assert MarkAt(lines, k).useCase.Some?;
    }
  }
}
