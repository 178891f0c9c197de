/**
 * Pieces shared by the branch scanners of the pricing extractor: the
 * "Quick comparison" marker, heading tests on a stripped line, the price on the
 * line after a label, and the label search the token and fallback branches
 * run on each line.
 */
module Scan {
  import opened Text
  import opened Patterns
  import opened Decimal
  import opened Records

  /** Text that opens a block listing other models' prices. */
  const QuickComparison: string := "Quick comparison"
  /** The labels whose next line carries a per-token price, in the order they
      are tried. */
  const PriceLabels: seq<string> := ["Cached input", "Input", "Output"]

  /** The line opens a "Quick comparison" block. */
  predicate OpensComparison(line: string)
  {
    Contains(line, QuickComparison)
  }

  /** `re.search(r'generic \[ref=e\d+\]: <name>$', line)` for a literal name. */
  predicate Heading(line: string, name: string)
  {
    HasHeading(line, OneOf([name]))
  }

  /** The amount of the first `$<digits>` on the stripped line after line `i`
      of the section, when there is such a line. */
  function NextPrice(lines: seq<string>, i: nat): (r: Option<Amount>)
    ensures r.Some? ==> i + 1 < |lines| && ValidAmount(r.value)
    ensures i + 1 < |lines| ==> (r.Some? <==> HasPrice(Strip(lines[i + 1])))
  {
    if i + 1 < |lines| then PriceIn(Strip(lines[i + 1])) else None
  }

  /** `if i + 1 < len(lines): re.search(<price>, lines[i + 1].strip())`. */
  method PriceOnNextLine(lines: seq<string>, i: nat) returns (price: Option<Amount>)
    ensures price == NextPrice(lines, i)
  {
    price := None;
    if i + 1 < |lines| {
      var next := Strip(lines[i + 1]);
      price := PriceIn(next);
    }
  }

  /** `price` is the per-million rendering of the literal on the line after
      `i`, and denotes exactly that literal divided by a million when it has at
      most four decimals. */
  predicate PricedByNextLine(lines: seq<string>, i: nat, price: string)
  {
    NextPrice(lines, i).Some? && PricedPerMillion(price, NextPrice(lines, i).value)
  }

  /** The per-million rendering of the next line's literal has that literal's
      value scaled by a million. */
  lemma NextPriceExact(lines: seq<string>, i: nat)
    requires NextPrice(lines, i).Some?
    ensures PricedByNextLine(lines, i, PerMillion(NextPrice(lines, i).value))
  {
    PerMillionPriced(NextPrice(lines, i).value);
  }

  /** The first of `labels` that the line is a heading for. */
  function FirstLabel(line: string, labels: seq<string>): (r: Option<string>)
    ensures r.Some? ==> Heading(line, r.value)
    ensures r.Some? ==> exists k :: 0 <= k < |labels| && labels[k] == r.value
                                    && forall j :: 0 <= j < k ==> !Heading(line, labels[j])
    ensures r.None? ==> forall j :: 0 <= j < |labels| ==> !Heading(line, labels[j])
  {
    if |labels| == 0 then None
    else if Heading(line, labels[0]) then Some(labels[0])
    else
      var r := FirstLabel(line, labels[1..]);
      assert forall j :: 1 <= j < |labels| ==> labels[j] == labels[1..][j - 1];
      if r.None? then r
      else
        var k :| 0 <= k < |labels[1..]| && labels[1..][k] == r.value
                 && forall j :: 0 <= j < k ==> !Heading(line, labels[1..][j]);
        assert labels[k + 1] == r.value;
        r
  }

  /** The loop `for label in labels: if <heading for label>: ...; break`: the
      label it stops at. */
  method FindLabel(line: string, labels: seq<string>) returns (r: Option<string>)
    ensures r == FirstLabel(line, labels)
  {
    var k := 0;
    while k < |labels|
      invariant k <= |labels|
      invariant FirstLabel(line, labels) == FirstLabel(line, labels[k..])
    {
      assert labels[k..][1..] == labels[k + 1..];
      if Heading(line, labels[k]) {
        return Some(labels[k]);
      }
      k := k + 1;
    }
    return None;
  }

  /** `'\n'.join(section_lines[max(0, i - 10):i])`: the raw text of the ten
      lines before line `i`. */
  function Nearby(lines: seq<string>, i: nat): string
    requires i <= |lines|
  {
    Join(lines[if i >= 10 then i - 10 else 0..i])
  }

  /** What a line means to a "Quick comparison" block: whether it opens one
      and whether it ends one (an end wins when a line does both). */
  datatype Gate = Gate(opens: bool, closes: bool)

  /** Inside a comparison block after the first `n` gates. */
  function Blocked(gs: seq<Gate>, n: nat): bool
    requires n <= |gs|
  {
    if n == 0 then false else !gs[n - 1].closes && (gs[n - 1].opens || Blocked(gs, n - 1))
  }

  /** Some gate before `n` opens a block and neither it nor a later gate
      before `n` ends one. */
  predicate OpenBlock(gs: seq<Gate>, n: nat)
    requires n <= |gs|
  {
    exists j :: 0 <= j < n && gs[j].opens && forall k :: j <= k < n ==> !gs[k].closes
  }

  lemma {:induction false} BlockedIff(gs: seq<Gate>, n: nat)
    requires n <= |gs|
    ensures Blocked(gs, n) <==> OpenBlock(gs, n)
  {
    if n > 0 {
      var m := n - 1;
      if !gs[m].closes && gs[m].opens {
        assert forall k :: m <= k < n ==> !gs[k].closes;
      } else if !gs[m].closes {
        BlockedIff(gs, m);
        OpenBlockStep(gs, m);
      }
    }
  }

  /** A gate that neither opens nor ends a block leaves the state as it was. */
  lemma OpenBlockStep(gs: seq<Gate>, m: nat)
    requires m < |gs| && !gs[m].opens && !gs[m].closes
    ensures OpenBlock(gs, m + 1) <==> OpenBlock(gs, m)
  {
    if OpenBlock(gs, m + 1) {
      var j :| 0 <= j < m + 1 && gs[j].opens && forall k :: j <= k < m + 1 ==> !gs[k].closes;
      assert j < m;
      assert forall k :: j <= k < m ==> !gs[k].closes;
    }
    if OpenBlock(gs, m) {
      var j :| 0 <= j < m && gs[j].opens && forall k :: j <= k < m ==> !gs[k].closes;
      assert forall k :: j <= k < m + 1 ==> !gs[k].closes;
    }
  }

  /** The gates of the branches whose comparison blocks never end. */
  function Openers(lines: seq<string>): (gs: seq<Gate>)
    ensures |gs| == |lines|
    ensures forall j :: 0 <= j < |lines| ==> gs[j] == Gate(OpensComparison(Strip(lines[j])), false)
  {
    seq(|lines|, j requires 0 <= j < |lines| => Gate(OpensComparison(Strip(lines[j])), false))
  }

  /** Some line before `n` opens a "Quick comparison" block. */
  predicate ComparisonOpened(lines: seq<string>, n: nat)
    requires n <= |lines|
  {
    exists j :: 0 <= j < n && OpensComparison(Strip(lines[j]))
  }

  /** One more line opens a block or leaves the state as it was. */
  lemma ComparisonOpenedStep(lines: seq<string>, i: nat)
    requires i < |lines|
    ensures ComparisonOpened(lines, i + 1) <==> OpensComparison(Strip(lines[i])) || ComparisonOpened(lines, i)
  {
    if ComparisonOpened(lines, i + 1) && !OpensComparison(Strip(lines[i])) {
      var j :| 0 <= j < i + 1 && OpensComparison(Strip(lines[j]));
      assert j < i;
    }
  }

  /** Where no heading ends a comparison block, the scan stays in one from the
      first line that opens it on. */
  lemma OpenedIff(lines: seq<string>, n: nat)
    requires n <= |lines|
    ensures Blocked(Openers(lines), n) <==> ComparisonOpened(lines, n)
  {
    var gs := Openers(lines);
    BlockedIff(gs, n);
    if ComparisonOpened(lines, n) {
      var j :| 0 <= j < n && OpensComparison(Strip(lines[j]));
      assert gs[j].opens && forall k :: j <= k < n ==> !gs[k].closes;
    }
  }

  /** One more line of such a branch. */
  lemma OpenedStep(lines: seq<string>, i: nat)
    requires i < |lines|
    ensures Blocked(Openers(lines), i + 1) == (OpensComparison(Strip(lines[i])) || Blocked(Openers(lines), i))
  {
  }

  /** The last value present among the first `n`. */
  function Latest<T>(xs: seq<Option<T>>, n: nat): Option<T>
    requires n <= |xs|
  {
    if n == 0 then None else if xs[n - 1].Some? then xs[n - 1] else Latest(xs, n - 1)
  }

  /** Position `j` holds `v` and no later position before `n` holds a value. */
  ghost predicate LastAt<T>(xs: seq<Option<T>>, n: nat, j: nat, v: T)
    requires n <= |xs|
  {
    j < n && xs[j] == Some(v) && forall k :: j < k < n ==> xs[k].None?
  }

  lemma {:induction false} LatestIff<T>(xs: seq<Option<T>>, n: nat, v: T)
    requires n <= |xs|
    ensures Latest(xs, n) == Some(v) <==> exists j :: LastAt(xs, n, j, v)
  {
    if n > 0 {
      var m := n - 1;
      LatestIff(xs, m, v);
      if xs[m].Some? {
        if xs[m] == Some(v) {
          assert LastAt(xs, n, m, v);
        }
        if exists j :: LastAt(xs, n, j, v) {
          var j :| LastAt(xs, n, j, v);
          assert j == m;
        }
      } else {
        if exists j :: LastAt(xs, m, j, v) {
          var j :| LastAt(xs, m, j, v);
          assert LastAt(xs, n, j, v);
        }
        if exists j :: LastAt(xs, n, j, v) {
          var j :| LastAt(xs, n, j, v);
          assert LastAt(xs, m, j, v);
        }
      }
    }
  }

  lemma {:induction false} LatestNone<T>(xs: seq<Option<T>>, n: nat)
    requires n <= |xs|
    ensures Latest(xs, n).None? <==> forall k :: 0 <= k < n ==> xs[k].None?
  {
    if n > 0 {
      LatestNone(xs, n - 1);
    }
  }
}
