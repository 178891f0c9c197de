/**
 * The regular expressions the scraper applies to snapshot lines, written out as
 * string functions with Python's `re` semantics: the leftmost match wins, `\d+`
 * and `[0-9]+` take the longest run of ASCII digits, and every heading pattern is
 * anchored at the end of the (stripped) line.
 *
 * A heading line of the accessibility snapshot looks like
 * `- generic [ref=e42]: Pricing`: the marker `generic [ref=e<digits>]: ` followed
 * by the node's name.
 */
module Patterns {
  import opened Text
  import opened Decimal

  const MarkerHead: string := "generic [ref=e"
  const MarkerTail: string := "]: "

  /** The longest run of decimal digits of `s` that starts at `k`. */
  function DigitRun(s: string, k: nat): (d: string)
    requires k <= |s|
    ensures AllDigits(d) && k + |d| <= |s| && s[k..k + |d|] == d
    ensures k + |d| == |s| || !IsDigit(s[k + |d|])
    ensures k < |s| && IsDigit(s[k]) ==> |d| >= 1
    decreases |s| - k
  {
    if k < |s| && IsDigit(s[k]) then
      var rest := DigitRun(s, k + 1);
      assert s[k..k + 1 + |rest|] == [s[k]] + s[k + 1..k + 1 + |rest|];
      [s[k]] + rest
    else
      ""
  }

  /** The heading marker `generic [ref=e<d>]: ` for the reference digits `d`. */
  function Marker(d: string): (m: string)
    ensures |m| == |MarkerHead| + |d| + |MarkerTail|
  {
    MarkerHead + d + MarkerTail
  }

  /** A digit string at `k` that is not followed by a digit is the run there. */
  lemma {:induction false} DigitRunOf(s: string, k: nat, d: string)
    requires AllDigits(d) && StartsAt(s, k, d)
    requires k + |d| == |s| || !IsDigit(s[k + |d|])
    ensures DigitRun(s, k) == d
    decreases |d|
  {
    if |d| > 0 {
      assert s[k] == d[0];
      assert StartsAt(s, k + 1, d[1..]) by {
        assert s[k + 1..k + 1 + |d[1..]|] == s[k..k + |d|][1..];
      }
      DigitRunOf(s, k + 1, d[1..]);
      assert d == [d[0]] + d[1..];
    }
  }

  /** `s` holds the marker with digit string `d` at `k`. */
  predicate MarkerWith(s: string, k: nat, d: string)
  {
    |d| >= 1 && AllDigits(d) && StartsAt(s, k, Marker(d))
  }

  /** Where a heading marker starting at `k` ends, if one starts there. */
  function MarkerEnd(s: string, k: nat): (e: Option<nat>)
    requires k <= |s|
    ensures e.Some? ==> k + |MarkerHead| + |MarkerTail| < e.value <= |s|
  {
    if StartsAt(s, k, MarkerHead) then
      var d := DigitRun(s, k + |MarkerHead|);
      var j := k + |MarkerHead| + |d|;
      if |d| >= 1 && StartsAt(s, j, MarkerTail) then Some(j + |MarkerTail|) else None
    else
      None
  }

  /** What `MarkerEnd` finds is a marker: the head, a run of digits, the tail. */
  lemma MarkerEndShape(s: string, k: nat)
    requires k <= |s| && MarkerEnd(s, k).Some?
    ensures var e := MarkerEnd(s, k).value;
            MarkerWith(s, k, s[k + |MarkerHead|..e - |MarkerTail|])
  {
    var d := DigitRun(s, k + |MarkerHead|);
    var j := k + |MarkerHead| + |d|;
    StartsAtConcat(s, k, MarkerHead, d);
    StartsAtConcat(s, k, MarkerHead + d, MarkerTail);
  }

  /** Two strings that occur one after the other occur together. */
  lemma StartsAtConcat(s: string, k: nat, a: string, b: string)
    requires StartsAt(s, k, a) && StartsAt(s, k + |a|, b)
    ensures StartsAt(s, k, a + b)
  {
    assert s[k..k + |a| + |b|] == s[k..k + |a|] + s[k + |a|..k + |a| + |b|];
  }

  /** A marker with digits `d` at `k` is the one `MarkerEnd` finds. */
  lemma MarkerEndOf(s: string, k: nat, d: string)
    requires k <= |s| && MarkerWith(s, k, d)
    ensures MarkerEnd(s, k) == Some(k + |MarkerHead| + |d| + |MarkerTail|)
  {
    var w := Marker(d);
    var h := k + |MarkerHead|;
    assert s[k..k + |MarkerHead|] == w[..|MarkerHead|];
    assert StartsAt(s, k, MarkerHead);
    assert s[h..h + |d|] == d by {
      assert s[k..k + |w|] == w;
      SliceOfSlice(s, k, k + |w|, |MarkerHead|, |MarkerHead| + |d|);
      assert w[|MarkerHead|..|MarkerHead| + |d|] == d;
    }
    assert s[h + |d|] == ']' by {
      assert w[|MarkerHead| + |d|] == ']';
    }
    DigitRunOf(s, h, d);
    assert s[h + |d|..h + |d| + |MarkerTail|] == w[|MarkerHead| + |d|..];
  }

  /** The text after the marker that an end-anchored `(...)$` must match. */
  datatype LabelPattern =
    | OneOf(options: seq<string>)   // `(A|B|...)$`, or a single literal name
    | Resolution                    // `(\d+x\d+)$`
    | DollarLiteral                 // `\$([0-9]+(?:\.[0-9]+)?)$`
    | AnyText                       // `"?(.+?)"?$`

  /** `t` is `<digits>x<digits>`. */
  predicate IsResolution(t: string)
  {
    var a := DigitRun(t, 0);
    |a| >= 1 && |a| + 1 < |t| && t[|a|] == 'x' && AllDigits(t[|a| + 1..])
  }

  /** `t` is `[0-9]+(?:\.[0-9]+)?` in full. */
  predicate IsLiteral(t: string)
  {
    var w := DigitRun(t, 0);
    |w| >= 1 && (|w| == |t| || (t[|w|] == '.' && |w| + 1 < |t| && AllDigits(t[|w| + 1..])))
  }

  predicate Accepts(p: LabelPattern, t: string)
  {
    match p
    case OneOf(opts) => t in opts
    case Resolution => IsResolution(t)
    case DollarLiteral => |t| >= 1 && t[0] == '$' && IsLiteral(t[1..])
    case AnyText => |t| >= 1
  }

  /** The pattern matches `s` from a marker starting at `k` to the end of `s`. */
  predicate MatchesAt(s: string, p: LabelPattern, k: nat)
  {
    k <= |s| && MarkerEnd(s, k).Some? && Accepts(p, s[MarkerEnd(s, k).value..])
  }

  /** The positions where the pattern matches. */
  function Matches(s: string, p: LabelPattern): nat -> bool
  {
    (j: nat) => MatchesAt(s, p, j)
  }

  /** The leftmost position at or after `k` where the pattern matches. */
  function FindFrom(s: string, p: LabelPattern, k: nat): Option<nat>
  {
    Leftmost(Matches(s, p), k, |s| + 1)
  }

  lemma FindFromSpec(s: string, p: LabelPattern, k: nat)
    requires k <= |s|
    ensures FindFrom(s, p, k).Some? ==> var r := FindFrom(s, p, k).value;
              k <= r <= |s| && MatchesAt(s, p, r) && forall j :: k <= j < r ==> !MatchesAt(s, p, j)
    ensures FindFrom(s, p, k).None? ==> forall j :: k <= j <= |s| ==> !MatchesAt(s, p, j)
  {
    LeftmostSpec(Matches(s, p), k, |s| + 1);
    assert forall j: nat :: Matches(s, p)(j) == MatchesAt(s, p, j);
  }

  /** Whether `re.search` finds the heading pattern in `s`. */
  predicate HasHeading(s: string, p: LabelPattern)
  {
    FindFrom(s, p, 0).Some?
  }

  /** `s` is `<x>generic [ref=e<d>]: <name>`. */
  predicate HeadingShape(s: string, x: string, d: string, name: string)
  {
    |d| >= 1 && AllDigits(d) && s == x + Marker(d) + name
  }

  /** A string is the concatenation of three parts exactly when it has their
      total length and each part at its place. */
  lemma SplitThree(s: string, a: string, b: string, c: string)
    ensures s == a + b + c
            <==> |s| == |a| + |b| + |c| && s[..|a|] == a && s[|a|..|a| + |b|] == b
                 && s[|a| + |b|..] == c
  {
    if |s| == |a| + |b| + |c| && s[..|a|] == a && s[|a|..|a| + |b|] == b && s[|a| + |b|..] == c {
      assert s == s[..|a|] + s[|a|..|a| + |b|] + s[|a| + |b|..];
    }
  }

  /** Where the pattern matches at `k`, the line is the text before `k`, the
      marker, and the accepted text. */
  lemma MatchShape(s: string, p: LabelPattern, k: nat)
    requires MatchesAt(s, p, k)
    ensures var e := MarkerEnd(s, k).value;
            HeadingShape(s, s[..k], s[k + |MarkerHead|..e - |MarkerTail|], s[e..])
  {
    var e := MarkerEnd(s, k).value;
    var d := s[k + |MarkerHead|..e - |MarkerTail|];
    MarkerEndShape(s, k);
    assert |Marker(d)| == e - k;
    SplitThree(s, s[..k], Marker(d), s[e..]);
  }

  /** A line of shape `<x><marker><name>` matches at `|x|`, with `name` as the
      text after the marker. */
  lemma ShapeMatches(s: string, x: string, d: string, name: string)
    requires HeadingShape(s, x, d, name)
    ensures MarkerEnd(s, |x|) == Some(|x| + |Marker(d)|) && s[|x| + |Marker(d)|..] == name
  {
    SplitThree(s, x, Marker(d), name);
    assert StartsAt(s, |x|, Marker(d));
    MarkerEndOf(s, |x|, d);
  }

  /** A line has a heading with a given name exactly when it ends with a marker
      followed by that name. */
  lemma HeadingIff(s: string, name: string)
    ensures HasHeading(s, OneOf([name]))
            <==> exists x, d :: HeadingShape(s, x, d, name)
  {
    var p := OneOf([name]);
    FindFromSpec(s, p, 0);
    if HasHeading(s, p) {
      var k := FindFrom(s, p, 0).value;
      MatchShape(s, p, k);
    }
    if exists x, d :: HeadingShape(s, x, d, name) {
      var x, d :| HeadingShape(s, x, d, name);
      ShapeMatches(s, x, d, name);
      assert MatchesAt(s, p, |x|);
    }
  }

  /** A heading for one of `xs` is a heading for any wider alternation. */
  lemma HeadingWiden(s: string, xs: seq<string>, ys: seq<string>)
    requires forall x :: x in xs ==> x in ys
    requires HasHeading(s, OneOf(xs))
    ensures HasHeading(s, OneOf(ys))
  {
    FindFromSpec(s, OneOf(xs), 0);
    FindFromSpec(s, OneOf(ys), 0);
    var k := FindFrom(s, OneOf(xs), 0).value;
    assert MatchesAt(s, OneOf(ys), k);
  }

  /** `re.match(r'- generic \[ref=e\d+\]: <p>', s)`: the marker right after a
      leading `- `. */
  predicate MatchesLine(s: string, p: LabelPattern)
  {
    |s| >= 2 && s[..2] == "- " && MatchesAt(s, p, 2)
  }

  /** A line matches an alternation of labels exactly when it is `- `, a marker
      and one of the labels, with nothing before or after. */
  lemma MatchesLineIff(s: string, opts: seq<string>)
    ensures MatchesLine(s, OneOf(opts))
            <==> exists d, name :: name in opts && HeadingShape(s, "- ", d, name)
  {
    var p := OneOf(opts);
    if MatchesLine(s, p) {
      MatchShape(s, p, 2);
    }
    if exists d, name :: name in opts && HeadingShape(s, "- ", d, name) {
      var d, name :| name in opts && HeadingShape(s, "- ", d, name);
      ShapeMatches(s, "- ", d, name);
      SplitThree(s, "- ", Marker(d), name);
    }
  }

  /** A `$` immediately followed by a digit: where `\$([0-9]+...)` can start. */
  predicate PriceAt(s: string, k: nat)
  {
    k + 1 < |s| && s[k] == '$' && IsDigit(s[k + 1])
  }

  function PriceFrom(s: string, k: nat): (r: Option<nat>)
    requires k <= |s|
    ensures r.Some? ==> k <= r.value && PriceAt(s, r.value)
                        && forall j :: k <= j < r.value ==> !PriceAt(s, j)
    ensures r.None? ==> forall j :: k <= j ==> !PriceAt(s, j)
    decreases |s| - k
  {
    if PriceAt(s, k) then Some(k)
    else if k == |s| then None
    else FindNext(s, k)
  }

  function FindNext(s: string, k: nat): (r: Option<nat>)
    requires k < |s| && !PriceAt(s, k)
    ensures r.Some? ==> k < r.value && PriceAt(s, r.value)
                        && forall j :: k <= j < r.value ==> !PriceAt(s, j)
    ensures r.None? ==> forall j :: k <= j ==> !PriceAt(s, j)
    decreases |s| - k, 0
  {
    PriceFrom(s, k + 1)
  }

  /** The literal `[0-9]+(?:\.[0-9]+)?` captured after the `$` at `k`: the
      longest run of digits, and a fraction only when a point is followed by a
      digit. */
  function AmountAt(s: string, k: nat): (a: Amount)
    requires PriceAt(s, k)
    ensures ValidAmount(a) && StartsAt(s, k + 1, AmountText(a))
    ensures var e := k + 1 + |a.whole|; e == |s| || !IsDigit(s[e])
    ensures a.frac != "" ==> var e := k + 2 + |a.whole| + |a.frac|; e == |s| || !IsDigit(s[e])
    ensures a.frac == "" ==> var e := k + 1 + |a.whole|;
                             !(e + 1 < |s| && s[e] == '.' && IsDigit(s[e + 1]))
  {
    var w := DigitRun(s, k + 1);
    var e := k + 1 + |w|;
    if e + 1 < |s| && s[e] == '.' && IsDigit(s[e + 1]) then
      var f := DigitRun(s, e + 1);
      DottedAt(s, k + 1, w, f);
      assert |f| >= 1 && (e + 1 + |f| == |s| || !IsDigit(s[e + 1 + |f|]));
      Amount(w, f)
    else
      Amount(w, "")
  }

  /** Digits, a point and digits in a row at `p`. */
  lemma DottedAt(s: string, p: nat, w: string, f: string)
    requires StartsAt(s, p, w) && p + |w| < |s| && s[p + |w|] == '.'
    requires StartsAt(s, p + |w| + 1, f)
    ensures StartsAt(s, p, w + "." + f)
  {
    assert StartsAt(s, p + |w|, ".");
    StartsAtConcat(s, p, w, ".");
    StartsAtConcat(s, p, w + ".", f);
  }

  /** Some `$` of `s` is followed by a digit. */
  ghost predicate HasPrice(s: string)
  {
    exists k: nat :: PriceAt(s, k)
  }

  /** `re.search(r'\$([0-9]+(?:\.[0-9]+)?)', s)`: the literal of the leftmost
      `$` that is followed by a digit. */
  function PriceIn(s: string): (r: Option<Amount>)
    ensures r.Some? <==> HasPrice(s)
    ensures r.Some? ==> exists k: nat :: PriceAt(s, k) && r.value == AmountAt(s, k)
                                    && forall j :: 0 <= j < k ==> !PriceAt(s, j)
  {
    match PriceFrom(s, 0)
    case Some(k) => Some(AmountAt(s, k))
    case None => None
  }

  /** The amount a full literal `<digits>[.<digits>]` spells. */
  function ParseLiteral(t: string): (a: Amount)
    requires IsLiteral(t)
    ensures ValidAmount(a) && AmountText(a) == t
  {
    var w := DigitRun(t, 0);
    if |w| == |t| then
      assert t == w;
      Amount(w, "")
    else
      assert t == w + "." + t[|w| + 1..];
      Amount(w, t[|w| + 1..])
  }

  /** A price literal as written is plain decimal notation. */
  lemma LiteralDecimal(t: string)
    requires IsLiteral(t)
    ensures IsDecimalText(t)
  {
    AmountTextDenotes(ParseLiteral(t));
  }

  /** Writing a literal and parsing it back gives the same amount. */
  lemma LiteralRoundTrip(a: Amount)
    requires ValidAmount(a)
    ensures IsLiteral(AmountText(a)) && ParseLiteral(AmountText(a)) == a
  {
    var t := AmountText(a);
    assert t[..|a.whole|] == a.whole;
    if a.frac != "" {
      assert t[|a.whole|] == '.';
    }
    DigitRunOf(t, 0, a.whole);
    var w := DigitRun(t, 0);
    if a.frac != "" {
      assert t[|w|] == '.';
      assert t[|w| + 1..] == a.frac;
    }
  }

  /** The group `(.+?)` of `"?(.+?)"?$` over the text `t` after a marker: an
      opening quote is taken when something follows it, and a closing quote is
      left out when what is left keeps at least one character. */
  function Unquote(t: string): (g: string)
    requires |t| >= 1
    ensures |g| >= 1
  {
    var inner := if |t| >= 2 && t[0] == '"' then t[1..] else t;
    if |inner| >= 2 && inner[|inner| - 1] == '"' then inner[..|inner| - 1] else inner
  }

  /** `t` can be split as an optional opening quote (taken when `open`), a
      group of at least one character, and an optional closing quote (taken when
      `close`). */
  predicate QuotedSplit(t: string, open: bool, close: bool)
  {
    var o, c := if open then 1 else 0, if close then 1 else 0;
    |t| >= o + 1 + c && (open ==> t[0] == '"') && (close ==> t[|t| - 1] == '"')
  }

  /** The group of such a split. */
  function SplitGroup(t: string, open: bool, close: bool): string
    requires QuotedSplit(t, open, close)
  {
    t[(if open then 1 else 0)..|t| - (if close then 1 else 0)]
  }

  /** Unquote is what backtracking gives: the greedy `"?` takes the opening
      quote whenever some split can still follow it (a split with an opening
      quote and a closing one implies one without the closing one), and the lazy
      `.+?` then takes the shorter group, leaving the closing quote to `"?`
      whenever that split exists. */
  lemma UnquoteIsLazyMatch(t: string)
    requires |t| >= 1
    ensures var open := QuotedSplit(t, true, false);
            var close := QuotedSplit(t, open, true);
            QuotedSplit(t, open, close) && Unquote(t) == SplitGroup(t, open, close)
  {
  }

  /** The text `m.group(1)` captures for a pattern, given the text after the
      marker. */
  function Capture(p: LabelPattern, t: string): string
    requires Accepts(p, t)
  {
    match p
    case DollarLiteral => t[1..]
    case AnyText => Unquote(t)
    case _ => t
  }

  /** `m.group(1)` of `re.search(r'generic \[ref=e\d+\]: (<p>)$', s)`. */
  function Group(s: string, p: LabelPattern): (r: Option<string>)
    ensures r.Some? <==> HasHeading(s, p)
    ensures r.Some? && p.OneOf? ==> r.value in p.options
    ensures r.Some? && p == Resolution ==> IsResolution(r.value)
    ensures r.Some? && p == DollarLiteral ==> IsLiteral(r.value)
    ensures r.Some? && p == AnyText ==> |r.value| >= 1
  {
    FindFromSpec(s, p, 0);
    match FindFrom(s, p, 0)
    case Some(k) => Some(Capture(p, s[MarkerEnd(s, k).value..]))
    case None => None
  }
}
