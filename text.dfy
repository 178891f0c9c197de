/**
 * The pieces of Python's `str` that the pricing scraper relies on: whitespace
 * stripping, substring tests, `'\n'.join` and `split('\n')`, and `rstrip` of
 * one character. Strings are `seq<char>`; nothing here is locale dependent.
 */
module Text {

  datatype Option<+T> = None | Some(value: T)

  /** Python's `str.isspace` for one character (the set CPython's `strip()`
      and the regular expression class `\s` both use). */
  predicate IsSpace(c: char)
  {
    || ('\t' <= c <= '\r')
    || ('\U{1C}' <= c <= ' ')
    || c == '\U{85}' || c == '\U{A0}' || c == '\U{1680}'
    || ('\U{2000}' <= c <= '\U{200A}')
    || c == '\U{2028}' || c == '\U{2029}' || c == '\U{202F}'
    || c == '\U{205F}' || c == '\U{3000}'
  }

  predicate IsDigit(c: char)
  {
    '0' <= c <= '9'
  }

  predicate AllDigits(s: string)
  {
    forall k :: 0 <= k < |s| ==> IsDigit(s[k])
  }

  /** `p` occurs in `s` starting at index `k`. */
  predicate StartsAt(s: string, k: int, p: string)
  {
    0 <= k && k + |p| <= |s| && s[k..k + |p|] == p
  }

  /** Python's `p in s`. */
  predicate Contains(s: string, p: string)
  {
    exists k :: 0 <= k <= |s| && StartsAt(s, k, p)
  }

  /** Python's `s.lstrip()`. */
  function StripStart(s: string): string
  {
    if |s| > 0 && IsSpace(s[0]) then StripStart(s[1..]) else s
  }

  /** `lstrip` removes exactly the leading run of whitespace. */
  lemma {:induction false} StripStartSpec(s: string)
    ensures var r := StripStart(s);
            |r| <= |s| && r == s[|s| - |r|..]
            && (r == [] || !IsSpace(r[0]))
            && forall k :: 0 <= k < |s| - |r| ==> IsSpace(s[k])
    decreases |s|
  {
    if |s| > 0 && IsSpace(s[0]) {
      StripStartSpec(s[1..]);
    }
  }

  /** Python's `s.rstrip()`. */
  function StripEnd(s: string): string
  {
    if |s| > 0 && IsSpace(s[|s| - 1]) then StripEnd(s[..|s| - 1]) else s
  }

  /** `rstrip` removes exactly the trailing run of whitespace. */
  lemma {:induction false} StripEndSpec(s: string)
    ensures var r := StripEnd(s);
            |r| <= |s| && r == s[..|r|]
            && (r == [] || !IsSpace(r[|r| - 1]))
            && forall k :: |r| <= k < |s| ==> IsSpace(s[k])
    decreases |s|
  {
    if |s| > 0 && IsSpace(s[|s| - 1]) {
      StripEndSpec(s[..|s| - 1]);
    }
  }

  /** Python's `s.strip()`. */
  function Strip(s: string): string
  {
    StripStart(StripEnd(s))
  }

  /** `strip` yields the text between the leading and trailing runs of
      whitespace: it starts and ends with a non-space, and only whitespace lies
      around it in `s`. */
  lemma StripSpec(s: string)
    ensures var r := Strip(s);
            (r == [] || (!IsSpace(r[0]) && !IsSpace(r[|r| - 1])))
            && exists k :: StartsAt(s, k, r)
                           && (forall j :: 0 <= j < k ==> IsSpace(s[j]))
                           && (forall j :: k + |r| <= j < |s| ==> IsSpace(s[j]))
  {
    var e := StripEnd(s);
    var r := StripStart(e);
    StripEndSpec(s);
    StripStartSpec(e);
    if r != [] {
      assert r[|r| - 1] == e[|e| - 1];
    }
    assert s[|e| - |r|..|e| - |r| + |r|] == r;
    assert StartsAt(s, |e| - |r|, r);
  }

  /** Python's `s.rstrip(c)` for a single character `c`. */
  function TrimEnd(s: string, c: char): (r: string)
    ensures |r| <= |s| && r == s[..|r|]
    ensures r == [] || r[|r| - 1] != c
    ensures forall k :: |r| <= k < |s| ==> s[k] == c
  {
    if |s| > 0 && s[|s| - 1] == c then TrimEnd(s[..|s| - 1], c) else s
  }

  /** Python's `s.lstrip(c)` for a single character `c`. */
  function TrimStart(s: string, c: char): (r: string)
    ensures |r| <= |s| && r == s[|s| - |r|..]
    ensures r == [] || r[0] != c
    ensures forall k :: 0 <= k < |s| - |r| ==> s[k] == c
  {
    if |s| > 0 && s[0] == c then TrimStart(s[1..], c) else s
  }

  /** Index of the first `c` in `s`, or `|s|` when there is none. */
  function IndexOf(s: string, c: char): (k: nat)
    ensures k <= |s|
    ensures k < |s| ==> s[k] == c
    ensures forall j :: 0 <= j < k ==> s[j] != c
  {
    if |s| == 0 then 0 else if s[0] == c then 0 else 1 + IndexOf(s[1..], c)
  }

  /** Python's `'\n'.join(ls)`. */
  function Join(ls: seq<string>): string
  {
    if |ls| == 0 then "" else if |ls| == 1 then ls[0] else ls[0] + "\n" + Join(ls[1..])
  }

  /** Python's `s.split('\n')`: the pieces between newlines, always at least one. */
  function Split(s: string): (pieces: seq<string>)
    ensures |pieces| >= 1
    ensures forall k :: 0 <= k < |pieces| ==> '\n' !in pieces[k]
    ensures Join(pieces) == s
    decreases |s|
  {
    var k := IndexOf(s, '\n');
    if k == |s| then
      assert forall c :: c in s ==> c != '\n';
      [s]
    else
      var rest := Split(s[k + 1..]);
      assert s == s[..k] + "\n" + s[k + 1..];
      assert '\n' !in s[..k];
      assert ([s[..k]] + rest)[1..] == rest;
      [s[..k]] + rest
  }

  /** Splitting undoes joining when no piece holds a newline. */
  lemma {:induction false} SplitJoin(ls: seq<string>)
    requires |ls| >= 1
    requires forall k :: 0 <= k < |ls| ==> '\n' !in ls[k]
    ensures Split(Join(ls)) == ls
  {
    if |ls| == 1 {
      assert IndexOf(ls[0], '\n') == |ls[0]|;
    } else {
      var s := Join(ls);
      var rest := Join(ls[1..]);
      assert s == ls[0] + "\n" + rest;
      var k := IndexOf(s, '\n');
      assert s[|ls[0]|] == '\n';
      assert k == |ls[0]|;
      assert s[..k] == ls[0];
      assert s[k + 1..] == rest;
      SplitJoin(ls[1..]);
      assert ls == [ls[0]] + ls[1..];
    }
  }

  /** Where `p` occurs at `k`, the character of `s` at `i` is one of `p`'s. */
  lemma StartsAtChar(s: string, k: int, p: string, i: int)
    requires StartsAt(s, k, p) && k <= i < k + |p|
    ensures s[i] in p
  {
    assert p[i - k] == s[k..k + |p|][i - k];
  }

  /** A phrase without a newline occurs in `a + "\n" + b` exactly when it occurs in
      `a` or in `b`. */
  lemma ContainsAroundNewline(a: string, b: string, p: string)
    requires '\n' !in p
    ensures Contains(a + "\n" + b, p) <==> Contains(a, p) || Contains(b, p)
  {
    var s := a + "\n" + b;
    if Contains(a, p) {
      var k :| 0 <= k <= |a| && StartsAt(a, k, p);
      assert s[k..k + |p|] == a[k..k + |p|];
      assert StartsAt(s, k, p);
    }
    if Contains(b, p) {
      var k :| 0 <= k <= |b| && StartsAt(b, k, p);
      assert s[|a| + 1 + k..|a| + 1 + k + |p|] == b[k..k + |p|];
      assert StartsAt(s, |a| + 1 + k, p);
    }
    if Contains(s, p) {
      var k :| 0 <= k <= |s| && StartsAt(s, k, p);
      if k + |p| <= |a| {
        assert a[k..k + |p|] == s[k..k + |p|];
        assert StartsAt(a, k, p);
      } else if k <= |a| {
        StartsAtChar(s, k, p, |a|);
        assert false;
      } else {
        assert b[k - |a| - 1..k - |a| - 1 + |p|] == s[k..k + |p|];
        assert StartsAt(b, k - |a| - 1, p);
      }
    }
  }

  /** A nonempty phrase without a newline occurs in the joined text exactly when it
      occurs in one of the joined lines. */
  lemma {:induction false} ContainsInJoin(ls: seq<string>, p: string)
    requires |p| >= 1 && '\n' !in p
    ensures Contains(Join(ls), p) <==> exists k :: 0 <= k < |ls| && Contains(ls[k], p)
  {
    if |ls| == 0 {
      assert !StartsAt("", 0, p);
    } else if |ls| == 1 {
    } else {
      ContainsAroundNewline(ls[0], Join(ls[1..]), p);
      ContainsInJoin(ls[1..], p);
      if exists k :: 0 <= k < |ls| && Contains(ls[k], p) {
        var k :| 0 <= k < |ls| && Contains(ls[k], p);
        if k > 0 { assert ls[1..][k - 1] == ls[k]; }
      }
      if exists k :: 0 <= k < |ls[1..]| && Contains(ls[1..][k], p) {
        var k :| 0 <= k < |ls[1..]| && Contains(ls[1..][k], p);
        assert ls[k + 1] == ls[1..][k];
      }
    }
  }

  /** The least `j` in `k .. n - 1` with `P(j)`, if there is one. */
  function Leftmost(P: nat -> bool, k: nat, n: nat): Option<nat>
    decreases n - k
  {
    if k >= n then None else if P(k) then Some(k) else Leftmost(P, k + 1, n)
  }

  lemma {:induction false} LeftmostSpec(P: nat -> bool, k: nat, n: nat)
    ensures Leftmost(P, k, n).Some? ==> var r := Leftmost(P, k, n).value;
              k <= r < n && P(r) && forall j :: k <= j < r ==> !P(j)
    ensures Leftmost(P, k, n).None? ==> forall j :: k <= j < n ==> !P(j)
    decreases n - k
  {
    if k < n && !P(k) {
      LeftmostSpec(P, k + 1, n);
    }
  }

  /** One step of the search. */
  lemma LeftmostStep(P: nat -> bool, k: nat, n: nat)
    requires k < n
    ensures Leftmost(P, k, n) == if P(k) then Some(k) else Leftmost(P, k + 1, n)
  {
  }

  /** The first `j` from `k` with `P(j)` is the one found. */
  lemma {:induction false} LeftmostIs(P: nat -> bool, k: nat, n: nat, i: nat)
    requires k <= i < n && P(i) && forall j :: k <= j < i ==> !P(j)
    ensures Leftmost(P, k, n) == Some(i)
    decreases i - k
  {
    if k < i {
      LeftmostIs(P, k + 1, n, i);
    }
  }

  /** With no `j` in `k .. n - 1` satisfying `P`, none is found. */
  lemma {:induction false} LeftmostNone(P: nat -> bool, k: nat, n: nat)
    requires forall j :: k <= j < n ==> !P(j)
    ensures Leftmost(P, k, n).None?
    decreases n - k
  {
    if k < n {
      LeftmostNone(P, k + 1, n);
    }
  }

  /** The greatest `j` in `k .. n - 1` with `P(j)`, if there is one. */
  function Rightmost(P: nat -> bool, k: nat, n: nat): Option<nat>
    decreases n
  {
    if n <= k then None else if P(n - 1) then Some(n - 1) else Rightmost(P, k, n - 1)
  }

  lemma {:induction false} RightmostSpec(P: nat -> bool, k: nat, n: nat)
    ensures Rightmost(P, k, n).Some? ==> var r := Rightmost(P, k, n).value;
              k <= r < n && P(r) && forall j :: r < j < n ==> !P(j)
    ensures Rightmost(P, k, n).None? ==> forall j :: k <= j < n ==> !P(j)
    decreases n
  {
    if k < n && !P(n - 1) {
      RightmostSpec(P, k, n - 1);
    }
  }

  /** A slice of a slice is a slice of the whole. */
  lemma SliceOfSlice(s: string, a: nat, b: nat, i: nat, j: nat)
    requires a <= b <= |s| && i <= j <= b - a
    ensures s[a..b][i..j] == s[a + i..a + j]
  {
    assert forall n :: 0 <= n < j - i ==> s[a..b][i..j][n] == s[a + i + n];
  }
}
