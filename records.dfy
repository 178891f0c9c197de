/**
 * Pricing records and the "first occurrence wins" bookkeeping the token and
 * fallback scanners use: a record is appended only when no record with the same
 * unit type is already present.
 */
module Records {
  import opened Text

  /** One `{"unit_type": ..., "price": ...}` entry of a model's pricing list. */
  datatype Record = Record(unitType: string, price: string)

  predicate HasUnit(rs: seq<Record>, u: string)
  {
    exists k :: 0 <= k < |rs| && rs[k].unitType == u
  }

  /** No unit type occurs twice. */
  predicate UniqueUnits(rs: seq<Record>)
  {
    forall j, k :: 0 <= j < k < |rs| ==> rs[j].unitType != rs[k].unitType
  }

  /** `if not any(p['unit_type'] == r.unit_type for p in rs): rs.append(r)`. */
  function AddIfNew(rs: seq<Record>, r: Record): seq<Record>
  {
    if HasUnit(rs, r.unitType) then rs else rs + [r]
  }

  /** The statement `if not any(p['unit_type'] == r.unit_type for p in rs):
      rs.append(r)` on a list variable, for a record that may be absent. */
  method AppendIfNew(rs: seq<Record>, r: Option<Record>) returns (rs': seq<Record>)
    ensures rs' == Include(rs, r)
  {
    rs' := rs;
    if r.Some? && !HasUnit(rs, r.value.unitType) {
      rs' := rs + [r.value];
    }
  }

  /** `AddIfNew` for a record that may be absent. */
  function Include(rs: seq<Record>, r: Option<Record>): seq<Record>
  {
    match r
    case Some(x) => AddIfNew(rs, x)
    case None => rs
  }

  /** The list holding the record, if there is one. */
  function Emitted(r: Option<Record>): (rs: seq<Record>)
    ensures r.Some? ==> rs == [r.value]
    ensures r.None? ==> rs == []
  {
    match r
    case Some(x) => [x]
    case None => []
  }

  /** The statement `rs.append(r)` for a record that may be absent. */
  method AppendPresent(rs: seq<Record>, r: Option<Record>) returns (rs': seq<Record>)
    ensures rs' == rs + Emitted(r)
  {
    rs' := rs;
    if r.Some? {
      rs' := rs + [r.value];
    }
  }

  /** The records present among `os`, in order. */
  function Flatten(os: seq<Option<Record>>): seq<Record>
  {
    if |os| == 0 then [] else Flatten(os[..|os| - 1]) + Emitted(os[|os| - 1])
  }

  lemma FlattenSnoc(os: seq<Option<Record>>, i: nat)
    requires i < |os|
    ensures Flatten(os[..i + 1]) == Flatten(os[..i]) + Emitted(os[i])
  {
    assert os[..i + 1][..i] == os[..i];
  }

  /** Every record of the flattened list is present at some position. */
  lemma {:induction false} FlattenMember(os: seq<Option<Record>>)
    ensures forall r :: r in Flatten(os) ==> exists i :: 0 <= i < |os| && os[i] == Some(r)
  {
    if |os| > 0 {
      var init := os[..|os| - 1];
      FlattenMember(init);
      forall r | r in Flatten(os) ensures exists i :: 0 <= i < |os| && os[i] == Some(r) {
        if r in Flatten(init) {
          var i :| 0 <= i < |init| && init[i] == Some(r);
          assert os[i] == Some(r);
        } else {
          assert os[|os| - 1] == Some(r);
        }
      }
    }
  }

  /** Every record present among `os` occurs in the flattened list, and the
      list holds no other. */
  lemma {:induction false} FlattenHas(os: seq<Option<Record>>, i: nat)
    requires i < |os| && os[i].Some?
    ensures os[i].value in Flatten(os)
  {
    var init := os[..|os| - 1];
    if i < |os| - 1 {
      FlattenHas(init, i);
    }
  }

  /** The rows `f(0), ..., f(n - 1)` one after another. */
  function Concat<T>(f: nat -> seq<T>, n: nat): seq<T>
  {
    if n == 0 then [] else Concat(f, n - 1) + f(n - 1)
  }

  lemma ConcatSnoc<T>(f: nat -> seq<T>, n: nat)
    ensures Concat(f, n + 1) == Concat(f, n) + f(n)
  {
  }

  /** Every element of every row is in the concatenation. */
  lemma {:induction false} ConcatHas<T>(f: nat -> seq<T>, n: nat, i: nat, k: nat)
    requires i < n && k < |f(i)|
    ensures f(i)[k] in Concat(f, n)
  {
    if i < n - 1 {
      ConcatHas(f, n - 1, i, k);
    } else {
      assert (Concat(f, i) + f(i))[|Concat(f, i)| + k] == f(i)[k];
    }
  }

  /** Every element of the concatenation comes from a row. */
  lemma {:induction false} ConcatFrom<T>(f: nat -> seq<T>, n: nat, x: T)
    requires x in Concat(f, n)
    ensures exists i: nat, k: nat :: i < n && k < |f(i)| && f(i)[k] == x
  {
    if x in Concat(f, n - 1) {
      ConcatFrom(f, n - 1, x);
    } else {
      var k :| 0 <= k < |f(n - 1)| && f(n - 1)[k] == x;
    }
  }

  /** The list a sequence of `AddIfNew` calls builds from `rs`, in order. */
  function Dedup(rs: seq<Record>): seq<Record>
  {
    if |rs| == 0 then [] else AddIfNew(Dedup(rs[..|rs| - 1]), rs[|rs| - 1])
  }

  /** Index of the first record of `rs` with unit type `u`. */
  function FirstIndex(rs: seq<Record>, u: string): (k: nat)
    requires HasUnit(rs, u)
    ensures k < |rs| && rs[k].unitType == u
    ensures forall j :: 0 <= j < k ==> rs[j].unitType != u
  {
    if rs[0].unitType == u then 0
    else
      var k :| 0 <= k < |rs| && rs[k].unitType == u;
      assert rs[1..][k - 1].unitType == u;
      1 + FirstIndex(rs[1..], u)
  }

  /** Deduplicating a list with one more record at the end is adding that
      record when its unit type is new. */
  lemma DedupSnoc(rs: seq<Record>, r: Record)
    ensures Dedup(rs + [r]) == AddIfNew(Dedup(rs), r)
  {
    assert (rs + [r])[..|rs|] == rs;
  }

  /** Deduplicating one more optional record adds it when its unit type is
      new. */
  lemma DedupFlattenStep(os: seq<Option<Record>>, i: nat)
    requires i < |os|
    ensures Dedup(Flatten(os[..i + 1])) == Include(Dedup(Flatten(os[..i])), os[i])
  {
    FlattenSnoc(os, i);
    if os[i].Some? {
      DedupSnoc(Flatten(os[..i]), os[i].value);
    } else {
      assert Flatten(os[..i + 1]) == Flatten(os[..i]);
    }
  }

  /** Deduplicating the offers with one more at the end includes that offer
      when its unit type is new. */
  lemma DedupFlattenSnoc(os: seq<Option<Record>>, o: Option<Record>)
    ensures Dedup(Flatten(os + [o])) == Include(Dedup(Flatten(os)), o)
  {
    DedupFlattenStep(os + [o], |os|);
    assert (os + [o])[..|os|] == os;
    assert (os + [o])[..|os| + 1] == os + [o];
  }

  /** One more element of the current row. */
  lemma DedupFlattenRow(os: seq<Option<Record>>, row: seq<Option<Record>>, k: nat)
    requires k < |row|
    ensures Dedup(Flatten(os + row[..k + 1])) == Include(Dedup(Flatten(os + row[..k])), row[k])
  {
    assert os + row[..k + 1] == (os + row[..k]) + [row[k]];
    DedupFlattenSnoc(os + row[..k], row[k]);
  }

  /** After deduplication no unit type occurs twice. */
  lemma {:induction false} DedupUnique(rs: seq<Record>)
    ensures UniqueUnits(Dedup(rs))
  {
    if |rs| > 0 {
      DedupUnique(rs[..|rs| - 1]);
    }
  }

  /** Deduplication keeps exactly the unit types that occur. */
  lemma {:induction false} DedupHasUnit(rs: seq<Record>, u: string)
    ensures HasUnit(Dedup(rs), u) <==> HasUnit(rs, u)
  {
    if |rs| > 0 {
      var init, last := rs[..|rs| - 1], rs[|rs| - 1];
      DedupHasUnit(init, u);
      var d := Dedup(init);
      assert Dedup(rs) == AddIfNew(d, last);
      assert HasUnit(rs, u) <==> HasUnit(init, u) || last.unitType == u by {
        if HasUnit(init, u) {
          var k :| 0 <= k < |init| && init[k].unitType == u;
          assert rs[k] == init[k];
        }
        if HasUnit(rs, u) && last.unitType != u {
          var k :| 0 <= k < |rs| && rs[k].unitType == u;
          assert init[k] == rs[k];
        }
        assert rs[|rs| - 1] == last;
      }
      if !HasUnit(d, last.unitType) {
        assert HasUnit(Dedup(rs), u) <==> HasUnit(d, u) || last.unitType == u by {
          var e := d + [last];
          assert e[|d|] == last;
          if HasUnit(e, u) && !HasUnit(d, u) {
            var k :| 0 <= k < |e| && e[k].unitType == u;
            if k < |d| { assert e[k] == d[k]; }
          }
          if HasUnit(d, u) {
            var k :| 0 <= k < |d| && d[k].unitType == u;
            assert e[k] == d[k];
          }
        }
      }
    }
  }

  /** Every record kept is the first record of `rs` with its unit type. */
  lemma {:induction false} DedupFirst(rs: seq<Record>, k: nat)
    requires k < |Dedup(rs)|
    ensures HasUnit(rs, Dedup(rs)[k].unitType)
    ensures Dedup(rs)[k] == rs[FirstIndex(rs, Dedup(rs)[k].unitType)]
  {
    var init := rs[..|rs| - 1];
    var last := rs[|rs| - 1];
    var d := Dedup(init);
    var u := Dedup(rs)[k].unitType;
    if k < |d| {
      assert Dedup(rs)[k] == d[k];
      DedupFirst(init, k);
      FirstIndexPrefix(init, rs, u);
    } else {
      assert !HasUnit(d, last.unitType) && Dedup(rs)[k] == last && u == last.unitType;
      DedupHasUnit(init, u);
      assert rs[|rs| - 1].unitType == u;
      if HasUnit(init, u) {
        assert false;
      }
      assert forall j :: 0 <= j < |rs| - 1 ==> rs[j].unitType != u by {
        forall j | 0 <= j < |rs| - 1 ensures rs[j].unitType != u {
          assert rs[j] == init[j];
        }
      }
      assert FirstIndex(rs, u) == |rs| - 1;
    }
  }

  /** The first index of a unit in a prefix is its first index in the whole. */
  lemma FirstIndexPrefix(init: seq<Record>, rs: seq<Record>, u: string)
    requires |init| <= |rs| && init == rs[..|init|] && HasUnit(init, u)
    ensures HasUnit(rs, u) && FirstIndex(rs, u) == FirstIndex(init, u)
  {
    var k := FirstIndex(init, u);
    assert rs[k] == init[k];
  }

  /** A list that already has unique unit types is left unchanged. */
  lemma {:induction false} DedupOfUnique(rs: seq<Record>)
    requires UniqueUnits(rs)
    ensures Dedup(rs) == rs
  {
    if |rs| > 0 {
      var init := rs[..|rs| - 1];
      assert UniqueUnits(init);
      DedupOfUnique(init);
      DedupHasUnit(init, rs[|rs| - 1].unitType);
      assert init + [rs[|rs| - 1]] == rs;
    }
  }

  /** Deduplicating twice is the same as deduplicating once. */
  lemma DedupIdempotent(rs: seq<Record>)
    ensures Dedup(Dedup(rs)) == Dedup(rs)
  {
    DedupUnique(rs);
    DedupOfUnique(Dedup(rs));
  }

  /** Deduplication never lengthens the list. */
  lemma {:induction false} DedupLength(rs: seq<Record>)
    ensures |Dedup(rs)| <= |rs|
  {
    if |rs| > 0 {
      DedupLength(rs[..|rs| - 1]);
    }
  }

  /** Every record kept occurs in the input. */
  lemma {:induction false} DedupSubset(rs: seq<Record>)
    ensures forall r :: r in Dedup(rs) ==> r in rs
  {
    if |rs| > 0 {
      var init := rs[..|rs| - 1];
      DedupSubset(init);
      forall r | r in Dedup(rs) ensures r in rs {
        if r in Dedup(init) {
          assert r in init;
          var k :| 0 <= k < |init| && init[k] == r;
          assert rs[k] == r;
        }
      }
    }
  }

  /** Position `i` holds `r` and no earlier position holds a record with the
      same unit type. */
  predicate FirstOffer(os: seq<Option<Record>>, i: nat, r: Record)
  {
    i < |os| && os[i] == Some(r)
    && forall j :: 0 <= j < i && os[j].Some? ==> os[j].value.unitType != r.unitType
  }

  /** A record present among `os` has its unit type in the flattened list. */
  lemma FlattenHasUnit(os: seq<Option<Record>>, j: nat)
    requires j < |os| && os[j].Some?
    ensures HasUnit(Flatten(os), os[j].value.unitType)
  {
    FlattenHas(os, j);
    var fs := Flatten(os);
    var k :| 0 <= k < |fs| && fs[k] == os[j].value;
  }

  /** Every record kept is the first one offered with its unit type. */
  lemma {:induction false} DedupFlattenFirst(os: seq<Option<Record>>, r: Record) returns (i: nat)
    requires r in Dedup(Flatten(os))
    ensures FirstOffer(os, i, r)
  {
    assert |os| > 0;
    var init := os[..|os| - 1];
    DedupFlattenStep(os, |os| - 1);
    assert os[..|os|] == os;
    if r in Dedup(Flatten(init)) {
      i := DedupFlattenFirst(init, r);
      FirstOfferPrefix(os, i, r);
    } else {
      NewUnitFirst(os, r);
      i := |os| - 1;
    }
  }

  /** The first offer in all but the last position is the first in all. */
  lemma FirstOfferPrefix(os: seq<Option<Record>>, i: nat, r: Record)
    requires |os| > 0 && FirstOffer(os[..|os| - 1], i, r)
    ensures FirstOffer(os, i, r)
  {
    assert forall j :: 0 <= j < |os| - 1 ==> os[j] == os[..|os| - 1][j];
  }

  /** The record the last position adds is the first with its unit type. */
  lemma NewUnitFirst(os: seq<Option<Record>>, r: Record)
    requires |os| > 0
    requires r in Include(Dedup(Flatten(os[..|os| - 1])), os[|os| - 1])
    requires r !in Dedup(Flatten(os[..|os| - 1]))
    ensures FirstOffer(os, |os| - 1, r)
  {
    var init := os[..|os| - 1];
    var d := Dedup(Flatten(init));
    assert os[|os| - 1] == Some(r) && !HasUnit(d, r.unitType);
    DedupHasUnit(Flatten(init), r.unitType);
    forall j | 0 <= j < |os| - 1 && os[j].Some? ensures os[j].value.unitType != r.unitType {
      assert init[j] == os[j];
      FlattenHasUnit(init, j);
    }
  }

  /** Every unit type offered is kept. */
  lemma DedupFlattenCovers(os: seq<Option<Record>>, i: nat)
    requires i < |os| && os[i].Some?
    ensures HasUnit(Dedup(Flatten(os)), os[i].value.unitType)
  {
    FlattenHasUnit(os, i);
    DedupHasUnit(Flatten(os), os[i].value.unitType);
  }

  /** The flattened list is empty exactly when no record is present. */
  lemma {:induction false} FlattenEmpty(os: seq<Option<Record>>)
    ensures Flatten(os) == [] <==> forall i :: 0 <= i < |os| ==> os[i].None?
  {
    if |os| > 0 {
      var init := os[..|os| - 1];
      FlattenEmpty(init);
      assert forall i :: 0 <= i < |init| ==> init[i] == os[i];
    }
  }

  /** Deduplication empties only the empty list. */
  lemma DedupEmpty(rs: seq<Record>)
    ensures Dedup(rs) == [] <==> rs == []
  {
    if |rs| > 0 {
      DedupHasUnit(rs, rs[0].unitType);
    }
  }
}
