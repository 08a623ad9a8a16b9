/** The validation step of the suggestion effect: the oracle's proposed
    collections are checked against the parsed document, collections whose
    repeating selector matches nothing or none of whose points resolve
    inside the first match are dropped, and the survivors get their ids. */
module Validation {
  import opened Wrappers
  import opened Dom
  import opened Collections

  /** `firstElement.querySelector(dp.selector)` finds an element. */
  predicate Resolves(doc: Document, anchor: Element, p: ProposedPoint) {
    doc.queryFirst(anchor, p.selector).Some?
  }

  /** `collection.dataPoints.filter(dp => !!firstElement.querySelector(dp.selector))`. */
  function KeptPoints(doc: Document, anchor: Element, ps: seq<ProposedPoint>): (kept: seq<ProposedPoint>)
    ensures |kept| <= |ps|
    ensures forall k :: 0 <= k < |kept| ==> Resolves(doc, anchor, kept[k])
    decreases |ps|
  {
    if ps == [] then []
    else if Resolves(doc, anchor, ps[0]) then [ps[0]] + KeptPoints(doc, anchor, ps[1..])
    else KeptPoints(doc, anchor, ps[1..])
  }

  /** Some proposed point resolves inside the anchor exactly when the filter
      keeps something. */
  lemma {:induction false} KeptNonEmpty(doc: Document, anchor: Element, ps: seq<ProposedPoint>)
    ensures KeptPoints(doc, anchor, ps) != [] <==> exists j :: 0 <= j < |ps| && Resolves(doc, anchor, ps[j])
    decreases |ps|
  {
    if ps != [] {
      KeptNonEmpty(doc, anchor, ps[1..]);
      if exists j :: 1 <= j < |ps| && Resolves(doc, anchor, ps[j]) {
        var j :| 1 <= j < |ps| && Resolves(doc, anchor, ps[j]);
        assert ps[1..][j - 1] == ps[j];
      }
      if exists j :: 0 <= j < |ps| - 1 && Resolves(doc, anchor, ps[1..][j]) {
        var j :| 0 <= j < |ps| - 1 && Resolves(doc, anchor, ps[1..][j]);
        assert ps[1..][j] == ps[j + 1];
      }
    }
  }

  /** The positions (offset by `off`) of the proposed points that survive. */
  ghost function KeptOrigins(doc: Document, anchor: Element, ps: seq<ProposedPoint>, off: nat): seq<nat>
    decreases |ps|
  {
    if ps == [] then []
    else if Resolves(doc, anchor, ps[0]) then [off] + KeptOrigins(doc, anchor, ps[1..], off + 1)
    else KeptOrigins(doc, anchor, ps[1..], off + 1)
  }

  /** `idx` lists increasing positions of `src` (offset by `off`), and `out`
      holds the elements found there: `out` is a subsequence of `src`. */
  ghost predicate Picks<T>(idx: seq<nat>, off: nat, src: seq<T>, out: seq<T>) {
    |idx| == |out| &&
    (forall k :: 0 <= k < |idx| ==> off <= idx[k] < off + |src| && out[k] == src[idx[k] - off]) &&
    (forall k, l :: 0 <= k < l < |idx| ==> idx[k] < idx[l])
  }

  /** The surviving points keep their proposed order. */
  lemma {:induction false} KeptInOrder(doc: Document, anchor: Element, ps: seq<ProposedPoint>, off: nat)
    ensures Picks(KeptOrigins(doc, anchor, ps, off), off, ps, KeptPoints(doc, anchor, ps))
    decreases |ps|
  {
    if ps != [] {
      KeptInOrder(doc, anchor, ps[1..], off + 1);
      var rest := KeptOrigins(doc, anchor, ps[1..], off + 1);
      var tail := KeptPoints(doc, anchor, ps[1..]);
      if Resolves(doc, anchor, ps[0]) {
        assert KeptOrigins(doc, anchor, ps, off) == [off] + rest;
        assert KeptPoints(doc, anchor, ps) == [ps[0]] + tail;
        PicksCons(rest, off, ps, tail);
      } else {
        assert KeptOrigins(doc, anchor, ps, off) == rest;
        assert KeptPoints(doc, anchor, ps) == tail;
        PicksSkip(rest, off, ps, tail);
      }
    }
  }

  /** Picking the head of `src` in front of a pick from its tail. */
  lemma PicksCons<T>(idx: seq<nat>, off: nat, src: seq<T>, out: seq<T>)
    requires src != [] && Picks(idx, off + 1, src[1..], out)
    ensures Picks([off] + idx, off, src, [src[0]] + out)
  {
    var idx' := [off] + idx;
    var out' := [src[0]] + out;
    forall k | 0 <= k < |idx'| ensures off <= idx'[k] < off + |src| && out'[k] == src[idx'[k] - off] {
      if k > 0 {
        assert idx'[k] == idx[k - 1] && out'[k] == out[k - 1];
        assert src[1..][idx[k - 1] - (off + 1)] == src[idx[k - 1] - off];
      }
    }
    forall k, l | 0 <= k < l < |idx'| ensures idx'[k] < idx'[l] {
      assert idx'[l] == idx[l - 1];
      if k > 0 { assert idx'[k] == idx[k - 1]; }
    }
  }

  /** A pick from the tail of `src` is a pick from `src`. */
  lemma PicksSkip<T>(idx: seq<nat>, off: nat, src: seq<T>, out: seq<T>)
    requires src != [] && Picks(idx, off + 1, src[1..], out)
    ensures Picks(idx, off, src, out)
  {
    forall k | 0 <= k < |idx| ensures off <= idx[k] < off + |src| && out[k] == src[idx[k] - off] {
      assert src[1..][idx[k] - (off + 1)] == src[idx[k] - off];
    }
  }

  /** A proposed point survives exactly when it resolves inside the anchor. */
  lemma {:induction false} KeptExactly(doc: Document, anchor: Element, ps: seq<ProposedPoint>, off: nat, j: nat)
    requires j < |ps|
    ensures off + j in KeptOrigins(doc, anchor, ps, off) <==> Resolves(doc, anchor, ps[j])
    decreases |ps|
  {
    var rest := KeptOrigins(doc, anchor, ps[1..], off + 1);
    KeptInOrder(doc, anchor, ps[1..], off + 1);
    assert off !in rest;
    if j > 0 {
      KeptExactly(doc, anchor, ps[1..], off + 1, j - 1);
      assert ps[1..][j - 1] == ps[j];
    }
  }

  /** `dps` are the points `kept` with the ids `dp-i-j`, `j` counting the
      survivors. */
  predicate Numbered(dps: seq<DataPoint>, i: nat, kept: seq<ProposedPoint>) {
    |dps| == |kept| &&
    forall j :: 0 <= j < |kept| ==>
      dps[j] == DataPoint(PointId(i, j), kept[j].fieldLabel, kept[j].selector, kept[j].attribute)
  }

  /** What the validator promises of a collection it keeps: its repeating
      selector matches, it owns a point, and each point resolves inside the
      first match. */
  predicate Sound(doc: Document, c: DataCollection) {
    var all := doc.queryAll(c.repeatingElementSelector);
    |all| > 0 && |c.dataPoints| > 0 &&
    forall j :: 0 <= j < |c.dataPoints| ==> doc.queryFirst(all[0], c.dataPoints[j].selector).Some?
  }

  /** The repeating selector matches, and some proposed point resolves
      inside its first match. */
  predicate Survives(doc: Document, c: ProposedCollection) {
    var all := doc.queryAll(c.repeatingElementSelector);
    |all| > 0 && exists j :: 0 <= j < |c.dataPoints| && Resolves(doc, all[0], c.dataPoints[j])
  }

  /** The callback of `result.collections.map`, for the proposal at
      oracle index `i`: kept exactly when it survives, and then sound, with
      id `coll-i`, the proposal's name and selector, and the resolving points
      numbered in their proposed order. */
  function ValidateCollection(doc: Document, i: nat, c: ProposedCollection): (r: Option<DataCollection>)
    ensures r.Some? <==> Survives(doc, c)
    ensures r.Some? ==> Sound(doc, r.value)
    ensures r.Some? ==>
      r.value.id == CollectionId(i) && r.value.name == c.collectionName &&
      r.value.repeatingElementSelector == c.repeatingElementSelector &&
      Numbered(r.value.dataPoints, i, KeptPoints(doc, doc.queryAll(c.repeatingElementSelector)[0], c.dataPoints))
  {
    var all := doc.queryAll(c.repeatingElementSelector);
    if |all| == 0 then None
    else
      var kept := KeptPoints(doc, all[0], c.dataPoints);
      KeptNonEmpty(doc, all[0], c.dataPoints);
      if kept == [] then None
      else
        var dps := seq(|kept|, j requires 0 <= j < |kept| =>
          DataPoint(PointId(i, j), kept[j].fieldLabel, kept[j].selector, kept[j].attribute));
        Some(DataCollection(CollectionId(i), c.collectionName, c.repeatingElementSelector, dps))
  }

  /** The mapped-and-filtered list for the proposals `cs`, the first of
      which has oracle index `i`. */
  function ValidateFrom(doc: Document, cs: seq<ProposedCollection>, i: nat): (r: seq<DataCollection>)
    ensures |r| <= |cs|
    ensures forall k :: 0 <= k < |r| ==> Sound(doc, r[k])
    decreases |cs|
  {
    if cs == [] then []
    else match ValidateCollection(doc, i, cs[0])
      case None => ValidateFrom(doc, cs[1..], i + 1)
      case Some(c) => [c] + ValidateFrom(doc, cs[1..], i + 1)
  }

  /** The validated collections for the oracle's whole list. */
  function ValidateCollections(doc: Document, cs: seq<ProposedCollection>): seq<DataCollection> {
    ValidateFrom(doc, cs, 0)
  }

  /** The oracle indices (offset by `i`) of the proposals that survive. */
  ghost function SurvivorOrigins(doc: Document, cs: seq<ProposedCollection>, i: nat): (idx: seq<nat>)
    ensures |idx| == |ValidateFrom(doc, cs, i)|
    decreases |cs|
  {
    if cs == [] then []
    else if ValidateCollection(doc, i, cs[0]).Some? then [i] + SurvivorOrigins(doc, cs[1..], i + 1)
    else SurvivorOrigins(doc, cs[1..], i + 1)
  }

  /** The surviving oracle indices lie in range and increase: collections
      keep oracle order. */
  lemma {:induction false} SurvivorsIncrease(doc: Document, cs: seq<ProposedCollection>, i: nat)
    ensures forall k :: 0 <= k < |SurvivorOrigins(doc, cs, i)| ==> i <= SurvivorOrigins(doc, cs, i)[k] < i + |cs|
    ensures forall k, l :: 0 <= k < l < |SurvivorOrigins(doc, cs, i)| ==>
      SurvivorOrigins(doc, cs, i)[k] < SurvivorOrigins(doc, cs, i)[l]
    decreases |cs|
  {
    if cs != [] {
      SurvivorsIncrease(doc, cs[1..], i + 1);
      var rest := SurvivorOrigins(doc, cs[1..], i + 1);
      assert |cs[1..]| == |cs| - 1;
      forall k | 0 <= k < |rest| ensures i < rest[k] < i + |cs| {
      }
      if ValidateCollection(doc, i, cs[0]).Some? {
        var idx := [i] + rest;
        assert SurvivorOrigins(doc, cs, i) == idx;
        forall k, l | 0 <= k < l < |idx| ensures idx[k] < idx[l] {
          assert idx[l] == rest[l - 1];
          if k > 0 { assert idx[k] == rest[k - 1]; }
        }
      } else {
        assert SurvivorOrigins(doc, cs, i) == rest;
      }
    }
  }

  /** The `k`-th validated collection is what `ValidateCollection` made of
      the proposal at the `k`-th surviving oracle index. */
  lemma {:induction false} SurvivorAt(doc: Document, cs: seq<ProposedCollection>, i: nat, k: nat)
    requires k < |ValidateFrom(doc, cs, i)|
    ensures i <= SurvivorOrigins(doc, cs, i)[k] < i + |cs|
    ensures ValidateCollection(doc, SurvivorOrigins(doc, cs, i)[k], cs[SurvivorOrigins(doc, cs, i)[k] - i])
              == Some(ValidateFrom(doc, cs, i)[k])
    decreases |cs|, 1
  {
    if ValidateCollection(doc, i, cs[0]).None? {
      SurvivorAtSkipped(doc, cs, i, k);
    } else if k > 0 {
      assert ValidateFrom(doc, cs, i) == [ValidateCollection(doc, i, cs[0]).value] + ValidateFrom(doc, cs[1..], i + 1);
      SurvivorAtLater(doc, cs, i, k);
    } else {
      assert SurvivorOrigins(doc, cs, i)[0] == i;
    }
  }

  /** `SurvivorAt` when the first proposal is dropped. */
  lemma {:induction false} SurvivorAtSkipped(doc: Document, cs: seq<ProposedCollection>, i: nat, k: nat)
    requires cs != [] && ValidateCollection(doc, i, cs[0]).None?
    requires k < |ValidateFrom(doc, cs, i)|
    ensures i <= SurvivorOrigins(doc, cs, i)[k] < i + |cs|
    ensures ValidateCollection(doc, SurvivorOrigins(doc, cs, i)[k], cs[SurvivorOrigins(doc, cs, i)[k] - i])
              == Some(ValidateFrom(doc, cs, i)[k])
    decreases |cs|, 0
  {
    var rest := SurvivorOrigins(doc, cs[1..], i + 1);
    assert ValidateFrom(doc, cs, i) == ValidateFrom(doc, cs[1..], i + 1);
    assert SurvivorOrigins(doc, cs, i) == rest;
    SurvivorAt(doc, cs[1..], i + 1, k);
    assert cs[1..][rest[k] - (i + 1)] == cs[rest[k] - i];
  }

  /** `SurvivorAt` past the first survivor, when the first proposal is kept. */
  lemma {:induction false} SurvivorAtLater(doc: Document, cs: seq<ProposedCollection>, i: nat, k: nat)
    requires cs != [] && 0 < k < |ValidateFrom(doc, cs, i)|
    requires SurvivorOrigins(doc, cs, i) == [i] + SurvivorOrigins(doc, cs[1..], i + 1)
    requires ValidateFrom(doc, cs, i)[1..] == ValidateFrom(doc, cs[1..], i + 1)
    ensures i <= SurvivorOrigins(doc, cs, i)[k] < i + |cs|
    ensures ValidateCollection(doc, SurvivorOrigins(doc, cs, i)[k], cs[SurvivorOrigins(doc, cs, i)[k] - i])
              == Some(ValidateFrom(doc, cs, i)[k])
    decreases |cs|, 0
  {
    var rest := SurvivorOrigins(doc, cs[1..], i + 1);
    var tail := ValidateFrom(doc, cs[1..], i + 1);
    assert ValidateFrom(doc, cs, i)[k] == tail[k - 1];
    assert SurvivorOrigins(doc, cs, i)[k] == rest[k - 1];
    SurvivorAt(doc, cs[1..], i + 1, k - 1);
    assert cs[1..][rest[k - 1] - (i + 1)] == cs[rest[k - 1] - i];
  }

  /** A proposal survives exactly when `ValidateCollection` keeps it. */
  lemma {:induction false} SurvivesExactly(doc: Document, cs: seq<ProposedCollection>, i: nat, j: nat)
    requires j < |cs|
    ensures i + j in SurvivorOrigins(doc, cs, i) <==> Survives(doc, cs[j])
    decreases |cs|
  {
    var rest := SurvivorOrigins(doc, cs[1..], i + 1);
    SurvivorsIncrease(doc, cs[1..], i + 1);
    assert i !in rest;
    if j > 0 {
      SurvivesExactly(doc, cs[1..], i + 1, j - 1);
      assert cs[1..][j - 1] == cs[j];
    }
  }

  /** Within a surviving collection, the points are the proposed points that
      resolve inside the first match, in proposed order, and the `j`-th has
      id `dp-i-j` for the collection's oracle index `i`. */
  lemma ValidatedPoints(doc: Document, cs: seq<ProposedCollection>, k: nat)
    requires k < |ValidateCollections(doc, cs)|
    ensures var i := SurvivorOrigins(doc, cs, 0)[k];
      i < |cs| && |doc.queryAll(cs[i].repeatingElementSelector)| > 0 &&
      var r := ValidateCollections(doc, cs)[k];
      var anchor := doc.queryAll(cs[i].repeatingElementSelector)[0];
      var kept := KeptPoints(doc, anchor, cs[i].dataPoints);
      Picks(KeptOrigins(doc, anchor, cs[i].dataPoints, 0), 0, cs[i].dataPoints, kept) &&
      Numbered(r.dataPoints, i, kept)
  {
    SurvivorAt(doc, cs, 0, k);
    var i := SurvivorOrigins(doc, cs, 0)[k];
    var anchor := doc.queryAll(cs[i].repeatingElementSelector)[0];
    KeptInOrder(doc, anchor, cs[i].dataPoints, 0);
  }

  /** The `j`-th point of the `k`-th result has id `dp-i-j`, `i` being
      the collection's oracle index. */
  lemma PointIdAt(doc: Document, cs: seq<ProposedCollection>, k: nat, j: nat)
    requires k < |ValidateCollections(doc, cs)| && j < |ValidateCollections(doc, cs)[k].dataPoints|
    ensures ValidateCollections(doc, cs)[k].dataPoints[j].id == PointId(SurvivorOrigins(doc, cs, 0)[k], j)
  {
    ValidatedPoints(doc, cs, k);
  }

  /** Two collections of the result at different positions have
      different ids. */
  lemma CollectionIdsDiffer(doc: Document, cs: seq<ProposedCollection>, k: nat, l: nat)
    requires k < |ValidateCollections(doc, cs)| && l < |ValidateCollections(doc, cs)|
    requires ValidateCollections(doc, cs)[k].id == ValidateCollections(doc, cs)[l].id
    ensures k == l
  {
    var idx := SurvivorOrigins(doc, cs, 0);
    CollectionIdAt(doc, cs, k);
    CollectionIdAt(doc, cs, l);
    CollectionIdRoundTrip(idx[k]);
    CollectionIdRoundTrip(idx[l]);
    SurvivorsIncrease(doc, cs, 0);
    IncreasingInjective(idx, k, l);
  }

  /** The `k`-th collection of the result has id `coll-i`, `i` being its
      oracle index. */
  lemma CollectionIdAt(doc: Document, cs: seq<ProposedCollection>, k: nat)
    requires k < |ValidateCollections(doc, cs)|
    ensures ValidateCollections(doc, cs)[k].id == CollectionId(SurvivorOrigins(doc, cs, 0)[k])
  {
    SurvivorAt(doc, cs, 0, k);
  }

  /** Two points of the result at different positions have different ids,
      whether in the same collection or not. */
  lemma PointIdsDiffer(doc: Document, cs: seq<ProposedCollection>, k: nat, j: nat, l: nat, m: nat)
    requires k < |ValidateCollections(doc, cs)| && j < |ValidateCollections(doc, cs)[k].dataPoints|
    requires l < |ValidateCollections(doc, cs)| && m < |ValidateCollections(doc, cs)[l].dataPoints|
    requires ValidateCollections(doc, cs)[k].dataPoints[j].id == ValidateCollections(doc, cs)[l].dataPoints[m].id
    ensures k == l && j == m
  {
    var idx := SurvivorOrigins(doc, cs, 0);
    SurvivorsIncrease(doc, cs, 0);
    PointIdAt(doc, cs, k, j);
    PointIdAt(doc, cs, l, m);
    PointIdInjective(idx[k], j, idx[l], m);
    IncreasingInjective(idx, k, l);
  }

  /** No two collections of the result share an id, and no two points
      across the whole result share an id. */
  lemma IdsDistinct(doc: Document, cs: seq<ProposedCollection>)
    ensures var r := ValidateCollections(doc, cs);
      (forall k, l :: 0 <= k < |r| && 0 <= l < |r| && r[k].id == r[l].id ==> k == l) &&
      forall k, j, l, m ::
        (0 <= k < |r| && 0 <= j < |r[k].dataPoints| && 0 <= l < |r| && 0 <= m < |r[l].dataPoints| &&
         r[k].dataPoints[j].id == r[l].dataPoints[m].id) ==> k == l && j == m
  {
    var r := ValidateCollections(doc, cs);
    forall k, l | 0 <= k < |r| && 0 <= l < |r| && r[k].id == r[l].id ensures k == l {
      CollectionIdsDiffer(doc, cs, k, l);
    }
    forall k, j, l, m | 0 <= k < |r| && 0 <= j < |r[k].dataPoints| &&
        0 <= l < |r| && 0 <= m < |r[l].dataPoints| &&
        r[k].dataPoints[j].id == r[l].dataPoints[m].id
      ensures k == l && j == m
    {
      PointIdsDiffer(doc, cs, k, j, l, m);
    }
  }

  lemma IncreasingInjective(idx: seq<nat>, k: nat, l: nat)
    requires forall a, b :: 0 <= a < b < |idx| ==> idx[a] < idx[b]
    requires k < |idx| && l < |idx| && idx[k] == idx[l]
    ensures k == l
  {
  }

  /** Evaluating the proposal throws: `querySelectorAll` or `querySelector`
      is handed a selector the engine rejects. The point selectors are only
      evaluated when the repeating selector matched. */
  predicate CollectionThrows(doc: Document, c: ProposedCollection) {
    !doc.validSelector(c.repeatingElementSelector) ||
    (|doc.queryAll(c.repeatingElementSelector)| > 0 &&
     exists j :: 0 <= j < |c.dataPoints| && !doc.validSelector(c.dataPoints[j].selector))
  }

  /** The validation block: `None` when some selector throws, which aborts
      the whole suggestion step; otherwise the validated collections, every
      one of them sound. */
  function Validate(doc: Document, cs: seq<ProposedCollection>): (r: Option<seq<DataCollection>>)
    ensures r.None? <==> exists k :: 0 <= k < |cs| && CollectionThrows(doc, cs[k])
    ensures r.Some? ==> forall k :: 0 <= k < |r.value| ==> Sound(doc, r.value[k])
  {
    if exists k :: 0 <= k < |cs| && CollectionThrows(doc, cs[k]) then None
    else Some(ValidateCollections(doc, cs))
  }

  /** After a successful validation every selector the result holds is one
      the engine accepts, so extraction from the same document cannot throw. */
  lemma ValidatedSelectorsValid(doc: Document, cs: seq<ProposedCollection>)
    requires Validate(doc, cs).Some?
    ensures forall c :: c in ValidateCollections(doc, cs) ==> doc.validSelector(c.repeatingElementSelector)
    ensures forall c, j :: c in ValidateCollections(doc, cs) && 0 <= j < |c.dataPoints| ==>
      doc.validSelector(c.dataPoints[j].selector)
  {
    var r := ValidateCollections(doc, cs);
    forall c | c in r ensures doc.validSelector(c.repeatingElementSelector) {
      var k :| 0 <= k < |r| && r[k] == c;
      SelectorValidAt(doc, cs, k);
    }
    forall c, j | c in r && 0 <= j < |c.dataPoints| ensures doc.validSelector(c.dataPoints[j].selector) {
      var k :| 0 <= k < |r| && r[k] == c;
      PointSelectorValidAt(doc, cs, k, j);
    }
  }

  /** The `k`-th collection's repeating selector is accepted. */
  lemma SelectorValidAt(doc: Document, cs: seq<ProposedCollection>, k: nat)
    requires Validate(doc, cs).Some? && k < |ValidateCollections(doc, cs)|
    ensures doc.validSelector(ValidateCollections(doc, cs)[k].repeatingElementSelector)
  {
    SurvivorAt(doc, cs, 0, k);
    var i := SurvivorOrigins(doc, cs, 0)[k];
    assert !CollectionThrows(doc, cs[i]);
  }

  /** The `j`-th point selector of the `k`-th collection is accepted. */
  lemma PointSelectorValidAt(doc: Document, cs: seq<ProposedCollection>, k: nat, j: nat)
    requires Validate(doc, cs).Some? && k < |ValidateCollections(doc, cs)|
    requires j < |ValidateCollections(doc, cs)[k].dataPoints|
    ensures doc.validSelector(ValidateCollections(doc, cs)[k].dataPoints[j].selector)
  {
    var r := ValidateCollections(doc, cs);
    ValidatedPoints(doc, cs, k);
    var i := SurvivorOrigins(doc, cs, 0)[k];
    var anchor := doc.queryAll(cs[i].repeatingElementSelector)[0];
    var idx := KeptOrigins(doc, anchor, cs[i].dataPoints, 0);
    var kept := KeptPoints(doc, anchor, cs[i].dataPoints);
    assert r[k].dataPoints[j].selector == kept[j].selector == cs[i].dataPoints[idx[j]].selector;
    assert !CollectionThrows(doc, cs[i]);
  }

  /** The selection after a suggestion step: the first collection's point
      ids when there is a first collection with points, else empty. */
  function InitialSelection(cs: seq<DataCollection>): (sel: set<string>)
    ensures cs == [] ==> sel == {}
    ensures cs != [] ==> forall id :: id in sel <==> exists j :: 0 <= j < |cs[0].dataPoints| && cs[0].dataPoints[j].id == id
  {
    if |cs| > 0 && |cs[0].dataPoints| > 0 then set j | 0 <= j < |cs[0].dataPoints| :: cs[0].dataPoints[j].id else {}
  }

  /** After validation the selection is empty exactly when nothing survived;
      otherwise it is the ids `dp-i-0`, ..., `dp-i-(n-1)` of the first
      survivor, whose oracle index is `i`. */
  lemma InitialSelectionOfValidated(doc: Document, cs: seq<ProposedCollection>)
    ensures var r := ValidateCollections(doc, cs);
      (InitialSelection(r) == {} <==> r == []) &&
      (r != [] ==> InitialSelection(r) == set j | 0 <= j < |r[0].dataPoints| :: PointId(SurvivorOrigins(doc, cs, 0)[0], j))
  {
    var r := ValidateCollections(doc, cs);
    if r != [] {
      assert Sound(doc, r[0]);
      assert r[0].dataPoints[0].id in InitialSelection(r);
      ValidatedPoints(doc, cs, 0);
    }
  }
}
