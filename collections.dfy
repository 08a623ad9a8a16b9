/** The oracle's proposals (the output schema of the suggestion flow), the
    validated `DataPoint` and `DataCollection` records, and their ids
    `coll-i` and `dp-i-j`. */
module Collections {
  import opened Wrappers
  import opened JsString

  /** One proposed field: `{label, selector, attribute?}` (`label` is a Dafny
      keyword, hence `fieldLabel`). */
  datatype ProposedPoint = ProposedPoint(fieldLabel: string, selector: string, attribute: Option<string>)

  /** One proposed collection: `{collectionName, repeatingElementSelector, dataPoints}`. */
  datatype ProposedCollection =
    ProposedCollection(collectionName: string, repeatingElementSelector: string, dataPoints: seq<ProposedPoint>)

  datatype DataPoint = DataPoint(id: string, fieldLabel: string, selector: string, attribute: Option<string>)

  datatype DataCollection =
    DataCollection(id: string, name: string, repeatingElementSelector: string, dataPoints: seq<DataPoint>)

  /** `coll-${collIndex}`. */
  function CollectionId(i: nat): string {
    "coll-" + NatToString(i)
  }

  /** `dp-${collIndex}-${dpIndex}`. */
  function PointId(i: nat, j: nat): string {
    "dp-" + NatToString(i) + "-" + NatToString(j)
  }

  /** The position of the first `c` in `s`, or `|s|` when there is none. */
  function IndexOf(s: string, c: char): (i: nat)
    ensures i <= |s| && Avoids(s[..i], c) && (i < |s| ==> s[i] == c)
    decreases |s|
  {
    if s == [] then 0
    else if s[0] == c then 0
    else
      var i := 1 + IndexOf(s[1..], c);
      assert s[..i] == [s[0]] + s[1..][..i - 1];
      i
  }

  /** Reads the indices back out of a collection id. */
  function ParseCollectionId(s: string): Option<nat> {
    if |s| >= 5 && s[..5] == "coll-" && IsDigits(s[5..]) then Some(DecimalValue(s[5..])) else None
  }

  /** Reads the indices back out of a data-point id. */
  function ParsePointId(s: string): Option<(nat, nat)> {
    if |s| >= 3 && s[..3] == "dp-" then
      var rest := s[3..];
      var d := IndexOf(rest, '-');
      if d < |rest| && IsDigits(rest[..d]) && IsDigits(rest[d + 1..]) then
        Some((DecimalValue(rest[..d]), DecimalValue(rest[d + 1..])))
      else None
    else None
  }

  lemma CollectionIdRoundTrip(i: nat)
    ensures ParseCollectionId(CollectionId(i)) == Some(i)
  {
    var s := CollectionId(i);
    assert s[..5] == "coll-";
    assert s[5..] == NatToString(i);
    DecimalRoundTrip(i);
  }

  /** A data-point id determines the collection index and the point index it
      was built from. */
  lemma PointIdRoundTrip(i: nat, j: nat)
    ensures ParsePointId(PointId(i, j)) == Some((i, j))
  {
    var a, b := NatToString(i), NatToString(j);
    var s := PointId(i, j);
    assert s[..3] == "dp-";
    var rest := s[3..];
    assert rest == a + "-" + b;
    var d := IndexOf(rest, '-');
    assert rest[|a|] == '-';
    assert forall k :: 0 <= k < |a| ==> rest[k] == a[k] && IsDigit(a[k]);
    assert d == |a| by {
      assert d <= |a| by {
        if d > |a| { assert false; }
      }
      assert d >= |a| by {
        if d < |a| { assert false; }
      }
    }
    assert rest[..d] == a;
    assert rest[d + 1..] == b;
    DecimalRoundTrip(i);
    DecimalRoundTrip(j);
  }

  lemma PointIdInjective(i: nat, j: nat, i': nat, j': nat)
    requires PointId(i, j) == PointId(i', j')
    ensures i == i' && j == j'
  {
    PointIdRoundTrip(i, j);
    PointIdRoundTrip(i', j');
  }

  /** The ids of some data points, in order. */
  function Ids(ps: seq<DataPoint>): (ids: seq<string>)
    ensures |ids| == |ps|
    ensures forall j :: 0 <= j < |ps| ==> ids[j] == ps[j].id
    decreases |ps|
  {
    if ps == [] then [] else [ps[0].id] + Ids(ps[1..])
  }

  predicate Distinct<T(==)>(s: seq<T>) {
    forall a, b :: 0 <= a < b < |s| ==> s[a] != s[b]
  }
}
