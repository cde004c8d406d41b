/**
 * The edge catalogue (ilastikrag/util.py, `unique_edge_labels` and `get_edge_ids`):
 * the per-axis pair lists are deduplicated, merged, deduplicated again, sorted
 * lexicographically by (sp1, sp2) and numbered densely from 0.
 */
module EdgeCatalogue {
  import opened Grids
  import opened Wrappers
  import opened EdgeExtraction

  /** One row of the catalogue table: columns `sp1`, `sp2`, `edge_label`. */
  datatype EdgeRow = EdgeRow(sp1: nat, sp2: nat, edgeLabel: nat)

  ghost predicate NoDuplicates<T>(s: seq<T>)
  {
    forall i, j :: 0 <= i < j < |s| ==> s[i] != s[j]
  }

  /** `drop_duplicates()`: every element once; the sort that follows fixes the order. */
  function Dedup<T(==,!new)>(s: seq<T>): (r: seq<T>)
    ensures NoDuplicates(r)
    ensures forall x :: x in r <==> x in s
    ensures |r| <= |s|
  {
    if |s| == 0 then []
    else
      var n := |s| - 1;
      var r := Dedup(s[..n]);
      assert s == s[..n] + [s[n]];
      if s[n] in r then r else r + [s[n]]
  }

  /** `pd.concat` of a list of pair tables. */
  function Concat(ss: seq<seq<EdgeId>>): (r: seq<EdgeId>)
    ensures forall e :: e in r <==> InSome(ss, e)
  {
    if |ss| == 0 then []
    else
      var n := |ss| - 1;
      assert forall e :: InSome(ss, e) <==> InSome(ss[..n], e) || e in ss[n] by {
        forall e | InSome(ss, e) ensures InSome(ss[..n], e) || e in ss[n] {
          var k :| 0 <= k < |ss| && e in ss[k];
          if k < n { assert ss[..n][k] == ss[k]; }
        }
        forall e | InSome(ss[..n], e) ensures InSome(ss, e) {
          var k :| 0 <= k < n && e in ss[..n][k];
          assert ss[k] == ss[..n][k];
        }
      }
      Concat(ss[..n]) + ss[n]
  }

  /** `e` occurs in one of the tables `ss`. */
  ghost predicate InSome(ss: seq<seq<EdgeId>>, e: EdgeId)
  {
    exists k :: 0 <= k < |ss| && e in ss[k]
  }

  // ---------------------------------------------------------------------------
  // Lexicographic order on (sp1, sp2)

  predicate LexLe(a: EdgeId, b: EdgeId)
  {
    a.sp1 < b.sp1 || (a.sp1 == b.sp1 && a.sp2 <= b.sp2)
  }

  predicate LexLt(a: EdgeId, b: EdgeId)
  {
    a.sp1 < b.sp1 || (a.sp1 == b.sp1 && a.sp2 < b.sp2)
  }

  predicate Sorted(s: seq<EdgeId>)
  {
    forall i, j :: 0 <= i < j < |s| ==> LexLe(s[i], s[j])
  }

  predicate StrictlySorted(s: seq<EdgeId>)
  {
    forall i, j :: 0 <= i < j < |s| ==> LexLt(s[i], s[j])
  }

  function Insert(x: EdgeId, s: seq<EdgeId>): (r: seq<EdgeId>)
    ensures multiset(r) == multiset(s) + multiset{x}
  {
    if |s| == 0 then [x]
    else if LexLe(x, s[0]) then [x] + s
    else
      assert s == [s[0]] + s[1..];
      [s[0]] + Insert(x, s[1..])
  }

  lemma {:induction false} InsertSorted(x: EdgeId, s: seq<EdgeId>)
    requires Sorted(s)
    ensures Sorted(Insert(x, s))
  {
    if |s| > 0 && !LexLe(x, s[0]) {
      var t := Insert(x, s[1..]);
      InsertSorted(x, s[1..]);
      forall j | 0 <= j < |t| ensures LexLe(s[0], t[j]) {
        assert t[j] in multiset(t);
        if t[j] != x {
          assert t[j] in multiset(s[1..]);
          var i :| 0 <= i < |s[1..]| && s[1..][i] == t[j];
          assert s[i + 1] == t[j];
        }
      }
    }
  }

  /** `sort(columns=['sp1', 'sp2'])` of a pair table. */
  function SortEdgeIds(s: seq<EdgeId>): (r: seq<EdgeId>)
    ensures multiset(r) == multiset(s)
  {
    if |s| == 0 then []
    else
      assert s == [s[0]] + s[1..];
      Insert(s[0], SortEdgeIds(s[1..]))
  }

  lemma {:induction false} SortEdgeIdsSorted(s: seq<EdgeId>)
    ensures Sorted(SortEdgeIds(s))
  {
    if |s| > 0 {
      SortEdgeIdsSorted(s[1..]);
      InsertSorted(s[0], SortEdgeIds(s[1..]));
    }
  }

  lemma DuplicateCounted<T>(s: seq<T>, i: nat, j: nat)
    requires i < j < |s| && s[i] == s[j]
    ensures multiset(s)[s[i]] >= 2
  {
    assert s == s[..j] + s[j..];
    assert s[i] in s[..j] && s[j] in s[j..];
  }

  lemma {:induction false} DistinctCountedOnce<T>(s: seq<T>)
    requires NoDuplicates(s)
    ensures forall x :: x in s ==> multiset(s)[x] == 1
  {
    if |s| > 0 {
      var t := s[1..];
      assert s == [s[0]] + t;
      assert NoDuplicates(t) by {
        forall i, j | 0 <= i < j < |t| ensures t[i] != t[j] { assert t[i] == s[i + 1] && t[j] == s[j + 1]; }
      }
      DistinctCountedOnce(t);
      assert s[0] !in t;
    }
  }

  lemma NoDuplicatesByMultiset<T>(s: seq<T>)
    ensures NoDuplicates(s) <==> forall x :: x in s ==> multiset(s)[x] == 1
  {
    if NoDuplicates(s) {
      DistinctCountedOnce(s);
    } else {
      var i, j :| 0 <= i < j < |s| && s[i] == s[j];
      DuplicateCounted(s, i, j);
    }
  }

  lemma SortKeepsNoDuplicates(s: seq<EdgeId>)
    requires NoDuplicates(s)
    ensures StrictlySorted(SortEdgeIds(s)) && NoDuplicates(SortEdgeIds(s))
    ensures forall e :: e in SortEdgeIds(s) <==> e in s
  {
    var r := SortEdgeIds(s);
    SortEdgeIdsSorted(s);
    NoDuplicatesByMultiset(s);
    NoDuplicatesByMultiset(r);
    assert forall e :: e in r <==> e in multiset(r);
  }

  lemma HeadIsElement<T>(s: seq<T>)
    ensures |s| > 0 ==> s[0] in s
  {
  }

  /** Two strictly sorted sequences with the same elements are equal. */
  lemma {:induction false} StrictlySortedUnique(a: seq<EdgeId>, b: seq<EdgeId>)
    requires StrictlySorted(a) && StrictlySorted(b)
    requires forall e :: e in a <==> e in b
    ensures a == b
  {
    if |a| > 0 && |b| > 0 {
      assert a[0] == b[0] by {
        assert b[0] in a && a[0] in b;
      }
      forall e ensures e in a[1..] <==> e in b[1..] {
        if e in a[1..] {
          var i :| 0 <= i < |a[1..]| && a[1..][i] == e;
          assert a[i + 1] == e && LexLt(a[0], e);
          assert e in a;
          var j :| 0 <= j < |b| && b[j] == e;
          assert j != 0;
          assert b[1..][j - 1] == e;
        }
        if e in b[1..] {
          var j :| 0 <= j < |b[1..]| && b[1..][j] == e;
          assert b[j + 1] == e && LexLt(b[0], e);
          assert e in b;
          var i :| 0 <= i < |a| && a[i] == e;
          assert i != 0;
          assert a[1..][i - 1] == e;
        }
      }
      StrictlySortedUnique(a[1..], b[1..]);
      assert a == [a[0]] + a[1..] && b == [b[0]] + b[1..];
    } else {
      HeadIsElement(a);
      HeadIsElement(b);
    }
  }

  // ---------------------------------------------------------------------------
  // The catalogue

  /** Assigns `edge_label = 0..n-1` in order: `np.arange(0, len(df))`. */
  function Labelled(s: seq<EdgeId>): (rows: seq<EdgeRow>)
    ensures |rows| == |s|
    ensures forall i :: 0 <= i < |s| ==> rows[i] == EdgeRow(s[i].sp1, s[i].sp2, i)
  {
    seq(|s|, i requires 0 <= i < |s| => EdgeRow(s[i].sp1, s[i].sp2, i))
  }

  /** The `(sp1, sp2)` columns of a catalogue. */
  function PairsOf(rows: seq<EdgeRow>): (s: seq<EdgeId>)
    ensures |s| == |rows|
    ensures forall i :: 0 <= i < |rows| ==> s[i] == EdgeId(rows[i].sp1, rows[i].sp2)
  {
    seq(|rows|, i requires 0 <= i < |rows| => EdgeId(rows[i].sp1, rows[i].sp2))
  }

  /**
   * What `unique_edge_labels(all_edge_ids)` returns; `None` for an empty list,
   * on which `pd.concat` raises.
   */
  function UniqueEdgeLabelsSpec(all: seq<seq<EdgeId>>): (r: Option<seq<EdgeRow>>)
    ensures r.Some? <==> |all| > 0
    ensures r.Some? ==> StrictlySorted(PairsOf(r.value))
    ensures r.Some? ==> forall i :: 0 <= i < |r.value| ==> r.value[i].edgeLabel == i
    ensures r.Some? ==> forall e :: e in PairsOf(r.value) <==> InSome(all, e)
  {
    if |all| == 0 then None
    else
      var dfs := seq(|all|, k requires 0 <= k < |all| => Dedup(all[k]));
      var combined := if |dfs| == 1 then dfs[0] else Dedup(Concat(dfs));
      assert forall e :: e in combined <==> InSome(all, e) by {
        forall e ensures e in combined <==> InSome(all, e) {
          if |dfs| == 1 {
            if InSome(all, e) { var k :| 0 <= k < |all| && e in all[k]; assert k == 0; }
          } else {
            if InSome(all, e) { var k :| 0 <= k < |all| && e in all[k]; assert e in dfs[k]; }
            if InSome(dfs, e) { var k :| 0 <= k < |dfs| && e in dfs[k]; assert e in all[k]; }
          }
        }
      }
      SortKeepsNoDuplicates(combined);
      var sorted := SortEdgeIds(combined);
      assert PairsOf(Labelled(sorted)) == sorted;
      Some(Labelled(sorted))
  }

  /** The catalogue depends only on the set of pairs that occur in the input tables. */
  lemma CatalogueDependsOnlyOnPairSet(all1: seq<seq<EdgeId>>, all2: seq<seq<EdgeId>>)
    requires |all1| > 0 && |all2| > 0
    requires forall e :: InSome(all1, e) <==> InSome(all2, e)
    ensures UniqueEdgeLabelsSpec(all1) == UniqueEdgeLabelsSpec(all2)
  {
    var r1, r2 := UniqueEdgeLabelsSpec(all1).value, UniqueEdgeLabelsSpec(all2).value;
    var p1, p2 := PairsOf(r1), PairsOf(r2);
    assert forall e :: e in p1 <==> InSome(all1, e);
    assert forall e :: e in p2 <==> InSome(all2, e);
    assert forall e :: e in p1 <==> e in p2;
    StrictlySortedUnique(p1, p2);
    assert |r1| == |r2|;
    forall i | 0 <= i < |r1| ensures r1[i] == r2[i] {
      assert p1[i] == p2[i];
    }
    assert r1 == r2;
  }

  /** `unique_edge_labels`: one `drop_duplicates` per table, then the merge, sort and numbering. */
  method UniqueEdgeLabels(allEdgeIds: seq<seq<EdgeId>>) returns (r: Option<seq<EdgeRow>>)
    ensures r == UniqueEdgeLabelsSpec(allEdgeIds)
    ensures r.Some? <==> |allEdgeIds| > 0
    ensures r.Some? ==> StrictlySorted(PairsOf(r.value))
    ensures r.Some? ==> forall i :: 0 <= i < |r.value| ==> r.value[i].edgeLabel == i
  {
    var allDfs: seq<seq<EdgeId>> := [];
    for k := 0 to |allEdgeIds|
      invariant allDfs == seq(k, j requires 0 <= j < k => Dedup(allEdgeIds[j]))
    {
      var df := Dedup(allEdgeIds[k]);
      allDfs := allDfs + [df];
    }
    if |allDfs| == 0 {
      return None;
    }
    var combined;
    if |allDfs| == 1 {
      combined := allDfs[0];
    } else {
      combined := Dedup(Concat(allDfs));
    }
    combined := SortEdgeIds(combined);
    r := Some(Labelled(combined));
  }

  // ---------------------------------------------------------------------------
  // get_edge_ids

  /** `edge_ids.sort(axis=1)` on one row: the smaller id first. */
  function Canonical(e: EdgeId): (c: EdgeId)
    ensures c.sp1 <= c.sp2
    ensures (c.sp1 == e.sp1 && c.sp2 == e.sp2) || (c.sp1 == e.sp2 && c.sp2 == e.sp1)
  {
    if e.sp1 <= e.sp2 then e else EdgeId(e.sp2, e.sp1)
  }

  /** The raw pairs of one axis with every row sorted, still in scan order. */
  function CanonicalPairsAlongAxis(shape: seq<nat>, data: seq<nat>, axis: nat): (s: seq<EdgeId>)
    requires |data| == Product(shape) && axis < |shape|
    ensures |s| == |PairsAlongAxis(shape, data, MaskAlongAxis(shape, data, axis), axis)|
    ensures forall k :: 0 <= k < |s| ==>
      s[k] == Canonical(PairsAlongAxis(shape, data, MaskAlongAxis(shape, data, axis), axis)[k])
  {
    var raw := PairsAlongAxis(shape, data, MaskAlongAxis(shape, data, axis), axis);
    seq(|raw|, k requires 0 <= k < |raw| => Canonical(raw[k]))
  }

  /** The sorted pairs of every axis, one table per axis. */
  function VolumePairs(shape: seq<nat>, data: seq<nat>): (all: seq<seq<EdgeId>>)
    requires |data| == Product(shape)
    ensures |all| == |shape|
    ensures forall a :: 0 <= a < |shape| ==> all[a] == CanonicalPairsAlongAxis(shape, data, a)
  {
    seq(|shape|, a requires 0 <= a < |shape| => CanonicalPairsAlongAxis(shape, data, a))
  }

  /** The catalogue built directly from every axis's sorted pairs, as `Rag.__init__` does it. */
  function VolumeCatalogue(shape: seq<nat>, data: seq<nat>): (r: Option<seq<EdgeRow>>)
    requires |data| == Product(shape)
    ensures r.Some? <==> |shape| > 0
  {
    UniqueEdgeLabelsSpec(VolumePairs(shape, data))
  }

  /** Two tables hold the same pairs, ignoring order and repetition. */
  ghost predicate SameElements(s: seq<EdgeId>, t: seq<EdgeId>)
  {
    forall e :: e in s <==> e in t
  }

  /** Reducing a single table to its catalogue keeps exactly its pairs. */
  lemma SingleTableCatalogue(ids: seq<EdgeId>)
    ensures UniqueEdgeLabelsSpec([ids]).Some?
    ensures SameElements(PairsOf(UniqueEdgeLabelsSpec([ids]).value), ids)
  {
    forall e | e in ids ensures InSome([ids], e) { assert e in [ids][0]; }
  }

  /** Tables that pairwise hold the same elements hold the same pairs overall. */
  lemma PairwiseSameElements(all1: seq<seq<EdgeId>>, all2: seq<seq<EdgeId>>)
    requires |all1| == |all2|
    requires forall a :: 0 <= a < |all1| ==> SameElements(all1[a], all2[a])
    ensures forall e :: InSome(all1, e) <==> InSome(all2, e)
  {
    forall e ensures InSome(all1, e) <==> InSome(all2, e) {
      if InSome(all1, e) { var a :| 0 <= a < |all1| && e in all1[a]; assert e in all2[a]; }
      if InSome(all2, e) { var a :| 0 <= a < |all2| && e in all2[a]; assert e in all1[a]; }
    }
  }

  /**
   * `get_edge_ids(label_img)`: every axis is first reduced to its own catalogue,
   * whose pair columns are then merged; the result equals the catalogue built
   * from the sorted pairs directly.
   */
  method GetEdgeIds(shape: seq<nat>, data: seq<nat>) returns (r: Option<seq<EdgeRow>>)
    requires |data| == Product(shape)
    ensures r == VolumeCatalogue(shape, data)
  {
    ghost var direct := VolumePairs(shape, data);
    var allEdgeIds: seq<seq<EdgeId>> := [];
    for axis := 0 to |shape|
      invariant |allEdgeIds| == axis
      invariant forall a :: 0 <= a < axis ==> SameElements(allEdgeIds[a], direct[a])
    {
      var mask := MaskAlongAxis(shape, data, axis);
      var ids := PairsAlongAxis(shape, data, mask, axis);
      ids := seq(|ids|, k requires 0 <= k < |ids| => Canonical(ids[k]));
      assert ids == direct[axis];
      var lookup := UniqueEdgeLabels([ids]);
      SingleTableCatalogue(ids);
      allEdgeIds := allEdgeIds + [PairsOf(lookup.value)];
    }
    r := UniqueEdgeLabels(allEdgeIds);
    if |shape| > 0 {
      PairwiseSameElements(allEdgeIds, direct);
      CatalogueDependsOnlyOnPairSet(allEdgeIds, direct);
    }
  }
}
