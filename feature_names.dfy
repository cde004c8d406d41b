/**
 * Validation and splitting of feature names in `Rag.compute_features`
 * (ilastikrag/rag.py): names are lower-cased, every one must start with
 * `edge_` or `sp_`, and the two groups are returned with the prefix removed,
 * each in the order of the input.
 */
module FeatureNames {
  import opened Wrappers

  /** `str.lower` on one character of a byte string: only `A`-`Z` change. */
  function LowerChar(c: char): char
  {
    if 'A' <= c <= 'Z' then (c as int + 32) as char else c
  }

  function Lower(s: string): (r: string)
    ensures |r| == |s|
    ensures forall i :: 0 <= i < |s| ==> r[i] == LowerChar(s[i])
  {
    seq(|s|, i requires 0 <= i < |s| => LowerChar(s[i]))
  }

  predicate StartsWith(s: string, prefix: string)
  {
    |prefix| <= |s| && s[..|prefix|] == prefix
  }

  const EdgePrefix: string := "edge_"
  const SpPrefix: string := "sp_"

  predicate IsEdgeName(lowered: string) { StartsWith(lowered, EdgePrefix) }
  predicate IsSpName(lowered: string) { StartsWith(lowered, SpPrefix) }

  /** The two prefixes exclude each other. */
  lemma PrefixesDisjoint(s: string)
    ensures !(IsEdgeName(s) && IsSpName(s))
  {
    if IsEdgeName(s) {
      assert s[0] == 'e' by { assert s[..|EdgePrefix|][0] == s[0]; }
      assert s[..|SpPrefix|][0] == s[0];
    }
  }

  /** The lowered names that select `prefix`, with the prefix cut off, in input order. */
  function Stats(names: seq<string>, prefix: string): (r: seq<string>)
    ensures |r| == |Positions(names, prefix)|
  {
    if |names| == 0 then []
    else
      var n := |names| - 1;
      var l := Lower(names[n]);
      Stats(names[..n], prefix) + (if StartsWith(l, prefix) then [l[|prefix|..]] else [])
  }

  /** The lowered names that carry neither prefix, in input order. */
  function InvalidNames(names: seq<string>): (r: seq<string>)
    ensures |r| <= |names|
  {
    if |names| == 0 then []
    else
      var n := |names| - 1;
      var l := Lower(names[n]);
      InvalidNames(names[..n]) + (if IsEdgeName(l) || IsSpName(l) then [] else [l])
  }

  datatype FeatureSplit = FeatureSplit(edgeStats: seq<string>, spStats: seq<string>)

  /** The assertion error; its message lists every lowered name, not only the invalid ones. */
  datatype NameError = InvalidFeatureNames(names: seq<string>)

  /** The name handling that opens `compute_features(value_img, feature_names)`. */
  function SplitFeatureNames(featureNames: seq<string>): (r: Result<FeatureSplit, NameError>)
    ensures r.Err? <==> exists i :: 0 <= i < |featureNames| && !IsEdgeName(Lower(featureNames[i])) && !IsSpName(Lower(featureNames[i]))
    ensures r.Err? ==> |InvalidNames(featureNames)| > 0
    ensures r.Err? ==> |r.error.names| == |featureNames|
    ensures r.Err? ==> forall i :: 0 <= i < |featureNames| ==> r.error.names[i] == Lower(featureNames[i])
    ensures r.Ok? ==> r.value == FeatureSplit(Stats(featureNames, EdgePrefix), Stats(featureNames, SpPrefix))
    ensures r.Ok? ==> |r.value.edgeStats| + |r.value.spStats| == |featureNames|
  {
    InvalidNamesExact(featureNames);
    var invalid := InvalidNames(featureNames);
    if |invalid| > 0 then
      Err(InvalidFeatureNames(seq(|featureNames|, i requires 0 <= i < |featureNames| => Lower(featureNames[i]))))
    else
      SplitCounts(featureNames);
      Ok(FeatureSplit(Stats(featureNames, EdgePrefix), Stats(featureNames, SpPrefix)))
  }

  lemma {:induction false} InvalidNamesExact(names: seq<string>)
    ensures |InvalidNames(names)| == 0 <==>
      forall i :: 0 <= i < |names| ==> IsEdgeName(Lower(names[i])) || IsSpName(Lower(names[i]))
  {
    if |names| > 0 {
      var n := |names| - 1;
      InvalidNamesExact(names[..n]);
      assert forall i :: 0 <= i < n ==> names[..n][i] == names[i];
    }
  }

  /** With no invalid name, every name lands in exactly one of the two groups. */
  lemma {:induction false} SplitCounts(names: seq<string>)
    requires |InvalidNames(names)| == 0
    ensures |Stats(names, EdgePrefix)| + |Stats(names, SpPrefix)| == |names|
  {
    if |names| > 0 {
      var n := |names| - 1;
      SplitCounts(names[..n]);
      PrefixesDisjoint(Lower(names[n]));
    }
  }

  /** Indices of the names selecting `prefix`, increasing. */
  function Positions(names: seq<string>, prefix: string): (ps: seq<nat>)
    ensures |ps| <= |names|
    ensures forall k :: 0 <= k < |ps| ==> ps[k] < |names|
  {
    if |names| == 0 then []
    else
      var n := |names| - 1;
      Positions(names[..n], prefix) + (if StartsWith(Lower(names[n]), prefix) then [n] else [])
  }

  /**
   * The `prefix` group is the stripped lowered names at exactly the positions
   * whose lowered name starts with `prefix`, in increasing order of position.
   */
  lemma StatsInOrder(names: seq<string>, prefix: string)
    ensures |Stats(names, prefix)| == |Positions(names, prefix)|
    ensures forall k, l :: 0 <= k < l < |Positions(names, prefix)| ==> Positions(names, prefix)[k] < Positions(names, prefix)[l]
    ensures forall k :: 0 <= k < |Positions(names, prefix)| ==>
      StartsWith(Lower(names[Positions(names, prefix)[k]]), prefix)
      && Stats(names, prefix)[k] == Lower(names[Positions(names, prefix)[k]])[|prefix|..]
    ensures forall i :: 0 <= i < |names| && StartsWith(Lower(names[i]), prefix) ==> i in Positions(names, prefix)
  {
    PositionsIncreasing(names, prefix);
    StatsAtPositions(names, prefix);
    PositionsComplete(names, prefix);
  }

  /** The positions are listed in increasing order. */
  lemma {:induction false} PositionsIncreasing(names: seq<string>, prefix: string)
    ensures forall k, l :: 0 <= k < l < |Positions(names, prefix)| ==> Positions(names, prefix)[k] < Positions(names, prefix)[l]
  {
    if |names| > 0 {
      var n := |names| - 1;
      PositionsIncreasing(names[..n], prefix);
      var ps := Positions(names[..n], prefix);
      var ps' := Positions(names, prefix);
      if StartsWith(Lower(names[n]), prefix) {
        assert ps' == ps + [n];
        forall k, l | 0 <= k < l < |ps'| ensures ps'[k] < ps'[l] {
          if l == |ps| {
            assert ps'[k] == ps[k] < n;
          } else {
            assert ps'[k] == ps[k] && ps'[l] == ps[l];
          }
        }
      } else {
        assert ps' == ps;
      }
    }
  }

  /** The `k`-th statistic is the stripped lowered name at the `k`-th position. */
  lemma {:induction false} StatsAtPositions(names: seq<string>, prefix: string)
    ensures forall k :: 0 <= k < |Positions(names, prefix)| ==>
      StartsWith(Lower(names[Positions(names, prefix)[k]]), prefix)
      && Stats(names, prefix)[k] == Lower(names[Positions(names, prefix)[k]])[|prefix|..]
  {
    if |names| > 0 {
      var n := |names| - 1;
      StatsAtPositions(names[..n], prefix);
      assert forall i :: 0 <= i < n ==> names[..n][i] == names[i];
      var ps, st := Positions(names[..n], prefix), Stats(names[..n], prefix);
      var l := Lower(names[n]);
      if StartsWith(l, prefix) {
        var ps' := Positions(names, prefix);
        assert ps' == ps + [n];
        assert Stats(names, prefix) == st + [l[|prefix|..]];
        forall k | 0 <= k < |ps| ensures names[ps'[k]] == names[..n][ps[k]] {
          assert ps'[k] == ps[k] < n;
        }
      } else {
        forall k | 0 <= k < |ps| ensures names[ps[k]] == names[..n][ps[k]] {
          assert ps[k] < n;
        }
      }
    }
  }

  /** Every name that starts with `prefix` is at one of the positions. */
  lemma {:induction false} PositionsComplete(names: seq<string>, prefix: string)
    ensures forall i :: 0 <= i < |names| && StartsWith(Lower(names[i]), prefix) ==> i in Positions(names, prefix)
  {
    if |names| > 0 {
      var n := |names| - 1;
      PositionsComplete(names[..n], prefix);
      assert forall i :: 0 <= i < n ==> names[..n][i] == names[i];
    }
  }

  /** Putting the prefix back on a stripped statistic gives the lowered name it came from. */
  lemma RestorePrefix(names: seq<string>, prefix: string, k: nat)
    requires k < |Stats(names, prefix)|
    ensures prefix + Stats(names, prefix)[k] == Lower(names[Positions(names, prefix)[k]])
  {
    StatsInOrder(names, prefix);
    var l := Lower(names[Positions(names, prefix)[k]]);
    assert l == l[..|prefix|] + l[|prefix|..];
  }
}
