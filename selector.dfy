/** The greedy selector shared by both scripts: seed an accepted list, scan the
    candidates after index 0 in order, and append a candidate exactly when its
    distance to every code accepted so far is at least the threshold. */
module Selector {
  import opened Hamming

  /** Why a selection run stops without a result. */
  datatype Error =
    | EmptyCandidates  // combinations[0] read from an empty list
    | LengthMismatch   // the Hamming distance of two codes of different lengths

  datatype Result<T> = Ok(value: T) | Err(error: Error)

  datatype Option<T> = None | Some(value: T)

  /** Every scanned candidate has the seed's length. */
  predicate Uniform<T>(seed: seq<T>, scanned: seq<seq<T>>)
  {
    forall k :: 0 <= k < |scanned| ==> |scanned[k]| == |seed|
  }

  /** Every candidate the loop compares (index 1 onwards) has the seed's length;
      otherwise the first such comparison raises. */
  predicate Conforming<T>(seed: seq<T>, combinations: seq<seq<T>>)
  {
    forall i :: 1 <= i < |combinations| ==> |combinations[i]| == |seed|
  }

  /** The candidates the loop examines: indices 1 up to (excluding) `i`. */
  function Scanned<T>(combinations: seq<seq<T>>, i: nat): seq<seq<T>>
    requires i <= |combinations|
  {
    if i <= 1 then [] else combinations[1..i]
  }

  /** The candidate is at least `minDist` away from every accepted code. */
  predicate Admissible<T(==)>(accepted: seq<seq<T>>, candidate: seq<T>, minDist: int)
    requires forall k :: 0 <= k < |accepted| ==> |accepted[k]| == |candidate|
  {
    forall k :: 0 <= k < |accepted| ==> Distance(candidate, accepted[k]) >= minDist
  }

  /** The accepted list after the greedy pass over `scanned`, starting from
      `[seed]`: the functional specification of the selection loop. */
  function Greedy<T(==)>(seed: seq<T>, scanned: seq<seq<T>>, minDist: int): (r: seq<seq<T>>)
    requires Uniform(seed, scanned)
    ensures 1 <= |r| <= |scanned| + 1
    ensures r[0] == seed
    ensures forall k :: 0 <= k < |r| ==> |r[k]| == |seed|
    decreases |scanned|
  {
    if scanned == [] then [seed]
    else
      var n := |scanned| - 1;
      var prev := Greedy(seed, scanned[..n], minDist);
      if Admissible(prev, scanned[n], minDist) then prev + [scanned[n]] else prev
  }

  /** The indices into `scanned` of the candidates the pass accepts, in order. */
  function Picks<T(==)>(seed: seq<T>, scanned: seq<seq<T>>, minDist: int): (idx: seq<nat>)
    requires Uniform(seed, scanned)
    ensures |idx| + 1 == |Greedy(seed, scanned, minDist)|
    ensures forall q :: 0 <= q < |idx| ==>
      idx[q] < |scanned| && Greedy(seed, scanned, minDist)[q + 1] == scanned[idx[q]]
    ensures forall p, q :: 0 <= p < q < |idx| ==> idx[p] < idx[q]
    decreases |scanned|
  {
    if scanned == [] then []
    else
      var n := |scanned| - 1;
      var prev := Picks(seed, scanned[..n], minDist);
      if Admissible(Greedy(seed, scanned[..n], minDist), scanned[n], minDist)
      then prev + [n] else prev
  }

  /** The selection `filter_barcodes` and `limit_by_hamming_dist` make:
      combinations[0] is never examined. */
  function Selection<T(==)>(seed: seq<T>, combinations: seq<seq<T>>, minDist: int): (r: seq<seq<T>>)
    requires Conforming(seed, combinations)
    ensures |r| >= 1 && r[0] == seed
    ensures |combinations| > 0 ==> |r| <= |combinations|
    ensures forall k :: 0 <= k < |r| ==> |r[k]| == |seed|
  {
    Greedy(seed, Scanned(combinations, |combinations|), minDist)
  }

  /** Running the pass on a prefix of the candidates gives a prefix of the
      result, and the candidates it accepts later come from beyond that prefix. */
  lemma {:induction false} GreedyPrefix<T>(seed: seq<T>, scanned: seq<seq<T>>, m: nat, minDist: int)
    requires Uniform(seed, scanned) && m <= |scanned|
    ensures Greedy(seed, scanned[..m], minDist) <= Greedy(seed, scanned, minDist)
    ensures Picks(seed, scanned[..m], minDist) <= Picks(seed, scanned, minDist)
    ensures forall q :: |Picks(seed, scanned[..m], minDist)| <= q < |Picks(seed, scanned, minDist)| ==>
      Picks(seed, scanned, minDist)[q] >= m
    decreases |scanned| - m
  {
    if m < |scanned| {
      var n := |scanned| - 1;
      assert scanned[..n][..m] == scanned[..m];
      GreedyPrefix(seed, scanned[..n], m, minDist);
    } else {
      assert scanned[..m] == scanned;
    }
  }

  /** Candidate `k` is accepted exactly when it is far enough from everything
      accepted before it was examined. */
  lemma GreedyDecision<T>(seed: seq<T>, scanned: seq<seq<T>>, k: nat, minDist: int)
    requires Uniform(seed, scanned) && k < |scanned|
    ensures k in Picks(seed, scanned, minDist) <==>
      Admissible(Greedy(seed, scanned[..k], minDist), scanned[k], minDist)
  {
    var full := Picks(seed, scanned, minDist);
    var before := Picks(seed, scanned[..k], minDist);
    var sk := scanned[..k + 1];
    var upto := Picks(seed, sk, minDist);
    assert |sk| - 1 == k && sk[..k] == scanned[..k] && sk[k] == scanned[k];
    var admissible := Admissible(Greedy(seed, scanned[..k], minDist), scanned[k], minDist);
    assert upto == if admissible then before + [k] else before;
    GreedyPrefix(seed, scanned, k + 1, minDist);
    if admissible {
      assert full[|before|] == upto[|before|] == k;
    } else {
      forall q | 0 <= q < |full| ensures full[q] != k {
        if q < |upto| {
          assert full[q] == before[q];
        }
      }
    }
  }

  /** Greedy maximality: a candidate that was not accepted is closer than
      `minDist` to some code of the final list. */
  lemma GreedyMaximal<T>(seed: seq<T>, scanned: seq<seq<T>>, k: nat, minDist: int)
    requires Uniform(seed, scanned) && k < |scanned|
    requires k !in Picks(seed, scanned, minDist)
    ensures var r := Greedy(seed, scanned, minDist);
      exists j :: 0 <= j < |r| && Distance(scanned[k], r[j]) < minDist
  {
    GreedyDecision(seed, scanned, k, minDist);
    GreedyPrefix(seed, scanned, k, minDist);
    var before := Greedy(seed, scanned[..k], minDist);
    var j :| 0 <= j < |before| && Distance(scanned[k], before[j]) < minDist;
    assert Greedy(seed, scanned, minDist)[j] == before[j];
  }

  /** Every two codes at different positions of `codes` have equal length and
      are at least `minDist` apart. */
  ghost predicate Separated<T>(codes: seq<seq<T>>, minDist: int)
  {
    forall i, j :: 0 <= i < |codes| && 0 <= j < |codes| && i != j ==>
      |codes[i]| == |codes[j]| && Distance(codes[i], codes[j]) >= minDist
  }

  /** Every two codes of the final list, the seed included, are at least
      `minDist` apart. */
  lemma {:induction false} GreedySeparated<T>(seed: seq<T>, scanned: seq<seq<T>>, minDist: int)
    requires Uniform(seed, scanned)
    ensures Separated(Greedy(seed, scanned, minDist), minDist)
    decreases |scanned|
  {
    if scanned != [] {
      var n := |scanned| - 1;
      var prev := Greedy(seed, scanned[..n], minDist);
      GreedySeparated(seed, scanned[..n], minDist);
      var r := Greedy(seed, scanned, minDist);
      forall i, j | 0 <= i < |r| && 0 <= j < |r| && i != j
        ensures Distance(r[i], r[j]) >= minDist
      {
        if j == |prev| {
          DistanceSymmetric(r[i], r[j]);
        } else if i < |prev| {
          assert r[i] == prev[i] && r[j] == prev[j];
        }
      }
    }
  }

  /** combinations[0] is never examined: replacing it changes nothing. */
  lemma SelectionIgnoresFirst<T>(seed: seq<T>, combinations: seq<seq<T>>, other: seq<T>, minDist: int)
    requires |combinations| > 0 && Conforming(seed, combinations)
    ensures Conforming(seed, [other] + combinations[1..])
    ensures Selection(seed, [other] + combinations[1..], minDist) == Selection(seed, combinations, minDist)
  {
    var alt := [other] + combinations[1..];
    assert Scanned(alt, |alt|) == Scanned(combinations, |combinations|);
  }

  /** The indices into `combinations` of the accepted candidates, in the
      order they were appended after the seed. */
  function SelectedIndices<T(==)>(seed: seq<T>, combinations: seq<seq<T>>, minDist: int): (idx: seq<nat>)
    requires Conforming(seed, combinations)
    ensures |idx| + 1 == |Selection(seed, combinations, minDist)|
    ensures forall q :: 0 <= q < |idx| ==> 1 <= idx[q] < |combinations|
    ensures forall q :: 0 <= q < |idx| ==> Selection(seed, combinations, minDist)[q + 1] == combinations[idx[q]]
    ensures forall p, q :: 0 <= p < q < |idx| ==> idx[p] < idx[q]
  {
    var picks := Picks(seed, Scanned(combinations, |combinations|), minDist);
    seq(|picks|, q requires 0 <= q < |picks| => picks[q] + 1)
  }

  lemma SelectedIndicesShift<T>(seed: seq<T>, combinations: seq<seq<T>>, i: nat, minDist: int)
    requires Conforming(seed, combinations) && 1 <= i
    ensures i in SelectedIndices(seed, combinations, minDist) <==>
      i - 1 in Picks(seed, Scanned(combinations, |combinations|), minDist)
  {
    var picks := Picks(seed, Scanned(combinations, |combinations|), minDist);
    var idx := SelectedIndices(seed, combinations, minDist);
    if i - 1 in picks {
      var q :| 0 <= q < |picks| && picks[q] == i - 1;
      assert idx[q] == i;
    }
  }

  /** Candidate `i` (never 0) is appended exactly when it is at least `minDist`
      away from everything the scan of indices `1..i` had accepted. */
  lemma SelectionDecision<T>(seed: seq<T>, combinations: seq<seq<T>>, i: nat, minDist: int)
    requires Conforming(seed, combinations) && 1 <= i < |combinations|
    ensures Conforming(seed, combinations[..i])
    ensures i in SelectedIndices(seed, combinations, minDist) <==>
      Admissible(Selection(seed, combinations[..i], minDist), combinations[i], minDist)
  {
    var scanned := Scanned(combinations, |combinations|);
    assert Scanned(combinations[..i], i) == scanned[..i - 1];
    assert scanned[i - 1] == combinations[i];
    SelectedIndicesShift(seed, combinations, i, minDist);
    GreedyDecision(seed, scanned, i - 1, minDist);
  }

  /** Greedy maximality: a candidate past index 0 that was not appended is
      closer than `minDist` to some code of the final list. */
  lemma SelectionMaximal<T>(seed: seq<T>, combinations: seq<seq<T>>, i: nat, minDist: int)
    requires Conforming(seed, combinations) && 1 <= i < |combinations|
    requires i !in SelectedIndices(seed, combinations, minDist)
    ensures var r := Selection(seed, combinations, minDist);
      exists j :: 0 <= j < |r| && Distance(combinations[i], r[j]) < minDist
  {
    var scanned := Scanned(combinations, |combinations|);
    assert scanned[i - 1] == combinations[i];
    SelectedIndicesShift(seed, combinations, i, minDist);
    GreedyMaximal(seed, scanned, i - 1, minDist);
  }

  /** Every two codes of the final list, the seed included, are at least
      `minDist` apart; with a positive threshold no code occurs twice. */
  lemma SelectionSeparated<T>(seed: seq<T>, combinations: seq<seq<T>>, minDist: int)
    requires Conforming(seed, combinations)
    ensures Separated(Selection(seed, combinations, minDist), minDist)
    ensures minDist >= 1 ==> var r := Selection(seed, combinations, minDist);
      forall i, j :: 0 <= i < |r| && 0 <= j < |r| && i != j ==> r[i] != r[j]
  {
    GreedySeparated(seed, Scanned(combinations, |combinations|), minDist);
  }

  /** Two different codes closer than the threshold are never both selected. */
  lemma SelectionExcludesClose<T>(seed: seq<T>, combinations: seq<seq<T>>, minDist: int, u: seq<T>, v: seq<T>)
    requires Conforming(seed, combinations)
    requires |u| == |v| && u != v && Distance(u, v) < minDist
    ensures var r := Selection(seed, combinations, minDist);
      !(u in r && v in r)
  {
    var r := Selection(seed, combinations, minDist);
    SelectionSeparated(seed, combinations, minDist);
    assert forall i, j :: 0 <= i < |r| && 0 <= j < |r| && r[i] == u ==> r[j] != v;
  }

  /** The distances from `candidate` to each accepted code, in order (the
      `hdists` list); `None` when the first comparison, against the seed,
      finds codes of different lengths. */
  method Distances<T(==)>(candidate: seq<T>, accepted: seq<seq<T>>) returns (r: Option<seq<nat>>)
    requires |accepted| > 0
    requires forall k :: 0 <= k < |accepted| ==> |accepted[k]| == |accepted[0]|
    ensures r.None? <==> |candidate| != |accepted[0]|
    ensures r.Some? ==> |r.value| == |accepted|
    ensures r.Some? ==> forall k :: 0 <= k < |accepted| ==> r.value[k] == Distance(candidate, accepted[k])
  {
    var hdists: seq<nat> := [];
    for k := 0 to |accepted|
      invariant |hdists| == k
      invariant k > 0 ==> |candidate| == |accepted[0]|
      invariant forall q :: 0 <= q < k ==> hdists[q] == Distance(candidate, accepted[q])
    {
      if |candidate| != |accepted[k]| {
        return None;
      }
      hdists := hdists + [Distance(candidate, accepted[k])];
    }
    r := Some(hdists);
  }

  /** One step of the scan: examining candidate i appends it to the result for
      indices 1..i-1 exactly when it is admissible. */
  lemma GreedyStep<T>(seed: seq<T>, combinations: seq<seq<T>>, i: nat, minDist: int)
    requires 1 <= i < |combinations|
    requires forall k :: 1 <= k <= i ==> |combinations[k]| == |seed|
    ensures Uniform(seed, Scanned(combinations, i)) && Uniform(seed, Scanned(combinations, i + 1))
    ensures var prev := Greedy(seed, Scanned(combinations, i), minDist);
      Greedy(seed, Scanned(combinations, i + 1), minDist) ==
        if Admissible(prev, combinations[i], minDist) then prev + [combinations[i]] else prev
  {
    assert Scanned(combinations, i + 1)[..i - 1] == Scanned(combinations, i);
  }

  /** The selection loop: seed the list, skip index 0, and append each later
      candidate none of whose distances to the list is below `minDist`. */
  method SelectByDistance<T(==)>(seed: seq<T>, combinations: seq<seq<T>>, minDist: int)
    returns (r: Result<seq<seq<T>>>)
    ensures r.Err? <==> !Conforming(seed, combinations)
    ensures r.Err? ==> r.error == LengthMismatch
    ensures r.Ok? ==> Conforming(seed, combinations) && r.value == Selection(seed, combinations, minDist)
  {
    var final := [seed];
    for i := 0 to |combinations|
      invariant forall k :: 1 <= k < i ==> |combinations[k]| == |seed|
      invariant final == Greedy(seed, Scanned(combinations, i), minDist)
    {
      if i != 0 {
        var hdists := Distances(combinations[i], final);
        if hdists.None? {
          return Err(LengthMismatch);
        }
        var hd := hdists.value;
        GreedyStep(seed, combinations, i, minDist);
        var tooClose := exists k :: 0 <= k < |hd| && hd[k] < minDist;
        assert tooClose <==> !Admissible(final, combinations[i], minDist);
        if !tooClose {
          final := final + [combinations[i]];
        }
      }
    }
    r := Ok(final);
  }
}
