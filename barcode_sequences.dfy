/** barcode_sequences.py: every length-n code over the bases A, C, G, T,
    thinned greedily from a caller-chosen first barcode so that any two kept
    codes differ in at least `min_dist` positions, then written one joined
    string per code. */
module BarcodeSequences {
  import opened Hamming
  import opened CandidateSpace
  import opened Selector

  /** The alphabet of every position, in the source's order. */
  const Bases: seq<string> := ["A", "C", "G", "T"]

  /** The order A < C < G < T in which `Bases` lists the symbols. */
  function BaseRank(b: string): int
  {
    if b == "A" then 0 else if b == "C" then 1 else if b == "G" then 2 else 3
  }

  /** `[bases] * n`: one copy of the alphabet per position. */
  function Alphabets(n: int): seq<seq<string>>
  {
    seq(Clamp(n), _ => Bases)
  }

  /** `generate_combinations(n)`: itertools.product over n copies of the bases. */
  function GenerateCombinations(n: int): seq<seq<string>>
  {
    Product(Alphabets(n))
  }

  function Pow4(m: nat): nat
  {
    if m == 0 then 1 else 4 * Pow4(m - 1)
  }

  /** A tuple of one-character symbols: what `''.join` turns into a string of
      the same length. */
  predicate SingleChars(bc: seq<string>)
  {
    forall k :: 0 <= k < |bc| ==> |bc[k]| == 1
  }

  /** There are 4^n codes of length n (a negative n behaves as 0: one empty
      code). */
  lemma {:induction false} GenerateCount(n: int)
    ensures |GenerateCombinations(n)| == Pow4(Clamp(n))
    decreases Clamp(n)
  {
    ProductLength(Alphabets(n));
    if Clamp(n) > 0 {
      GenerateCount(n - 1);
      assert Alphabets(n)[1..] == Alphabets(n - 1);
      ProductLength(Alphabets(n - 1));
    }
  }

  /** A tuple is generated exactly when it has length n and every symbol is
      one of the bases. */
  lemma GenerateMembers(n: int, t: seq<string>)
    ensures t in GenerateCombinations(n) <==>
      |t| == Clamp(n) && forall k :: 0 <= k < |t| ==> t[k] in Bases
  {
    ProductMembers(Alphabets(n), t);
  }

  /** The codes come in strictly increasing lexicographic order over
      A < C < G < T, the last position varying fastest, so none repeats. */
  lemma GenerateOrdered(n: int)
    ensures LexSorted(GenerateCombinations(n), BaseRank)
    ensures var g := GenerateCombinations(n);
      forall i, j :: 0 <= i < j < |g| ==> g[i] != g[j]
  {
    assert StrictlyIncreasing(Bases, BaseRank);
    ProductSorted(Alphabets(n), BaseRank);
  }

  /** The first generated code is all A. */
  lemma GenerateFirst(n: int)
    ensures |GenerateCombinations(n)| > 0
    ensures GenerateCombinations(n)[0] == seq(Clamp(n), _ => "A")
  {
    ProductFirst(Alphabets(n));
  }

  /** `''.join(bc)`: the symbols concatenated in order. */
  function Join(bc: seq<string>): string
    decreases |bc|
  {
    if bc == [] then "" else bc[0] + Join(bc[1..])
  }

  /** Joining one-character symbols keeps one character per position: the
      string is as long as the tuple and its i-th character is symbol i. */
  lemma {:induction false} JoinSingles(bc: seq<string>)
    requires SingleChars(bc)
    ensures |Join(bc)| == |bc|
    ensures forall i :: 0 <= i < |bc| ==> Join(bc)[i] == bc[i][0]
    decreases |bc|
  {
    if bc != [] {
      JoinSingles(bc[1..]);
      forall i | 0 <= i < |bc| ensures Join(bc)[i] == bc[i][0] {
        if i > 0 {
          assert Join(bc)[i] == Join(bc[1..])[i - 1];
        }
      }
    }
  }

  /** Flattening loses nothing: two tuples of one-character symbols are as far
      apart as their joined strings, so joined strings of distinct tuples
      differ. */
  lemma {:induction false} JoinPreservesDistance(a: seq<string>, b: seq<string>)
    requires |a| == |b| && SingleChars(a) && SingleChars(b)
    ensures |Join(a)| == |Join(b)|
    ensures Distance(Join(a), Join(b)) == Distance(a, b)
    decreases |a|
  {
    JoinSingles(a);
    JoinSingles(b);
    if a != [] {
      JoinPreservesDistance(a[1..], b[1..]);
      assert Join(a)[1..] == Join(a[1..]);
      assert Join(b)[1..] == Join(b[1..]);
      assert a[0] == [a[0][0]] && b[0] == [b[0][0]];
      assert (Join(a)[0] == Join(b)[0]) <==> (a[0] == b[0]);
    }
  }

  /** The loop that writes `''.join(bc)` for each kept code, in order, without
      the file it writes to. */
  method Flatten(final: seq<seq<string>>) returns (lines: seq<string>)
    ensures |lines| == |final|
    ensures forall k :: 0 <= k < |final| ==> lines[k] == Join(final[k])
  {
    lines := [];
    for k := 0 to |final|
      invariant |lines| == k
      invariant forall q :: 0 <= q < k ==> lines[q] == Join(final[q])
    {
      lines := lines + [Join(final[k])];
    }
  }

  /** `filter_barcodes` without its output: the seed is `first_bc`, the
      threshold `min_dist`; the result is the list of joined strings the source
      writes, one per kept code. */
  method FilterBarcodes(firstBc: seq<string>, combinations: seq<seq<string>>, minDist: int)
    returns (r: Result<seq<string>>)
    ensures r.Err? <==> !Conforming(firstBc, combinations)
    ensures r.Err? ==> r.error == LengthMismatch
    ensures r.Ok? ==> Conforming(firstBc, combinations)
    ensures r.Ok? ==> |r.value| == |Selection(firstBc, combinations, minDist)|
    ensures r.Ok? ==> forall k :: 0 <= k < |r.value| ==>
      r.value[k] == Join(Selection(firstBc, combinations, minDist)[k])
  {
    var selected := SelectByDistance(firstBc, combinations, minDist);
    if selected.Err? {
      return Err(selected.error);
    }
    var lines := Flatten(selected.value);
    r := Ok(lines);
  }

  /** Every generated code has n single-character symbols. */
  lemma GeneratedShape(n: int)
    ensures var g := GenerateCombinations(n);
      forall i :: 0 <= i < |g| ==> |g[i]| == Clamp(n) && SingleChars(g[i])
  {
    var g := GenerateCombinations(n);
    forall i | 0 <= i < |g| ensures |g[i]| == Clamp(n) && SingleChars(g[i]) {
      GenerateMembers(n, g[i]);
    }
  }

  /** A first barcode of n symbols never makes the distance computation on the
      generated codes fail. */
  lemma GeneratedConforming(n: int, firstBc: seq<string>)
    requires |firstBc| == Clamp(n)
    ensures Conforming(firstBc, GenerateCombinations(n))
  {
    GeneratedShape(n);
  }

  /** On the generated codes with a first barcode of length n made of bases,
      the selection never fails; the first line written is the first barcode,
      and any two written lines differ in at least `min_dist` characters. */
  lemma FilterGenerated(n: int, firstBc: seq<string>, minDist: int)
    requires |firstBc| == Clamp(n)
    requires forall k :: 0 <= k < |firstBc| ==> firstBc[k] in Bases
    ensures Conforming(firstBc, GenerateCombinations(n))
    ensures var f := Selection(firstBc, GenerateCombinations(n), minDist);
      Join(f[0]) == Join(firstBc) && |Join(f[0])| == Clamp(n)
    ensures var f := Selection(firstBc, GenerateCombinations(n), minDist);
      forall i, j :: 0 <= i < |f| && 0 <= j < |f| && i != j ==>
        |Join(f[i])| == |Join(f[j])| && Distance(Join(f[i]), Join(f[j])) >= minDist
  {
    var g := GenerateCombinations(n);
    GeneratedShape(n);
    var f := Selection(firstBc, g, minDist);
    SelectionSeparated(firstBc, g, minDist);
    var idx := SelectedIndices(firstBc, g, minDist);
    assert forall i :: 0 <= i < |f| ==> SingleChars(f[i]) by {
      forall i | 0 <= i < |f| ensures SingleChars(f[i]) {
        if i > 0 {
          assert f[i] == g[idx[i - 1]];
        }
      }
    }
    JoinSingles(f[0]);
    forall i, j | 0 <= i < |f| && 0 <= j < |f| && i != j
      ensures |Join(f[i])| == |Join(f[j])| && Distance(Join(f[i]), Join(f[j])) >= minDist
    {
      JoinPreservesDistance(f[i], f[j]);
    }
  }

  /** Two two-symbol codes that agree in the first position and differ in the
      second are one apart. */
  lemma OneApart(u: seq<string>, v: seq<string>)
    requires |u| == 2 && |v| == 2 && u[0] == v[0] && u[1] != v[1]
    ensures u != v && Distance(u, v) == 1
  {
    assert u[1..][1..] == [] && v[1..][1..] == [];
    assert u[1..] != v[1..];
  }

  /** For two positions and a threshold of at least 2, whatever the first
      barcode, the selection never holds both `CC` and `CG`: they differ in one
      position only. So with first barcode `AA` not every code that differs
      from it in both positions is kept. */
  lemma TwoBaseNotAllDisjoint(firstBc: seq<string>, minDist: int)
    requires |firstBc| == 2
    requires minDist >= 2
    ensures Conforming(firstBc, GenerateCombinations(2))
    ensures var f := Selection(firstBc, GenerateCombinations(2), minDist);
      !(["C", "C"] in f && ["C", "G"] in f)
  {
    GeneratedConforming(2, firstBc);
    OneApart(["C", "C"], ["C", "G"]);
    SelectionExcludesClose(firstBc, GenerateCombinations(2), minDist, ["C", "C"], ["C", "G"]);
  }
}
