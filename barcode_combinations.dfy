/** barcode_combinations.py: every combination of one i5, one i7, one i5nn and
    one i7nn barcode (each numbered from 1), thinned greedily so that any two
    kept combinations differ in at least two of the four positions. */
module BarcodeCombinations {
  import opened Hamming
  import opened CandidateSpace
  import opened Selector

  /** The fixed threshold of `limit_by_hamming_dist`. */
  const MinDist: int := 2

  /** list(range(1, count + 1)): the barcode numbers of one kind. */
  function Numbers(count: int): seq<int>
  {
    seq(Clamp(count), k => k + 1)
  }

  /** The four per-position alphabets, in the order i5, i7, i5nn, i7nn. */
  function Alphabets(i5: int, i7: int, i5nn: int, i7nn: int): seq<seq<int>>
  {
    [Numbers(i5), Numbers(i7), Numbers(i5nn), Numbers(i7nn)]
  }

  /** `generate_combinations`: itertools.product of the four ranges. */
  function GenerateCombinations(i5: int, i7: int, i5nn: int, i7nn: int): seq<seq<int>>
  {
    Product(Alphabets(i5, i7, i5nn, i7nn))
  }

  /** Integers ordered as themselves. */
  function Identity(x: int): int
  {
    x
  }

  /** A proof step of `GenerateCount`: regrouping the four-way product, kept
      apart so that the nonlinear step is taken in a small context. */
  lemma Regroup(a: int, b: int, c: int, d: int)
    ensures a * (b * (c * d)) == a * b * c * d
  {
  }

  /** There are i5 * i7 * i5nn * i7nn combinations (a negative count gives
      an empty range, hence no combinations). */
  lemma GenerateCount(i5: int, i7: int, i5nn: int, i7nn: int)
    ensures |GenerateCombinations(i5, i7, i5nn, i7nn)| == Clamp(i5) * Clamp(i7) * Clamp(i5nn) * Clamp(i7nn)
    ensures i5 >= 0 && i7 >= 0 && i5nn >= 0 && i7nn >= 0 ==>
      |GenerateCombinations(i5, i7, i5nn, i7nn)| == i5 * i7 * i5nn * i7nn
  {
    var alphabets := Alphabets(i5, i7, i5nn, i7nn);
    ProductLength(alphabets);
    var a1 := alphabets[1..];
    var a2 := a1[1..];
    var a3 := a2[1..];
    var c5, c7, c5nn, c7nn := Clamp(i5), Clamp(i7), Clamp(i5nn), Clamp(i7nn);
    assert a3[1..] == [];
    assert Size(a3) == c7nn;
    assert Size(a2) == c5nn * c7nn;
    assert Size(a1) == c7 * (c5nn * c7nn);
    assert Size(alphabets) == c5 * (c7 * (c5nn * c7nn));
    Regroup(c5, c7, c5nn, c7nn);
    if i5 >= 0 && i7 >= 0 && i5nn >= 0 && i7nn >= 0 {
      assert c5 == i5 && c7 == i7 && c5nn == i5nn && c7nn == i7nn;
    }
  }

  /** A tuple is generated exactly when it has four entries and the k-th lies
      in 1..count_k. */
  lemma GenerateMembers(i5: int, i7: int, i5nn: int, i7nn: int, t: seq<int>)
    ensures t in GenerateCombinations(i5, i7, i5nn, i7nn) <==>
      |t| == 4 && 1 <= t[0] <= i5 && 1 <= t[1] <= i7 && 1 <= t[2] <= i5nn && 1 <= t[3] <= i7nn
  {
    var alphabets := Alphabets(i5, i7, i5nn, i7nn);
    ProductMembers(alphabets, t);
    if |t| == 4 {
      assert InSpace(t, alphabets) <==>
        t[0] in alphabets[0] && t[1] in alphabets[1] && t[2] in alphabets[2] && t[3] in alphabets[3];
      forall k | 0 <= k < 4 ensures t[k] in alphabets[k] <==> 1 <= t[k] <= Clamp([i5, i7, i5nn, i7nn][k]) {
        if 1 <= t[k] <= Clamp([i5, i7, i5nn, i7nn][k]) {
          assert alphabets[k][t[k] - 1] == t[k];
        }
      }
    }
  }

  /** The combinations come in strictly increasing lexicographic order, the
      i7nn number varying fastest, so none is repeated. */
  lemma GenerateOrdered(i5: int, i7: int, i5nn: int, i7nn: int)
    ensures LexSorted(GenerateCombinations(i5, i7, i5nn, i7nn), Identity)
    ensures var g := GenerateCombinations(i5, i7, i5nn, i7nn);
      forall i, j :: 0 <= i < j < |g| ==> g[i] != g[j]
  {
    var alphabets := Alphabets(i5, i7, i5nn, i7nn);
    assert forall k :: 0 <= k < |alphabets| ==> StrictlyIncreasing(alphabets[k], Identity);
    ProductSorted(alphabets, Identity);
  }

  /** With every count at least 1, the first combination is (1, 1, 1, 1). */
  lemma GenerateFirst(i5: int, i7: int, i5nn: int, i7nn: int)
    requires i5 >= 1 && i7 >= 1 && i5nn >= 1 && i7nn >= 1
    ensures |GenerateCombinations(i5, i7, i5nn, i7nn)| > 0
    ensures GenerateCombinations(i5, i7, i5nn, i7nn)[0] == [1, 1, 1, 1]
  {
    var alphabets := Alphabets(i5, i7, i5nn, i7nn);
    ProductFirst(alphabets);
    var first := Product(alphabets)[0];
    assert first == [first[0], first[1], first[2], first[3]];
  }

  /** `limit_by_hamming_dist` without its output: the seed is combinations[0]
      (which raises on an empty list) and the threshold is 2. */
  method LimitByHammingDist(combinations: seq<seq<int>>) returns (r: Result<seq<seq<int>>>)
    ensures r == Err(EmptyCandidates) <==> |combinations| == 0
    ensures r == Err(LengthMismatch) <==> |combinations| > 0 && !Conforming(combinations[0], combinations)
    ensures r.Ok? <==> |combinations| > 0 && Conforming(combinations[0], combinations)
    ensures r.Ok? ==> r.value == Selection(combinations[0], combinations, MinDist)
  {
    if |combinations| == 0 {
      return Err(EmptyCandidates);
    }
    r := SelectByDistance(combinations[0], combinations, MinDist);
  }

  /** On the generated combinations the selection never fails when at least
      one combination exists; its result starts with (1, 1, 1, 1), and any two
      kept combinations differ in at least two positions, so none repeats. */
  lemma LimitGenerated(i5: int, i7: int, i5nn: int, i7nn: int)
    requires i5 >= 1 && i7 >= 1 && i5nn >= 1 && i7nn >= 1
    ensures var g := GenerateCombinations(i5, i7, i5nn, i7nn);
      |g| > 0 && Conforming(g[0], g)
    ensures var g := GenerateCombinations(i5, i7, i5nn, i7nn);
      var f := Selection(g[0], g, MinDist);
      f[0] == [1, 1, 1, 1] && Separated(f, MinDist)
    ensures var g := GenerateCombinations(i5, i7, i5nn, i7nn);
      var f := Selection(g[0], g, MinDist);
      forall i, j :: 0 <= i < |f| && 0 <= j < |f| && i != j ==> f[i] != f[j]
  {
    var g := GenerateCombinations(i5, i7, i5nn, i7nn);
    GenerateFirst(i5, i7, i5nn, i7nn);
    forall i | 1 <= i < |g| ensures |g[i]| == |g[0]| {
      GenerateMembers(i5, i7, i5nn, i7nn, g[i]);
      GenerateMembers(i5, i7, i5nn, i7nn, g[0]);
    }
    SelectionSeparated(g[0], g, MinDist);
  }

  /** Two i5 and two i7 barcodes with one of each nn kind give four
      combinations, in product order. */
  lemma ExampleCandidates()
    ensures GenerateCombinations(2, 2, 1, 1) == [[1, 1, 1, 1], [1, 2, 1, 1], [2, 1, 1, 1], [2, 2, 1, 1]]
  {
    var a := Alphabets(2, 2, 1, 1);
    assert |Numbers(2)| == 2 && Numbers(2)[0] == 1 && Numbers(2)[1] == 2;
    assert Numbers(2) == [1, 2];
    assert |Numbers(1)| == 1 && Numbers(1)[0] == 1;
    assert Numbers(1) == [1];
    assert a == [[1, 2], [1, 2], [1], [1]];
    var none: seq<seq<int>> := [[]];
    assert a[3..] == [[1]] && a[3..][1..] == [];
    assert [1][1..] == [];
    assert Extend([1], none) == Cons(1, none);
    var c := Cons(1, none);
    assert |c| == 1 && c[0] == [1] + none[0];
    assert [1] + none[0] == [1];
    assert c == [c[0]];
    assert Product(a[3..][1..]) == none;
    var p3 := Product(a[3..]);
    assert p3 == Extend([1], none);
    assert p3 == [[1]];
    assert a[2..][1..] == a[3..];
    assert Extend([1], p3) == Cons(1, p3);
    assert Cons(1, p3)[0] == [1, 1];
    var p2 := Product(a[2..]);
    assert p2 == [[1, 1]];
    assert a[1..][1..] == a[2..];
    assert [1, 2][1..][1..] == [];
    assert Extend([1, 2], p2) == Cons(1, p2) + Cons(2, p2);
    assert Cons(1, p2)[0] == [1, 1, 1] && Cons(2, p2)[0] == [2, 1, 1];
    var p1 := Product(a[1..]);
    assert p1 == [[1, 1, 1], [2, 1, 1]];
    assert Extend([1, 2], p1) == Cons(1, p1) + Cons(2, p1);
    assert Cons(1, p1)[0] == [1, 1, 1, 1] && Cons(1, p1)[1] == [1, 2, 1, 1];
    assert Cons(2, p1)[0] == [2, 1, 1, 1] && Cons(2, p1)[1] == [2, 2, 1, 1];
  }

  /** The scan of the three combinations after the seed (1, 1, 1, 1): (1, 2, 1, 1)
      and (2, 1, 1, 1) are each one position from the seed and are rejected;
      (2, 2, 1, 1) is two positions away and is kept. */
  lemma ExampleScan(seed: seq<int>, s: seq<seq<int>>)
    requires seed == [1, 1, 1, 1] && s == [[1, 2, 1, 1], [2, 1, 1, 1], [2, 2, 1, 1]]
    ensures Uniform(seed, s)
    ensures Greedy(seed, s, MinDist) == [[1, 1, 1, 1], [2, 2, 1, 1]]
  {
    assert s[..2][..1] == s[..1] && s[..3][..2] == s[..2] && s[..1][..0] == [];
    assert Greedy(seed, s[..1], MinDist) == [seed];
    assert Greedy(seed, s[..2], MinDist) == [seed];
    assert s[..3] == s;
  }

  /** `limit_by_hamming_dist(generate_combinations(2, 2, 1, 1))` keeps
      (1, 1, 1, 1) and (2, 2, 1, 1). */
  lemma LimitExample()
    ensures var g := GenerateCombinations(2, 2, 1, 1);
      |g| > 0 && g[0] == [1, 1, 1, 1] && Conforming(g[0], g)
    ensures Selection([1, 1, 1, 1], GenerateCombinations(2, 2, 1, 1), MinDist) == [[1, 1, 1, 1], [2, 2, 1, 1]]
  {
    ExampleCandidates();
    var g := GenerateCombinations(2, 2, 1, 1);
    assert Scanned(g, |g|) == [[1, 2, 1, 1], [2, 1, 1, 1], [2, 2, 1, 1]];
    ExampleScan([1, 1, 1, 1], Scanned(g, |g|));
  }
}
