/** The candidate space generator: the Cartesian product of per-position
    alphabets, enumerated as Python's itertools.product does it, so that the
    first position varies slowest and the last one fastest. */
module CandidateSpace {

  /** Prefix every tuple of `tails` with the symbol `x`, keeping their order. */
  function Cons<T>(x: T, tails: seq<seq<T>>): seq<seq<T>>
  {
    seq(|tails|, k requires 0 <= k < |tails| => [x] + tails[k])
  }

  /** For each symbol of `xs` in turn, all of `tails` prefixed with it. */
  function Extend<T>(xs: seq<T>, tails: seq<seq<T>>): seq<seq<T>>
    decreases |xs|
  {
    if xs == [] then [] else Cons(xs[0], tails) + Extend(xs[1..], tails)
  }

  /** itertools.product(*alphabets) as a list of tuples. */
  function Product<T>(alphabets: seq<seq<T>>): seq<seq<T>>
    decreases |alphabets|
  {
    if alphabets == [] then [[]] else Extend(alphabets[0], Product(alphabets[1..]))
  }

  /** A Python count used as a length (`range(1, n + 1)`, `list * n`): a
      negative count gives an empty list. */
  function Clamp(n: int): nat
  {
    if n < 0 then 0 else n
  }

  /** The number of tuples in the product: the product of the alphabet sizes. */
  function Size<T>(alphabets: seq<seq<T>>): nat
    decreases |alphabets|
  {
    if alphabets == [] then 1 else |alphabets[0]| * Size(alphabets[1..])
  }

  /** `t` is a point of the space: one symbol from each alphabet, in order. */
  ghost predicate InSpace<T>(t: seq<T>, alphabets: seq<seq<T>>)
  {
    |t| == |alphabets| && forall k :: 0 <= k < |t| ==> t[k] in alphabets[k]
  }

  /** `xs` is listed in strictly increasing order of `rank`. */
  ghost predicate StrictlyIncreasing<T>(xs: seq<T>, rank: T -> int)
  {
    forall i, j :: 0 <= i < j < |xs| ==> rank(xs[i]) < rank(xs[j])
  }

  /** Lexicographic order on tuples, each position compared by `rank`. */
  ghost predicate LexLess<T>(u: seq<T>, v: seq<T>, rank: T -> int)
    decreases |u|
  {
    |u| > 0 && |v| > 0 &&
    (rank(u[0]) < rank(v[0]) || (u[0] == v[0] && LexLess(u[1..], v[1..], rank)))
  }

  /** `ts` is listed in strictly increasing lexicographic order. */
  ghost predicate LexSorted<T>(ts: seq<seq<T>>, rank: T -> int)
  {
    forall i, j :: 0 <= i < j < |ts| ==> LexLess(ts[i], ts[j], rank)
  }

  lemma {:induction false} LexLessIrreflexive<T>(u: seq<T>, v: seq<T>, rank: T -> int)
    requires LexLess(u, v, rank)
    ensures u != v
    decreases |u|
  {
    if rank(u[0]) >= rank(v[0]) {
      LexLessIrreflexive(u[1..], v[1..], rank);
    }
  }

  lemma {:induction false} ExtendLength<T>(xs: seq<T>, tails: seq<seq<T>>)
    ensures |Extend(xs, tails)| == |xs| * |tails|
    decreases |xs|
  {
    if xs != [] {
      ExtendLength(xs[1..], tails);
      assert |xs| * |tails| == |tails| + (|xs| - 1) * |tails|;
    }
  }

  /** The product has exactly one tuple per combination of symbols. */
  lemma {:induction false} ProductLength<T>(alphabets: seq<seq<T>>)
    ensures |Product(alphabets)| == Size(alphabets)
    decreases |alphabets|
  {
    if alphabets != [] {
      ProductLength(alphabets[1..]);
      ExtendLength(alphabets[0], Product(alphabets[1..]));
    }
  }

  lemma {:induction false} ExtendMembers<T>(xs: seq<T>, tails: seq<seq<T>>, e: seq<T>)
    ensures e in Extend(xs, tails) <==> |e| > 0 && e[0] in xs && e[1..] in tails
    decreases |xs|
  {
    if xs != [] {
      ExtendMembers(xs[1..], tails, e);
      if |e| > 0 && e[0] == xs[0] && e[1..] in tails {
        var k :| 0 <= k < |tails| && tails[k] == e[1..];
        assert Cons(xs[0], tails)[k] == e;
      }
    }
  }

  /** The product holds exactly the points of the space, and nothing else. */
  lemma {:induction false} ProductMembers<T>(alphabets: seq<seq<T>>, t: seq<T>)
    ensures t in Product(alphabets) <==> InSpace(t, alphabets)
    decreases |alphabets|
  {
    if alphabets == [] {
      assert t in [[]] <==> t == [];
    } else {
      var rest := alphabets[1..];
      ExtendMembers(alphabets[0], Product(rest), t);
      if |t| > 0 {
        ProductMembers(rest, t[1..]);
        if InSpace(t, alphabets) {
          assert InSpace(t[1..], rest) by {
            forall k | 0 <= k < |t[1..]| ensures t[1..][k] in rest[k] {
              assert t[1..][k] == t[k + 1];
            }
          }
        }
        if InSpace(t[1..], rest) && t[0] in alphabets[0] {
          forall k | 0 <= k < |t| ensures t[k] in alphabets[k] {
            if k > 0 {
              assert t[k] == t[1..][k - 1];
            }
          }
        }
      }
    }
  }

  lemma {:induction false} ExtendHeads<T>(xs: seq<T>, tails: seq<seq<T>>)
    ensures forall i :: 0 <= i < |Extend(xs, tails)| ==>
      |Extend(xs, tails)[i]| > 0 && Extend(xs, tails)[i][0] in xs
    decreases |xs|
  {
    if xs != [] {
      ExtendHeads(xs[1..], tails);
      var e := Extend(xs, tails);
      var c := Cons(xs[0], tails);
      forall i | 0 <= i < |e| ensures |e[i]| > 0 && e[i][0] in xs {
        if i >= |c| {
          assert e[i] == Extend(xs[1..], tails)[i - |c|];
        }
      }
    }
  }

  lemma {:induction false} ExtendSorted<T>(xs: seq<T>, tails: seq<seq<T>>, rank: T -> int)
    requires StrictlyIncreasing(xs, rank)
    requires LexSorted(tails, rank)
    ensures LexSorted(Extend(xs, tails), rank)
    decreases |xs|
  {
    if xs != [] {
      var c := Cons(xs[0], tails);
      var rest := Extend(xs[1..], tails);
      assert StrictlyIncreasing(xs[1..], rank) by {
        forall i, j | 0 <= i < j < |xs[1..]| ensures rank(xs[1..][i]) < rank(xs[1..][j]) {
          assert xs[1..][i] == xs[i + 1] && xs[1..][j] == xs[j + 1];
        }
      }
      ExtendSorted(xs[1..], tails, rank);
      ExtendHeads(xs[1..], tails);
      var e := c + rest;
      forall i, j | 0 <= i < j < |e| ensures LexLess(e[i], e[j], rank) {
        if j < |c| {
          assert e[i][1..] == tails[i] && e[j][1..] == tails[j];
        } else if i < |c| {
          var h := e[j][0];
          assert e[j] == rest[j - |c|];
          var m :| 0 <= m < |xs[1..]| && xs[1..][m] == h;
          assert h == xs[m + 1];
        } else {
          assert e[i] == rest[i - |c|] && e[j] == rest[j - |c|];
        }
      }
    }
  }

  /** When every alphabet is listed in increasing order, the product is listed
      in strictly increasing lexicographic order: the last position varies
      fastest, and no tuple appears twice. */
  lemma {:induction false} ProductSorted<T>(alphabets: seq<seq<T>>, rank: T -> int)
    requires forall k :: 0 <= k < |alphabets| ==> StrictlyIncreasing(alphabets[k], rank)
    ensures LexSorted(Product(alphabets), rank)
    ensures forall i, j :: 0 <= i < j < |Product(alphabets)| ==>
      Product(alphabets)[i] != Product(alphabets)[j]
    decreases |alphabets|
  {
    var p := Product(alphabets);
    if alphabets != [] {
      ProductSorted(alphabets[1..], rank);
      ExtendSorted(alphabets[0], Product(alphabets[1..]), rank);
    }
    forall i, j | 0 <= i < j < |p| ensures p[i] != p[j] {
      LexLessIrreflexive(p[i], p[j], rank);
    }
  }

  /** When no alphabet is empty, the first tuple takes the first symbol of
      every alphabet. */
  lemma {:induction false} ProductFirst<T>(alphabets: seq<seq<T>>)
    requires forall k :: 0 <= k < |alphabets| ==> |alphabets[k]| > 0
    ensures |Product(alphabets)| > 0
    ensures |Product(alphabets)[0]| == |alphabets|
    ensures forall k :: 0 <= k < |alphabets| ==> Product(alphabets)[0][k] == alphabets[k][0]
    decreases |alphabets|
  {
    if alphabets != [] {
      var rest := alphabets[1..];
      ProductFirst(rest);
      var first := Product(alphabets)[0];
      assert first == [alphabets[0][0]] + Product(rest)[0];
      forall k | 0 <= k < |alphabets| ensures first[k] == alphabets[k][0] {
        if k > 0 {
          assert first[k] == Product(rest)[0][k - 1];
          assert rest[k - 1] == alphabets[k];
        }
      }
    }
  }
}
