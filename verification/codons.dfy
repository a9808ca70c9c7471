/** `Codon`: the shortest mutation paths between two codons and the transition/transversion
    distance table. */
module Codons {
  import opened Wrappers

  datatype Base = A | C | G | T

  /** A codon is three bases; the operations index positions 0, 1 and 2. */
  type Codon = seq<Base>

  predicate IsCodon(c: Codon) {
    |c| == 3
  }

  /** The positions, in ascending order from `i`, at which `s` and `e` differ. */
  function VariedFrom(s: Codon, e: Codon, i: nat): (v: seq<nat>)
    requires IsCodon(s) && IsCodon(e) && i <= 3
    ensures forall k :: 0 <= k < |v| ==> i <= v[k] < 3 && s[v[k]] != e[v[k]]
    ensures forall j :: i <= j < 3 && s[j] != e[j] ==> j in v
    ensures forall k, k' :: 0 <= k < k' < |v| ==> v[k] < v[k']
    decreases 3 - i
  {
    if i == 3 then [] else (if s[i] != e[i] then [i] else []) + VariedFrom(s, e, i + 1)
  }

  /** `indices_of_variation`. */
  function VariedIndices(s: Codon, e: Codon): seq<nat>
    requires IsCodon(s) && IsCodon(e)
  {
    VariedFrom(s, e, 0)
  }

  function Hamming(s: Codon, e: Codon): nat
    requires |s| == |e|
  {
    if s == [] then 0 else (if s[0] != e[0] then 1 else 0) + Hamming(s[1..], e[1..])
  }

  // Permutations in the order `itertools.permutations` yields them

  function Remove<X>(l: seq<X>, j: int): (r: seq<X>)
    requires 0 <= j < |l|
    ensures |r| == |l| - 1
  {
    l[..j] + l[j + 1..]
  }

  function Prefix<X>(x: X, ps: seq<seq<X>>): (r: seq<seq<X>>)
    ensures |r| == |ps|
    ensures forall k :: 0 <= k < |ps| ==> r[k] == [x] + ps[k]
  {
    seq(|ps|, k requires 0 <= k < |ps| => [x] + ps[k])
  }

  function Flatten<X>(xss: seq<seq<X>>): seq<X> {
    if xss == [] then [] else xss[0] + Flatten(xss[1..])
  }

  /** `list(permutations(l))`: the element at position `j` first, for `j` in order, followed by
      every permutation of the rest. */
  function Permutations<X>(l: seq<X>): seq<seq<X>>
    decreases |l|
  {
    if l == [] then [[]]
    else Flatten(seq(|l|, j requires 0 <= j < |l| => Prefix(l[j], Permutations(Remove(l, j)))))
  }

  function Factorial(n: nat): nat {
    if n == 0 then 1 else n * Factorial(n - 1)
  }

  // Trajectories

  /** The codons visited from `cur` by setting, in `order`, each position to `e`'s base. */
  function Steps(cur: Codon, e: Codon, order: seq<nat>): seq<Codon>
    requires IsCodon(cur) && IsCodon(e)
    requires forall k :: 0 <= k < |order| ==> order[k] < 3
    decreases |order|
  {
    if order == [] then []
    else
      var next := cur[order[0] := e[order[0]]];
      [next] + Steps(next, e, order[1..])
  }

  function Trajectory(s: Codon, e: Codon, order: seq<nat>): seq<Codon>
    requires IsCodon(s) && IsCodon(e)
    requires forall k :: 0 <= k < |order| ==> order[k] < 3
  {
    [s] + Steps(s, e, order)
  }

  /** `get_codon_to_codon_sequence_trajectory` (without the amino-acid translation): one
      trajectory for every order of the positions at which the codons differ. */
  function Trajectories(s: Codon, e: Codon): (ts: seq<seq<Codon>>)
    requires IsCodon(s) && IsCodon(e)
  {
    var orders := Permutations(VariedIndices(s, e));
    PermutationsBounded(VariedIndices(s, e));
    seq(|orders|, k requires 0 <= k < |orders| => Trajectory(s, e, orders[k]))
  }

  // Distances

  datatype Mutation = Transition | Transversion

  /** `mutation_type` looked up by the sorted pair of bases: the table marks the pairs AT and CG
      as transitions and the other four pairs as transversions. */
  function MutationType(a: Base, b: Base): Option<Mutation> {
    if a == b then None
    else if {a, b} == {A, T} || {a, b} == {C, G} then Some(Transition)
    else Some(Transversion)
  }

  datatype Distance = Distance(total: nat, transitions: nat, transversions: nat)

  function DistFrom(s: Codon, e: Codon, i: nat): Distance
    requires |s| == |e| && i <= |s|
    decreases |s| - i
  {
    if i == |s| then Distance(0, 0, 0)
    else
      var rest := DistFrom(s, e, i + 1);
      var ts := if MutationType(s[i], e[i]) == Some(Transition) then 1 else 0;
      var tv := if MutationType(s[i], e[i]) == Some(Transversion) then 1 else 0;
      Distance(rest.total + ts + tv, rest.transitions + ts, rest.transversions + tv)
  }

  /** `dist[start_codon][end_codon]`: `(s + v, s, v)`. */
  function Dist(s: Codon, e: Codon): Distance
    requires IsCodon(s) && IsCodon(e)
  {
    DistFrom(s, e, 0)
  }

  /** `get_codon_to_codon_dist_dictionary` over a list of codons. */
  function DistDictionary(codons: seq<Codon>): (dist: map<Codon, map<Codon, Distance>>)
    requires forall c :: c in codons ==> IsCodon(c)
    ensures forall s :: s in dist <==> s in codons
    ensures forall s, e :: s in dist && e in codons ==> e in dist[s] && dist[s][e] == Dist(s, e)
    ensures forall s :: s in dist ==> forall e :: e in dist[s] ==> e in codons
  {
    map s | s in codons :: map e | e in codons :: Dist(s, e)
  }

  /** Every entry of the dictionary counts the positions where its two codons differ, split into
      transitions and transversions, and the dictionary is symmetric. */
  lemma DistDictionarySpec(codons: seq<Codon>, s: Codon, e: Codon)
    requires forall c :: c in codons ==> IsCodon(c)
    requires s in codons && e in codons
    ensures var dist := DistDictionary(codons);
      && s in dist && e in dist[s] && e in dist && s in dist[e]
      && dist[s][e].total == dist[s][e].transitions + dist[s][e].transversions
      && dist[s][e].total == Hamming(s, e)
      && dist[s][e] == dist[e][s]
  {
    DistSpec(s, e);
  }

  // Properties

  lemma {:induction false} FlattenLength<X>(xss: seq<seq<X>>, m: nat)
    requires forall k :: 0 <= k < |xss| ==> |xss[k]| == m
    ensures |Flatten(xss)| == |xss| * m
  {
    if xss != [] {
      FlattenLength(xss[1..], m);
    }
  }

  lemma {:induction false} FlattenMember<X>(xss: seq<seq<X>>, p: X)
    requires p in Flatten(xss)
    ensures exists k :: 0 <= k < |xss| && p in xss[k]
  {
    if p !in xss[0] {
      FlattenMember(xss[1..], p);
      var k :| 0 <= k < |xss[1..]| && p in xss[1..][k];
      assert p in xss[k + 1];
    }
  }

  /** `permutations` yields `n!` orders of `n` elements. */
  lemma {:induction false} PermutationsCount<X>(l: seq<X>)
    ensures |Permutations(l)| == Factorial(|l|)
    decreases |l|
  {
    if l != [] {
      var parts := seq(|l|, j requires 0 <= j < |l| => Prefix(l[j], Permutations(Remove(l, j))));
      forall j | 0 <= j < |l|
        ensures |parts[j]| == Factorial(|l| - 1)
      {
        PermutationsCount(Remove(l, j));
      }
      FlattenLength(parts, Factorial(|l| - 1));
    }
  }

  lemma MultisetRemove<X>(l: seq<X>, j: int)
    requires 0 <= j < |l|
    ensures multiset(l) == multiset(Remove(l, j)) + multiset{l[j]}
  {
    assert l == l[..j] + [l[j]] + l[j + 1..];
    assert multiset(l) == multiset(l[..j]) + multiset{l[j]} + multiset(l[j + 1..]);
  }

  /** Every order `permutations` yields starts with one element and continues with an order of
      the others. */
  lemma PermutationsHead<X>(l: seq<X>, p: seq<X>) returns (j: int, q: seq<X>)
    requires l != [] && p in Permutations(l)
    ensures 0 <= j < |l| && q in Permutations(Remove(l, j)) && p == [l[j]] + q
  {
    var parts := seq(|l|, j requires 0 <= j < |l| => Prefix(l[j], Permutations(Remove(l, j))));
    FlattenMember(parts, p);
    j :| 0 <= j < |parts| && p in parts[j];
    var k :| 0 <= k < |parts[j]| && parts[j][k] == p;
    q := Permutations(Remove(l, j))[k];
  }

  /** Every order `permutations` yields rearranges exactly the input. */
  lemma {:induction false} PermutationsPermute<X>(l: seq<X>, p: seq<X>)
    requires p in Permutations(l)
    ensures multiset(p) == multiset(l)
    decreases |l|
  {
    if l != [] {
      var j, q := PermutationsHead(l, p);
      PermutationsPermute(Remove(l, j), q);
      MultisetRemove(l, j);
      assert multiset(p) == multiset{l[j]} + multiset(q);
    }
  }

  lemma PermutationsBounded(l: seq<nat>)
    ensures forall p :: p in Permutations(l) ==> forall k :: 0 <= k < |p| ==> p[k] in l
  {
    forall p | p in Permutations(l)
      ensures forall k :: 0 <= k < |p| ==> p[k] in l
    {
      PermutationsPermute(l, p);
      forall k | 0 <= k < |p|
        ensures p[k] in l
      {
        assert p[k] in multiset(p);
      }
    }
  }

  lemma {:induction false} HammingSelf(a: Codon)
    ensures Hamming(a, a) == 0
  {
    if a != [] {
      HammingSelf(a[1..]);
    }
  }

  /** Changing one position changes the distance to the original by at most one. */
  lemma {:induction false} HammingUpdate(a: Codon, j: int, x: Base)
    requires 0 <= j < |a|
    ensures Hamming(a, a[j := x]) == if a[j] == x then 0 else 1
  {
    var b := a[j := x];
    if j == 0 {
      assert b[1..] == a[1..];
      HammingSelf(a[1..]);
    } else {
      assert b[1..] == a[1..][j - 1 := x];
      HammingUpdate(a[1..], j - 1, x);
    }
  }

  /** Consecutive codons `k` and `k + 1` of a path differ at exactly one position. */
  predicate StepAt(t: seq<Codon>, k: int)
    requires 0 <= k < |t| - 1
  {
    |t[k]| == 3 && |t[k + 1]| == 3 && Hamming(t[k], t[k + 1]) == 1
  }

  predicate SingleSteps(t: seq<Codon>) {
    forall k :: 0 <= k < |t| - 1 ==> StepAt(t, k)
  }

  predicate Distinct(order: seq<nat>) {
    forall k, k' :: 0 <= k < k' < |order| ==> order[k] != order[k']
  }

  /** Setting, one at a time, each position at which `cur` still differs from `e` walks from
      `cur` to `e` by single-base changes. */
  lemma {:induction false} StepsReach(cur: Codon, e: Codon, order: seq<nat>)
    requires IsCodon(cur) && IsCodon(e)
    requires forall k :: 0 <= k < |order| ==> order[k] < 3 && cur[order[k]] != e[order[k]]
    requires forall j :: 0 <= j < 3 && cur[j] != e[j] ==> j in order
    requires Distinct(order)
    ensures var t := [cur] + Steps(cur, e, order);
      && |t| == |order| + 1
      && t[|t| - 1] == e
      && SingleSteps(t)
    decreases |order|
  {
    if order == [] {
      assert cur == e;
    } else {
      var p := order[0];
      var next := cur[p := e[p]];
      forall k | 0 <= k < |order[1..]|
        ensures order[1..][k] < 3 && next[order[1..][k]] != e[order[1..][k]]
      {
        assert order[1..][k] == order[k + 1] != order[0];
      }
      forall j | 0 <= j < 3 && next[j] != e[j]
        ensures j in order[1..]
      {
        assert j in order && j != p;
        var k :| 0 <= k < |order| && order[k] == j;
        assert k > 0 && order[1..][k - 1] == j;
      }
      StepsReach(next, e, order[1..]);
      HammingUpdate(cur, p, e[p]);
      var t := [cur] + Steps(cur, e, order);
      var t' := [next] + Steps(next, e, order[1..]);
      assert t == [cur] + t';
      forall k | 0 <= k < |t| - 1
        ensures StepAt(t, k)
      {
        if k > 0 {
          assert StepAt(t', k - 1);
          assert t[k] == t'[k - 1] && t[k + 1] == t'[k];
        }
      }
    }
  }

  lemma CountAtLeastTwo(p: seq<nat>, a: int, b: int)
    requires 0 <= a < b < |p| && p[a] == p[b]
    ensures multiset(p)[p[a]] >= 2
  {
    assert p == p[..b] + [p[b]] + p[b + 1..];
    assert p[a] in p[..b];
    assert multiset(p) == multiset(p[..b]) + multiset{p[b]} + multiset(p[b + 1..]);
  }

  lemma {:induction false} IncreasingAtMostOnce(l: seq<nat>, x: nat)
    requires forall k, k' :: 0 <= k < k' < |l| ==> l[k] < l[k']
    ensures multiset(l)[x] <= 1
  {
    if l != [] {
      IncreasingAtMostOnce(l[1..], x);
      assert l == [l[0]] + l[1..];
      if x == l[0] {
        assert x !in l[1..];
      }
    }
  }

  lemma {:induction false} VariedCount(s: Codon, e: Codon, i: nat)
    requires IsCodon(s) && IsCodon(e) && i <= 3
    ensures |VariedFrom(s, e, i)| == Hamming(s[i..], e[i..])
    decreases 3 - i
  {
    if i < 3 {
      VariedCount(s, e, i + 1);
      assert s[i..][1..] == s[i + 1..] && e[i..][1..] == e[i + 1..];
    }
  }

  /** An order `permutations` yields from strictly increasing positions lists each of them
      exactly once. */
  lemma OrderFacts(l: seq<nat>, order: seq<nat>)
    requires forall k, k' :: 0 <= k < k' < |l| ==> l[k] < l[k']
    requires order in Permutations(l)
    ensures |order| == |l|
    ensures Distinct(order)
    ensures forall x :: x in order <==> x in l
  {
    PermutationsPermute(l, order);
    assert |multiset(order)| == |order| && |multiset(l)| == |l|;
    forall k, k' | 0 <= k < k' < |order|
      ensures order[k] != order[k']
    {
      if order[k] == order[k'] {
        CountAtLeastTwo(order, k, k');
        IncreasingAtMostOnce(l, order[k]);
      }
    }
    forall x
      ensures x in order <==> x in l
    {
      assert x in order <==> x in multiset(order);
      assert x in l <==> x in multiset(l);
    }
  }

  /** The trajectory for one order of the differing positions. */
  lemma OrderTrajectory(s: Codon, e: Codon, order: seq<nat>)
    requires IsCodon(s) && IsCodon(e)
    requires |order| == Hamming(s, e) && Distinct(order)
    requires forall x :: x in order <==> x in VariedIndices(s, e)
    ensures forall k :: 0 <= k < |order| ==> order[k] < 3
    ensures var t := Trajectory(s, e, order);
      && |t| == Hamming(s, e) + 1
      && t[0] == s
      && t[|t| - 1] == e
      && SingleSteps(t)
  {
    var l := VariedIndices(s, e);
    forall k | 0 <= k < |order|
      ensures order[k] < 3 && s[order[k]] != e[order[k]]
    {
      assert order[k] in l;
    }
    forall j | 0 <= j < 3 && s[j] != e[j]
      ensures j in order
    {
      assert j in l;
    }
    StepsReach(s, e, order);
  }

  lemma TrajectoryAt(s: Codon, e: Codon, i: int)
    requires IsCodon(s) && IsCodon(e)
    requires 0 <= i < |Trajectories(s, e)|
    ensures var t := Trajectories(s, e)[i];
      && |t| == Hamming(s, e) + 1
      && t[0] == s
      && t[|t| - 1] == e
      && SingleSteps(t)
  {
    var l := VariedIndices(s, e);
    var orders := Permutations(l);
    VariedCount(s, e, 0);
    assert s[0..] == s && e[0..] == e;
    assert orders[i] in orders;
    OrderFacts(l, orders[i]);
    OrderTrajectory(s, e, orders[i]);
  }

  /** Every trajectory leads from the start codon to the end codon in exactly as many
      single-base steps as the codons differ, and there is one for each order of the differing
      positions. */
  lemma TrajectoriesShape(s: Codon, e: Codon)
    requires IsCodon(s) && IsCodon(e)
    ensures |Trajectories(s, e)| == Factorial(Hamming(s, e))
    ensures forall i :: 0 <= i < |Trajectories(s, e)| ==>
      var t := Trajectories(s, e)[i];
      && |t| == Hamming(s, e) + 1
      && t[0] == s
      && t[|t| - 1] == e
      && SingleSteps(t)
  {
    VariedCount(s, e, 0);
    assert s[0..] == s && e[0..] == e;
    PermutationsCount(VariedIndices(s, e));
    forall i | 0 <= i < |Trajectories(s, e)|
      ensures var t := Trajectories(s, e)[i];
        && |t| == Hamming(s, e) + 1
        && t[0] == s
        && t[|t| - 1] == e
        && SingleSteps(t)
    {
      TrajectoryAt(s, e, i);
    }
  }

  lemma SingletonPermutations(x: nat)
    ensures Permutations<nat>([x]) == [[x]]
  {
    var l: seq<nat> := [x];
    var empty: seq<nat> := [];
    assert Remove(l, 0) == empty;
    assert Permutations(empty) == [[]];
    var p := Prefix(x, Permutations(empty));
    assert |p| == 1;
    assert p[0] == [x] + empty == [x];
    assert p == [[x]];
    var parts := seq(1, j requires 0 <= j < 1 => Prefix(l[j], Permutations(Remove(l, j))));
    assert parts[0] == p;
    assert parts == [p];
    assert Flatten(parts) == p + Flatten(parts[1..]);
  }

  lemma TwoPositionSteps()
    ensures Trajectory([A, A, A], [C, C, A], [0, 1]) == [[A, A, A], [C, A, A], [C, C, A]]
    ensures Trajectory([A, A, A], [C, C, A], [1, 0]) == [[A, A, A], [A, C, A], [C, C, A]]
  {
    var s, e := [A, A, A], [C, C, A];
    var o1: seq<nat>, o2: seq<nat> := [0, 1], [1, 0];
    assert s[0 := e[0]] == [C, A, A] && [C, A, A][1 := e[1]] == [C, C, A];
    assert s[1 := e[1]] == [A, C, A] && [A, C, A][0 := e[0]] == [C, C, A];
    assert o1[1..] == [1] && o2[1..] == [0];
    assert Steps([C, C, A], e, []) == [];
    assert Steps([C, A, A], e, [1]) == [[C, C, A]];
    assert Steps([A, C, A], e, [0]) == [[C, C, A]];
  }

  lemma PairPermutations()
    ensures Permutations<nat>([0, 1]) == [[0, 1], [1, 0]]
  {
    var l: seq<nat> := [0, 1];
    var r0: seq<nat>, r1: seq<nat> := [1], [0];
    assert Remove(l, 0) == r0 && Remove(l, 1) == r1;
    SingletonPermutations(1);
    SingletonPermutations(0);
    var p0, p1 := Prefix(0, Permutations(r0)), Prefix(1, Permutations(r1));
    assert |p0| == 1 && p0[0] == [0] + r0 == [0, 1];
    assert |p1| == 1 && p1[0] == [1] + r1 == [1, 0];
    assert p0 == [[0, 1]] && p1 == [[1, 0]];
    var parts := seq(2, j requires 0 <= j < 2 => Prefix(l[j], Permutations(Remove(l, j))));
    assert parts[0] == p0 && parts[1] == p1;
    assert parts == [p0, p1];
    assert Flatten(parts) == p0 + Flatten(parts[1..]);
    assert Flatten(parts[1..]) == p1 + Flatten(parts[2..]);
  }

  /** Codons differing at the first two positions have two trajectories: the first changes
      position 0 first, the second position 1 first, as `permutations` orders them. */
  lemma FirstTwoPositions(s: Codon, e: Codon)
    requires IsCodon(s) && IsCodon(e)
    requires VariedIndices(s, e) == [0, 1]
    ensures var ts := Trajectories(s, e);
      && |ts| == 2
      && ts[0] == Trajectory(s, e, [0, 1])
      && ts[1] == Trajectory(s, e, [1, 0])
  {
    PairPermutations();
    var orders := Permutations(VariedIndices(s, e));
    var ts := Trajectories(s, e);
    assert |ts| == |orders| == 2;
    assert ts[0] == Trajectory(s, e, orders[0]);
    assert ts[1] == Trajectory(s, e, orders[1]);
  }

  /** `AAA` and `CCA` differ at positions 0 and 1 (so `FirstTwoPositions` applies to them). */
  lemma TwoPositionIndices()
    ensures VariedIndices([A, A, A], [C, C, A]) == [0, 1]
  {
  }

  /** The usage example of the distance table: TTC to AAA is three differences, two of them
      transitions (T to A twice) and one a transversion (C to A). */
  lemma DocumentedDistance()
    ensures Dist([T, T, C], [A, A, A]) == Distance(3, 2, 1)
  {
  }

  lemma {:induction false} DistFromCounts(s: Codon, e: Codon, i: nat)
    requires |s| == |e| && i <= |s|
    ensures DistFrom(s, e, i).total == DistFrom(s, e, i).transitions + DistFrom(s, e, i).transversions
    ensures DistFrom(s, e, i).total == Hamming(s[i..], e[i..])
    ensures DistFrom(s, e, i) == DistFrom(e, s, i)
    decreases |s| - i
  {
    if i < |s| {
      DistFromCounts(s, e, i + 1);
      assert s[i..][1..] == s[i + 1..] && e[i..][1..] == e[i + 1..];
    }
  }

  /** Transitions and transversions add up to the number of differing positions, and the
      distance is symmetric. */
  lemma DistSpec(s: Codon, e: Codon)
    requires IsCodon(s) && IsCodon(e)
    ensures Dist(s, e).total == Dist(s, e).transitions + Dist(s, e).transversions
    ensures Dist(s, e).total == Hamming(s, e)
    ensures Dist(s, e) == Dist(e, s)
  {
    DistFromCounts(s, e, 0);
    assert s[0..] == s && e[0..] == e;
  }
}
