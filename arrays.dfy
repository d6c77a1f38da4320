/** The `Arrays` helpers: `max`, `min`, `sort`, `asort`, `concat` and `unique`. Each one takes a PHP
    array and returns a value or a new array; none changes its argument. Every comparison goes
    through a comparator, which returns a negative, zero or positive number like `compareTo`. */
module Arrays {
  import opened Wrappers
  import Text

  /** A comparator that orders its type: the signs of `cmp(a, b)` and `cmp(b, a)` are opposite, and
      "not greater" is transitive. */
  ghost predicate IsOrder<T(!new)>(cmp: (T, T) -> int) {
    (forall a, b :: cmp(a, b) < 0 <==> cmp(b, a) > 0) &&
    (forall a, b, c {:trigger TransAt(cmp, a, b, c)} :: TransAt(cmp, a, b, c))
  }

  /** Transitivity of "not greater" at one triple. */
  ghost predicate TransAt<T>(cmp: (T, T) -> int, a: T, b: T, c: T) {
    cmp(a, b) <= 0 && cmp(b, c) <= 0 ==> cmp(a, c) <= 0
  }

  lemma Trans<T(!new)>(cmp: (T, T) -> int, a: T, b: T, c: T)
    requires IsOrder(cmp) && cmp(a, b) <= 0 && cmp(b, c) <= 0
    ensures cmp(a, c) <= 0
  {
    assert TransAt(cmp, a, b, c);
  }

  /** Under an order, comparing equal is transitive. */
  lemma EqualTrans<T(!new)>(cmp: (T, T) -> int, a: T, b: T, c: T)
    requires IsOrder(cmp) && cmp(a, b) == 0 && cmp(b, c) == 0
    ensures cmp(a, c) == 0
  {
    assert cmp(b, a) == 0 && cmp(c, b) == 0;
    Trans(cmp, a, b, c);
    Trans(cmp, c, b, a);
  }

  /** The default comparator on integers. */
  function IntCompare(a: int, b: int): int {
    a - b
  }

  /** The comparator of a rank: the values compare as their ranks do. */
  function ByRank<T>(rank: T -> int): (T, T) -> int {
    (a: T, b: T) => rank(a) - rank(b)
  }

  /** Every rank gives an order. */
  lemma RankOrder<T(!new)>(rank: T -> int)
    ensures IsOrder(ByRank(rank))
  {
    forall a, b, c ensures TransAt(ByRank(rank), a, b, c) {
    }
  }

  /** The default comparator is an order. */
  lemma IntOrder()
    ensures IsOrder(IntCompare)
  {
    forall a, b, c ensures TransAt(IntCompare, a, b, c) {
    }
  }

  // ---- max and min ----

  /** Whether `x` replaces the candidate `c`: strictly greater for `max`, strictly less for `min`. */
  predicate Beats<T>(cmp: (T, T) -> int, x: T, c: T, isMax: bool) {
    if isMax then cmp(x, c) > 0 else cmp(x, c) < 0
  }

  /** `getTop`: the elements visited in order, each replacing the candidate when it beats it;
      null for an empty array. */
  function Top<T>(xs: seq<T>, cmp: (T, T) -> int, isMax: bool): (r: Option<T>)
    ensures r.None? <==> xs == []
    ensures r.Some? ==> r.value in xs
  {
    if xs == [] then None
    else
      var c := Top(xs[..|xs| - 1], cmp, isMax);
      var x := xs[|xs| - 1];
      if c.None? || Beats(cmp, x, c.value, isMax) then Some(x) else c
  }

  /** `max($arr, $c)`. */
  function Max<T>(xs: seq<T>, cmp: (T, T) -> int): Option<T> {
    Top(xs, cmp, true)
  }

  /** `min($arr, $c)`. */
  function Min<T>(xs: seq<T>, cmp: (T, T) -> int): Option<T> {
    Top(xs, cmp, false)
  }

  /** Under an order the candidate is an element no element beats: no element is greater than the
      maximum, none is less than the minimum. */
  lemma {:induction false} TopIsExtreme<T(!new)>(xs: seq<T>, cmp: (T, T) -> int, isMax: bool)
    requires IsOrder(cmp)
    ensures Top(xs, cmp, isMax).Some? ==>
              forall i :: 0 <= i < |xs| ==> !Beats(cmp, xs[i], Top(xs, cmp, isMax).value, isMax)
  {
    if xs != [] {
      var p := xs[..|xs| - 1];
      TopIsExtreme(p, cmp, isMax);
      var c := Top(p, cmp, isMax);
      var x := xs[|xs| - 1];
      if c.Some? && Beats(cmp, x, c.value, isMax) {
        forall i | 0 <= i < |xs| ensures !Beats(cmp, xs[i], x, isMax) {
          if i < |p| {
            assert !Beats(cmp, p[i], c.value, isMax);
            if isMax {
              Trans(cmp, p[i], c.value, x);
            } else {
              Trans(cmp, x, c.value, p[i]);
            }
          }
        }
      } else if c.Some? {
        forall i | 0 <= i < |xs| ensures !Beats(cmp, xs[i], c.value, isMax) {
          if i < |p| {
            assert !Beats(cmp, p[i], c.value, isMax);
          }
        }
      }
    }
  }

  /** `max` is null only for the empty array; otherwise it is an element and no element is greater. */
  lemma MaxIsGreatest<T(!new)>(xs: seq<T>, cmp: (T, T) -> int)
    requires IsOrder(cmp)
    ensures Max(xs, cmp).None? <==> xs == []
    ensures Max(xs, cmp).Some? ==>
              Max(xs, cmp).value in xs && forall i :: 0 <= i < |xs| ==> cmp(xs[i], Max(xs, cmp).value) <= 0
  {
    TopIsExtreme(xs, cmp, true);
  }

  /** `min` is null only for the empty array; otherwise it is an element and no element is less. */
  lemma MinIsLeast<T(!new)>(xs: seq<T>, cmp: (T, T) -> int)
    requires IsOrder(cmp)
    ensures Min(xs, cmp).None? <==> xs == []
    ensures Min(xs, cmp).Some? ==>
              Min(xs, cmp).value in xs && forall i :: 0 <= i < |xs| ==> cmp(xs[i], Min(xs, cmp).value) >= 0
  {
    TopIsExtreme(xs, cmp, false);
  }

  // ---- sort and asort ----

  /** Ascending under the comparator. */
  predicate SortedBy<T>(s: seq<T>, cmp: (T, T) -> int) {
    forall i, j :: 0 <= i < j < |s| ==> cmp(s[i], s[j]) <= 0
  }

  /** `x` put before the first element it is not greater than. */
  function Insert<T>(x: T, s: seq<T>, cmp: (T, T) -> int): seq<T> {
    if s == [] then [x]
    else if cmp(x, s[0]) <= 0 then [x] + s
    else [s[0]] + Insert(x, s[1..], cmp)
  }

  /** The values in ascending order. */
  function Sort<T>(s: seq<T>, cmp: (T, T) -> int): seq<T> {
    if s == [] then [] else Insert(s[0], Sort(s[1..], cmp), cmp)
  }

  lemma {:induction false} InsertPermutes<T>(x: T, s: seq<T>, cmp: (T, T) -> int)
    ensures multiset(Insert(x, s, cmp)) == multiset(s) + multiset{x}
  {
    if s != [] && cmp(x, s[0]) > 0 {
      InsertPermutes(x, s[1..], cmp);
      assert s == [s[0]] + s[1..];
    }
  }

  lemma {:induction false} InsertSorted<T(!new)>(x: T, s: seq<T>, cmp: (T, T) -> int)
    requires IsOrder(cmp) && SortedBy(s, cmp)
    ensures SortedBy(Insert(x, s, cmp), cmp)
  {
    if s != [] {
      if cmp(x, s[0]) <= 0 {
        forall k | 0 <= k < |s| ensures cmp(x, s[k]) <= 0 {
          if k > 0 {
            Trans(cmp, x, s[0], s[k]);
          }
        }
        ConsSorted(x, s, cmp);
      } else {
        assert s == [s[0]] + s[1..];
        InsertSorted(x, s[1..], cmp);
        InsertPermutes(x, s[1..], cmp);
        HeadBelowAll(s[0], s[1..], x, Insert(x, s[1..], cmp), cmp);
        ConsSorted(s[0], Insert(x, s[1..], cmp), cmp);
      }
    }
  }

  /** An element not greater than any of a sorted sequence, put in front, keeps it sorted. */
  lemma ConsSorted<T>(h: T, s: seq<T>, cmp: (T, T) -> int)
    requires SortedBy(s, cmp) && forall k :: 0 <= k < |s| ==> cmp(h, s[k]) <= 0
    ensures SortedBy([h] + s, cmp)
  {
    var r := [h] + s;
    forall i, j | 0 <= i < j < |r| ensures cmp(r[i], r[j]) <= 0 {
      assert r[j] == s[j - 1];
      if i > 0 {
        assert r[i] == s[i - 1];
      }
    }
  }

  /** The head of a sorted sequence is not greater than anything its tail with one greater element
      inserted holds. */
  lemma HeadBelowAll<T(!new)>(h: T, s: seq<T>, x: T, rest: seq<T>, cmp: (T, T) -> int)
    requires IsOrder(cmp) && SortedBy([h] + s, cmp) && cmp(x, h) > 0
    requires multiset(rest) == multiset(s) + multiset{x}
    ensures forall j :: 0 <= j < |rest| ==> cmp(h, rest[j]) <= 0
  {
    forall j | 0 <= j < |rest| ensures cmp(h, rest[j]) <= 0 {
      assert rest[j] in multiset(rest);
      if rest[j] != x {
        assert rest[j] in multiset(s);
        var k :| 0 <= k < |s| && s[k] == rest[j];
        assert ([h] + s)[0] == h && ([h] + s)[k + 1] == s[k];
      }
    }
  }

  /** `sort` returns the same values, ascending. */
  lemma {:induction false} SortSpec<T(!new)>(s: seq<T>, cmp: (T, T) -> int)
    requires IsOrder(cmp)
    ensures multiset(Sort(s, cmp)) == multiset(s)
    ensures SortedBy(Sort(s, cmp), cmp)
  {
    if s != [] {
      SortSpec(s[1..], cmp);
      InsertPermutes(s[0], Sort(s[1..], cmp), cmp);
      InsertSorted(s[0], Sort(s[1..], cmp), cmp);
      assert s == [s[0]] + s[1..];
    }
  }

  /** Empty and one-element arrays come back unchanged. */
  lemma SortSmall<T>(s: seq<T>, cmp: (T, T) -> int)
    requires |s| <= 1
    ensures Sort(s, cmp) == s
  {
    if |s| == 1 {
      assert s[1..] == [];
    }
  }

  /** The comparator of a key-value pair: its value's. */
  function ByValue<K, V>(cmp: (V, V) -> int): ((K, V), (K, V)) -> int {
    (p: (K, V), q: (K, V)) => cmp(p.1, q.1)
  }

  lemma ByValueOrder<K(!new), V(!new)>(cmp: (V, V) -> int)
    requires IsOrder(cmp)
    ensures IsOrder(ByValue<K, V>(cmp))
  {
    var c := ByValue<K, V>(cmp);
    forall p: (K, V), q: (K, V) ensures c(p, q) < 0 <==> c(q, p) > 0 {
      assert c(p, q) == cmp(p.1, q.1) && c(q, p) == cmp(q.1, p.1);
    }
    forall p: (K, V), q: (K, V), r: (K, V) ensures TransAt(c, p, q, r) {
      if c(p, q) <= 0 && c(q, r) <= 0 {
        Trans(cmp, p.1, q.1, r.1);
      }
    }
  }

  /** `asort`: the key-value pairs ordered by value, each value keeping its key. */
  function Asort<K, V>(es: seq<(K, V)>, cmp: (V, V) -> int): seq<(K, V)> {
    Sort(es, ByValue(cmp))
  }

  /** `asort` returns the same key-value pairs, values ascending. */
  lemma AsortSpec<K(!new), V(!new)>(es: seq<(K, V)>, cmp: (V, V) -> int)
    requires IsOrder(cmp)
    ensures multiset(Asort(es, cmp)) == multiset(es)
    ensures forall i, j :: 0 <= i < j < |es| ==> cmp(Asort(es, cmp)[i].1, Asort(es, cmp)[j].1) <= 0
  {
    ByValueOrder<K, V>(cmp);
    SortSpec(es, ByValue(cmp));
    assert |multiset(Asort(es, cmp))| == |multiset(es)|;
    var r := Asort(es, cmp);
    forall i, j | 0 <= i < j < |es| ensures cmp(r[i].1, r[j].1) <= 0 {
      assert ByValue(cmp)(r[i], r[j]) <= 0;
    }
  }

  // ---- concat ----

  /** An argument of `concat`, or an element of its result: a scalar or an array. */
  datatype Element<T> = Scalar(value: T) | Nested(items: seq<Element<T>>)

  /** An array argument is spliced one level; anything else is one element. */
  function Spread<T>(a: Element<T>): seq<Element<T>> {
    if a.Nested? then a.items else [a]
  }

  /** `concat(...)`: the arguments spread and joined, in order. */
  function Concat<T>(args: seq<Element<T>>): seq<Element<T>> {
    if args == [] then [] else Spread(args[0]) + Concat(args[1..])
  }

  /** `concat` of joined argument lists is the join of their `concat`s. */
  lemma {:induction false} ConcatJoin<T>(a: seq<Element<T>>, b: seq<Element<T>>)
    ensures Concat(a + b) == Concat(a) + Concat(b)
  {
    if a != [] {
      assert (a + b)[0] == a[0] && (a + b)[1..] == a[1..] + b;
      ConcatJoin(a[1..], b);
    } else {
      assert a + b == b;
    }
  }

  lemma ConcatCons<T>(e: Element<T>, args: seq<Element<T>>)
    ensures Concat([e] + args) == Spread(e) + Concat(args)
  {
    assert ([e] + args)[0] == e && ([e] + args)[1..] == args;
  }

  /** Scalars only: `concat` gives them back as they are. */
  lemma {:induction false} ConcatScalars<T>(args: seq<Element<T>>)
    requires forall i :: 0 <= i < |args| ==> args[i].Scalar?
    ensures Concat(args) == args
  {
    if args != [] {
      ConcatScalars(args[1..]);
    }
  }

  /** Each argument contributes its own spread, in place: an array's items, nested arrays among
      them kept whole, or the scalar itself. */
  lemma ConcatAt<T>(args: seq<Element<T>>, k: nat)
    requires k < |args|
    ensures Concat(args) == Concat(args[..k]) + Spread(args[k]) + Concat(args[k + 1..])
  {
    var a, b := args[..k], args[k..];
    assert Concat(args) == Concat(a) + Concat(b) by {
      assert a + b == args;
      ConcatJoin(a, b);
    }
    assert Concat(b) == Spread(args[k]) + Concat(args[k + 1..]) by {
      assert b[0] == args[k] && b[1..] == args[k + 1..];
    }
    JoinAssoc(Concat(a), Spread(args[k]), Concat(args[k + 1..]));
  }

  lemma JoinAssoc<T>(x: seq<T>, y: seq<T>, z: seq<T>)
    ensures x + (y + z) == x + y + z
  {
  }

  // ---- unique ----

  /** `r` is the sub-sequence of `es` at the strictly ascending positions `idx`: each entry keeps
      its key, and the entries keep their order. */
  ghost predicate SelectedAt<K, V>(es: seq<(K, V)>, r: seq<(K, V)>, idx: seq<nat>) {
    |idx| == |r| &&
    (forall k {:trigger idx[k]} :: 0 <= k < |idx| ==> idx[k] < |es| && r[k] == es[idx[k]]) &&
    (forall k, l :: 0 <= k < l < |idx| ==> idx[k] < idx[l])
  }

  /** What `unique` promises of its result `r`: a sub-sequence of the entries of `es` with their
      keys, no two of whose values compare equal, such that every value of `es` compares equal to
      one of them. Which entry of a group of equal values survives is left open: the library picks
      it through the order its `asort` gives to equal values. */
  ghost predicate IsUniqueOf<K, V>(es: seq<(K, V)>, r: seq<(K, V)>, cmp: (V, V) -> int) {
    (exists idx :: SelectedAt(es, r, idx)) &&
    (forall k, l :: 0 <= k < l < |r| ==> cmp(r[k].1, r[l].1) != 0) &&
    (forall i :: 0 <= i < |es| ==> exists k :: 0 <= k < |r| && cmp(r[k].1, es[i].1) == 0)
  }

  /** Entry `i` holds the first value of its group: no earlier value compares equal to it. */
  predicate FirstOf<K, V>(es: seq<(K, V)>, i: nat, cmp: (V, V) -> int)
    requires i < |es|
  {
    forall j :: 0 <= j < i ==> cmp(es[j].1, es[i].1) != 0
  }

  /** The positions below `n` that hold the first value of their group, ascending. */
  function Survivors<K, V>(es: seq<(K, V)>, n: nat, cmp: (V, V) -> int): (idx: seq<nat>)
    requires n <= |es|
    ensures forall k :: 0 <= k < |idx| ==> idx[k] < n && FirstOf(es, idx[k], cmp)
    ensures forall k, l :: 0 <= k < l < |idx| ==> idx[k] < idx[l]
    ensures forall i :: 0 <= i < n && FirstOf(es, i, cmp) ==> i in idx
  {
    if n == 0 then []
    else Survivors(es, n - 1, cmp) + (if FirstOf(es, n - 1, cmp) then [n - 1] else [])
  }

  /** One result that `unique` may return: the first entry of each group, with its key, in order. */
  function FirstOfEach<K, V>(es: seq<(K, V)>, cmp: (V, V) -> int): seq<(K, V)> {
    var idx := Survivors(es, |es|, cmp);
    seq(|idx|, k requires 0 <= k < |idx| => es[idx[k]])
  }

  /** Under every order the contract of `unique` can be met: the first entry of each group meets it. */
  lemma UniqueSpec<K(!new), V(!new)>(es: seq<(K, V)>, cmp: (V, V) -> int)
    requires IsOrder(cmp)
    ensures IsUniqueOf(es, FirstOfEach(es, cmp), cmp)
  {
    var r := FirstOfEach(es, cmp);
    var idx := Survivors(es, |es|, cmp);
    assert SelectedAt(es, r, idx) by {
      assert forall k :: 0 <= k < |idx| ==> r[k] == es[idx[k]];
    }
    forall k, l | 0 <= k < l < |r| ensures cmp(r[k].1, r[l].1) != 0 {
      assert r[k] == es[idx[k]] && r[l] == es[idx[l]];
      assert idx[k] < idx[l] && FirstOf(es, idx[l], cmp);
    }
    forall i | 0 <= i < |es| ensures exists k :: 0 <= k < |r| && cmp(r[k].1, es[i].1) == 0 {
      var k := Represented(es, i, cmp);
      assert r[k] == es[idx[k]];
    }
  }

  /** A result of `unique` is no longer than its argument. */
  lemma UniqueBound<K, V>(es: seq<(K, V)>, r: seq<(K, V)>, cmp: (V, V) -> int)
    requires IsUniqueOf(es, r, cmp)
    ensures |r| <= |es|
  {
    var idx :| SelectedAt(es, r, idx);
    IncreasingBound(idx, |es|);
  }

  /** Whichever entries survive, every result of `unique` has the same length: one entry per group
      of equal values. */
  lemma UniqueCount<K(!new), V(!new)>(es: seq<(K, V)>, r: seq<(K, V)>, s: seq<(K, V)>, cmp: (V, V) -> int)
    requires IsOrder(cmp) && IsUniqueOf(es, r, cmp) && IsUniqueOf(es, s, cmp)
    ensures |r| == |s|
  {
    UniqueAtMost(es, r, s, cmp);
    UniqueAtMost(es, s, r, cmp);
  }

  /** Each entry of `r` compares equal to an entry of `s`, and no two entries of `r` to the same one. */
  lemma UniqueAtMost<K(!new), V(!new)>(es: seq<(K, V)>, r: seq<(K, V)>, s: seq<(K, V)>, cmp: (V, V) -> int)
    requires IsOrder(cmp) && IsUniqueOf(es, r, cmp) && IsUniqueOf(es, s, cmp)
    ensures |r| <= |s|
  {
    var f := Partners(es, r, s, cmp);
    forall k, l | 0 <= k < l < |f| ensures f[k] != f[l] {
      assert cmp(r[k].1, s[f[k]].1) == 0;
      EqualChain(cmp, r[k].1, s[f[k]].1, r[l].1);
    }
    InjectionBound(f, |s|);
  }

  /** For each entry of `r`, the position of an entry of `s` whose value compares equal to it. */
  lemma Partners<K, V>(es: seq<(K, V)>, r: seq<(K, V)>, s: seq<(K, V)>, cmp: (V, V) -> int) returns (f: seq<nat>)
    requires IsUniqueOf(es, r, cmp) && IsUniqueOf(es, s, cmp)
    ensures |f| == |r|
    ensures forall k :: 0 <= k < |f| ==> f[k] < |s| && cmp(s[f[k]].1, r[k].1) == 0
  {
    var idx :| SelectedAt(es, r, idx);
    f := [];
    while |f| < |r|
      invariant |f| <= |r|
      invariant forall k :: 0 <= k < |f| ==> f[k] < |s| && cmp(s[f[k]].1, r[k].1) == 0
    {
      var i := idx[|f|];
      assert r[|f|] == es[i];
      var j: nat :| j < |s| && cmp(s[j].1, es[i].1) == 0;
      f := f + [j];
    }
  }

  /** Under an order, comparing equal is transitive, stated as an implication. */
  lemma EqualChain<T(!new)>(cmp: (T, T) -> int, a: T, b: T, c: T)
    requires IsOrder(cmp)
    ensures cmp(a, b) == 0 && cmp(b, c) == 0 ==> cmp(a, c) == 0
  {
    if cmp(a, b) == 0 && cmp(b, c) == 0 {
      EqualTrans(cmp, a, b, c);
    }
  }

  /** Pairwise distinct numbers below `n` are at most `n` many. */
  lemma {:induction false} InjectionBound(f: seq<nat>, n: nat)
    requires forall k :: 0 <= k < |f| ==> f[k] < n
    requires forall k, l :: 0 <= k < l < |f| ==> f[k] != f[l]
    ensures |f| <= n
    decreases |f|
  {
    if f != [] {
      var m := f[|f| - 1];
      var g := seq(|f| - 1, k requires 0 <= k < |f| - 1 => if f[k] <= m then f[k] else f[k] - 1);
      assert forall k :: 0 <= k < |g| ==> f[k] != m;
      InjectionBound(g, n - 1);
    }
  }

  /** Strictly ascending positions below `n` are at most `n` many. */
  lemma {:induction false} IncreasingBound(idx: seq<nat>, n: nat)
    requires forall k :: 0 <= k < |idx| ==> idx[k] < n
    requires forall k, l :: 0 <= k < l < |idx| ==> idx[k] < idx[l]
    ensures |idx| <= n
  {
    if idx != [] {
      var p := idx[..|idx| - 1];
      assert forall k :: 0 <= k < |p| ==> p[k] < idx[|idx| - 1];
      IncreasingBound(p, idx[|idx| - 1]);
    }
  }

  /** The position among the survivors of a value that compares equal to entry `i`. */
  lemma {:induction false} Represented<K(!new), V(!new)>(es: seq<(K, V)>, i: nat, cmp: (V, V) -> int) returns (k: nat)
    requires IsOrder(cmp) && i < |es|
    ensures var idx := Survivors(es, |es|, cmp);
            k < |idx| && cmp(es[idx[k]].1, es[i].1) == 0
    decreases i
  {
    var idx := Survivors(es, |es|, cmp);
    if FirstOf(es, i, cmp) {
      k :| 0 <= k < |idx| && idx[k] == i;
      assert cmp(es[i].1, es[i].1) == 0;
    } else {
      var j :| 0 <= j < i && cmp(es[j].1, es[i].1) == 0;
      k := Represented(es, j, cmp);
      EqualTrans(cmp, es[idx[k]].1, es[j].1, es[i].1);
    }
  }

  // ---- the tests' values ----

  /** `max` and `min` of 5, 1, 3, 10, -10 are 10 and -10. */
  lemma IntVectors(xs: seq<int>)
    requires xs == [5, 1, 3, 10, -10]
    ensures Max(xs, IntCompare) == Some(10) && Min(xs, IntCompare) == Some(-10)
  {
    IntOrder();
    MaxIsGreatest(xs, IntCompare);
    MinIsLeast(xs, IntCompare);
    assert xs[3] == 10 && xs[4] == -10;
  }

  /** The rank of the tests' comparator: the English number names one to five, anything else 0. */
  function NameRank(s: string): int {
    if s == "one" then 1 else if s == "two" then 2 else if s == "three" then 3
    else if s == "four" then 4 else if s == "five" then 5 else 0
  }

  /** Under that comparator "five" is the greatest of the five names and "one" the least. */
  lemma NameVectors(xs: seq<string>)
    requires xs == ["three", "one", "five", "two", "four"]
    ensures Max(xs, ByRank(NameRank)) == Some("five") && Min(xs, ByRank(NameRank)) == Some("one")
  {
    RankOrder(NameRank);
    MaxIsGreatest(xs, ByRank(NameRank));
    MinIsLeast(xs, ByRank(NameRank));
    var cmp := ByRank(NameRank);
    assert NameRank("three") == 3 && NameRank("one") == 1 && NameRank("five") == 5;
    assert NameRank("two") == 2 && NameRank("four") == 4;
    var hi, lo := Max(xs, cmp).value, Min(xs, cmp).value;
    assert cmp(xs[2], hi) == 5 - NameRank(hi) <= 0;
    assert cmp(xs[1], lo) == 1 - NameRank(lo) >= 0;
    assert hi in xs && lo in xs;
  }

  /** `sort` of 20, 10 is 10, 20. */
  lemma SortVector(xs: seq<int>)
    requires xs == [20, 10]
    ensures Sort(xs, IntCompare) == [10, 20]
  {
    assert xs[1..] == [10] && xs[1..][1..] == [];
    assert Sort(xs[1..], IntCompare) == [10];
    assert Insert(20, [10], IntCompare) == [10] + Insert(20, [], IntCompare);
  }

  /** `concat([1, 2, 3], "X", [5, 7], "Y")` is 1, 2, 3, "X", 5, 7, "Y"; a list of arrays is spliced
      one level only. */
  lemma ConcatVector(a: seq<Element<int>>, x: Element<int>, b: seq<Element<int>>, y: Element<int>)
    requires a == [Scalar(1), Scalar(2), Scalar(3)] && b == [Scalar(5), Scalar(7)]
    requires x.Scalar? && y.Scalar?
    ensures Concat([Nested(a), x, Nested(b), y]) == a + [x] + b + [y]
    ensures Concat([Nested(a), Nested([Nested(b), Nested(a)])]) == a + [Nested(b), Nested(a)]
  {
    ConcatCons(y, []);
    ConcatCons(Nested(b), [y]);
    ConcatCons(x, [Nested(b), y]);
    ConcatCons(Nested(a), [x, Nested(b), y]);
    ConcatCons(Nested([Nested(b), Nested(a)]), []);
    ConcatCons(Nested(a), [Nested([Nested(b), Nested(a)])]);
  }

  /** The values of the `unique` example: integers, and numeric strings, which the default
      comparator compares as the numbers they spell. */
  datatype Loose = Int(n: int) | Numeric(s: string)

  function LooseValue(v: Loose): int {
    match v
    case Int(n) => n
    case Numeric(s) => Text.DigitsValue(s)
  }

  /** The values of a list of entries as numbers. */
  function Values(xs: seq<(nat, Loose)>): (vs: seq<int>)
    ensures |vs| == |xs| && forall k :: 0 <= k < |xs| ==> vs[k] == LooseValue(xs[k].1)
  {
    seq(|xs|, k requires 0 <= k < |xs| => LooseValue(xs[k].1))
  }

  /** Entries of pairwise distinct values, every value of `es` among them at the position `w`
      gives, meet the contract of `unique` under the comparator of `rank`. */
  lemma UniqueByRank<K, V>(es: seq<(K, V)>, r: seq<(K, V)>, rank: V -> int, idx: seq<nat>, w: seq<nat>)
    requires SelectedAt(es, r, idx)
    requires forall k, l :: 0 <= k < l < |r| ==> rank(r[k].1) != rank(r[l].1)
    requires |w| == |es| && forall i :: 0 <= i < |es| ==> w[i] < |r| && rank(r[w[i]].1) == rank(es[i].1)
    ensures IsUniqueOf(es, r, ByRank(rank))
  {
    var cmp := ByRank(rank);
    forall i | 0 <= i < |es| ensures exists k :: 0 <= k < |r| && cmp(r[k].1, es[i].1) == 0 {
      var k := w[i];
      assert 0 <= k < |r| && cmp(r[k].1, es[i].1) == 0;
    }
    assert forall k, l :: 0 <= k < l < |r| ==> cmp(r[k].1, r[l].1) != 0;
    assert forall i :: 0 <= i < |es| ==> exists k :: 0 <= k < |r| && cmp(r[k].1, es[i].1) == 0;
    assert exists idx :: SelectedAt(es, r, idx);
  }

  /** The result the example expects of `unique` meets its contract: it keeps index 7 ("3") and
      index 8 (2), not the first occurrences of 3 and "2". */
  lemma UniqueVector(es: seq<(nat, Loose)>, r: seq<(nat, Loose)>)
    requires es == [(0, Int(1)), (1, Int(3)), (2, Numeric("2")), (3, Int(7)), (4, Int(5)),
                    (5, Int(0)), (6, Int(8)), (7, Numeric("3")), (8, Int(2)), (9, Int(9)),
                    (10, Int(3)), (11, Int(6)), (12, Numeric("5")), (13, Int(4))]
    requires r == [(0, Int(1)), (3, Int(7)), (4, Int(5)), (5, Int(0)), (6, Int(8)),
                   (7, Numeric("3")), (8, Int(2)), (9, Int(9)), (11, Int(6)), (13, Int(4))]
    ensures IsUniqueOf(es, r, ByRank(LooseValue))
  {
    var idx: seq<nat> := [0, 3, 4, 5, 6, 7, 8, 9, 11, 13];
    ExampleSelected(es, r, idx);
    ExampleValues(es, r);
    DistinctValues(Values(r));
    Covering(Values(es), Values(r));
    UniqueByRank(es, r, LooseValue, idx, [0, 5, 6, 1, 2, 3, 4, 5, 6, 7, 5, 8, 2, 9]);
  }

  /** The expected result is the example's entries at ascending positions. */
  lemma ExampleSelected(es: seq<(nat, Loose)>, r: seq<(nat, Loose)>, idx: seq<nat>)
    requires es == [(0, Int(1)), (1, Int(3)), (2, Numeric("2")), (3, Int(7)), (4, Int(5)),
                    (5, Int(0)), (6, Int(8)), (7, Numeric("3")), (8, Int(2)), (9, Int(9)),
                    (10, Int(3)), (11, Int(6)), (12, Numeric("5")), (13, Int(4))]
    requires r == [(0, Int(1)), (3, Int(7)), (4, Int(5)), (5, Int(0)), (6, Int(8)),
                   (7, Numeric("3")), (8, Int(2)), (9, Int(9)), (11, Int(6)), (13, Int(4))]
    requires idx == [0, 3, 4, 5, 6, 7, 8, 9, 11, 13]
    ensures SelectedAt(es, r, idx)
  {
    assert forall k :: 0 <= k < |idx| ==> r[k] == es[idx[k]];
  }

  /** The values of the example and of the expected result, as numbers. */
  lemma ExampleValues(es: seq<(nat, Loose)>, r: seq<(nat, Loose)>)
    requires es == [(0, Int(1)), (1, Int(3)), (2, Numeric("2")), (3, Int(7)), (4, Int(5)),
                    (5, Int(0)), (6, Int(8)), (7, Numeric("3")), (8, Int(2)), (9, Int(9)),
                    (10, Int(3)), (11, Int(6)), (12, Numeric("5")), (13, Int(4))]
    requires r == [(0, Int(1)), (3, Int(7)), (4, Int(5)), (5, Int(0)), (6, Int(8)),
                   (7, Numeric("3")), (8, Int(2)), (9, Int(9)), (11, Int(6)), (13, Int(4))]
    ensures Values(r) == [1, 7, 5, 0, 8, 3, 2, 9, 6, 4]
    ensures Values(es) == [1, 3, 2, 7, 5, 0, 8, 3, 2, 9, 3, 6, 5, 4]
  {
    assert Text.DigitsValue("2") == 2 && Text.DigitsValue("3") == 3 && Text.DigitsValue("5") == 5;
  }

  /** The example's surviving values are pairwise distinct. */
  lemma DistinctValues(rv: seq<int>)
    requires rv == [1, 7, 5, 0, 8, 3, 2, 9, 6, 4]
    ensures forall k, l :: 0 <= k < l < |rv| ==> rv[k] != rv[l]
  {
    var pos := [3, 0, 6, 5, 9, 2, 8, 1, 4, 7];
    assert forall k :: 0 <= k < |rv| ==> 0 <= rv[k] < |pos| && pos[rv[k]] == k;
  }

  /** Each value of the example is the surviving value at the matching position of `w`. */
  lemma Covering(ev: seq<int>, rv: seq<int>)
    requires ev == [1, 3, 2, 7, 5, 0, 8, 3, 2, 9, 3, 6, 5, 4]
    requires rv == [1, 7, 5, 0, 8, 3, 2, 9, 6, 4]
    ensures var w := [0, 5, 6, 1, 2, 3, 4, 5, 6, 7, 5, 8, 2, 9];
            forall i :: 0 <= i < |ev| ==> w[i] < |rv| && rv[w[i]] == ev[i]
  {
  }
}
