/** The average viewing angle: samples are sorted into classes of ten degrees, the classes are ranked
    by size, and the first thirty samples in that order are averaged. */
module AngleAverage {
  import opened Common

  const CLASSES := 15
  const ENOUGH := 30
  const NO_ANGLE := -1000

  function ClassOf(angle: int): (r: int) {
    Quot(angle + if angle > 0 then 5 else -5, 10) * 10
  }

  predicate IsClass(c: int) { -70 <= c <= 70 && c % 10 == 0 }

  predicate InRange(angle: int) { -74 <= angle <= 74 }

  /** The class is the nearest multiple of ten, halves going away from zero; the table has a class for
      exactly the angles up to 74. */
  lemma ClassIsNearest(angle: int)
    ensures var c := ClassOf(angle);
      && c % 10 == 0 && (angle > 0 ==> -5 < c - angle <= 5) && (angle <= 0 ==> -5 <= c - angle < 5)
      && (IsClass(c) <==> InRange(angle)) && (-70 <= c <= 70 <==> -74 <= angle <= 74)
  {
  }

  // ---------------------------------------------------------------- the samples of a class

  ghost function Of(angles: seq<int>, c: int): (r: seq<int>) {
    if angles == [] then []
    else
      var last := angles[|angles| - 1];
      Of(angles[..|angles| - 1], c) + if ClassOf(last) == c then [last] else []
  }

  lemma OfNext(angles: seq<int>, j: nat, c: int)
    requires j < |angles|
    ensures Of(angles[..j + 1], c) == Of(angles[..j], c) + if ClassOf(angles[j]) == c then [angles[j]] else []
  {
    assert angles[..j + 1][..j] == angles[..j];
  }

  lemma {:induction false} OfAppend(a: seq<int>, b: seq<int>, c: int)
    ensures Of(a + b, c) == Of(a, c) + Of(b, c)
  {
    if b == [] {
      assert a + b == a;
    } else {
      OfAppend(a, b[..|b| - 1], c);
      assert (a + b)[..|a + b| - 1] == a + b[..|b| - 1];
    }
  }

  lemma OfPrefix(a: seq<int>, b: seq<int>, c: int)
    requires a <= b
    ensures Of(a, c) <= Of(b, c)
  {
    assert b == a + b[|a|..];
    OfAppend(a, b[|a|..], c);
  }

  lemma {:induction false} OfMember(angles: seq<int>, c: int, x: int)
    ensures x in Of(angles, c) <==> x in angles && ClassOf(x) == c
  {
    if angles != [] { OfMember(angles[..|angles| - 1], c, x); }
  }

  lemma {:induction false} OfOf(angles: seq<int>, c: int, d: int)
    ensures Of(Of(angles, c), d) == if c == d then Of(angles, c) else []
  {
    if angles != [] {
      var last := angles[|angles| - 1];
      OfOf(angles[..|angles| - 1], c, d);
      OfAppend(Of(angles[..|angles| - 1], c), if ClassOf(last) == c then [last] else [], d);
      assert Of([last], d) == if ClassOf(last) == d then [last] else [];
    }
  }

  lemma {:induction false} OfCounts(angles: seq<int>, x: int)
    ensures multiset(Of(angles, ClassOf(x)))[x] == multiset(angles)[x]
  {
    if angles != [] {
      var n := |angles| - 1;
      OfCounts(angles[..n], x);
      assert angles == angles[..n] + [angles[n]];
    }
  }

  lemma {:induction false} OfSize(angles: seq<int>, c: int)
    ensures |Of(angles, c)| == |set i | 0 <= i < |angles| && ClassOf(angles[i]) == c|
  {
    if angles != [] {
      var n, before := |angles| - 1, angles[..|angles| - 1];
      OfSize(before, c);
      var a := set i | 0 <= i < |before| && ClassOf(before[i]) == c;
      var b := set i | 0 <= i < |angles| && ClassOf(angles[i]) == c;
      assert b == a + if ClassOf(angles[n]) == c then {n} else {};
    }
  }

  /** The first samples of a class are those that it has among the first samples. */
  lemma {:induction false} FirstOfClass(angles: seq<int>, c: int, p: seq<int>) returns (m: nat)
    requires p <= Of(angles, c)
    ensures m <= |angles| && Of(angles[..m], c) == p
  {
    assert angles[..|angles|] == angles;
    if p == Of(angles, c) { return |angles|; }
    var before := angles[..|angles| - 1];
    OfNext(angles, |angles| - 1, c);
    m := FirstOfClass(before, c, p);
    assert before[..m] == angles[..m];
  }

  // ---------------------------------------------------------------- the ranking

  /** Class c comes before class d: it has more samples, or as many and is the smaller angle. */
  ghost predicate Before(angles: seq<int>, c: int, d: int) {
    |Of(angles, c)| > |Of(angles, d)| || (|Of(angles, c)| == |Of(angles, d)| && c < d)
  }

  ghost predicate Ordered(angles: seq<int>, r: seq<int>) {
    forall i, j {:trigger Before(angles, r[i], r[j])} :: 0 <= i < j < |r| ==> Before(angles, r[i], r[j])
  }

  /** All the classes, each once, the most frequent one first. */
  ghost predicate Ranking(angles: seq<int>, r: seq<int>) {
    && (forall c :: c in r <==> IsClass(c))
    && Ordered(angles, r)
  }

  lemma BothEmpty(r: seq<int>, s: seq<int>)
    requires forall c :: c in r <==> c in s
    ensures r == [] <==> s == []
  {
    if r != [] {
      var c := r[0];
      assert c in r && c in s;
    }
    if s != [] {
      var d := s[0];
      assert d in s && d in r;
    }
  }

  lemma {:induction false} SameOrder(angles: seq<int>, r: seq<int>, s: seq<int>)
    requires forall c :: c in r <==> c in s
    requires Ordered(angles, r)
    requires Ordered(angles, s)
    ensures r == s
  {
    BothEmpty(r, s);
    if r != [] {
      var c := r[0];
      assert c in r;
      assert c in s;
      var d := s[0];
      assert d in s;
      assert d in r;
      var i, j :| 0 <= i < |s| && s[i] == c && 0 <= j < |r| && r[j] == d;
      assert i > 0 ==> Before(angles, s[0], s[i]);
      assert j > 0 ==> Before(angles, r[0], r[j]);
      TailOrdered(angles, r);
      TailOrdered(angles, s);
      forall x ensures x in r[1..] <==> x in s[1..] {
        assert x in r <==> x in s;
      }
      SameOrder(angles, r[1..], s[1..]);
    }
  }

  lemma TailOrdered(angles: seq<int>, r: seq<int>)
    requires Ordered(angles, r) && r != []
    ensures Ordered(angles, r[1..]) && r[0] !in r[1..]
  {
    forall i, j | 0 <= i < j < |r| - 1 ensures Before(angles, r[1..][i], r[1..][j]) {
      assert Before(angles, r[i + 1], r[j + 1]);
    }
    forall i | 1 <= i < |r| ensures r[i] != r[0] {
      assert Before(angles, r[0], r[i]);
    }
  }

  lemma Distinct(angles: seq<int>, r: seq<int>)
    requires Ordered(angles, r)
    ensures forall i, j :: 0 <= i < j < |r| ==> r[i] != r[j]
  {
    forall i, j | 0 <= i < j < |r| ensures r[i] != r[j] {
      assert Before(angles, r[i], r[j]);
    }
  }

  /** There is no choice in the ranking. */
  lemma RankingUnique(angles: seq<int>, r: seq<int>, s: seq<int>)
    requires Ranking(angles, r) && Ranking(angles, s)
    ensures r == s
  {
    SameOrder(angles, r, s);
  }

  // ---------------------------------------------------------------- the samples in order of rank

  /** The samples of the first n classes, class after class. */
  ghost function Pool(angles: seq<int>, r: seq<int>, n: nat): (p: seq<int>)
    requires n <= |r|
  {
    if n == 0 then [] else Pool(angles, r, n - 1) + Of(angles, r[n - 1])
  }

  /** The first thirty. */
  ghost function First(s: seq<int>): (r: seq<int>) {
    if |s| <= ENOUGH then s else s[..ENOUGH]
  }

  ghost function Used(angles: seq<int>, r: seq<int>): (u: seq<int>)
    ensures u <= Pool(angles, r, |r|)
  {
    First(Pool(angles, r, |r|))
  }

  lemma {:induction false} PoolPrefix(angles: seq<int>, r: seq<int>, m: nat, n: nat)
    requires m <= n <= |r|
    ensures Pool(angles, r, m) <= Pool(angles, r, n)
  {
    if m < n { PoolPrefix(angles, r, m, n - 1); }
  }

  lemma OfPoolNext(angles: seq<int>, r: seq<int>, n: nat, d: int)
    requires 0 < n <= |r|
    ensures Of(Pool(angles, r, n), d) == Of(Pool(angles, r, n - 1), d) + if r[n - 1] == d then Of(angles, d) else []
  {
    OfAppend(Pool(angles, r, n - 1), Of(angles, r[n - 1]), d);
    OfOf(angles, r[n - 1], d);
  }

  lemma {:induction false} PoolLacks(angles: seq<int>, r: seq<int>, n: nat, d: int)
    requires n <= |r| && forall q :: 0 <= q < n ==> r[q] != d
    ensures Of(Pool(angles, r, n), d) == []
  {
    if n > 0 {
      PoolLacks(angles, r, n - 1, d);
      OfPoolNext(angles, r, n, d);
    }
  }

  /** Each class stands in the pool once, with all its samples. */
  lemma {:induction false} PoolHolds(angles: seq<int>, r: seq<int>, p: nat, n: nat)
    requires p < n <= |r| && forall q :: 0 <= q < |r| && q != p ==> r[q] != r[p]
    ensures Of(Pool(angles, r, n), r[p]) == Of(angles, r[p])
  {
    var d := r[p];
    if p == n - 1 {
      PoolLacks(angles, r, p, d);
    } else {
      PoolHolds(angles, r, p, n - 1);
      assert r[n - 1] != d;
    }
    OfPoolNext(angles, r, n, d);
  }

  /** How many samples are in range. */
  ghost function Valid(angles: seq<int>): (r: nat) {
    if angles == [] then 0
    else Valid(angles[..|angles| - 1]) + if InRange(angles[|angles| - 1]) then 1 else 0
  }

  lemma {:induction false} PoolNext(angles: seq<int>, last: int, r: seq<int>, n: nat)
    requires n <= |r| && forall i, j :: 0 <= i < j < |r| ==> r[i] != r[j]
    ensures |Pool(angles + [last], r, n)| == |Pool(angles, r, n)| + if ClassOf(last) in r[..n] then 1 else 0
  {
    if n > 0 {
      PoolNext(angles, last, r, n - 1);
      OfNext(angles + [last], |angles|, r[n - 1]);
      assert (angles + [last])[..|angles|] == angles && (angles + [last])[..|angles| + 1] == angles + [last];
      assert r[..n] == r[..n - 1] + [r[n - 1]];
    }
  }

  lemma {:induction false} PoolOfNone(r: seq<int>, n: nat)
    requires n <= |r|
    ensures Pool([], r, n) == []
  {
    if n > 0 { PoolOfNone(r, n - 1); }
  }

  lemma {:induction false} PoolSize(angles: seq<int>, r: seq<int>)
    requires forall c :: c in r <==> IsClass(c)
    requires forall i, j :: 0 <= i < j < |r| ==> r[i] != r[j]
    ensures |Pool(angles, r, |r|)| == Valid(angles)
  {
    if angles == [] {
      PoolOfNone(r, |r|);
    } else {
      var last := angles[|angles| - 1];
      PoolSize(angles[..|angles| - 1], r);
      PoolNext(angles[..|angles| - 1], last, r, |r|);
      ClassIsNearest(last);
      assert angles == angles[..|angles| - 1] + [last];
      assert r[..|r|] == r;
    }
  }

  lemma {:induction false} ValidSize(angles: seq<int>)
    ensures Valid(angles) == |set i | 0 <= i < |angles| && -74 <= angles[i] <= 74|
  {
    if angles != [] {
      var n, before := |angles| - 1, angles[..|angles| - 1];
      ValidSize(before);
      var a := set i | 0 <= i < |before| && -74 <= before[i] <= 74;
      var b := set i | 0 <= i < |angles| && -74 <= angles[i] <= 74;
      assert b == a + if InRange(angles[n]) then {n} else {};
    }
  }

  /** Exactly thirty samples are averaged, or all that are in range when those are fewer. */
  lemma UsedCount(angles: seq<int>, r: seq<int>)
    requires Ranking(angles, r)
    ensures |Used(angles, r)| == if Valid(angles) <= 30 then Valid(angles) else 30
  {
    Distinct(angles, r);
    PoolSize(angles, r);
  }

  lemma NotMember(s: seq<int>, x: int)
    requires Of(s, ClassOf(x)) == []
    ensures x !in s
  {
    OfMember(s, ClassOf(x), x);
  }

  lemma LessFrequent(angles: seq<int>, r: seq<int>, p: nat, c: int)
    requires Ordered(angles, r) && p < |r| && Before(angles, r[p], c)
    ensures forall q :: 0 <= q < p + 1 ==> r[q] != c
  {
    forall q | 0 <= q < p + 1 ensures r[q] != c {
      if q < p { assert Before(angles, r[q], r[p]); }
    }
  }

  lemma HeadLacks(angles: seq<int>, r: seq<int>, p: nat, x: int)
    requires Ordered(angles, r) && p < |r|
    requires Before(angles, r[p], ClassOf(x))
    ensures x !in Pool(angles, r, p + 1)
  {
    LessFrequent(angles, r, p, ClassOf(x));
    PoolLacks(angles, r, p + 1, ClassOf(x));
    NotMember(Pool(angles, r, p + 1), x);
  }

  lemma Prefixes<T>(u: seq<T>, v: seq<T>, all: seq<T>, x: T)
    requires u <= all && v <= all && x in u && x !in v
    ensures v <= u
  {
  }

  lemma Between<T>(a: seq<T>, b: seq<T>, c: seq<T>)
    requires a <= b <= c && a == c
    ensures a == b
  {
  }

  /** Whatever reaches behind the p-th class has all its samples. */
  lemma AllOfClass(angles: seq<int>, r: seq<int>, p: nat, u: seq<int>)
    requires Ordered(angles, r) && p < |r|
    requires Pool(angles, r, p + 1) <= u <= Pool(angles, r, |r|)
    ensures Of(u, r[p]) == Of(angles, r[p])
  {
    var head, all := Pool(angles, r, p + 1), Pool(angles, r, |r|);
    OfPrefix(head, u, r[p]);
    OfPrefix(u, all, r[p]);
    Distinct(angles, r);
    PoolHolds(angles, r, p, p + 1);
    PoolHolds(angles, r, p, |r|);
    Between(Of(head, r[p]), Of(u, r[p]), Of(all, r[p]));
  }

  lemma PrecedingUsed(angles: seq<int>, r: seq<int>, p: nat, x: int)
    requires Ordered(angles, r) && p < |r| && x in Used(angles, r) && Before(angles, r[p], ClassOf(x))
    ensures Of(Used(angles, r), r[p]) == Of(angles, r[p])
  {
    var u, head, all := Used(angles, r), Pool(angles, r, p + 1), Pool(angles, r, |r|);
    PoolPrefix(angles, r, p + 1, |r|);
    HeadLacks(angles, r, p, x);
    Prefixes(u, head, all, x);
    AllOfClass(angles, r, p, u);
  }

  /** A sample is used only when all samples of every class that has more are, or that has as many and is the
      smaller angle. */
  lemma FrequentFirst(angles: seq<int>, r: seq<int>, x: int, y: int)
    requires Ranking(angles, r) && x in Used(angles, r) && -74 <= y <= 74
    requires var more, fewer := |set i | 0 <= i < |angles| && ClassOf(angles[i]) == ClassOf(y)|,
                                |set i | 0 <= i < |angles| && ClassOf(angles[i]) == ClassOf(x)|;
      more > fewer || (more == fewer && ClassOf(y) < ClassOf(x))
    ensures multiset(Used(angles, r))[y] == multiset(angles)[y]
  {
    ClassIsNearest(y);
    OfSize(angles, ClassOf(x));
    OfSize(angles, ClassOf(y));
    assert ClassOf(y) in r;
    var p :| 0 <= p < |r| && r[p] == ClassOf(y);
    PrecedingUsed(angles, r, p, x);
    OfCounts(angles, y);
    OfCounts(Used(angles, r), y);
  }

  /** Of every class the earliest samples are used: those that stand before some place. */
  lemma EarliestUsed(angles: seq<int>, r: seq<int>, d: int) returns (m: nat)
    requires Ranking(angles, r) && -70 <= d <= 70 && d % 10 == 0
    ensures m <= |angles|
    ensures forall x :: ClassOf(x) == d ==> multiset(Used(angles, r))[x] == multiset(angles[..m])[x]
  {
    assert d in r;
    var p :| 0 <= p < |r| && r[p] == d;
    var u, all := Used(angles, r), Pool(angles, r, |r|);
    Distinct(angles, r);
    PoolHolds(angles, r, p, |r|);
    OfPrefix(u, all, d);
    m := FirstOfClass(angles, d, Of(u, d));
    forall x | ClassOf(x) == d ensures multiset(u)[x] == multiset(angles[..m])[x] {
      OfCounts(u, x);
      OfCounts(angles[..m], x);
    }
  }

  // ---------------------------------------------------------------- the average

  function Sum(s: seq<int>): (r: int) {
    if s == [] then 0 else Sum(s[..|s| - 1]) + s[|s| - 1]
  }

  ghost function Mean(used: seq<int>): (r: int) {
    if used == [] then NO_ANGLE else Quot(Sum(used), |used|)
  }

  /** The mean is rounded towards zero, and is -1000 where there is nothing to average. */
  lemma MeanTruncates(used: seq<int>)
    ensures if used == [] then Mean(used) == -1000
            else var rest := Sum(used) - Mean(used) * |used|;
              -|used| < rest < |used| && (Sum(used) >= 0 ==> rest >= 0) && (Sum(used) <= 0 ==> rest <= 0)
  {
    if used != [] {
      var x, n := Sum(used), |used|;
      if x < 0 {
        Quotient(-x, n);
        assert Mean(used) * n == -((-x / n) * n);
      } else {
        Quotient(x, n);
      }
    }
  }

  lemma {:induction false} SumBounds(s: seq<int>, lo: int, hi: int)
    requires forall i :: 0 <= i < |s| ==> lo <= s[i] <= hi
    ensures lo * |s| <= Sum(s) <= hi * |s|
  {
    if s != [] {
      SumBounds(s[..|s| - 1], lo, hi);
      assert lo * |s| == lo * (|s| - 1) + lo && hi * |s| == hi * (|s| - 1) + hi;
    }
  }

  lemma DivBounds(x: nat, n: nat, lo: int, hi: int)
    requires n > 0 && lo * n <= x <= hi * n
    ensures lo <= x / n <= hi
  {
    Quotient(x, n);
    if lo > x / n { Product(x / n + 1, lo, n); }
    if hi < x / n { Product(hi + 1, x / n, n); }
  }

  lemma QuotBounds(x: int, n: nat, lo: int, hi: int)
    requires n > 0 && lo * n <= x <= hi * n
    ensures lo <= Quot(x, n) <= hi
  {
    if x < 0 { DivBounds(-x, n, -hi, -lo); } else { DivBounds(x, n, lo, hi); }
  }

  lemma {:induction false} PoolMember(angles: seq<int>, r: seq<int>, n: nat, x: int)
    requires n <= |r| && x in Pool(angles, r, n)
    ensures x in angles && ClassOf(x) in r
  {
    var c := r[n - 1];
    assert c in r;
    OfMember(angles, c, x);
    if x !in Of(angles, c) {
      PoolMember(angles, r, n - 1, x);
    }
  }

  lemma UsedInRange(angles: seq<int>, r: seq<int>, x: int)
    requires Ranking(angles, r) && x in Used(angles, r)
    ensures x in angles && InRange(x)
  {
    PoolMember(angles, r, |r|, x);
    ClassIsNearest(x);
  }

  /** The mean lies between any bounds of the samples in range, and is the special value exactly when
      no sample is in range. */
  lemma MeanInBounds(angles: seq<int>, r: seq<int>, lo: int, hi: int)
    requires Ranking(angles, r)
    requires forall x :: x in angles && InRange(x) ==> lo <= x <= hi
    ensures Valid(angles) > 0 ==> lo <= Mean(Used(angles, r)) <= hi
    ensures Mean(Used(angles, r)) == NO_ANGLE <==> Valid(angles) == 0
  {
    UsedCount(angles, r);
    var u := Used(angles, r);
    forall i | 0 <= i < |u| ensures lo <= u[i] <= hi && InRange(u[i]) {
      UsedInRange(angles, r, u[i]);
    }
    if u != [] {
      SumBounds(u, lo, hi);
      QuotBounds(Sum(u), |u|, lo, hi);
      SumBounds(u, -74, 74);
      QuotBounds(Sum(u), |u|, -74, 74);
    }
  }

  // ---------------------------------------------------------------- the method

  datatype AngleClass = AngleClass(angle: int, points: nat)

  ghost function Angles(table: seq<AngleClass>): (r: seq<int>)
    ensures |r| == |table| && forall i :: 0 <= i < |r| ==> r[i] == table[i].angle
  {
    seq(|table|, i requires 0 <= i < |table| => table[i].angle)
  }

  /** Every class stands once, in the order of the angles, with its number among the first n samples. */
  ghost predicate Counted(table: seq<AngleClass>, angles: seq<int>, n: nat)
    requires n <= |angles|
  {
    |table| == CLASSES
    && forall i :: 0 <= i < CLASSES ==>
         table[i].angle == 10 * i - 70 && table[i].points == |Of(angles[..n], 10 * i - 70)|
  }

  method CountClasses(angles: seq<int>, table: array<AngleClass>)
    requires Counted(table[..], angles, 0)
    modifies table
    ensures Counted(table[..], angles, |angles|)
  {
    for i := 0 to |angles|
      invariant Counted(table[..], angles, i)
    {
      var c := ClassOf(angles[i]);
      forall j | 0 <= j < CLASSES
        ensures |Of(angles[..i + 1], 10 * j - 70)| == |Of(angles[..i], 10 * j - 70)| + if 10 * j - 70 == c then 1 else 0
      {
        OfNext(angles, i, 10 * j - 70);
      }
      for j := 0 to CLASSES
        invariant Counted(table[..], angles, i)
        invariant forall k :: 0 <= k < j ==> table[k].angle != c
      {
        if table[j].angle == c {
          table[j] := table[j].(points := table[j].points + 1);
          break;
        }
      }
    }
  }

  // ---------------------------------------------------------------- bubble sort

  /** Classes with as many samples still stand in the order of their angles. */
  ghost predicate Stable(t: seq<AngleClass>) {
    forall p, q :: 0 <= p < q < |t| && t[p].points == t[q].points ==> t[p].angle < t[q].angle
  }

  /** The entries from the k-th on are in place. */
  ghost predicate InPlace(t: seq<AngleClass>, k: int) {
    forall p, q :: 0 <= p < q < |t| && k <= q ==> t[p].points >= t[q].points
  }

  /** The j-th entry is the smallest of the first ones. */
  ghost predicate SmallestUpTo(t: seq<AngleClass>, j: int) {
    forall p :: 0 <= p < j < |t| ==> t[p].points >= t[j].points
  }

  ghost predicate SameEntries(t: seq<AngleClass>, s: seq<AngleClass>) {
    |t| == |s| && multiset(t) == multiset(s)
  }

  method Exchange(table: array<AngleClass>, j: nat)
    requires j + 1 < table.Length && table[j].points < table[j + 1].points
    modifies table
    ensures SameEntries(table[..], old(table[..]))
    ensures Stable(old(table[..])) ==> Stable(table[..])
    ensures forall k :: 0 <= k < table.Length && k != j && k != j + 1 ==> table[k] == old(table[k])
    ensures table[j] == old(table[j + 1]) && table[j + 1] == old(table[j])
  {
    var tmp := table[j];
    table[j] := table[j + 1];
    table[j + 1] := tmp;
  }

  lemma PassDone(t: seq<AngleClass>, k: nat)
    requires 0 < k <= |t| && InPlace(t, k) && SmallestUpTo(t, k - 1)
    ensures InPlace(t, k - 1)
  {
  }

  /** One comparison of a pass over the first k entries. */
  method CompareExchange(table: array<AngleClass>, j: nat, ghost k: nat)
    requires j + 1 < k <= table.Length && Stable(table[..]) && InPlace(table[..], k) && SmallestUpTo(table[..], j)
    modifies table
    ensures Stable(table[..]) && InPlace(table[..], k) && SmallestUpTo(table[..], j + 1)
    ensures SameEntries(table[..], old(table[..]))
  {
    if table[j].points < table[j + 1].points {
      Exchange(table, j);
    }
  }

  /** Descending by the number of samples, and the order of the angles stays where that leaves a choice. */
  method SortClasses(table: array<AngleClass>)
    requires table.Length == CLASSES && Stable(table[..])
    modifies table
    ensures SameEntries(table[..], old(table[..])) && Stable(table[..]) && InPlace(table[..], 0)
  {
    for i := 0 to CLASSES - 1
      invariant SameEntries(table[..], old(table[..])) && Stable(table[..]) && InPlace(table[..], CLASSES - i)
    {
      for j := 0 to CLASSES - 1 - i
        invariant SameEntries(table[..], old(table[..])) && Stable(table[..]) && InPlace(table[..], CLASSES - i)
        invariant SmallestUpTo(table[..], j)
      {
        CompareExchange(table, j, CLASSES - i);
      }
      PassDone(table[..], CLASSES - i);
    }
  }

  // ---------------------------------------------------------------- the whole computation

  lemma SortedIsRanking(angles: seq<int>, before: seq<AngleClass>, t: seq<AngleClass>)
    requires Counted(before, angles, |angles|) && SameEntries(t, before) && Stable(t) && InPlace(t, 0)
    ensures Ranking(angles, Angles(t))
  {
    var r := Angles(t);
    assert angles[..|angles|] == angles;
    forall i | 0 <= i < |t| ensures IsClass(t[i].angle) && t[i].points == |Of(angles, t[i].angle)| {
      assert t[i] in multiset(t);
      assert t[i] in before;
    }
    forall c | IsClass(c) ensures c in r {
      var e := before[(c + 70) / 10];
      assert e in multiset(before);
      assert e in t;
      var i :| 0 <= i < |t| && t[i] == e;
      assert r[i] == c;
    }
    forall i, j | 0 <= i < j < |r| ensures Before(angles, r[i], r[j]) {
      assert t[i].points >= t[j].points;
    }
  }

  lemma OneMore(a: seq<int>, b: seq<int>, x: int)
    ensures Sum(a + (b + [x])) == Sum(a + b) + x
  {
    assert (a + (b + [x]))[..|a + b|] == a + b;
  }

  lemma FirstDone(a: seq<int>, b: seq<int>)
    requires a <= b && |a| >= ENOUGH
    ensures First(a) == First(b)
  {
  }

  /** Adds the samples of class c until there are enough. */
  method TakeClass(angles: seq<int>, c: int, sum: int, num: nat, ghost chosen: seq<int>) returns (sum': int, num': nat)
    requires num == |chosen| < ENOUGH && sum == Sum(chosen)
    ensures var all := First(chosen + Of(angles, c)); num' == |all| && sum' == Sum(all)
  {
    sum', num' := sum, num;
    ghost var part: seq<int> := [];
    assert angles[..0] == [] && angles[..|angles|] == angles && chosen + [] == chosen;
    for j := 0 to |angles|
      invariant part == Of(angles[..j], c) && sum' == Sum(chosen + part) && num' == |chosen + part| < ENOUGH
    {
      OfNext(angles, j, c);
      if ClassOf(angles[j]) == c {
        OneMore(chosen, part, angles[j]);
        part := part + [angles[j]];
        sum', num' := sum' + angles[j], num' + 1;
        if num' >= ENOUGH {
          OfPrefix(angles[..j + 1], angles, c);
          FirstDone(chosen + part, chosen + Of(angles, c));
          return;
        }
      }
    }
  }

  method RankClasses(angles: seq<int>) returns (table: array<AngleClass>)
    ensures fresh(table) && table.Length == CLASSES && Ranking(angles, Angles(table[..]))
  {
    table := new AngleClass[CLASSES]((i: int) => AngleClass(10 * i - 70, 0));
    CountClasses(angles, table);
    ghost var counted := table[..];
    SortClasses(table);
    SortedIsRanking(angles, counted, table[..]);
  }

  method AddRanked(angles: seq<int>, table: array<AngleClass>) returns (sum: int, num: nat)
    requires table.Length == CLASSES
    ensures var used := Used(angles, Angles(table[..])); sum == Sum(used) && num == |used|
  {
    ghost var r := Angles(table[..]);
    sum, num := 0, 0;
    for i := 0 to CLASSES
      invariant sum == Sum(Pool(angles, r, i)) && num == |Pool(angles, r, i)| < ENOUGH
    {
      sum, num := TakeClass(angles, table[i].angle, sum, num, Pool(angles, r, i));
      if num >= ENOUGH {
        PoolPrefix(angles, r, i + 1, CLASSES);
        FirstDone(Pool(angles, r, i + 1), Pool(angles, r, CLASSES));
        return;
      }
    }
  }

  /** There is only one ranking, and by it the mean is that of the samples used. */
  method CalcAnglesAverage(angles: seq<int>) returns (average: int)
    ensures exists ranking :: Ranking(angles, ranking)
    ensures forall ranking :: Ranking(angles, ranking) ==> average == Mean(Used(angles, ranking))
  {
    var table := RankClasses(angles);
    ghost var ranking := Angles(table[..]);
    forall r | Ranking(angles, r) ensures r == ranking { RankingUnique(angles, r, ranking); }
    var sum, num := AddRanked(angles, table);
    if num == 0 { return NO_ANGLE; }
    return Quot(sum, num);
  }
}
