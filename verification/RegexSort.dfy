/** Sorting proxies by the first expression their name matches. */
module RegexSort {
  import opened Proxies

  /** A compiled expression is known by the names it matches. */
  type Expr = string -> bool

  /** The position, from 1, of the first expression that matches; 0 when none does. */
  function RegexOrder(exprs: seq<Expr>, s: string): (n: nat)
    ensures n <= |exprs|
    ensures n > 0 ==> exprs[n - 1](s) && forall i :: 0 <= i < n - 1 ==> !exprs[i](s)
    ensures n == 0 ==> forall i :: 0 <= i < |exprs| ==> !exprs[i](s)
  {
    if exprs == [] then 0
    else if exprs[0](s) then 1
    else
      var n := RegexOrder(exprs[1..], s);
      assert n > 0 ==> forall i :: 1 <= i < n ==> exprs[i] == exprs[1..][i - 1];
      assert n == 0 ==> forall i :: 1 <= i < |exprs| ==> exprs[i] == exprs[1..][i - 1];
      if n == 0 then 0 else n + 1
  }

  lemma RegexOrderUnique(exprs: seq<Expr>, s: string, n: nat)
    requires n <= |exprs|
    requires n > 0 ==> exprs[n - 1](s) && forall i :: 0 <= i < n - 1 ==> !exprs[i](s)
    requires n == 0 ==> forall i :: 0 <= i < |exprs| ==> !exprs[i](s)
    ensures RegexOrder(exprs, s) == n
  {
  }

  method FirstMatch(exprs: seq<Expr>, s: string) returns (n: nat)
    ensures n == RegexOrder(exprs, s)
  {
    for i := 0 to |exprs|
      invariant forall j :: 0 <= j < i ==> !exprs[j](s)
    {
      if exprs[i](s) {
        RegexOrderUnique(exprs, s, i + 1);
        return i + 1;
      }
    }
    RegexOrderUnique(exprs, s, 0);
    return 0;
  }

  // ---- the comparator ----

  datatype Order = Original | Asc | Desc

  predicate NameLess(order: Order, a: Proxy, b: Proxy) {
    match order
    case Original => false
    case Desc => Below(Name(b), Name(a))
    case Asc => Below(Name(a), Name(b))
  }

  predicate RegexLess(exprs: seq<Expr>, order: Order, a: Proxy, b: Proxy) {
    var i, j := RegexOrder(exprs, Name(a)), RegexOrder(exprs, Name(b));
    if i > 0 && j == 0 then true
    else if j > 0 && i == 0 then false
    else if i > 0 && j > 0 then i < j
    else NameLess(order, a, b)
  }

  /** A comparator of proxies. */
  type Less = (Proxy, Proxy) -> bool

  function ByRegex(exprs: seq<Expr>, order: Order): Less {
    (a, b) => RegexLess(exprs, order, a, b)
  }

  function ByName(order: Order): Less {
    (a, b) => NameLess(order, a, b)
  }

  /** Irreflexive and transitive, with a transitive "neither is less". */
  ghost predicate StrictWeakOrder(less: Less) {
    && (forall a :: !less(a, a))
    && (forall a, b, c :: less(a, b) && less(b, c) ==> less(a, c))
    && (forall a, b, c :: !less(a, b) && !less(b, c) ==> !less(a, c))
  }

  lemma NameLessIsOrder(order: Order, a: Proxy, b: Proxy, c: Proxy)
    ensures !NameLess(order, a, a)
    ensures NameLess(order, a, b) && NameLess(order, b, c) ==> NameLess(order, a, c)
    ensures !NameLess(order, a, b) && !NameLess(order, b, c) ==> !NameLess(order, a, c)
  {
    var x, y, z := Name(a), Name(b), Name(c);
    BelowTrichotomy(x, x);
    BelowTrichotomy(x, y);
    BelowTrichotomy(y, z);
    BelowTrichotomy(x, z);
    if Below(x, y) && Below(y, z) { BelowTransitive(x, y, z); }
    if Below(z, y) && Below(y, x) { BelowTransitive(z, y, x); }
  }

  /** The comparator of the sort is a strict weak order. */
  lemma RegexLessIsOrder(exprs: seq<Expr>, order: Order)
    ensures StrictWeakOrder(ByRegex(exprs, order)) && StrictWeakOrder(ByName(order))
  {
    forall a, b, c: Proxy {
      NameLessIsOrder(order, a, b, c);
    }
  }

  // ---- stable sorting ----

  /** A proxy and where it stood. */
  type Tagged = (Proxy, nat)

  function Tag(ps: seq<Proxy>, k: nat): (ts: seq<Tagged>)
    ensures |ts| == |ps| && forall i :: 0 <= i < |ps| ==> ts[i] == (ps[i], k + i)
    decreases |ps|
  {
    if ps == [] then [] else [(ps[0], k)] + Tag(ps[1..], k + 1)
  }

  function Untag(ts: seq<Tagged>): (ps: seq<Proxy>)
    ensures |ps| == |ts| && forall i :: 0 <= i < |ts| ==> ps[i] == ts[i].0
  {
    if ts == [] then [] else [ts[0].0] + Untag(ts[1..])
  }

  /** `a` may stand in front of `b` in a stable result. */
  predicate Precedes(less: Less, a: Tagged, b: Tagged) {
    less(a.0, b.0) || (!less(b.0, a.0) && a.1 < b.1)
  }

  ghost predicate Arranged(less: Less, ts: seq<Tagged>) {
    forall i, j :: 0 <= i < j < |ts| ==> Precedes(less, ts[i], ts[j])
  }

  /** `out` is a result a stable sort may give: a rearrangement, in order, with equal
      elements as they stood. */
  ghost predicate StableResult(less: Less, ps: seq<Proxy>, out: seq<Proxy>) {
    exists ts: seq<Tagged> :: multiset(ts) == multiset(Tag(ps, 0)) && Arranged(less, ts) && Untag(ts) == out
  }

  /** The first element of an arrangement is the same in all of them. */
  lemma FirstIsSame(less: Less, ts: seq<Tagged>, us: seq<Tagged>)
    requires StrictWeakOrder(less) && ts != [] && us != []
    requires multiset(ts) == multiset(us) && Arranged(less, ts) && Arranged(less, us)
    ensures ts[0] == us[0]
  {
    assert ts[0] in multiset(us) && us[0] in multiset(ts);
    var i :| 0 <= i < |us| && us[i] == ts[0];
    var j :| 0 <= j < |ts| && ts[j] == us[0];
    assert i > 0 ==> Precedes(less, us[0], ts[0]);
    assert j > 0 ==> Precedes(less, ts[0], us[0]);
  }

  lemma RestIsSame(ts: seq<Tagged>, us: seq<Tagged>)
    requires ts != [] && us != [] && ts[0] == us[0] && multiset(ts) == multiset(us)
    ensures multiset(ts[1..]) == multiset(us[1..])
  {
    assert ts == [ts[0]] + ts[1..] && us == [us[0]] + us[1..];
    assert multiset(ts[1..]) == multiset(ts) - multiset{ts[0]};
    assert multiset(us[1..]) == multiset(us) - multiset{us[0]};
  }

  /** Arrangements of the same elements are equal. */
  lemma {:induction false} ArrangedUnique(less: Less, ts: seq<Tagged>, us: seq<Tagged>)
    requires StrictWeakOrder(less)
    requires multiset(ts) == multiset(us) && Arranged(less, ts) && Arranged(less, us)
    ensures ts == us
    decreases |ts|
  {
    assert |multiset(ts)| == |ts| && |multiset(us)| == |us|;
    if ts != [] {
      hide StrictWeakOrder, Precedes;
      FirstIsSame(less, ts, us);
      RestIsSame(ts, us);
      ArrangedUnique(less, ts[1..], us[1..]);
      assert ts == [ts[0]] + ts[1..] && us == [us[0]] + us[1..];
    }
  }

  // ---- a stable sort ----

  /** Puts `x` in front of the first element that is not below it. */
  function Insert(less: Less, x: Proxy, s: seq<Proxy>): seq<Proxy> {
    if s == [] || !less(s[0], x) then [x] + s else [s[0]] + Insert(less, x, s[1..])
  }

  function StableSort(less: Less, ps: seq<Proxy>): seq<Proxy> {
    if ps == [] then [] else Insert(less, ps[0], StableSort(less, ps[1..]))
  }

  function InsertTagged(less: Less, x: Tagged, s: seq<Tagged>): (t: seq<Tagged>)
    ensures multiset(t) == multiset(s) + multiset{x}
  {
    if s == [] || !less(s[0].0, x.0) then [x] + s
    else
      assert s == [s[0]] + s[1..];
      [s[0]] + InsertTagged(less, x, s[1..])
  }

  function SortTagged(less: Less, ts: seq<Tagged>): (s: seq<Tagged>)
    ensures multiset(s) == multiset(ts)
  {
    if ts == [] then []
    else
      assert ts == [ts[0]] + ts[1..];
      InsertTagged(less, ts[0], SortTagged(less, ts[1..]))
  }

  lemma {:induction false} InsertUntag(less: Less, x: Tagged, s: seq<Tagged>)
    ensures Untag(InsertTagged(less, x, s)) == Insert(less, x.0, Untag(s))
    decreases |s|
  {
    if s == [] || !less(s[0].0, x.0) {
      assert ([x] + s)[1..] == s;
    } else {
      InsertUntag(less, x, s[1..]);
      var t := InsertTagged(less, x, s[1..]);
      assert ([s[0]] + t)[1..] == t;
    }
  }

  lemma {:induction false} SortUntag(less: Less, ts: seq<Tagged>)
    ensures Untag(SortTagged(less, ts)) == StableSort(less, Untag(ts))
    decreases |ts|
  {
    if ts != [] {
      SortUntag(less, ts[1..]);
      InsertUntag(less, ts[0], SortTagged(less, ts[1..]));
    }
  }

  lemma InInsertTagged(less: Less, x: Tagged, s: seq<Tagged>, y: Tagged)
    ensures y in InsertTagged(less, x, s) <==> y in s || y == x
  {
    assert y in InsertTagged(less, x, s) <==> y in multiset(InsertTagged(less, x, s));
  }

  lemma ConsArranged(less: Less, x: Tagged, s: seq<Tagged>)
    requires Arranged(less, s) && forall y :: y in s ==> Precedes(less, x, y)
    ensures Arranged(less, [x] + s)
  {
    var t := [x] + s;
    forall i, j | 0 <= i < j < |t|
      ensures Precedes(less, t[i], t[j])
    {
      assert t[j] == s[j - 1] && t[j] in s;
      assert i > 0 ==> t[i] == s[i - 1];
    }
  }

  lemma {:induction false} InsertArranged(less: Less, x: Tagged, s: seq<Tagged>)
    requires StrictWeakOrder(less) && Arranged(less, s) && forall y :: y in s ==> x.1 < y.1
    ensures Arranged(less, InsertTagged(less, x, s))
    decreases |s|
  {
    if s == [] {
    } else if !less(s[0].0, x.0) {
      forall y | y in s
        ensures Precedes(less, x, y)
      {
        var i :| 0 <= i < |s| && s[i] == y;
        assert i > 0 ==> Precedes(less, s[0], s[i]);
      }
      ConsArranged(less, x, s);
    } else {
      assert s[0] in s && forall y :: y in s[1..] ==> y in s;
      InsertArranged(less, x, s[1..]);
      var t := InsertTagged(less, x, s[1..]);
      forall y | y in t
        ensures Precedes(less, s[0], y)
      {
        InInsertTagged(less, x, s[1..], y);
        if y in s[1..] {
          var i :| 0 <= i < |s[1..]| && s[1..][i] == y;
          assert Precedes(less, s[0], s[i + 1]);
        }
      }
      ConsArranged(less, s[0], t);
    }
  }

  /** Elements stand in the order of their tags. */
  ghost predicate InPlace(ts: seq<Tagged>) {
    forall i, j :: 0 <= i < j < |ts| ==> ts[i].1 < ts[j].1
  }

  lemma {:induction false} SortArranged(less: Less, ts: seq<Tagged>)
    requires StrictWeakOrder(less) && InPlace(ts)
    ensures Arranged(less, SortTagged(less, ts))
    decreases |ts|
  {
    if ts != [] {
      SortArranged(less, ts[1..]);
      var s := SortTagged(less, ts[1..]);
      forall y | y in s
        ensures ts[0].1 < y.1
      {
        assert y in multiset(s);
        assert y in ts[1..];
        var i :| 0 <= i < |ts[1..]| && ts[1..][i] == y;
        assert ts[i + 1] == y;
      }
      InsertArranged(less, ts[0], s);
    }
  }

  /** Under a strict weak order a stable sort has exactly one possible result. */
  lemma StableExactly(less: Less, ps: seq<Proxy>, out: seq<Proxy>)
    requires StrictWeakOrder(less)
    ensures StableResult(less, ps, out) <==> out == StableSort(less, ps)
  {
    hide StrictWeakOrder, Arranged;
    var ts := Tag(ps, 0);
    var s := SortTagged(less, ts);
    SortArranged(less, ts);
    SortUntag(less, ts);
    assert Untag(ts) == ps;
    if StableResult(less, ps, out) {
      var us :| multiset(us) == multiset(ts) && Arranged(less, us) && Untag(us) == out;
      ArrangedUnique(less, us, s);
    }
  }

  // ---- buckets ----

  /** The proxies of one bucket, in the order they stand. */
  function Bucket(exprs: seq<Expr>, ps: seq<Proxy>, k: nat): seq<Proxy> {
    if ps == [] then []
    else (if RegexOrder(exprs, Name(ps[0])) == k then [ps[0]] else []) + Bucket(exprs, ps[1..], k)
  }

  /** Buckets k, k + 1, ..., then the unmatched: as they stand or sorted by name. */
  function Buckets(exprs: seq<Expr>, order: Order, ps: seq<Proxy>, k: nat): seq<Proxy>
    decreases |exprs| + 1 - k
  {
    if 0 < k <= |exprs| then Bucket(exprs, ps, k) + Buckets(exprs, order, ps, k + 1)
    else StableSort(ByName(order), Bucket(exprs, ps, 0))
  }

  /** Sorting by name under 'original' changes nothing. */
  lemma {:induction false} OriginalKeeps(ps: seq<Proxy>)
    ensures StableSort(ByName(Original), ps) == ps
  {
    if ps != [] {
      OriginalKeeps(ps[1..]);
      assert ps == [ps[0]] + ps[1..];
    }
  }

  /** Inserting a proxy of bucket `b` into a listed run of buckets. */
  lemma {:induction false} InsertAmong(less: Less, x: Proxy, front: seq<Proxy>, back: seq<Proxy>)
    requires forall i :: 0 <= i < |front| ==> less(front[i], x)
    ensures Insert(less, x, front + back) == front + Insert(less, x, back)
    decreases |front|
  {
    if front == [] {
      assert front + back == back && [] + Insert(less, x, back) == Insert(less, x, back);
    } else {
      assert (front + back)[1..] == front[1..] + back;
      InsertAmong(less, x, front[1..], back);
      assert [front[0]] + (front[1..] + Insert(less, x, back)) == front + Insert(less, x, back);
    }
  }

  /** A proxy goes in front of what is not below it. */
  lemma InsertFront(less: Less, x: Proxy, s: seq<Proxy>)
    requires s == [] || !less(s[0], x)
    ensures Insert(less, x, s) == [x] + s
  {
  }

  ghost predicate InBucket(exprs: seq<Expr>, s: seq<Proxy>, k: nat) {
    forall i :: 0 <= i < |s| ==> RegexOrder(exprs, Name(s[i])) == k
  }

  lemma {:induction false} BucketOrders(exprs: seq<Expr>, ps: seq<Proxy>, k: nat)
    ensures InBucket(exprs, Bucket(exprs, ps, k), k)
    decreases |ps|
  {
    if ps != [] {
      BucketOrders(exprs, ps[1..], k);
    }
  }

  lemma {:induction false} InsertMember(less: Less, x: Proxy, s: seq<Proxy>, y: Proxy)
    ensures y in Insert(less, x, s) ==> y == x || y in s
    decreases |s|
  {
    if s != [] && less(s[0], x) {
      assert s == [s[0]] + s[1..];
      InsertMember(less, x, s[1..], y);
    }
  }

  lemma {:induction false} SortMember(less: Less, ps: seq<Proxy>, y: Proxy)
    ensures y in StableSort(less, ps) ==> y in ps
    decreases |ps|
  {
    if ps != [] {
      assert ps == [ps[0]] + ps[1..];
      SortMember(less, ps[1..], y);
      InsertMember(less, ps[0], StableSort(less, ps[1..]), y);
    }
  }

  lemma UnmatchedOrders(exprs: seq<Expr>, order: Order, ps: seq<Proxy>)
    ensures InBucket(exprs, StableSort(ByName(order), Bucket(exprs, ps, 0)), 0)
  {
    hide StableSort, RegexOrder;
    var b := Bucket(exprs, ps, 0);
    var s := StableSort(ByName(order), b);
    BucketOrders(exprs, ps, 0);
    forall i | 0 <= i < |s|
      ensures RegexOrder(exprs, Name(s[i])) == 0
    {
      SortMember(ByName(order), b, s[i]);
      assert s[i] in b;
    }
  }

  /** Among unmatched proxies the comparator is the one by name. */
  lemma {:induction false} InsertUnmatched(exprs: seq<Expr>, order: Order, x: Proxy, s: seq<Proxy>)
    requires RegexOrder(exprs, Name(x)) == 0 && InBucket(exprs, s, 0)
    ensures Insert(ByRegex(exprs, order), x, s) == Insert(ByName(order), x, s)
    decreases |s|
  {
    hide RegexOrder;
    if s != [] {
      InsertUnmatched(exprs, order, x, s[1..]);
    }
  }

  /** A bucket the proxy does not belong to, before its own. */
  lemma BucketIsBelow(exprs: seq<Expr>, order: Order, ps: seq<Proxy>, k: nat, x: Proxy)
    requires 0 < k <= |exprs|
    requires var b := RegexOrder(exprs, Name(x)); b == 0 || k < b
    ensures var f := Bucket(exprs, ps, k); forall i :: 0 <= i < |f| ==> ByRegex(exprs, order)(f[i], x)
  {
    hide RegexOrder;
    BucketOrders(exprs, ps, k);
  }

  /** From its own bucket on nothing is below the proxy. */
  lemma {:induction false} RestNotBelow(exprs: seq<Expr>, order: Order, ps: seq<Proxy>, k: nat, x: Proxy)
    requires var b := RegexOrder(exprs, Name(x)); 0 < b <= k
    ensures var s := Buckets(exprs, order, ps, k); s != [] ==> !ByRegex(exprs, order)(s[0], x)
    decreases |exprs| + 1 - k
  {
    hide RegexOrder, StableSort;
    if k <= |exprs| {
      BucketOrders(exprs, ps, k);
      RestNotBelow(exprs, order, ps, k + 1, x);
    } else {
      UnmatchedOrders(exprs, order, ps);
    }
  }

  lemma BucketsStep(exprs: seq<Expr>, order: Order, ps: seq<Proxy>, k: nat)
    requires 0 < k <= |exprs|
    ensures Buckets(exprs, order, ps, k) == Bucket(exprs, ps, k) + Buckets(exprs, order, ps, k + 1)
  {
  }

  lemma InsertOwn(exprs: seq<Expr>, order: Order, x: Proxy, ps: seq<Proxy>, k: nat)
    requires 0 < k <= |exprs| && RegexOrder(exprs, Name(x)) == k
    ensures Buckets(exprs, order, [x] + ps, k) == Insert(ByRegex(exprs, order), x, Buckets(exprs, order, ps, k))
  {
    hide RegexOrder, StableSort, Insert, Bucket, Buckets, ByRegex;
    BucketsStep(exprs, order, ps, k);
    BucketsStep(exprs, order, [x] + ps, k);
    BucketCons(exprs, x, ps, k);
    RestNotBelow(exprs, order, ps, k, x);
    InsertFront(ByRegex(exprs, order), x, Buckets(exprs, order, ps, k));
    OthersSkip(exprs, order, x, ps, k + 1);
    assert [x] + Bucket(exprs, ps, k) + Buckets(exprs, order, ps, k + 1) == [x] + (Bucket(exprs, ps, k) + Buckets(exprs, order, ps, k + 1));
  }

  /** One more proxy in front of the list lands at the front of its bucket. */
  lemma {:induction false} InsertInBuckets(exprs: seq<Expr>, order: Order, x: Proxy, ps: seq<Proxy>, k: nat)
    requires 0 < k <= |exprs| + 1
    requires var b := RegexOrder(exprs, Name(x)); b == 0 || k <= b
    ensures Buckets(exprs, order, [x] + ps, k) == Insert(ByRegex(exprs, order), x, Buckets(exprs, order, ps, k))
    decreases |exprs| + 1 - k
  {
    hide StableSort, Insert, Bucket, Buckets, ByRegex;
    var less, b := ByRegex(exprs, order), RegexOrder(exprs, Name(x));
    if k == |exprs| + 1 {
      UnmatchedStep(exprs, order, x, ps);
      LastBucket(exprs, order, ps, k);
      LastBucket(exprs, order, [x] + ps, k);
    } else if b == k {
      InsertOwn(exprs, order, x, ps, k);
    } else {
      BucketsStep(exprs, order, ps, k);
      BucketsStep(exprs, order, [x] + ps, k);
      BucketCons(exprs, x, ps, k);
      InsertInBuckets(exprs, order, x, ps, k + 1);
      BucketIsBelow(exprs, order, ps, k, x);
      InsertAmong(less, x, Bucket(exprs, ps, k), Buckets(exprs, order, ps, k + 1));
    }
  }

  lemma LastBucket(exprs: seq<Expr>, order: Order, ps: seq<Proxy>, k: nat)
    requires k > |exprs|
    ensures Buckets(exprs, order, ps, k) == StableSort(ByName(order), Bucket(exprs, ps, 0))
  {
  }

  lemma UnmatchedStep(exprs: seq<Expr>, order: Order, x: Proxy, ps: seq<Proxy>)
    requires RegexOrder(exprs, Name(x)) == 0
    ensures StableSort(ByName(order), Bucket(exprs, [x] + ps, 0))
            == Insert(ByRegex(exprs, order), x, StableSort(ByName(order), Bucket(exprs, ps, 0)))
  {
    hide RegexOrder;
    BucketCons(exprs, x, ps, 0);
    UnmatchedOrders(exprs, order, ps);
    InsertUnmatched(exprs, order, x, StableSort(ByName(order), Bucket(exprs, ps, 0)));
    assert ([x] + Bucket(exprs, ps, 0))[1..] == Bucket(exprs, ps, 0);
  }

  lemma BucketCons(exprs: seq<Expr>, x: Proxy, ps: seq<Proxy>, k: nat)
    ensures Bucket(exprs, [x] + ps, k) == if RegexOrder(exprs, Name(x)) == k then [x] + Bucket(exprs, ps, k) else Bucket(exprs, ps, k)
  {
    hide RegexOrder;
    assert ([x] + ps)[1..] == ps;
    assert [] + Bucket(exprs, ps, k) == Bucket(exprs, ps, k);
  }

  /** The buckets behind a proxy's own are not touched by it. */
  lemma {:induction false} OthersSkip(exprs: seq<Expr>, order: Order, x: Proxy, ps: seq<Proxy>, k: nat)
    requires 0 < RegexOrder(exprs, Name(x)) < k
    ensures Buckets(exprs, order, [x] + ps, k) == Buckets(exprs, order, ps, k)
    decreases |exprs| + 1 - k
  {
    hide StableSort, Bucket, Buckets;
    if k <= |exprs| {
      BucketsStep(exprs, order, ps, k);
      BucketsStep(exprs, order, [x] + ps, k);
      BucketCons(exprs, x, ps, k);
      OthersSkip(exprs, order, x, ps, k + 1);
    } else {
      BucketCons(exprs, x, ps, 0);
      LastBucket(exprs, order, ps, k);
      LastBucket(exprs, order, [x] + ps, k);
    }
  }

  /** The stable sort yields bucket 1, bucket 2, ..., then the unmatched. */
  lemma {:induction false} SortIsBuckets(exprs: seq<Expr>, order: Order, ps: seq<Proxy>)
    ensures StableSort(ByRegex(exprs, order), ps) == Buckets(exprs, order, ps, 1)
    decreases |ps|
  {
    hide RegexOrder;
    if ps == [] {
      NoBuckets(exprs, order, 1);
    } else {
      SortIsBuckets(exprs, order, ps[1..]);
      assert ps == [ps[0]] + ps[1..];
      InsertInBuckets(exprs, order, ps[0], ps[1..], 1);
    }
  }

  lemma {:induction false} NoBuckets(exprs: seq<Expr>, order: Order, k: nat)
    ensures Buckets(exprs, order, [], k) == []
    decreases |exprs| + 1 - k
  {
    if 0 < k <= |exprs| {
      NoBuckets(exprs, order, k + 1);
    }
  }

  /** A result of the operator: any result a stable sort may give is the bucketed list. */
  lemma RegexSortExactly(exprs: seq<Expr>, order: Order, ps: seq<Proxy>, out: seq<Proxy>)
    ensures StableResult(ByRegex(exprs, order), ps, out) <==> out == Buckets(exprs, order, ps, 1)
  {
    hide StableResult, StrictWeakOrder, Buckets, StableSort;
    RegexLessIsOrder(exprs, order);
    StableExactly(ByRegex(exprs, order), ps, out);
    SortIsBuckets(exprs, order, ps);
  }

  /** In any result the matched proxies stand by position, in front of the unmatched, whose
      names ascend, descend or stand as they were. */
  lemma ResultIsOrdered(exprs: seq<Expr>, order: Order, ps: seq<Proxy>, out: seq<Proxy>, i: nat, j: nat)
    requires StableResult(ByRegex(exprs, order), ps, out) && i < j < |out|
    ensures var a, b := RegexOrder(exprs, Name(out[i])), RegexOrder(exprs, Name(out[j]));
            && (b > 0 ==> 0 < a <= b)
            && (a == b == 0 && order == Asc ==> !Below(Name(out[j]), Name(out[i])))
            && (a == b == 0 && order == Desc ==> !Below(Name(out[i]), Name(out[j])))
  {
    hide RegexOrder, Below;
    var less := ByRegex(exprs, order);
    var ts: seq<Tagged> :| multiset(ts) == multiset(Tag(ps, 0)) && Arranged(less, ts) && Untag(ts) == out;
    assert Precedes(less, ts[i], ts[j]);
    NameLessIsOrder(order, out[i], out[j], out[i]);
  }
}
