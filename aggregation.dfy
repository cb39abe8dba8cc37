/** The aggregation step of the preprocessing job,
    `groupBy("productid").agg(avg("rating").alias("avg_rating"))`, with
    ratings as exact reals. */
module Aggregation {
  import opened Wrappers
  import opened Cleaning

  function Sum(xs: seq<real>): real {
    if xs == [] then 0.0 else xs[0] + Sum(xs[1..])
  }

  function Mean(xs: seq<real>): real
    requires xs != []
  {
    Sum(xs) / (|xs| as real)
  }

  /** The distinct grouping keys. */
  function ProductIds(rows: seq<Row>): set<string> {
    set r | r in rows :: r.productId
  }

  /** The ratings of the records of product p, in record order. */
  function Ratings(rows: seq<Row>, p: string): (rs: seq<real>)
    ensures |rs| <= |rows|
    ensures forall x :: x in rs <==> exists i :: 0 <= i < |rows| && rows[i].productId == p && rows[i].rating == x
  {
    if rows == [] then []
    else
      var rest := Ratings(rows[1..], p);
      assert forall i :: 0 < i < |rows| ==> rows[i] == rows[1..][i - 1];
      (if rows[0].productId == p then [rows[0].rating] else []) + rest
  }

  lemma RatingsPresent(rows: seq<Row>, p: string)
    requires p in ProductIds(rows)
    ensures Ratings(rows, p) != []
  {
    var r :| r in rows && r.productId == p;
    var i :| 0 <= i < |rows| && rows[i] == r;
    assert rows[i].rating in Ratings(rows, p);
  }

  /** The positions of the records of product p rated x. */
  function RatingIndices(rows: seq<Row>, p: string, x: real): set<nat> {
    set i: nat | i < |rows| && rows[i].productId == p && rows[i].rating == x
  }

  /** Every element of s moved up by one. */
  function Shift(s: set<nat>): set<nat> {
    set j | j in s :: j + 1
  }

  lemma {:induction false} ShiftSize(s: set<nat>)
    ensures |Shift(s)| == |s|
    decreases |s|
  {
    if s != {} {
      var x :| x in s;
      var rest := s - {x};
      ShiftSize(rest);
      forall j | j in Shift(s) ensures j in Shift(rest) + {x + 1} {
        var k :| k in s && j == k + 1;
        if k != x {
          assert k in rest;
        }
      }
      forall j | j in Shift(rest) ensures j in Shift(s) {
        var k :| k in rest && j == k + 1;
        assert k in s;
      }
      assert Shift(s) == Shift(rest) + {x + 1};
      forall k | k in rest ensures k + 1 != x + 1 { }
      assert x + 1 !in Shift(rest);
    }
  }

  /** Each rating value occurs in Ratings(rows, p) once per record of p
      carrying it: the counts, and so the mean's denominator, are the
      records' own. */
  lemma {:induction false} RatingsCounts(rows: seq<Row>, p: string, x: real)
    ensures multiset(Ratings(rows, p))[x] == |RatingIndices(rows, p, x)|
  {
    if rows != [] {
      var tail := rows[1..];
      RatingsCounts(tail, p, x);
      RatingIndicesStep(rows, p, x);
      ShiftSize(RatingIndices(tail, p, x));
      var first := if rows[0].productId == p then [rows[0].rating] else [];
      assert Ratings(rows, p) == first + Ratings(tail, p);
      assert multiset(Ratings(rows, p)) == multiset(first) + multiset(Ratings(tail, p));
    }
  }

  /** The positions in a non-empty table: position 0 if the first record
      matches, then the matching positions of the rest, one further on. */
  lemma RatingIndicesStep(rows: seq<Row>, p: string, x: real)
    requires rows != []
    ensures var head: set<nat> := if rows[0].productId == p && rows[0].rating == x then {0} else {};
      && RatingIndices(rows, p, x) == head + Shift(RatingIndices(rows[1..], p, x))
      && head !! Shift(RatingIndices(rows[1..], p, x))
  {
    var tail := rows[1..];
    var head: set<nat> := if rows[0].productId == p && rows[0].rating == x then {0} else {};
    forall i: nat ensures i in RatingIndices(rows, p, x) <==> i in head + Shift(RatingIndices(tail, p, x)) {
      if i > 0 && i < |rows| {
        assert rows[i] == tail[i - 1];
        if i - 1 in RatingIndices(tail, p, x) {
          assert i == (i - 1) + 1;
        }
      }
    }
  }

  /** One entry per distinct product, holding the mean of its ratings. */
  function Aggregate(rows: seq<Row>): (agg: map<string, real>)
    ensures forall p :: p in agg <==> exists i :: 0 <= i < |rows| && rows[i].productId == p
  {
    map p | p in ProductIds(rows) :: RatingsPresent(rows, p); Mean(Ratings(rows, p))
  }

  /** The aggregate of the cleaned period table: lines 47 and 50 together. */
  function AggregateTable(raw: seq<RawRow>): map<string, real> {
    Aggregate(Clean(raw))
  }

  lemma {:induction false} SumConcat(a: seq<real>, b: seq<real>)
    ensures Sum(a + b) == Sum(a) + Sum(b)
  {
    if a != [] {
      assert (a + b)[0] == a[0];
      assert (a + b)[1..] == a[1..] + b;
      SumConcat(a[1..], b);
    } else {
      assert a + b == b;
    }
  }

  lemma {:induction false} SumPermutation(xs: seq<real>, ys: seq<real>)
    requires multiset(xs) == multiset(ys)
    ensures Sum(xs) == Sum(ys)
    decreases |xs|
  {
    if xs == [] {
      assert |ys| == |multiset(ys)| == 0;
    } else {
      var x := xs[0];
      assert x in multiset(ys);
      var i :| 0 <= i < |ys| && ys[i] == x;
      var rest := ys[..i] + ys[i + 1..];
      MultisetRemove(ys, i);
      assert xs == [x] + xs[1..];
      assert multiset(xs[1..]) == multiset(xs) - multiset{x};
      SumPermutation(xs[1..], rest);
      SumRemove(ys, i);
    }
  }

  /** Taking out position i removes one copy of ys[i]. */
  lemma MultisetRemove(ys: seq<real>, i: nat)
    requires i < |ys|
    ensures multiset(ys[..i] + ys[i + 1..]) == multiset(ys) - multiset{ys[i]}
  {
    assert ys == ys[..i] + [ys[i]] + ys[i + 1..];
    assert multiset(ys) == multiset(ys[..i]) + multiset{ys[i]} + multiset(ys[i + 1..]);
  }

  /** The sum is the element at i plus the sum of the others. */
  lemma SumRemove(ys: seq<real>, i: nat)
    requires i < |ys|
    ensures Sum(ys) == ys[i] + Sum(ys[..i] + ys[i + 1..])
  {
    assert ys == ys[..i] + [ys[i]] + ys[i + 1..];
    SumSplit(ys[..i], ys[i], ys[i + 1..]);
  }

  lemma SumSplit(a: seq<real>, y: real, b: seq<real>)
    ensures Sum(a + [y] + b) == y + Sum(a + b)
  {
    SumConcat(a + [y], b);
    SumConcat(a, [y]);
    SumConcat(a, b);
    assert Sum([y]) == y + Sum([]);
  }

  lemma {:induction false} RatingsConcat(a: seq<Row>, b: seq<Row>, p: string)
    ensures Ratings(a + b, p) == Ratings(a, p) + Ratings(b, p)
  {
    if a != [] {
      assert (a + b)[0] == a[0];
      assert (a + b)[1..] == a[1..] + b;
      RatingsConcat(a[1..], b, p);
    } else {
      assert a + b == b;
    }
  }

  lemma {:induction false} RatingsPermutation(a: seq<Row>, b: seq<Row>, p: string)
    requires multiset(a) == multiset(b)
    ensures multiset(Ratings(a, p)) == multiset(Ratings(b, p))
    decreases |a|
  {
    if a == [] {
      assert |b| == |multiset(b)| == 0;
    } else {
      var x := a[0];
      assert x in multiset(b);
      var i :| 0 <= i < |b| && b[i] == x;
      var rest := b[..i] + b[i + 1..];
      assert b == b[..i] + [x] + b[i + 1..];
      assert a == [x] + a[1..];
      assert multiset(b) == multiset(b[..i]) + multiset([x]) + multiset(b[i + 1..]);
      assert multiset(a) == multiset([x]) + multiset(a[1..]);
      assert multiset(rest) == multiset(b[..i]) + multiset(b[i + 1..]);
      calc {
        multiset(a[1..]);
        multiset(a) - multiset([x]);
        multiset(b) - multiset([x]);
        multiset(rest);
      }
      RatingsPermutation(a[1..], rest, p);
      RatingsConcat(b[..i] + [x], b[i + 1..], p);
      RatingsConcat(b[..i], [x], p);
      RatingsConcat(b[..i], b[i + 1..], p);
      RatingsConcat([x], a[1..], p);
    }
  }

  /** The aggregate does not depend on the order of the records. */
  lemma AggregatePermutationInvariant(a: seq<Row>, b: seq<Row>)
    requires multiset(a) == multiset(b)
    ensures Aggregate(a) == Aggregate(b)
  {
    assert forall r :: r in a <==> r in b by {
      forall r ensures r in a <==> r in b {
        assert r in a <==> r in multiset(a);
        assert r in b <==> r in multiset(b);
      }
    }
    assert ProductIds(a) == ProductIds(b);
    forall p | p in ProductIds(a)
      ensures Ratings(a, p) != [] && Ratings(b, p) != []
      ensures Mean(Ratings(a, p)) == Mean(Ratings(b, p))
    {
      RatingsPresent(a, p);
      RatingsPresent(b, p);
      RatingsPermutation(a, b, p);
      SumPermutation(Ratings(a, p), Ratings(b, p));
      assert |Ratings(a, p)| == |multiset(Ratings(a, p))| == |multiset(Ratings(b, p))| == |Ratings(b, p)|;
    }
  }

  /** The aggregate of a period table depends only on which complete records
      it holds. */
  lemma AggregateDependsOnlyOnCompleteRecords(a: seq<RawRow>, b: seq<RawRow>)
    requires forall r :: Embed(r) in a <==> Embed(r) in b
    ensures AggregateTable(a) == AggregateTable(b)
  {
    CleanDependsOnlyOnCompleteRecords(a, b);
    AggregatePermutationInvariant(Clean(a), Clean(b));
  }

  /** Adding an exact duplicate of a record present anywhere leaves the aggregate unchanged. */
  lemma AggregateIgnoresDuplicate(raw: seq<RawRow>, i: nat, x: RawRow)
    requires i <= |raw| && x in raw
    ensures AggregateTable(raw[..i] + [x] + raw[i..]) == AggregateTable(raw)
  {
    CleanIgnoresDuplicate(raw, i, x);
    AggregatePermutationInvariant(Clean(raw[..i] + [x] + raw[i..]), Clean(raw));
  }

  /** Adding a record with a missing field anywhere leaves the aggregate unchanged. */
  lemma AggregateIgnoresIncomplete(raw: seq<RawRow>, i: nat, x: RawRow)
    requires i <= |raw| && HasMissing(x)
    ensures AggregateTable(raw[..i] + [x] + raw[i..]) == AggregateTable(raw)
  {
    CleanIgnoresIncomplete(raw, i, x);
    AggregatePermutationInvariant(Clean(raw[..i] + [x] + raw[i..]), Clean(raw));
  }

  /** A product has an entry exactly when some complete record names it; in
      particular a table without complete records aggregates to the empty map. */
  lemma AggregateTableKeys(raw: seq<RawRow>)
    ensures forall p :: p in AggregateTable(raw) <==> exists r :: r in raw && !HasMissing(r) && r.productId == Some(p)
    ensures AggregateTable(raw) == map[] <==> forall r :: r in raw ==> HasMissing(r)
  {
    var rows := Clean(raw);
    forall p ensures p in AggregateTable(raw) <==> exists r :: r in raw && !HasMissing(r) && r.productId == Some(p) {
      if p in AggregateTable(raw) {
        var i :| 0 <= i < |rows| && rows[i].productId == p;
        assert Embed(rows[i]) in raw;
      }
      if r :| r in raw && !HasMissing(r) && r.productId == Some(p) {
        assert Embed(Complete(r)) in raw;
        assert Complete(r) in rows;
      }
    }
    if exists r :: r in raw && !HasMissing(r) {
      var r :| r in raw && !HasMissing(r);
      assert r.productId.value in AggregateTable(raw);
    }
  }

  lemma {:induction false} SumBounds(xs: seq<real>, lo: real, hi: real)
    requires forall i :: 0 <= i < |xs| ==> lo <= xs[i] <= hi
    ensures (|xs| as real) * lo <= Sum(xs) <= (|xs| as real) * hi
  {
    if xs != [] {
      SumBounds(xs[1..], lo, hi);
    }
  }

  lemma MeanBounds(xs: seq<real>, lo: real, hi: real)
    requires xs != []
    requires forall i :: 0 <= i < |xs| ==> lo <= xs[i] <= hi
    ensures lo <= Mean(xs) <= hi
  {
    SumBounds(xs, lo, hi);
    QuotientBounds(Sum(xs), |xs| as real, lo, hi);
  }

  lemma QuotientBounds(s: real, n: real, lo: real, hi: real)
    requires n > 0.0 && n * lo <= s <= n * hi
    ensures lo <= s / n <= hi
  {
    var q := s / n;
    assert s == q * n;
    assert (q - lo) * n == s - n * lo;
    assert (hi - q) * n == n * hi - s;
  }

  /** The least of a non-empty sequence. */
  function Least(xs: seq<real>): (m: real)
    requires xs != []
    ensures m in xs && forall i :: 0 <= i < |xs| ==> m <= xs[i]
  {
    if |xs| == 1 then xs[0]
    else var rest := Least(xs[1..]); if xs[0] <= rest then xs[0] else rest
  }

  /** The greatest of a non-empty sequence. */
  function Greatest(xs: seq<real>): (m: real)
    requires xs != []
    ensures m in xs && forall i :: 0 <= i < |xs| ==> xs[i] <= m
  {
    if |xs| == 1 then xs[0]
    else var rest := Greatest(xs[1..]); if rest <= xs[0] then xs[0] else rest
  }

  /** Every product's entry is the mean of its ratings: it lies within any
      bounds of those ratings ... */
  lemma AggregateWithinBounds(rows: seq<Row>, p: string, lo: real, hi: real)
    requires p in Aggregate(rows)
    requires forall i :: 0 <= i < |rows| && rows[i].productId == p ==> lo <= rows[i].rating <= hi
    ensures lo <= Aggregate(rows)[p] <= hi
  {
    var xs := Ratings(rows, p);
    RatingsPresent(rows, p);
    forall k | 0 <= k < |xs| ensures lo <= xs[k] <= hi {
      assert xs[k] in xs;
    }
    MeanBounds(xs, lo, hi);
  }

  /** ... and between the least and the greatest of them. */
  lemma AggregateBetweenExtremes(rows: seq<Row>, p: string)
    requires p in Aggregate(rows)
    ensures exists i :: 0 <= i < |rows| && rows[i].productId == p && rows[i].rating <= Aggregate(rows)[p]
    ensures exists j :: 0 <= j < |rows| && rows[j].productId == p && Aggregate(rows)[p] <= rows[j].rating
  {
    var xs := Ratings(rows, p);
    RatingsPresent(rows, p);
    var lo, hi := Least(xs), Greatest(xs);
    forall k | 0 <= k < |xs| ensures lo <= xs[k] <= hi {
    }
    MeanBounds(xs, lo, hi);
  }

  /** The worked example: a duplicate and a record with a NULL rating are
      dropped, and p1's two ratings 5 and 3 average to 4. */
  lemma ExampleTable()
    ensures AggregateTable([
      RawRow(Some("u1"), Some("p1"), Some(5.0), Some(1)),
      RawRow(Some("u1"), Some("p1"), Some(5.0), Some(1)),
      RawRow(Some("u2"), Some("p1"), Some(3.0), Some(2)),
      RawRow(Some("u3"), Some("p2"), None, Some(3))]) == map["p1" := 4.0]
  {
    var a := Row("u1", "p1", 5.0, 1);
    var b := Row("u2", "p1", 3.0, 2);
    ExampleClean(a, b);
    ExampleAggregate(a, b);
  }

  lemma ExampleClean(a: Row, b: Row)
    requires a == Row("u1", "p1", 5.0, 1) && b == Row("u2", "p1", 3.0, 2)
    ensures Clean([Embed(a), Embed(a), Embed(b), RawRow(Some("u3"), Some("p2"), None, Some(3))]) == [a, b]
  {
    ExampleDropNa(a, b);
    ExampleDropDuplicates(a, b);
  }

  lemma ExampleDropNa(a: Row, b: Row)
    ensures DropNa([Embed(a), Embed(a), Embed(b), RawRow(Some("u3"), Some("p2"), None, Some(3))]) == [a, a, b]
  {
    var raw := [Embed(a), Embed(a), Embed(b), RawRow(Some("u3"), Some("p2"), None, Some(3))];
    assert raw[1..][1..][1..][1..] == [];
    assert DropNa(raw[1..][1..][1..]) == [];
    assert DropNa(raw[1..][1..]) == [b];
    assert DropNa(raw[1..]) == [a, b];
  }

  lemma ExampleDropDuplicates(a: Row, b: Row)
    requires a.userId == "u1" && b.userId == "u2"
    ensures DropDuplicates([a, a, b]) == [a, b]
  {
    assert a != b by {
      assert a.userId[1] != b.userId[1];
    }
    var s1, s2, s3 := [a], [a, a], [a, a, b];
    assert s1[..0] == [] && s1[0] == a;
    assert DropDuplicates(s1) == [a];
    assert s2[..1] == s1 && s2[1] == a && a in s1;
    assert DropDuplicates(s2) == [a];
    assert s3[..2] == s2 && s3[2] == b && b !in s2;
  }

  lemma ExampleAggregate(a: Row, b: Row)
    requires a == Row("u1", "p1", 5.0, 1) && b == Row("u2", "p1", 3.0, 2)
    ensures Aggregate([a, b]) == map["p1" := 4.0]
  {
    var rows := [a, b];
    assert ProductIds(rows) == {"p1"};
    assert rows[1..][1..] == [];
    assert Ratings(rows, "p1") == [5.0, 3.0];
    assert [5.0, 3.0][1..][1..] == [];
    assert Sum([5.0, 3.0]) == 8.0;
  }
}
