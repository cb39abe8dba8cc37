/** The cleaning step of the preprocessing job, `df.dropna().dropDuplicates()`:
    drop every record with a missing field, then keep one copy of each record. */
module Cleaning {
  import opened Wrappers
  import opened Sequences

  /** A record of the period table as read over JDBC; None is SQL NULL. */
  datatype RawRow = RawRow(
    userId: Option<string>,
    productId: Option<string>,
    rating: Option<real>,
    timestamp: Option<int>)

  /** A record with every field present. */
  datatype Row = Row(userId: string, productId: string, rating: real, timestamp: int)

  function Embed(r: Row): RawRow {
    RawRow(Some(r.userId), Some(r.productId), Some(r.rating), Some(r.timestamp))
  }

  predicate HasMissing(r: RawRow) {
    r.userId.None? || r.productId.None? || r.rating.None? || r.timestamp.None?
  }

  function Complete(r: RawRow): (c: Row)
    requires !HasMissing(r)
    ensures Embed(c) == r
  {
    Row(r.userId.value, r.productId.value, r.rating.value, r.timestamp.value)
  }

  /** `dropna()` with its defaults (how='any', all columns): the records with
      no missing field, in their order. */
  function DropNa(raw: seq<RawRow>): (rows: seq<Row>)
    ensures |rows| <= |raw|
    ensures forall r :: r in rows <==> Embed(r) in raw
  {
    if raw == [] then []
    else (if HasMissing(raw[0]) then [] else [Complete(raw[0])]) + DropNa(raw[1..])
  }

  /** `dropDuplicates()` over all columns: one copy of every record, kept at
      its first occurrence (Spark leaves the order unspecified; the aggregate
      does not depend on it, see Aggregation.AggregatePermutationInvariant). */
  function DropDuplicates(s: seq<Row>): (r: seq<Row>)
    ensures Distinct(r)
    ensures forall x :: x in r <==> x in s
  {
    if s == [] then []
    else
      var init := DropDuplicates(s[..|s| - 1]);
      if s[|s| - 1] in s[..|s| - 1] then init else init + [s[|s| - 1]]
  }

  /** The cleaned table of line 47. */
  function Clean(raw: seq<RawRow>): (rows: seq<Row>)
    ensures Distinct(rows)
    ensures forall r :: r in rows <==> Embed(r) in raw
  {
    DropDuplicates(DropNa(raw))
  }

  /** dropna keeps every complete record as often as it occurs and nothing else. */
  lemma {:induction false} DropNaCounts(raw: seq<RawRow>, r: Row)
    ensures multiset(DropNa(raw))[r] == multiset(raw)[Embed(r)]
  {
    if raw != [] {
      var rest := raw[1..];
      var head := if HasMissing(raw[0]) then [] else [Complete(raw[0])];
      DropNaCounts(rest, r);
      assert raw == [raw[0]] + rest;
      assert multiset(raw) == multiset([raw[0]]) + multiset(rest);
      assert DropNa(raw) == head + DropNa(rest);
      assert multiset(DropNa(raw)) == multiset(head) + multiset(DropNa(rest));
      if !HasMissing(raw[0]) {
        assert Complete(raw[0]) == r <==> raw[0] == Embed(r);
      }
    }
  }

  lemma {:induction false} DistinctCounts(s: seq<Row>, x: Row)
    requires Distinct(s)
    ensures multiset(s)[x] == if x in s then 1 else 0
  {
    if s != [] {
      var init := s[..|s| - 1];
      assert s == init + [s[|s| - 1]];
      DistinctCounts(init, x);
    }
  }

  /** Every distinct complete input record occurs exactly once in the
      cleaned table, and nothing else does. */
  lemma CleanCounts(raw: seq<RawRow>, r: Row)
    ensures multiset(Clean(raw))[r] == if Embed(r) in raw then 1 else 0
  {
    DistinctCounts(Clean(raw), r);
  }

  /** Only which complete records occur matters, not how often, where or
      beside which incomplete ones: such inputs clean to permutations. */
  lemma CleanDependsOnlyOnCompleteRecords(a: seq<RawRow>, b: seq<RawRow>)
    requires forall r :: Embed(r) in a <==> Embed(r) in b
    ensures multiset(Clean(a)) == multiset(Clean(b))
  {
    forall r
      ensures multiset(Clean(a))[r] == multiset(Clean(b))[r]
    {
      CleanCounts(a, r);
      CleanCounts(b, r);
    }
  }

  /** Inserting an exact copy of a record already present, anywhere, changes
      the cleaned table by at most a reordering. */
  lemma CleanIgnoresDuplicate(raw: seq<RawRow>, i: nat, x: RawRow)
    requires i <= |raw| && x in raw
    ensures multiset(Clean(raw[..i] + [x] + raw[i..])) == multiset(Clean(raw))
  {
    var grown := raw[..i] + [x] + raw[i..];
    assert raw == raw[..i] + raw[i..];
    forall r ensures Embed(r) in grown <==> Embed(r) in raw {
      assert Embed(r) in grown ==> Embed(r) == x || Embed(r) in raw[..i] || Embed(r) in raw[i..];
    }
    CleanDependsOnlyOnCompleteRecords(grown, raw);
  }

  /** Inserting a record with a missing field, anywhere, changes the cleaned
      table by at most a reordering. */
  lemma CleanIgnoresIncomplete(raw: seq<RawRow>, i: nat, x: RawRow)
    requires i <= |raw| && HasMissing(x)
    ensures multiset(Clean(raw[..i] + [x] + raw[i..])) == multiset(Clean(raw))
  {
    var grown := raw[..i] + [x] + raw[i..];
    assert raw == raw[..i] + raw[i..];
    forall r ensures Embed(r) in grown <==> Embed(r) in raw {
      assert Embed(r) != x;
      assert Embed(r) in grown ==> Embed(r) in raw[..i] || Embed(r) in raw[i..];
    }
    CleanDependsOnlyOnCompleteRecords(grown, raw);
  }
}
