/** The preprocessing job (preprocessing/main.py, `main`): read the month's
    table, clean and aggregate it, and publish the result as the month's CSV
    artifact on the shared /output volume. */
module Preprocessing {
  import opened Wrappers
  import opened Files
  import opened Cleaning
  import opened Aggregation
  import Decimal
  import CommandLine

  /** The table read for a month (line 20). */
  function TableName(month: int): string {
    "ratings_month_" + Decimal.IntToString(month)
  }

  /** The directory Spark writes into (line 21). */
  function StagingDir(month: int): Path {
    "/output/tmp_ratings_month_" + Decimal.IntToString(month)
  }

  /** The published artifact (line 22). */
  function FinalPath(month: int): Path {
    "/output/aggregated_ratings_month_" + Decimal.IntToString(month) + ".csv"
  }

  lemma PrefixedInjective(prefix: string, a: string, b: string, suffix: string)
    ensures prefix + a + suffix == prefix + b + suffix <==> a == b
  {
    if prefix + a + suffix == prefix + b + suffix {
      assert |a| == |b|;
      assert a == (prefix + a + suffix)[|prefix|..|prefix| + |a|];
      assert b == (prefix + b + suffix)[|prefix|..|prefix| + |b|];
    }
  }

  /** Each of the three names determines the month it was built from. */
  lemma NamesIdentifyMonth(a: int, b: int)
    ensures TableName(a) == TableName(b) <==> a == b
    ensures StagingDir(a) == StagingDir(b) <==> a == b
    ensures FinalPath(a) == FinalPath(b) <==> a == b
  {
    var x, y := Decimal.IntToString(a), Decimal.IntToString(b);
    Decimal.IntToStringInjective(a, b);
    PrefixedInjective("ratings_month_", x, y, "");
    assert TableName(a) == "ratings_month_" + x + "";
    assert TableName(b) == "ratings_month_" + y + "";
    PrefixedInjective("/output/tmp_ratings_month_", x, y, "");
    assert StagingDir(a) == "/output/tmp_ratings_month_" + x + "";
    assert StagingDir(b) == "/output/tmp_ratings_month_" + y + "";
    PrefixedInjective("/output/aggregated_ratings_month_", x, y, ".csv");
  }

  /** No artifact path is a staging directory or lies below one, so the
      staging overwrite never touches an artifact. */
  lemma FinalPathOutsideStaging(a: int, b: int)
    ensures FinalPath(a) != StagingDir(b)
    ensures !Within(FinalPath(a), StagingDir(b))
  {
    assert FinalPath(a)[8] == 'a';
    assert StagingDir(b)[8] == 't';
  }

  /** The staging directory after line 55. */
  function Staged(fs: map<Path, Contents>, month: int, entries: map<string, Contents>): (r: map<Path, Contents>)
    ensures (FinalPath(month) in r <==> FinalPath(month) in fs)
    ensures FinalPath(month) in fs ==> r[FinalPath(month)] == fs[FinalPath(month)]
  {
    FinalPathOutsideStaging(month, month);
    ReplaceTree(fs, StagingDir(month), entries)
  }

  /** The part files seen after line 55 are the ones the writer just
      produced, none left from an earlier run. */
  lemma StagedPartFiles(fs: map<Path, Contents>, month: int, entries: map<string, Contents>)
    ensures PartFiles(Staged(fs, month, entries), StagingDir(month))
         == set n | n in entries && IsPartFileName(n) :: Child(StagingDir(month), n)
  {
    PartFilesAfterReplace(fs, StagingDir(month), entries);
  }

  /** Lines 58-60 for part file src: the old artifact, if any, is removed and
      src is renamed onto the artifact path. */
  function Promoted(fs: map<Path, Contents>, src: Path, dst: Path): (r: map<Path, Contents>)
    requires src in fs && src != dst
    ensures dst in r && r[dst] == fs[src]
    ensures src !in r
    ensures forall p :: p != src && p != dst ==> (p in r <==> p in fs) && (p in r ==> r[p] == fs[p])
  {
    Moved(fs - {dst}, src, dst)
  }

  /** Lines 58-60: the old artifact, if any, is removed, then src is renamed
      onto it. The history records the state between the two steps, in which
      dst does not exist. */
  method Promote(fs: FileSystem, src: Path, dst: Path)
    requires fs.Valid() && src in fs.files && src != dst
    modifies fs
    ensures fs.Valid()
    ensures fs.files == Promoted(old(fs.files), src, dst)
    ensures fs.history == old(fs.history)
      + (if dst in old(fs.files) then [old(fs.files) - {dst}] else [])
      + [fs.files]
  {
    var present := fs.Exists(dst);
    if present {
      var removed := fs.Remove(dst);
    }
    assert fs.files == old(fs.files) - {dst};
    var renamed := fs.Rename(src, dst);
  }

  /** Lines 55-60. The staging directory is overwritten with the writer's
      entries; if the glob finds part files, the first in the listing order
      replaces the artifact. */
  method Publish(fs: FileSystem, month: int, entries: map<string, Contents>) returns (published: Option<Path>)
    requires fs.Valid()
    modifies fs
    ensures fs.Valid()
    ensures published.None? <==> PartFiles(Staged(old(fs.files), month, entries), StagingDir(month)) == {}
    ensures published.None? ==>
      var staged := Staged(old(fs.files), month, entries);
      fs.files == staged && fs.history == old(fs.history) + [staged]
    ensures published.Some? ==>
      && published.value in PartFiles(Staged(old(fs.files), month, entries), StagingDir(month))
      && published.value != FinalPath(month)
      && fs.files == Promoted(Staged(old(fs.files), month, entries), published.value, FinalPath(month))
      && fs.history == old(fs.history) + PublishHistory(old(fs.files), month, entries, published.value)
  {
    var dir, final := StagingDir(month), FinalPath(month);
    fs.Overwrite(dir, entries);
    ghost var staged := fs.files;
    var csvFiles := fs.Glob(dir);
    if csvFiles == [] {
      assert forall p :: p !in PartFiles(staged, dir);
      published := None;
      return;
    }
    var src := csvFiles[0];
    assert src in PartFiles(staged, dir);
    FinalPathOutsideStaging(month, month);
    Promote(fs, src, final);
    published := Some(src);
    assert staged == Staged(old(fs.files), month, entries);
    PublishHistoryOf(old(fs.history), old(fs.files), month, entries, src, fs.history);
  }

  /** The history Promote leaves after the overwrite is PublishHistory. */
  lemma PublishHistoryOf(h0: seq<map<Path, Contents>>, fs: map<Path, Contents>, month: int,
                         entries: map<string, Contents>, src: Path, h: seq<map<Path, Contents>>)
    requires src in PartFiles(Staged(fs, month, entries), StagingDir(month))
    requires src != FinalPath(month)
    requires var staged := Staged(fs, month, entries);
      h == h0 + [staged]
        + (if FinalPath(month) in staged then [staged - {FinalPath(month)}] else [])
        + [Promoted(staged, src, FinalPath(month))]
    ensures h == h0 + PublishHistory(fs, month, entries, src)
  {
    var staged := Staged(fs, month, entries);
    var mid := if FinalPath(month) in staged then [staged - {FinalPath(month)}] else [];
    var last := Promoted(staged, src, FinalPath(month));
    assert PublishHistory(fs, month, entries, src) == [staged] + mid + [last];
    AppendRegroup(h0, staged, mid, last);
  }

  lemma AppendRegroup<T>(a: seq<T>, x: T, m: seq<T>, y: T)
    ensures a + [x] + m + [y] == a + ([x] + m + [y])
  {
  }

  /** After a publish that found part file src, the artifact holds what the
      writer put in src, src is gone, and every path outside the staging
      directory other than the artifact is as before the run. */
  lemma PublishedArtifact(fs: map<Path, Contents>, month: int, entries: map<string, Contents>, src: Path)
    requires src in PartFiles(Staged(fs, month, entries), StagingDir(month))
    ensures src != FinalPath(month)
    ensures var after := Promoted(Staged(fs, month, entries), src, FinalPath(month));
      && Within(src, StagingDir(month))
      && src[|StagingDir(month)| + 1..] in entries
      && after[FinalPath(month)] == entries[src[|StagingDir(month)| + 1..]]
      && src !in after
      && forall p :: p != FinalPath(month) && p != StagingDir(month) && !Within(p, StagingDir(month)) ==>
           (p in after <==> p in fs) && (p in after ==> after[p] == fs[p])
  {
    var dir := StagingDir(month);
    FinalPathOutsideStaging(month, month);
    var n :| n in entries && IsPartFileName(n) && src == Child(dir, n);
    assert src[|dir| + 1..] == n;
  }

  /** Publishing is idempotent: when the writer produces a single part file,
      the artifact afterwards holds that file's contents whatever the volume
      held before, so a re-run with the same data republishes the same bytes. */
  lemma PublishIdempotent(fs1: map<Path, Contents>, fs2: map<Path, Contents>, month: int,
                          entries: map<string, Contents>, name: string, src1: Path, src2: Path)
    requires name in entries && IsPartFileName(name)
    requires forall n :: n in entries && IsPartFileName(n) ==> n == name
    requires src1 in PartFiles(Staged(fs1, month, entries), StagingDir(month))
    requires src2 in PartFiles(Staged(fs2, month, entries), StagingDir(month))
    ensures src1 == src2 == Child(StagingDir(month), name)
    ensures src1 != FinalPath(month)
    ensures Promoted(Staged(fs1, month, entries), src1, FinalPath(month))[FinalPath(month)]
         == Promoted(Staged(fs2, month, entries), src2, FinalPath(month))[FinalPath(month)]
         == entries[name]
  {
    PublishedArtifact(fs1, month, entries, src1);
    PublishedArtifact(fs2, month, entries, src2);
  }

  /** Whenever no part file is found, or the writer fails after leaving
      whatever files below the staging directory, the artifact path is
      exactly as before: absent if it was absent, the same bytes otherwise. */
  lemma StagingLeavesArtifact(fs: map<Path, Contents>, month: int, month': int, entries: map<string, Contents>)
    ensures var after := ReplaceTree(fs, StagingDir(month'), entries);
      && (FinalPath(month) in after <==> FinalPath(month) in fs)
      && (FinalPath(month) in fs ==> after[FinalPath(month)] == fs[FinalPath(month)])
  {
    FinalPathOutsideStaging(month, month');
  }

  /** The volumes lines 55-60 pass through when part file src is promoted:
      the staged volume, then the volume without the artifact if there was
      one to remove, then the promoted volume. The state before the last one
      never holds the artifact: the replacement is not atomic. */
  function PublishHistory(fs: map<Path, Contents>, month: int, entries: map<string, Contents>, src: Path)
    : (h: seq<map<Path, Contents>>)
    requires src in PartFiles(Staged(fs, month, entries), StagingDir(month))
    ensures src != FinalPath(month)
    ensures |h| >= 2 && h[0] == Staged(fs, month, entries)
    ensures FinalPath(month) !in h[|h| - 2]
    ensures h[|h| - 1] == Promoted(Staged(fs, month, entries), src, FinalPath(month))
  {
    PartFileIsNotArtifact(fs, month, entries, src);
    var staged, dst := Staged(fs, month, entries), FinalPath(month);
    [staged] + (if dst in staged then [staged - {dst}] else []) + [Promoted(staged, src, dst)]
  }

  /** The glob of line 56 never returns the artifact path itself. */
  lemma PartFileIsNotArtifact(fs: map<Path, Contents>, month: int, entries: map<string, Contents>, src: Path)
    requires src in PartFiles(Staged(fs, month, entries), StagingDir(month))
    ensures src != FinalPath(month)
  {
    FinalPathOutsideStaging(month, month);
  }

  /** The artifact of month m is the same in both volumes: absent from both,
      or present in both with the same bytes. */
  predicate ArtifactKept(before: map<Path, Contents>, after: map<Path, Contents>, m: int) {
    && (FinalPath(m) in after <==> FinalPath(m) in before)
    && (FinalPath(m) in before ==> after[FinalPath(m)] == before[FinalPath(m)])
  }

  /** Promoting a part file of one month leaves every other month's artifact
      as it was before the run. */
  lemma PromoteKeepsOtherArtifacts(fs: map<Path, Contents>, month: int, entries: map<string, Contents>, src: Path, m: int)
    requires src in PartFiles(Staged(fs, month, entries), StagingDir(month))
    requires m != month
    ensures src != FinalPath(month)
    ensures ArtifactKept(fs, Promoted(Staged(fs, month, entries), src, FinalPath(month)), m)
  {
    PublishedArtifact(fs, month, entries, src);
    NamesIdentifyMonth(m, month);
    FinalPathOutsideStaging(m, month);
  }

  /** What the JDBC read can report. */
  datatype Store = Unreachable | Reachable(tables: map<string, seq<RawRow>>)

  /** What the Spark writer of line 55 does: write its files, or raise after
      leaving some files below the staging directory. */
  datatype WriteOutcome = Written(entries: map<string, Contents>) | Aborted(leftover: map<string, Contents>)

  datatype RunError = InvalidMonthArgument | StoreUnavailable | TableNotFound(table: string) | WriteFailed

  datatype Outcome =
    | Completed(month: int, aggregate: map<string, real>, published: Option<Path>)
    | Failed(error: RunError)

  /** The process status: `sys.exit(1)` on a caught exception, and also 1 for
      the uncaught ValueError of a malformed month argument. */
  function ExitStatus(o: Outcome): (code: int)
    ensures code == 0 <==> o.Completed?
    ensures code == 0 || code == 1
  {
    if o.Completed? then 0 else 1
  }

  /** Lines 37-43: the table of the month, or the error the read raises. */
  function ReadTable(store: Store, table: string): (r: Result<seq<RawRow>, RunError>)
    ensures r.Success? <==> store.Reachable? && table in store.tables
    ensures r.Success? ==> r.value == store.tables[table]
    ensures r.Failure? ==> r.error == if store.Unreachable? then StoreUnavailable else TableNotFound(table)
  {
    if store.Unreachable? then Failure(StoreUnavailable)
    else if table !in store.tables then Failure(TableNotFound(table))
    else Success(store.tables[table])
  }

  /** `main`: every failure the model has (argument, read, write) is reported
      before the artifact path is touched, and leaves the artifact as it was. */
  method Run(fs: FileSystem, argv: seq<string>, store: Store, write: WriteOutcome) returns (outcome: Outcome)
    requires fs.Valid()
    modifies fs
    ensures fs.Valid()
    ensures CommandLine.MonthArgument(argv).None? ==>
      outcome == Failed(InvalidMonthArgument) && fs.files == old(fs.files) && fs.history == old(fs.history)
    ensures CommandLine.MonthArgument(argv).Some? ==>
      var month := CommandLine.MonthArgument(argv).value;
      var read := ReadTable(store, TableName(month));
      && (read.Failure? ==>
            outcome == Failed(read.error) && fs.files == old(fs.files) && fs.history == old(fs.history))
      && (read.Success? && write.Aborted? ==>
            && outcome == Failed(WriteFailed)
            && fs.files == ReplaceTree(old(fs.files), StagingDir(month), write.leftover)
            && fs.history == old(fs.history) + [fs.files])
      && (read.Success? && write.Written? ==>
            && outcome.Completed? && outcome.month == month
            && outcome.aggregate == AggregateTable(read.value)
            && (var staged := Staged(old(fs.files), month, write.entries);
                && (outcome.published.None? <==> PartFiles(staged, StagingDir(month)) == {})
                && (outcome.published.None? ==> fs.files == staged && fs.history == old(fs.history) + [staged])
                && (outcome.published.Some? ==>
                      && outcome.published.value in PartFiles(staged, StagingDir(month))
                      && outcome.published.value != FinalPath(month)
                      && fs.files == Promoted(staged, outcome.published.value, FinalPath(month))
                      && fs.history == old(fs.history)
                           + PublishHistory(old(fs.files), month, write.entries, outcome.published.value))))
    ensures ExitStatus(outcome) == 1 ==> forall m :: ArtifactKept(old(fs.files), fs.files, m)
    ensures ExitStatus(outcome) == 0 ==> forall m :: m != outcome.month ==> ArtifactKept(old(fs.files), fs.files, m)
  {
    var arg := CommandLine.MonthArgument(argv);
    if arg.None? {
      return Failed(InvalidMonthArgument);
    }
    var month := arg.value;
    var read := ReadTable(store, TableName(month));
    if read.Failure? {
      return Failed(read.error);
    }
    var aggregate := AggregateTable(read.value);
    match write
    case Aborted(leftover) =>
      fs.Overwrite(StagingDir(month), leftover);
      outcome := Failed(WriteFailed);
      forall m ensures ArtifactKept(old(fs.files), fs.files, m) {
        StagingLeavesArtifact(old(fs.files), m, month, leftover);
      }
    case Written(entries) =>
      var published := Publish(fs, month, entries);
      outcome := Completed(month, aggregate, published);
      forall m | m != month ensures ArtifactKept(old(fs.files), fs.files, m) {
        if published.None? {
          StagingLeavesArtifact(old(fs.files), m, month, entries);
        } else {
          PromoteKeepsOtherArtifacts(old(fs.files), month, entries, published.value, m);
        }
      }
  }
}
