/** The delivery service's lookup (delivery/main.py): the month in the URL
    names a file on the /output volume, which is sent as CSV or answered
    with 404. Only the path convention and the lookup are modelled. */
module Delivery {
  import opened Files
  import Decimal
  import Preprocessing

  const OutputDir: Path := "/output"

  /** `os.path.join(a, b)` for two components. */
  function Join(a: Path, b: string): Path {
    if |b| > 0 && b[0] == '/' then b
    else if a == [] || a[|a| - 1] == '/' then a + b
    else a + "/" + b
  }

  /** The file served for a month (line 13); Flask's `<int:month>` admits
      only non-negative months. */
  function ArtifactPath(month: nat): Path {
    Join(OutputDir, "aggregated_ratings_month_" + Decimal.IntToString(month) + ".csv")
  }

  datatype Response = SendFile(contents: Contents, mimetype: string) | NotFound(status: int, message: string)

  /** Lines 12-17. */
  function GetMonthlyAggregated(files: map<Path, Contents>, month: nat): (r: Response)
    ensures r.SendFile? <==> ArtifactPath(month) in files
    ensures r.SendFile? ==> r == SendFile(files[ArtifactPath(month)], "text/csv")
    ensures r.NotFound? ==> r.status == 404
  {
    var path := ArtifactPath(month);
    if path !in files then NotFound(404, "File not found")
    else SendFile(files[path], "text/csv")
  }

  /** Delivery looks up exactly the file the preprocessing job publishes. */
  lemma ServesPublishedArtifact(month: nat)
    ensures ArtifactPath(month) == Preprocessing.FinalPath(month)
  {
    var n := Decimal.IntToString(month);
    var name := "aggregated_ratings_month_" + n + ".csv";
    JoinRelative(name);
    OutputPrefix();
    assert OutputDir + "/" + name == (OutputDir + "/" + "aggregated_ratings_month_") + n + ".csv";
  }

  /** A relative name is placed below the output directory. */
  lemma JoinRelative(name: string)
    requires |name| > 0 && name[0] == 'a'
    ensures Join(OutputDir, name) == OutputDir + "/" + name
  {
    assert OutputDir[|OutputDir| - 1] == 't';
  }

  lemma OutputPrefix()
    ensures OutputDir + "/" + "aggregated_ratings_month_" == "/output/aggregated_ratings_month_"
  {
    var lhs, rhs := OutputDir + "/" + "aggregated_ratings_month_", "/output/aggregated_ratings_month_";
    assert |lhs| == |rhs|;
    forall i | 0 <= i < |lhs| ensures lhs[i] == rhs[i] {
      assert lhs[i] == if i < 7 then OutputDir[i] else if i == 7 then '/' else "aggregated_ratings_month_"[i - 8];
    }
  }

  /** After a publish of part file src, the month's request is answered with
      the contents the writer put in src. */
  lemma ServesAfterPublish(fs: map<Path, Contents>, month: nat, entries: map<string, Contents>, src: Path)
    requires src in PartFiles(Preprocessing.Staged(fs, month, entries), Preprocessing.StagingDir(month))
    ensures src != Preprocessing.FinalPath(month)
    ensures GetMonthlyAggregated(Preprocessing.Promoted(Preprocessing.Staged(fs, month, entries), src, Preprocessing.FinalPath(month)), month)
         == SendFile(entries[src[|Preprocessing.StagingDir(month)| + 1..]], "text/csv")
  {
    ServesPublishedArtifact(month);
    Preprocessing.PublishedArtifact(fs, month, entries, src);
  }

  /** Over the states a publish passes through (Preprocessing.PublishHistory),
      the month's request is answered as before the run while the staging
      directory is written, with 404 in the state before the rename of
      line 60, and with the new file after it: a month served before the run
      is briefly not served, because the replacement is not atomic. */
  lemma NotFoundBetweenRemoveAndRename(fs: map<Path, Contents>, month: nat, entries: map<string, Contents>, src: Path)
    requires src in PartFiles(Preprocessing.Staged(fs, month, entries), Preprocessing.StagingDir(month))
    ensures var h := Preprocessing.PublishHistory(fs, month, entries, src);
      && GetMonthlyAggregated(h[0], month) == GetMonthlyAggregated(fs, month)
      && GetMonthlyAggregated(h[|h| - 2], month).NotFound?
      && GetMonthlyAggregated(h[|h| - 1], month).SendFile?
  {
    ServesPublishedArtifact(month);
    StagingKeepsResponse(fs, month, month, entries);
  }

  /** A run that publishes nothing, or whose writer fails, leaves every
      month's response as it was. */
  lemma StagingKeepsResponse(fs: map<Path, Contents>, month: nat, month': int, entries: map<string, Contents>)
    ensures GetMonthlyAggregated(ReplaceTree(fs, Preprocessing.StagingDir(month'), entries), month)
         == GetMonthlyAggregated(fs, month)
  {
    ServesPublishedArtifact(month);
    Preprocessing.StagingLeavesArtifact(fs, month, month', entries);
  }
}
