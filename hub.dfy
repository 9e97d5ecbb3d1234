/** How both scripts address their Deep Lake dataset on the hosted hub. */
module Hub {
  import opened Wrappers

  const SCHEME := "hub://"

  /** The dataset path `hub://<org id>/<dataset name>`. */
  function DatasetPath(orgId: string, datasetName: string): (p: string)
    ensures |p| == |SCHEME| + |orgId| + 1 + |datasetName|
    ensures p[..|SCHEME|] == SCHEME
    ensures p[|SCHEME|..|SCHEME| + |orgId|] == orgId
    ensures p[|SCHEME| + |orgId|] == '/'
    ensures p[|SCHEME| + |orgId| + 1..] == datasetName
  {
    SCHEME + orgId + "/" + datasetName
  }

  /** The index of the first `/` in `s`, or -1 when `s` has none. */
  function FirstSlash(s: string): (r: int)
    ensures -1 <= r < |s|
    ensures r >= 0 ==> s[r] == '/'
    ensures forall i :: 0 <= i < |s| && (r < 0 || i < r) ==> s[i] != '/'
  {
    if s == [] then -1
    else if s[0] == '/' then 0
    else var k := FirstSlash(s[1..]); if k < 0 then -1 else k + 1
  }

  /**
   * Reads an org id and a dataset name back out of a path: the org id runs
   * up to the first `/` after the scheme.
   */
  function ParseDatasetPath(p: string): Option<(string, string)>
  {
    if |p| < |SCHEME| || p[..|SCHEME|] != SCHEME then None
    else
      var rest := p[|SCHEME|..];
      var k := FirstSlash(rest);
      if k < 0 then None else Some((rest[..k], rest[k + 1..]))
  }

  /** An org id without `/` is recovered, with the dataset name, from its path. */
  lemma DatasetPathRoundTrip(orgId: string, datasetName: string)
    requires '/' !in orgId
    ensures ParseDatasetPath(DatasetPath(orgId, datasetName)) == Some((orgId, datasetName))
  {
    var p := DatasetPath(orgId, datasetName);
    var rest := p[|SCHEME|..];
    assert rest == orgId + "/" + datasetName;
    assert rest[|orgId|] == '/';
    assert forall i :: 0 <= i < |orgId| ==> rest[i] == orgId[i];
    assert FirstSlash(rest) == |orgId|;
    assert rest[..|orgId|] == orgId;
    assert rest[|orgId| + 1..] == datasetName;
  }

  /** Two org ids without `/` name the same dataset only when both parts agree. */
  lemma DatasetPathInjective(org1: string, name1: string, org2: string, name2: string)
    requires '/' !in org1 && '/' !in org2
    requires DatasetPath(org1, name1) == DatasetPath(org2, name2)
    ensures org1 == org2 && name1 == name2
  {
    DatasetPathRoundTrip(org1, name1);
    DatasetPathRoundTrip(org2, name2);
  }

  /** With a `/` inside the org id, different pairs share one path. */
  lemma DatasetPathAmbiguous()
    ensures DatasetPath("a/b", "c") == DatasetPath("a", "b/c")
  {
  }
}
