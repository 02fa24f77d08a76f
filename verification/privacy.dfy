/** Classification of a metadata record into privacy-risk categories. */
module Privacy {
  import opened Wrappers
  import opened Storage
  import opened Exif

  const GpsIssue := "GPS location data found"
  const DeviceIssue := "Camera/device information found"
  const SoftwareIssue := "Software information found"
  const TimestampIssue := "Timestamp information found"
  const AuthorIssue := "Author/copyright information found"

  /** The categories in reporting order. */
  const IssueOrder: seq<string> := [GpsIssue, DeviceIssue, SoftwareIssue, TimestampIssue, AuthorIssue]

  /** The tags each category looks at, in the same order. */
  const CategoryTags: seq<seq<string>> := [
    ["GPS", "GPSLatitude", "GPSLongitude"],
    ["Make", "Model"],
    ["Software"],
    ["DateTime", "DateTimeOriginal", "DateTimeDigitized"],
    ["Artist", "Copyright"]
  ]

  /** Category `k` is triggered: one of its tags holds a truthy value. */
  predicate Fires(rec: Record, k: nat)
    requires k < |CategoryTags|
  {
    exists name :: name in CategoryTags[k] && Truthy(Get(rec, name))
  }

  /** The five categories spelled out tag by tag. */
  lemma FiresByName(rec: Record)
    ensures Fires(rec, 0) == (Truthy(Get(rec, "GPS")) || Truthy(Get(rec, "GPSLatitude")) || Truthy(Get(rec, "GPSLongitude")))
    ensures Fires(rec, 1) == (Truthy(Get(rec, "Make")) || Truthy(Get(rec, "Model")))
    ensures Fires(rec, 2) == Truthy(Get(rec, "Software"))
    ensures Fires(rec, 3) == (Truthy(Get(rec, "DateTime")) || Truthy(Get(rec, "DateTimeOriginal"))
                              || Truthy(Get(rec, "DateTimeDigitized")))
    ensures Fires(rec, 4) == (Truthy(Get(rec, "Artist")) || Truthy(Get(rec, "Copyright")))
  {
    assert "GPS" in CategoryTags[0] && "GPSLatitude" in CategoryTags[0] && "GPSLongitude" in CategoryTags[0];
    assert "Make" in CategoryTags[1] && "Model" in CategoryTags[1];
    assert "Software" in CategoryTags[2];
    assert "DateTime" in CategoryTags[3] && "DateTimeOriginal" in CategoryTags[3] && "DateTimeDigitized" in CategoryTags[3];
    assert "Artist" in CategoryTags[4] && "Copyright" in CategoryTags[4];
  }

  /** Position of an issue in the reporting order, -1 for any other text. */
  function IssueRank(issue: string): int {
    if issue == GpsIssue then 0
    else if issue == DeviceIssue then 1
    else if issue == SoftwareIssue then 2
    else if issue == TimestampIssue then 3
    else if issue == AuthorIssue then 4
    else -1
  }

  lemma IssueRankOfOrder()
    ensures forall k :: 0 <= k < 5 ==> IssueRank(IssueOrder[k]) == k
  {
  }

  /** Lists the messages of the triggered categories from category `k` on, in order. */
  function Collect(fired: seq<bool>, k: nat): (issues: seq<string>)
    requires |fired| == 5 && k <= 5
    ensures forall j :: k <= j < 5 ==> (IssueOrder[j] in issues <==> fired[j])
    ensures forall i :: 0 <= i < |issues| ==> k <= IssueRank(issues[i]) < 5
    ensures forall i, j :: 0 <= i < j < |issues| ==> IssueRank(issues[i]) < IssueRank(issues[j])
    ensures |issues| <= 5 - k
    decreases 5 - k
  {
    if k == 5 then []
    else
      IssueRankOfOrder();
      var rest := Collect(fired, k + 1);
      if fired[k] then [IssueOrder[k]] + rest else rest
  }

  lemma FiredFlags(rec: Record, fired: seq<bool>)
    requires fired == [
      Truthy(Get(rec, "GPS")) || Truthy(Get(rec, "GPSLatitude")) || Truthy(Get(rec, "GPSLongitude")),
      Truthy(Get(rec, "Make")) || Truthy(Get(rec, "Model")),
      Truthy(Get(rec, "Software")),
      Truthy(Get(rec, "DateTime")) || Truthy(Get(rec, "DateTimeOriginal")) || Truthy(Get(rec, "DateTimeDigitized")),
      Truthy(Get(rec, "Artist")) || Truthy(Get(rec, "Copyright"))]
    ensures forall k :: 0 <= k < 5 ==> fired[k] == Fires(rec, k)
  {
    FiresByName(rec);
    forall k | 0 <= k < 5
      ensures fired[k] == Fires(rec, k)
    {
      if k == 0 {} else if k == 1 {} else if k == 2 {} else if k == 3 {} else {}
    }
  }

  /**
   * The five independent rules of the privacy check: one issue per triggered
   * category, never one per tag, listed in category order.
   */
  function Classify(rec: Record): (issues: seq<string>)
    ensures forall k :: 0 <= k < 5 ==> (IssueOrder[k] in issues <==> Fires(rec, k))
    ensures forall i :: 0 <= i < |issues| ==> IssueRank(issues[i]) >= 0
    ensures forall i, j :: 0 <= i < j < |issues| ==> IssueRank(issues[i]) < IssueRank(issues[j])
    ensures |issues| <= 5
  {
    var gps := Truthy(Get(rec, "GPS")) || Truthy(Get(rec, "GPSLatitude")) || Truthy(Get(rec, "GPSLongitude"));
    var device := Truthy(Get(rec, "Make")) || Truthy(Get(rec, "Model"));
    var software := Truthy(Get(rec, "Software"));
    var timestamp := Truthy(Get(rec, "DateTime")) || Truthy(Get(rec, "DateTimeOriginal"))
                     || Truthy(Get(rec, "DateTimeDigitized"));
    var author := Truthy(Get(rec, "Artist")) || Truthy(Get(rec, "Copyright"));
    var fired := [gps, device, software, timestamp, author];
    FiredFlags(rec, fired);
    Collect(fired, 0)
  }

  /** The result of `checkImagePrivacy`; `exifKeys` is absent when there was no record. */
  datatype PrivacyReport = PrivacyReport(hasSensitiveData: bool, issues: seq<string>, exifKeys: Option<seq<string>>)

  /** The report for a record, or for its absence. */
  function Analyze(exif: Option<Record>): (report: PrivacyReport)
    ensures report.hasSensitiveData <==> |report.issues| > 0
    ensures exif.None? ==> report == PrivacyReport(false, [], None)
    ensures exif.Some? ==> report.issues == Classify(exif.value) && report.exifKeys == Some(Keys(exif.value))
  {
    match exif
    case None => PrivacyReport(false, [], None)
    case Some(rec) =>
      var issues := Classify(rec);
      PrivacyReport(|issues| > 0, issues, Some(Keys(rec)))
  }

  /** `checkImagePrivacy(path)`: read the record, then classify it. */
  function CheckImagePrivacy(parse: Bytes -> ParseOutcome, fs: Files, path: string): (report: PrivacyReport)
    ensures report.hasSensitiveData <==> |report.issues| > 0
    ensures report.hasSensitiveData ==> ReadImageExif(parse, fs, path).Some?
  {
    Analyze(ReadImageExif(parse, fs, path))
  }

  /**
   * A record with camera, software, timestamp and author tags but no GPS tag
   * gives exactly four issues, however many tags back each category.
   */
  lemma FourCategoriesWithoutGps(rec: Record)
    requires !Fires(rec, 0)
    requires Truthy(Get(rec, "Make")) && Truthy(Get(rec, "Model"))
    requires Truthy(Get(rec, "Software"))
    requires Truthy(Get(rec, "DateTime"))
    requires Truthy(Get(rec, "Artist")) && Truthy(Get(rec, "Copyright"))
    ensures Classify(rec) == [DeviceIssue, SoftwareIssue, TimestampIssue, AuthorIssue]
  {
    FiresByName(rec);
    var fired := [false, true, true, true, true];
    assert Classify(rec) == Collect(fired, 0);
    assert Collect(fired, 4) == [AuthorIssue];
    assert Collect(fired, 3) == [TimestampIssue, AuthorIssue];
    assert Collect(fired, 2) == [SoftwareIssue, TimestampIssue, AuthorIssue];
  }
}
