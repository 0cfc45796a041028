/** `clean_data.Convert_CSV`: the column selection over its own, longer landmark list. */
module CleanData {
  import opened Wrappers
  import opened Dicts
  import opened PoseTable

  /** The twelve landmarks `Convert_CSV` selects: shoulders, elbows, wrists, hips, knees and
      ankles, right before left. */
  const CleanLandmarks: seq<string> := [
    "RIGHT_SHOULDER", "RIGHT_ELBOW", "RIGHT_WRIST", "LEFT_SHOULDER", "LEFT_ELBOW", "LEFT_WRIST",
    "RIGHT_HIP", "RIGHT_KNEE", "RIGHT_ANKLE", "LEFT_HIP", "LEFT_KNEE", "LEFT_ANKLE"]

  /** The twelve names are distinct landmark names, so lower-casing keeps them apart. */
  lemma CleanLandmarksAreDistinctNames()
    ensures IsLandmarkList(CleanLandmarks)
  {
    assert forall i :: 0 <= i < |CleanLandmarks| ==> IsLandmarkName(CleanLandmarks[i]) by {
      forall i | 0 <= i < |CleanLandmarks|
        ensures IsLandmarkName(CleanLandmarks[i])
      {
      }
    }
  }

  /** `Convert_CSV` on the table that `pd.read_csv` returns. A listed landmark is present,
      under its lower-cased name, exactly when its `x` column exists, and then holds just the
      axes whose columns exist, with the column values unchanged; no other key is present, no
      key repeats, and there are at most twelve entries. */
  function ConvertCsv(table: Table): (pose: seq<Item<Coords>>)
    ensures |pose| <= 12
    ensures DistinctKeys(pose)
    ensures forall i :: 0 <= i < |CleanLandmarks| ==>
      Lookup(pose, Lower(CleanLandmarks[i]))
        == if ColumnName("x", CleanLandmarks[i]) in table then Some(CoordsOf(table, CleanLandmarks[i])) else None
    ensures forall k :: (forall i :: 0 <= i < |CleanLandmarks| ==> Lower(CleanLandmarks[i]) != k) ==>
      Lookup(pose, k) == None
  {
    var pose := SelectLandmarks(table, CleanLandmarks);
    CleanLandmarksAreDistinctNames();
    SelectedKeysDistinct(table, CleanLandmarks);
    forall i | 0 <= i < |CleanLandmarks|
      ensures Lookup(pose, Lower(CleanLandmarks[i]))
        == if ColumnName("x", CleanLandmarks[i]) in table then Some(CoordsOf(table, CleanLandmarks[i])) else None
    {
      SelectedLookup(table, CleanLandmarks, CleanLandmarks[i]);
    }
    forall k | forall i :: 0 <= i < |CleanLandmarks| ==> Lower(CleanLandmarks[i]) != k
      ensures Lookup(pose, k) == None
    {
      UnlistedKeyAbsent(table, CleanLandmarks, k);
    }
    pose
  }

  /** Columns that belong to none of the twelve landmarks do not affect the result. */
  lemma ConvertCsvIgnoresOtherColumns(t1: Table, t2: Table)
    requires AgreeOnLandmarks(t1, t2, CleanLandmarks)
    ensures ConvertCsv(t1) == ConvertCsv(t2)
  {
    SelectIgnoresOtherColumns(t1, t2, CleanLandmarks);
  }
}
