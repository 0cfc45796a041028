/** The landmark names the velocity calculator selects from the pose table. */
module Constants {
  import opened PoseTable

  /** `KEY_LANDMARKS`: the shoulders, wrists and ankles (elbows, hips and knees are not
      selected). */
  const KeyLandmarks: seq<string> :=
    ["RIGHT_SHOULDER", "RIGHT_WRIST", "LEFT_SHOULDER", "LEFT_WRIST", "RIGHT_ANKLE", "LEFT_ANKLE"]

  /** The six names are distinct landmark names, so lower-casing keeps them apart. */
  lemma KeyLandmarksAreDistinctNames()
    ensures IsLandmarkList(KeyLandmarks)
  {
    assert forall i :: 0 <= i < |KeyLandmarks| ==> IsLandmarkName(KeyLandmarks[i]) by {
      forall i | 0 <= i < |KeyLandmarks|
        ensures IsLandmarkName(KeyLandmarks[i])
      {
      }
    }
  }
}
