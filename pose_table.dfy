/** The wide pose table that `pd.read_csv` produces, and the column selection shared by
    `VelocityCalculator._convert_csv` and `clean_data.Convert_CSV`: for every listed landmark
    that has an `x` column, the lower-cased landmark name maps to the coordinate columns of that
    landmark that exist. */
module PoseTable {
  import opened Wrappers
  import opened Dicts

  /** A CSV table: column name to column values. */
  type Table = map<string, seq<real>>

  /** A landmark's coordinates: axis name (`"x"`, `"y"`, `"z"`) to values. */
  type Coords = map<string, seq<real>>

  /** Every column of a data frame has the same number of rows. */
  ghost predicate Rectangular(table: Table)
  {
    forall a, b :: a in table && b in table ==> |table[a]| == |table[b]|
  }

  /** The three axis names, in the order the comprehension visits them. */
  const Axes: seq<string> := ["x", "y", "z"]

  /** The column of axis `coord` of landmark `landmark`, `f'{coord}_world_{landmark}'`. */
  function ColumnName(coord: string, landmark: string): string
  {
    coord + "_world_" + landmark
  }

  /** `str.lower` on one character of the ASCII range. */
  function LowerChar(c: char): char
  {
    if 'A' <= c <= 'Z' then (c as int + 32) as char else c
  }

  /** `str.lower` on ASCII text. */
  function Lower(s: string): (r: string)
    ensures |r| == |s|
    ensures forall i :: 0 <= i < |s| ==> r[i] == LowerChar(s[i])
  {
    seq(|s|, i requires 0 <= i < |s| => LowerChar(s[i]))
  }

  /** A landmark name as the pose estimator spells it: upper-case letters and underscores. */
  ghost predicate IsLandmarkName(s: string)
  {
    forall i :: 0 <= i < |s| ==> 'A' <= s[i] <= 'Z' || s[i] == '_'
  }

  /** Lower-casing does not merge two landmark names. */
  lemma LowerInjective(a: string, b: string)
    requires IsLandmarkName(a) && IsLandmarkName(b)
    requires Lower(a) == Lower(b)
    ensures a == b
  {
    forall i | 0 <= i < |a|
      ensures a[i] == b[i]
    {
      assert LowerChar(a[i]) == LowerChar(b[i]);
    }
  }

  /** The inner comprehension: the axes of `landmark` whose columns exist, with their values. */
  function CoordsOf(table: Table, landmark: string): (c: Coords)
    ensures forall a :: a in c <==> a in Axes && ColumnName(a, landmark) in table
    ensures forall a :: a in c ==> c[a] == table[ColumnName(a, landmark)]
  {
    map a | a in {"x", "y", "z"} && ColumnName(a, landmark) in table :: table[ColumnName(a, landmark)]
  }

  /** The outer comprehension: for each landmark of `landmarks`, in order, that has an `x`
      column, the lower-cased name and the landmark's coordinates. */
  function SelectLandmarks(table: Table, landmarks: seq<string>): (r: seq<Item<Coords>>)
    ensures |r| <= |landmarks|
  {
    if landmarks == [] then []
    else
      var l := landmarks[0];
      (if ColumnName("x", l) in table then [Item(Lower(l), CoordsOf(table, l))] else [])
      + SelectLandmarks(table, landmarks[1..])
  }

  /** Landmark lists the selection is used with: distinct landmark names. */
  ghost predicate IsLandmarkList(landmarks: seq<string>)
  {
    && (forall i :: 0 <= i < |landmarks| ==> IsLandmarkName(landmarks[i]))
    && (forall i, j :: 0 <= i < j < |landmarks| ==> landmarks[i] != landmarks[j])
  }

  /** Every selected entry comes from a listed landmark that has an `x` column. */
  lemma {:induction false} SelectedEntries(table: Table, landmarks: seq<string>, k: nat)
    requires k < |SelectLandmarks(table, landmarks)|
    ensures exists i ::
              && 0 <= i < |landmarks|
              && ColumnName("x", landmarks[i]) in table
              && SelectLandmarks(table, landmarks)[k] == Item(Lower(landmarks[i]), CoordsOf(table, landmarks[i]))
  {
    var l := landmarks[0];
    var head := if ColumnName("x", l) in table then [Item(Lower(l), CoordsOf(table, l))] else [];
    var rest := SelectLandmarks(table, landmarks[1..]);
    assert SelectLandmarks(table, landmarks) == head + rest;
    if k < |head| {
      assert SelectLandmarks(table, landmarks)[k] == head[0];
    } else {
      SelectedEntries(table, landmarks[1..], k - |head|);
      var i :| 0 <= i < |landmarks[1..]| && ColumnName("x", landmarks[1..][i]) in table
        && rest[k - |head|] == Item(Lower(landmarks[1..][i]), CoordsOf(table, landmarks[1..][i]));
      assert landmarks[1..][i] == landmarks[i + 1];
    }
  }

  /** A key that is not the lower-cased name of a listed landmark is absent. */
  lemma UnlistedKeyAbsent(table: Table, landmarks: seq<string>, k: string)
    requires forall i :: 0 <= i < |landmarks| ==> Lower(landmarks[i]) != k
    ensures Lookup(SelectLandmarks(table, landmarks), k) == None
  {
    var r := SelectLandmarks(table, landmarks);
    forall j | 0 <= j < |r|
      ensures r[j].key != k
    {
      SelectedEntries(table, landmarks, j);
    }
  }

  /** Landmark `l` of the list appears, under its lower-cased name, exactly when the table has
      its `x` column, and then it carries the landmark's coordinates. */
  lemma {:induction false} SelectedLookup(table: Table, landmarks: seq<string>, l: string)
    requires IsLandmarkList(landmarks) && l in landmarks
    ensures Lookup(SelectLandmarks(table, landmarks), Lower(l))
         == if ColumnName("x", l) in table then Some(CoordsOf(table, l)) else None
  {
    var l0 := landmarks[0];
    var head := if ColumnName("x", l0) in table then [Item(Lower(l0), CoordsOf(table, l0))] else [];
    var rest := SelectLandmarks(table, landmarks[1..]);
    assert SelectLandmarks(table, landmarks) == head + rest;
    LookupAppend(head, rest, Lower(l));
    if l0 == l {
      forall i | 0 <= i < |landmarks[1..]|
        ensures Lower(landmarks[1..][i]) != Lower(l)
      {
        assert landmarks[1..][i] == landmarks[i + 1];
        if Lower(landmarks[i + 1]) == Lower(l) {
          LowerInjective(landmarks[i + 1], l);
        }
      }
      UnlistedKeyAbsent(table, landmarks[1..], Lower(l));
    } else {
      if Lower(l0) == Lower(l) {
        LowerInjective(l0, l);
      }
      assert l in landmarks[1..];
      SelectedLookup(table, landmarks[1..], l);
    }
  }

  /** The selected keys are distinct. */
  lemma {:induction false} SelectedKeysDistinct(table: Table, landmarks: seq<string>)
    requires IsLandmarkList(landmarks)
    ensures DistinctKeys(SelectLandmarks(table, landmarks))
  {
    if landmarks != [] {
      var l0 := landmarks[0];
      var head := if ColumnName("x", l0) in table then [Item(Lower(l0), CoordsOf(table, l0))] else [];
      var rest := SelectLandmarks(table, landmarks[1..]);
      assert SelectLandmarks(table, landmarks) == head + rest;
      SelectedKeysDistinct(table, landmarks[1..]);
      forall k | 0 <= k < |rest|
        ensures rest[k].key != Lower(l0)
      {
        SelectedEntries(table, landmarks[1..], k);
        var i :| 0 <= i < |landmarks[1..]| && rest[k] == Item(Lower(landmarks[1..][i]), CoordsOf(table, landmarks[1..][i]));
        assert landmarks[1..][i] == landmarks[i + 1];
        if rest[k].key == Lower(l0) {
          LowerInjective(landmarks[i + 1], l0);
        }
      }
    }
  }

  /** `t1` and `t2` have the same columns, with the same values, for every axis of every listed
      landmark; they may differ anywhere else. */
  ghost predicate AgreeOnLandmarks(t1: Table, t2: Table, landmarks: seq<string>)
  {
    forall i, a :: 0 <= i < |landmarks| && a in Axes ==>
      && (ColumnName(a, landmarks[i]) in t1 <==> ColumnName(a, landmarks[i]) in t2)
      && (ColumnName(a, landmarks[i]) in t1 ==> t1[ColumnName(a, landmarks[i])] == t2[ColumnName(a, landmarks[i])])
  }

  /** The selection reads no column other than the axis columns of the listed landmarks. */
  lemma {:induction false} SelectIgnoresOtherColumns(t1: Table, t2: Table, landmarks: seq<string>)
    requires AgreeOnLandmarks(t1, t2, landmarks)
    ensures SelectLandmarks(t1, landmarks) == SelectLandmarks(t2, landmarks)
  {
    if landmarks != [] {
      var l := landmarks[0];
      assert "x" in Axes && "y" in Axes && "z" in Axes;
      assert CoordsOf(t1, l) == CoordsOf(t2, l);
      assert AgreeOnLandmarks(t1, t2, landmarks[1..]) by {
        forall i, a | 0 <= i < |landmarks[1..]| && a in Axes
          ensures ColumnName(a, landmarks[1..][i]) in t1 <==> ColumnName(a, landmarks[1..][i]) in t2
          ensures ColumnName(a, landmarks[1..][i]) in t1 ==>
            t1[ColumnName(a, landmarks[1..][i])] == t2[ColumnName(a, landmarks[1..][i])]
        {
          assert landmarks[1..][i] == landmarks[i + 1];
        }
      }
      SelectIgnoresOtherColumns(t1, t2, landmarks[1..]);
    }
  }

  /** Every selected landmark's axes have equal lengths, as in any data frame. */
  ghost predicate AxesAligned(pose: seq<Item<Coords>>)
  {
    forall i :: 0 <= i < |pose| ==> Rectangular(pose[i].value)
  }

  /** The columns of one data frame have equal lengths, so the selected axes do too. */
  lemma SelectionOfRectangularIsAligned(table: Table, landmarks: seq<string>)
    requires Rectangular(table)
    ensures AxesAligned(SelectLandmarks(table, landmarks))
  {
    var r := SelectLandmarks(table, landmarks);
    forall k | 0 <= k < |r|
      ensures Rectangular(r[k].value)
    {
      SelectedEntries(table, landmarks, k);
    }
  }
}
