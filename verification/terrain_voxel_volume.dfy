/** `TerrainVoxelVolume`: a cube of voxels stored as one run-length encoded
    row per `(x, y)` column, each row holding the `z` direction. A run is a
    16-bit length followed by an 8-bit value, three bytes in all. The rows
    are modelled as sequences of runs; the byte buffer behind them appears
    only in the run encoding and in the sizes it occupies and has allocated. */
module TerrainVoxelVolume {
  import opened TerrainTypes

  /** `RLERunSize`: `sizeof(RunLengthT) + sizeof(i8)`. */
  const RunSize: nat := 3

  /** `EncodedDataRowMaxSize`: the largest length a `u16` run can hold. */
  const EncodedDataRowMaxSize: nat := 65535

  /** The bytes each row's buffer starts with. */
  const InitialAllocationSize: nat := 32

  /** `RLEByteArray::Run`. */
  datatype Run = Run(length: nat, value: i8)

  // ---------------------------------------------------------------------
  // Runs and the voxels they stand for

  /** `n` copies of `v`. */
  function Repeat(v: i8, n: nat): (s: seq<i8>)
    ensures |s| == n && forall i :: 0 <= i < n ==> s[i] == v
  {
    seq(n, _ => v)
  }

  /** The number of voxels the runs encode. */
  function Total(runs: seq<Run>): nat {
    if |runs| == 0 then 0 else runs[0].length + Total(runs[1..])
  }

  /** The voxels the runs encode, in order. */
  function Expand(runs: seq<Run>): seq<i8> {
    if |runs| == 0 then [] else Repeat(runs[0].value, runs[0].length) + Expand(runs[1..])
  }

  lemma {:induction false} ExpandLength(runs: seq<Run>)
    ensures |Expand(runs)| == Total(runs)
  {
    if |runs| > 0 {
      ExpandLength(runs[1..]);
    }
  }

  lemma {:induction false} ExpandAppend(a: seq<Run>, b: seq<Run>)
    ensures Expand(a + b) == Expand(a) + Expand(b)
    ensures Total(a + b) == Total(a) + Total(b)
  {
    if |a| == 0 {
      assert a + b == b;
    } else {
      assert (a + b)[1..] == a[1..] + b;
      ExpandAppend(a[1..], b);
    }
  }

  /** The run holding voxel `z` and the voxel's offset inside it. */
  function Locate(runs: seq<Run>, z: nat): (r: (nat, nat))
    requires z < Total(runs)
    ensures r.0 < |runs| && r.1 < runs[r.0].length
    ensures z == Total(runs[..r.0]) + r.1
  {
    if z < runs[0].length then (0, z)
    else
      var r := Locate(runs[1..], z - runs[0].length);
      assert runs[..r.0 + 1] == [runs[0]] + runs[1..][..r.0];
      ExpandAppend([runs[0]], runs[1..][..r.0]);
      (r.0 + 1, r.1)
  }

  /** The runs before, at and after position `j` expand one after another. */
  lemma ExpandAround(runs: seq<Run>, j: nat)
    requires j < |runs|
    ensures Expand(runs) == Expand(runs[..j]) + Repeat(runs[j].value, runs[j].length) + Expand(runs[j + 1..])
    ensures |Expand(runs[..j])| == Total(runs[..j])
  {
    assert runs == runs[..j] + ([runs[j]] + runs[j + 1..]);
    ExpandAppend(runs[..j], [runs[j]] + runs[j + 1..]);
    ExpandAppend([runs[j]], runs[j + 1..]);
    assert Expand([runs[j]]) == Repeat(runs[j].value, runs[j].length) by {
      assert [runs[j]][1..] == [];
    }
    ExpandLength(runs[..j]);
  }

  /** Voxel `z` has the value of the run `Locate` finds. */
  lemma LocateIsExpand(runs: seq<Run>, z: nat)
    requires z < Total(runs)
    ensures z < |Expand(runs)| && Expand(runs)[z] == runs[Locate(runs, z).0].value
  {
    var (j, o) := Locate(runs, z);
    ExpandAround(runs, j);
    ExpandLength(runs);
  }

  // ---------------------------------------------------------------------
  // Rows

  /** `RLEByteArray`: the runs, the bytes allocated and the bytes in use. */
  datatype Row = Row(runs: seq<Run>, allocatedLength: nat, occupiedLength: nat)

  /** What a row is meant to keep: runs of positive length, three bytes in
      use per run, no more in use than allocated, at least the initial
      allocation, and a voxel count a `u16` can hold. */
  predicate WellFormedRow(row: Row) {
    && (forall i :: 0 <= i < |row.runs| ==> row.runs[i].length > 0)
    && row.occupiedLength == RunSize * |row.runs|
    && row.occupiedLength <= row.allocatedLength
    && row.allocatedLength >= InitialAllocationSize
    && Total(row.runs) <= EncodedDataRowMaxSize
  }

  /** A row as `InitializeArrays` leaves it: one run of `dims` copies of the
      initial value, in a fresh 32-byte buffer. */
  function InitialRow(dims: nat, initialValue: i8): (row: Row)
    requires 0 < dims <= EncodedDataRowMaxSize
    ensures WellFormedRow(row)
    ensures Expand(row.runs) == Repeat(initialValue, dims)
  {
    var runs := [Run(dims, initialValue)];
    assert runs[1..] == [];
    Row(runs, InitialAllocationSize, RunSize)
  }

  // ---------------------------------------------------------------------
  // Reading a voxel

  /** `RLEByteArray::GetValue` as written: the value of the first run at
      whose end the running total is at least the coordinate. A coordinate
      on the boundary between two runs gets the earlier run's value. */
  function GetValueAsWritten(runs: seq<Run>, z: nat, travelled: nat): (r: Option<i8>)
    ensures r.Some? <==> |runs| > 0 && z <= travelled + Total(runs)
    ensures r.Some? ==> exists i :: 0 <= i < |runs| && r.value == runs[i].value
    decreases |runs|
  {
    if |runs| == 0 then None
    else if travelled + runs[0].length >= z then Some(runs[0].value)
    else GetValueAsWritten(runs[1..], z, travelled + runs[0].length)
  }

  /** The two runs `(2, 5), (3, 7)` stand for `5 5 7 7 7`; voxel 2 is 7,
      but the running total after the first run is already 2. */
  lemma GetValueBoundaryCounterexample()
    ensures var runs := [Run(2, 5), Run(3, 7)];
      && Expand(runs) == [5, 5, 7, 7, 7]
      && GetValueAsWritten(runs, 2, 0) == Some(5)
  {
    var runs := [Run(2, 5), Run(3, 7)];
    assert runs[1..][1..] == [];
    assert Expand(runs[1..]) == [7, 7, 7];
  }

  /** What the read as written returns: the voxel's own run, except on the
      first voxel of any run but the first, where it returns the previous
      run's value. */
  lemma {:induction false} GetValueAsWrittenReads(runs: seq<Run>, z: nat, travelled: nat)
    requires PositiveRuns(runs) && travelled <= z < travelled + Total(runs)
    ensures var (j, o) := Locate(runs, z - travelled);
      GetValueAsWritten(runs, z, travelled) == Some(if o == 0 && j > 0 then runs[j - 1].value else runs[j].value)
    decreases |runs|
  {
    if z - travelled >= runs[0].length {
      var rest := runs[1..];
      assert PositiveRuns(rest) by {
        forall i | 0 <= i < |rest| ensures rest[i].length > 0 {
          assert rest[i] == runs[i + 1];
        }
      }
      if z - travelled > runs[0].length {
        GetValueAsWrittenReads(rest, z, travelled + runs[0].length);
      } else {
        assert rest[0] == runs[1];
      }
    }
  }

  /** `RLEByteArray::GetValue` with the strict comparison: walk the runs,
      adding up their lengths, and return the value of the first run whose
      end lies past the coordinate. */
  method GetValue(row: Row, z: nat) returns (v: i8)
    requires WellFormedRow(row) && z < Total(row.runs)
    ensures z < |Expand(row.runs)| && v == Expand(row.runs)[z]
  {
    var runs := row.runs;
    assert runs[..|runs|] == runs;
    var travelled := 0;
    var i := 0;
    while true
      invariant 0 <= i < |runs|
      invariant travelled == Total(runs[..i]) && travelled <= z
      decreases |runs| - i
    {
      ExpandAppend(runs[..i], [runs[i]]);
      assert runs[..i + 1] == runs[..i] + [runs[i]];
      assert [runs[i]][1..] == [];
      if travelled + runs[i].length > z {
        AtRun(runs, i, z);
        return runs[i].value;
      }
      if i + 1 == |runs| {
        assert false;
      }
      travelled := travelled + runs[i].length;
      i := i + 1;
    }
  }

  /** A voxel between the start and end of run `i` has its value. */
  lemma AtRun(runs: seq<Run>, i: nat, z: nat)
    requires i < |runs| && Total(runs[..i]) <= z < Total(runs[..i]) + runs[i].length
    ensures z < |Expand(runs)| && Expand(runs)[z] == runs[i].value
  {
    ExpandAround(runs, i);
  }

  // ---------------------------------------------------------------------
  // Writing a voxel

  /** The runs left when the run at `j`, with the voxel at offset `o` set to
      `v`, is split into the part before, the voxel and the part after. */
  function SplitRun(run: Run, o: nat, v: i8): seq<Run>
    requires o < run.length
  {
    (if o > 0 then [Run(o, run.value)] else [])
    + [Run(1, v)]
    + (if run.length - o - 1 > 0 then [Run(run.length - o - 1, run.value)] else [])
  }

  /** `RLEByteArray::SetValue` on the runs, with the voxel located exactly:
      a run of one voxel takes the new value; a run already holding the
      value is left alone; a change at a run's first voxel moves one unit
      of length into the previous run when that holds the new value, and
      likewise at the last voxel with the next run; otherwise the run is
      split around the voxel. */
  function SetRuns(runs: seq<Run>, z: nat, v: i8): seq<Run>
    requires z < Total(runs)
  {
    var (j, o) := Locate(runs, z);
    var run := runs[j];
    if run.length == 1 then runs[j := Run(1, v)]
    else if run.value == v then runs
    else if o == 0 && j > 0 && runs[j - 1].value == v then
      runs[j - 1 := Run(runs[j - 1].length + 1, v)][j := Run(run.length - 1, run.value)]
    else if o == run.length - 1 && j + 1 < |runs| && runs[j + 1].value == v then
      runs[j := Run(run.length - 1, run.value)][j + 1 := Run(runs[j + 1].length + 1, v)]
    else
      runs[..j] + SplitRun(run, o, v) + runs[j + 1..]
  }

  /** Changing one element of the middle part of a concatenation. */
  lemma UpdateMiddle(p: seq<i8>, m: seq<i8>, s: seq<i8>, o: nat, v: i8)
    requires o < |m|
    ensures (p + m + s)[|p| + o := v] == p + m[o := v] + s
  {
  }

  /** Replacing the runs `a..b` by runs that expand to the same voxels with
      the one at offset `o` changed changes exactly voxel `z` of the row. */
  lemma WindowExpand(runs: seq<Run>, a: nat, b: nat, mid: seq<Run>, o: nat, z: nat, v: i8)
    requires a <= b <= |runs| && o < |Expand(runs[a..b])| && z == Total(runs[..a]) + o
    requires Expand(mid) == Expand(runs[a..b])[o := v]
    ensures z < |Expand(runs)|
    ensures Expand(runs[..a] + mid + runs[b..]) == Expand(runs)[z := v]
  {
    assert runs == runs[..a] + runs[a..b] + runs[b..];
    ExpandAppend(runs[..a] + runs[a..b], runs[b..]);
    ExpandAppend(runs[..a], runs[a..b]);
    ExpandAppend(runs[..a] + mid, runs[b..]);
    ExpandAppend(runs[..a], mid);
    ExpandLength(runs[..a]);
    UpdateMiddle(Expand(runs[..a]), Expand(runs[a..b]), Expand(runs[b..]), o, v);
  }

  lemma ExpandOne(r: Run)
    ensures Expand([r]) == Repeat(r.value, r.length)
  {
    assert [r][1..] == [];
  }

  lemma ExpandTwo(r: Run, t: Run)
    ensures Expand([r, t]) == Repeat(r.value, r.length) + Repeat(t.value, t.length)
  {
    assert [r, t] == [r] + [t];
    ExpandAppend([r], [t]);
    ExpandOne(r);
    ExpandOne(t);
  }

  /** Splitting a run around an offset gives its voxels with that one
      changed, in runs of positive length, at most three of them. */
  lemma SplitRunExpand(run: Run, o: nat, v: i8)
    requires o < run.length
    ensures Expand(SplitRun(run, o, v)) == Repeat(run.value, run.length)[o := v]
    ensures forall i :: 0 <= i < |SplitRun(run, o, v)| ==> SplitRun(run, o, v)[i].length > 0
    ensures |SplitRun(run, o, v)| <= 3
  {
    var before: seq<Run> := if o > 0 then [Run(o, run.value)] else [];
    var after: seq<Run> := if run.length - o - 1 > 0 then [Run(run.length - o - 1, run.value)] else [];
    ExpandAppend(before + [Run(1, v)], after);
    ExpandAppend(before, [Run(1, v)]);
    ExpandOne(Run(1, v));
    if o > 0 {
      ExpandOne(Run(o, run.value));
    }
    if run.length - o - 1 > 0 {
      ExpandOne(Run(run.length - o - 1, run.value));
    }
    assert Expand(before) == Repeat(run.value, o);
    assert Expand(after) == Repeat(run.value, run.length - o - 1);
    assert SplitRun(run, o, v) == before + [Run(1, v)] + after;
    RepeatUpdate(run.value, run.length, o, v);
  }

  /** A run of copies with one position changed is the copies before it,
      the new value and the copies after it. */
  lemma RepeatUpdate(x: i8, n: nat, o: nat, v: i8)
    requires o < n
    ensures Repeat(x, n)[o := v] == Repeat(x, o) + Repeat(v, 1) + Repeat(x, n - o - 1)
  {
    var lhs := Repeat(x, n)[o := v];
    var rhs := Repeat(x, o) + Repeat(v, 1) + Repeat(x, n - o - 1);
    assert |lhs| == |rhs|;
    forall i | 0 <= i < n
      ensures lhs[i] == rhs[i]
    {
      if i < o {
      } else if i == o {
      } else {
        assert rhs[i] == Repeat(x, n - o - 1)[i - o - 1];
      }
    }
  }

  /** Runs of positive length. */
  predicate PositiveRuns(runs: seq<Run>) {
    forall i :: 0 <= i < |runs| ==> runs[i].length > 0
  }

  /** `SetRuns` changes exactly voxel `z` to `v`, keeps every run non-empty
      and adds at most two runs. */
  lemma SetRunsIsUpdate(runs: seq<Run>, z: nat, v: i8)
    requires PositiveRuns(runs) && z < Total(runs)
    ensures z < |Expand(runs)|
    ensures Expand(SetRuns(runs, z, v)) == Expand(runs)[z := v]
    ensures PositiveRuns(SetRuns(runs, z, v))
    ensures |runs| <= |SetRuns(runs, z, v)| <= |runs| + 2
  {
    SetRunsCases(runs, z, v);
  }

  /** What `SetRunsIsUpdate` states of `r`, as one predicate for its
      cases. */
  ghost predicate UpdatesVoxel(runs: seq<Run>, z: nat, v: i8, r: seq<Run>) {
    && z < |Expand(runs)|
    && Expand(r) == Expand(runs)[z := v]
    && PositiveRuns(r)
    && |runs| <= |r| <= |runs| + 2
  }

  lemma SetRunsCases(runs: seq<Run>, z: nat, v: i8)
    requires PositiveRuns(runs) && z < Total(runs)
    ensures UpdatesVoxel(runs, z, v, SetRuns(runs, z, v))
  {
    var l := Locate(runs, z);
    var j, o := l.0, l.1;
    var run := runs[j];
    if run.length == 1 {
      SetRunsOneVoxel(runs, z, v);
    } else if run.value == v {
      SetRunsSameValue(runs, z, v);
    } else if o == 0 && j > 0 && runs[j - 1].value == v {
      SetRunsMergePrevious(runs, z, v);
    } else if o == run.length - 1 && j + 1 < |runs| && runs[j + 1].value == v {
      SetRunsMergeNext(runs, z, v);
    } else {
      SetRunsSplit(runs, z, v);
    }
  }

  lemma SetRunsOneVoxel(runs: seq<Run>, z: nat, v: i8)
    requires PositiveRuns(runs) && z < Total(runs)
    requires runs[Locate(runs, z).0].length == 1
    ensures UpdatesVoxel(runs, z, v, SetRuns(runs, z, v))
  {
    var l := Locate(runs, z);
    assert SetRuns(runs, z, v) == runs[l.0 := Run(1, v)];
    SetOneVoxelRun(runs, l.0, l.1, z, v);
  }

  lemma SetRunsSameValue(runs: seq<Run>, z: nat, v: i8)
    requires PositiveRuns(runs) && z < Total(runs)
    requires runs[Locate(runs, z).0].length != 1 && runs[Locate(runs, z).0].value == v
    ensures UpdatesVoxel(runs, z, v, SetRuns(runs, z, v))
  {
    assert SetRuns(runs, z, v) == runs;
    LocateIsExpand(runs, z);
    ExpandLength(runs);
    assert Expand(runs)[z := v] == Expand(runs);
  }

  lemma SetRunsMergePrevious(runs: seq<Run>, z: nat, v: i8)
    requires PositiveRuns(runs) && z < Total(runs)
    requires var l := Locate(runs, z);
      && runs[l.0].length != 1 && runs[l.0].value != v
      && l.1 == 0 && l.0 > 0 && runs[l.0 - 1].value == v
    ensures UpdatesVoxel(runs, z, v, SetRuns(runs, z, v))
  {
    var j := Locate(runs, z).0;
    assert SetRuns(runs, z, v) == runs[j - 1 := Run(runs[j - 1].length + 1, v)][j := Run(runs[j].length - 1, runs[j].value)];
    MergeIntoPrevious(runs, j, z, v);
  }

  lemma SetRunsMergeNext(runs: seq<Run>, z: nat, v: i8)
    requires PositiveRuns(runs) && z < Total(runs)
    requires var l := Locate(runs, z);
      && runs[l.0].length != 1 && runs[l.0].value != v
      && !(l.1 == 0 && l.0 > 0 && runs[l.0 - 1].value == v)
      && l.1 == runs[l.0].length - 1 && l.0 + 1 < |runs| && runs[l.0 + 1].value == v
    ensures UpdatesVoxel(runs, z, v, SetRuns(runs, z, v))
  {
    var l := Locate(runs, z);
    var j := l.0;
    assert SetRuns(runs, z, v) == runs[j := Run(runs[j].length - 1, runs[j].value)][j + 1 := Run(runs[j + 1].length + 1, v)];
    MergeIntoNext(runs, j, l.1, z, v);
  }

  lemma SetRunsSplit(runs: seq<Run>, z: nat, v: i8)
    requires PositiveRuns(runs) && z < Total(runs)
    requires var l := Locate(runs, z);
      && runs[l.0].length != 1 && runs[l.0].value != v
      && !(l.1 == 0 && l.0 > 0 && runs[l.0 - 1].value == v)
      && !(l.1 == runs[l.0].length - 1 && l.0 + 1 < |runs| && runs[l.0 + 1].value == v)
    ensures UpdatesVoxel(runs, z, v, SetRuns(runs, z, v))
  {
    var l := Locate(runs, z);
    var j, o := l.0, l.1;
    assert SetRuns(runs, z, v) == runs[..j] + SplitRun(runs[j], o, v) + runs[j + 1..];
    SplitInPlace(runs, j, o, z, v);
  }

  lemma SplitInPlace(runs: seq<Run>, j: nat, o: nat, z: nat, v: i8)
    requires PositiveRuns(runs) && j < |runs| && o < runs[j].length
    requires z == Total(runs[..j]) + o
    ensures z < |Expand(runs)|
    ensures var r := runs[..j] + SplitRun(runs[j], o, v) + runs[j + 1..];
      && Expand(r) == Expand(runs)[z := v]
      && PositiveRuns(r) && |runs| <= |r| <= |runs| + 2
  {
    var run := runs[j];
    var mid := SplitRun(run, o, v);
    SplitRunExpand(run, o, v);
    assert runs[j..j + 1] == [run];
    ExpandOne(run);
    WindowExpand(runs, j, j + 1, mid, o, z, v);
    var r := runs[..j] + mid + runs[j + 1..];
    forall i | 0 <= i < |r|
      ensures r[i].length > 0
    {
      if i < j {
        assert r[i] == runs[i];
      } else if i < j + |mid| {
        assert r[i] == mid[i - j];
      } else {
        assert r[i] == runs[i - |mid| + 1];
      }
    }
  }

  lemma SetOneVoxelRun(runs: seq<Run>, j: nat, o: nat, z: nat, v: i8)
    requires PositiveRuns(runs) && j < |runs| && runs[j].length == 1 && o == 0
    requires z == Total(runs[..j]) + o
    ensures z < |Expand(runs)|
    ensures Expand(runs[j := Run(1, v)]) == Expand(runs)[z := v]
    ensures PositiveRuns(runs[j := Run(1, v)])
  {
    assert runs[j..j + 1] == [runs[j]];
    ExpandOne(runs[j]);
    ExpandOne(Run(1, v));
    assert runs[j := Run(1, v)] == runs[..j] + [Run(1, v)] + runs[j + 1..];
    WindowExpand(runs, j, j + 1, [Run(1, v)], 0, z, v);
  }

  lemma MergeIntoPrevious(runs: seq<Run>, j: nat, z: nat, v: i8)
    requires PositiveRuns(runs) && 0 < j < |runs| && runs[j].length > 1 && runs[j - 1].value == v
    requires z == Total(runs[..j])
    ensures z < |Expand(runs)|
    ensures var r := runs[j - 1 := Run(runs[j - 1].length + 1, v)][j := Run(runs[j].length - 1, runs[j].value)];
      && Expand(r) == Expand(runs)[z := v]
      && PositiveRuns(r) && |r| == |runs|
  {
    var p := runs[j - 1];
    var run := runs[j];
    var mid := [Run(p.length + 1, v), Run(run.length - 1, run.value)];
    var r := runs[j - 1 := mid[0]][j := mid[1]];
    assert r == runs[..j - 1] + mid + runs[j + 1..];
    assert runs[j - 1..j + 1] == [p, run];
    ExpandTwo(p, run);
    ExpandTwo(mid[0], mid[1]);
    assert runs[..j] == runs[..j - 1] + [p];
    ExpandAppend(runs[..j - 1], [p]);
    ExpandOne(p);
    ExpandLength(runs[..j - 1]);
    assert Expand(mid) == Expand(runs[j - 1..j + 1])[p.length := v];
    WindowExpand(runs, j - 1, j + 1, mid, p.length, z, v);
  }

  lemma MergeIntoNext(runs: seq<Run>, j: nat, o: nat, z: nat, v: i8)
    requires PositiveRuns(runs) && j + 1 < |runs| && runs[j].length > 1 && runs[j + 1].value == v
    requires o == runs[j].length - 1 && z == Total(runs[..j]) + o
    ensures z < |Expand(runs)|
    ensures var r := runs[j := Run(runs[j].length - 1, runs[j].value)][j + 1 := Run(runs[j + 1].length + 1, v)];
      && Expand(r) == Expand(runs)[z := v]
      && PositiveRuns(r) && |r| == |runs|
  {
    var run := runs[j];
    var n := runs[j + 1];
    var mid := [Run(run.length - 1, run.value), Run(n.length + 1, v)];
    var r := runs[j := mid[0]][j + 1 := mid[1]];
    assert r == runs[..j] + mid + runs[j + 2..];
    assert runs[j..j + 2] == [run, n];
    ExpandTwo(run, n);
    ExpandTwo(mid[0], mid[1]);
    assert Expand(mid) == Expand(runs[j..j + 2])[o := v];
    WindowExpand(runs, j, j + 2, mid, o, z, v);
  }

  /** `RLEByteArray::SetValue` as written on the runs, walking from run `j`
      with `travelled` voxels behind it. It stops at the first run whose
      end is at least the coordinate, as the read does. A run of one voxel
      takes the new value. A run that already holds the value is passed
      over: the walk goes on and the next run, whose end is also at least
      the coordinate, is the one changed. Otherwise a change at the run's
      first voxel moves one unit of length into the previous run when
      that holds the new value. The check meant for the last voxel reads
      the found run's own value, which differs from the new one at that
      point, so it never merges. In every other case the found run loses
      one voxel and a one-voxel run of the new value is inserted after it,
      wherever the coordinate was. */
  function SetRunsAsWritten(runs: seq<Run>, z: nat, v: i8, j: nat, travelled: nat): (r: seq<Run>)
    requires PositiveRuns(runs) && j <= |runs|
    ensures |runs| <= |r| <= |runs| + 1
    ensures PositiveRuns(r)
    decreases |runs| - j
  {
    if j == |runs| then runs
    else
      var run := runs[j];
      var t := travelled + run.length;
      if t < z || (run.length != 1 && run.value == v) then
        SetRunsAsWritten(runs, z, v, j + 1, t)
      else if run.length == 1 then runs[j := Run(1, v)]
      else if t - z == run.length && j > 0 && runs[j - 1].value == v then
        runs[j - 1 := Run(runs[j - 1].length + 1, v)][j := Run(run.length - 1, run.value)]
      else
        runs[..j] + [Run(run.length - 1, run.value), Run(1, v)] + runs[j + 1..]
  }

  /** Writing the value a run already holds changes the run after it:
      `(3, 5), (1, 7)` is `5 5 5 7`, and setting voxel 0 to 5 as written
      gives `5 5 5 5`. The corrected write leaves the row alone. */
  lemma SameValueCounterexample()
    ensures var runs := [Run(3, 5), Run(1, 7)];
      && Expand(runs) == [5, 5, 5, 7]
      && SetRunsAsWritten(runs, 0, 5, 0, 0) == [Run(3, 5), Run(1, 5)]
      && Expand(SetRunsAsWritten(runs, 0, 5, 0, 0)) == [5, 5, 5, 5]
      && SetRuns(runs, 0, 5) == runs
  {
    var runs := [Run(3, 5), Run(1, 7)];
    assert runs[1..][1..] == [];
    assert Expand(runs[1..]) == [7];
    var r := [Run(3, 5), Run(1, 5)];
    assert r[1..][1..] == [];
    assert Expand(r[1..]) == [5];
    assert runs[..0] == [];
  }

  /** The split inserts the new voxel after the run, not at the coordinate:
      setting voxel 1 of `(5, 1)` to 9 gives `1 1 1 1 9` where `1 9 1 1 1`
      is meant. */
  lemma SplitPlacementCounterexample()
    ensures var runs := [Run(5, 1)];
      && SetRunsAsWritten(runs, 1, 9, 0, 0) == [Run(4, 1), Run(1, 9)]
      && Expand(SetRunsAsWritten(runs, 1, 9, 0, 0)) == [1, 1, 1, 1, 9]
      && Expand(SetRuns(runs, 1, 9)) == [1, 9, 1, 1, 1]
  {
    var runs := [Run(5, 1)];
    assert runs[..0] == [] && runs[1..] == [];
    var r := [Run(4, 1), Run(1, 9)];
    assert r[1..][1..] == [];
    assert Expand(r[1..]) == [9];
    SetRunsIsUpdate(runs, 1, 9);
    assert runs[1..] == [];
    assert Expand(runs) == [1, 1, 1, 1, 1];
  }

  // ---------------------------------------------------------------------
  // Writing a voxel of a row

  /** The row after a write, the buffer grown as it needs: the bytes in use
      follow the runs, and the allocation doubles when they would no longer
      fit. */
  function SetValue(row: Row, z: nat, v: i8): (r: Row)
    requires WellFormedRow(row) && z < Total(row.runs)
    ensures WellFormedRow(r)
    ensures z < |Expand(row.runs)| && Expand(r.runs) == Expand(row.runs)[z := v]
    ensures r.allocatedLength == row.allocatedLength || r.allocatedLength == 2 * row.allocatedLength
  {
    SetRunsIsUpdate(row.runs, z, v);
    ExpandLength(row.runs);
    var runs := SetRuns(row.runs, z, v);
    ExpandLength(runs);
    var occupied := RunSize * |runs|;
    var allocatedLength := if occupied > row.allocatedLength then 2 * row.allocatedLength else row.allocatedLength;
    Row(runs, allocatedLength, occupied)
  }

  /** The row after a write as written: the runs change as above, while
      the bytes in use stay as they were, and so does the recorded
      allocation, although the buffer is reallocated at double its size. */
  function SetValueAsWritten(row: Row, z: nat, v: i8): (r: Row)
    requires PositiveRuns(row.runs)
    ensures r.occupiedLength == row.occupiedLength && r.allocatedLength == row.allocatedLength
    ensures |r.runs| <= |row.runs| + 1
  {
    Row(SetRunsAsWritten(row.runs, z, v, 0, 0), row.allocatedLength, row.occupiedLength)
  }

  /** The runs a row's bytes in use hold. */
  function VisibleRuns(row: Row): seq<Run> {
    row.runs[..if row.occupiedLength / RunSize <= |row.runs| then row.occupiedLength / RunSize else |row.runs|]
  }

  lemma VisibleRunsOfWellFormed(row: Row)
    requires WellFormedRow(row)
    ensures VisibleRuns(row) == row.runs
  {
  }

  /** A split that does not update the bytes in use breaks the row:
      `(5, 1)` with voxel 1 set to 9 holds two runs in three bytes, and
      the bytes in use stand for four voxels instead of five. */
  lemma SplitOccupiedCounterexample()
    ensures var row := InitialRow(5, 1);
      && WellFormedRow(row)
      && !WellFormedRow(SetValueAsWritten(row, 1, 9))
      && Total(VisibleRuns(SetValueAsWritten(row, 1, 9))) == 4
      && Total(SetValue(row, 1, 9).runs) == 5
  {
    var row := InitialRow(5, 1);
    SplitPlacementCounterexample();
    var r := SetValueAsWritten(row, 1, 9);
    assert VisibleRuns(r) == [Run(4, 1)];
    assert [Run(4, 1)][1..] == [];
    ExpandLength(SetValue(row, 1, 9).runs);
    ExpandLength(row.runs);
  }

  // ---------------------------------------------------------------------
  // Run encoding

  /** A run in memory: the `u16` length low byte first, then the value's
      byte. */
  function EncodeRun(r: Run): (bytes: seq<u8>)
    requires r.length <= EncodedDataRowMaxSize
    ensures |bytes| == RunSize
  {
    [r.length % 256, r.length / 256, ByteOfVoxel(r.value)]
  }

  predicate RunsFit(runs: seq<Run>) {
    forall i :: 0 <= i < |runs| ==> runs[i].length <= EncodedDataRowMaxSize
  }

  /** A row's buffer: its runs one after another. */
  function EncodeRuns(runs: seq<Run>): (bytes: seq<u8>)
    requires RunsFit(runs)
    ensures |bytes| == RunSize * |runs|
  {
    if |runs| == 0 then [] else EncodeRun(runs[0]) + EncodeRuns(runs[1..])
  }

  /** `DecodeRun` reading the run at `ptr`: the run and the index of the
      one after it. */
  function DecodeRun(bytes: seq<u8>, ptr: nat): (r: (Run, nat))
    requires ptr + RunSize <= |bytes|
    ensures r.1 == ptr + RunSize && r.0.length <= EncodedDataRowMaxSize
  {
    (Run(bytes[ptr] as int + 256 * bytes[ptr + 1] as int, VoxelOfByte(bytes[ptr + 2])), ptr + RunSize)
  }

  lemma EncodeRunsAt(runs: seq<Run>, k: nat)
    requires RunsFit(runs) && k < |runs|
    ensures |EncodeRuns(runs)| == RunSize * |runs|
    ensures EncodeRuns(runs)[RunSize * k..RunSize * k + RunSize] == EncodeRun(runs[k])
  {
    if k > 0 {
      EncodeRunsAt(runs[1..], k - 1);
      assert EncodeRuns(runs)[RunSize * k..RunSize * k + RunSize]
          == EncodeRuns(runs[1..])[RunSize * (k - 1)..RunSize * (k - 1) + RunSize];
    }
  }

  /** Decoding at the `k`-th run's offset of an encoded row gives that run
      and the offset of the next. */
  lemma DecodeEncodedRun(runs: seq<Run>, k: nat)
    requires RunsFit(runs) && k < |runs|
    ensures |EncodeRuns(runs)| == RunSize * |runs|
    ensures DecodeRun(EncodeRuns(runs), RunSize * k) == (runs[k], RunSize * (k + 1))
  {
    EncodeRunsAt(runs, k);
    DecodeRunOfSlice(EncodeRuns(runs), RunSize * k);
    DecodeOneRun(runs[k]);
  }

  /** One encoded run decodes to itself. */
  lemma DecodeOneRun(r: Run)
    requires r.length <= EncodedDataRowMaxSize
    ensures DecodeRun(EncodeRun(r), 0) == (r, RunSize)
  {
    VoxelByteRoundTrip(r.value, 0);
  }

  /** Decoding reads only the three bytes at `ptr`. */
  lemma DecodeRunOfSlice(bytes: seq<u8>, ptr: nat)
    requires ptr + RunSize <= |bytes|
    ensures DecodeRun(bytes, ptr) == (DecodeRun(bytes[ptr .. ptr + RunSize], 0).0, ptr + RunSize)
  {
  }

  /** `DecodeRun` as written: the copy loop starts at `ptr` and stops at
      index 3, so it fills the buffer only when `ptr` is below 3, then from
      the buffer's start; the buffer holds whatever it held before where
      the loop did not write. `ptr` ends at 3 or stays where it was. */
  function DecodeRunAsWritten(bytes: seq<u8>, ptr: nat, buffer: seq<u8>): (r: (Run, nat))
    requires |buffer| == RunSize && RunSize <= |bytes|
    ensures r.1 == if ptr < RunSize then RunSize else ptr
  {
    var filled := seq(RunSize, p requires 0 <= p < RunSize => if ptr <= p then bytes[p] else buffer[p]);
    (Run(filled[0] as int + 256 * filled[1] as int, VoxelOfByte(filled[2])), if ptr < RunSize then RunSize else ptr)
  }

  /** Whatever the row holds, the second call reads no byte of it: from
      offset 3 the run comes from the stale buffer and the offset does not
      move, where the second run and offset 6 are meant. */
  lemma DecodeRunCounterexample()
    ensures var runs := [Run(2, 5), Run(3, 7)];
      && DecodeRun(EncodeRuns(runs), 3) == (Run(3, 7), 6)
      && DecodeRunAsWritten(EncodeRuns(runs), 0, [0, 0, 0]) == (Run(2, 5), 3)
      && DecodeRunAsWritten(EncodeRuns(runs), 3, EncodeRuns(runs)[..3]) == (Run(2, 5), 3)
  {
    var runs := [Run(2, 5), Run(3, 7)];
    assert runs[1..][1..] == [];
    DecodeEncodedRun(runs, 1);
    assert EncodeRuns(runs) == [2, 0, 5, 3, 0, 7];
  }

  /** From an offset of 3 or more the decoded run depends on the buffer
      alone. */
  lemma DecodeRunAsWrittenIgnoresRow(a: seq<u8>, b: seq<u8>, ptr: nat, buffer: seq<u8>)
    requires |buffer| == RunSize && RunSize <= |a| && RunSize <= |b| && ptr >= RunSize
    ensures DecodeRunAsWritten(a, ptr, buffer) == DecodeRunAsWritten(b, ptr, buffer)
  {
  }

  // ---------------------------------------------------------------------
  // The volume

  /** `TerrainVoxelVolume`: the side length and one row per `(x, y)`, at
      index `x + y * dims`. */
  datatype Volume = Volume(dims: nat, rows: seq<Row>)

  predicate WellFormedVolume(vol: Volume) {
    && |vol.rows| == vol.dims * vol.dims
    && forall k :: 0 <= k < |vol.rows| ==> WellFormedRow(vol.rows[k]) && Total(vol.rows[k].runs) == vol.dims
  }

  function RowIndex(dims: nat, x: nat, y: nat): nat {
    x + y * dims
  }

  /** Columns map to distinct rows, all inside the volume. */
  lemma RowIndexInjective(dims: nat, x: nat, y: nat, x2: nat, y2: nat)
    requires x < dims && y < dims && x2 < dims && y2 < dims
    ensures RowIndex(dims, x, y) < dims * dims
    ensures RowIndex(dims, x, y) == RowIndex(dims, x2, y2) <==> x == x2 && y == y2
  {
    MulGapNat(dims, y, y2);
    MulGapNat(dims, y2, y);
    MulGapNat(dims, y, dims);
  }

  /** Unequal multiples of `d` are at least `d` apart. */
  lemma {:induction false} MulGapNat(d: nat, a: nat, b: nat)
    ensures a < b ==> a * d + d <= b * d
    decreases b
  {
    if a < b {
      if a + 1 < b {
        MulGapNat(d, a, b - 1);
      }
      assert (b - 1) * d == b * d - d;
    }
  }

  /** `InitializeArrays`: every row one run of `dims` copies of the initial
      value; a volume of side 0 has no rows. */
  function InitializeArrays(dims: nat, initialValue: i8): (vol: Volume)
    requires dims <= EncodedDataRowMaxSize
    ensures WellFormedVolume(vol) && vol.dims == dims
  {
    if dims == 0 then Volume(0, [])
    else
      var row := InitialRow(dims, initialValue);
      ExpandLength(row.runs);
      Volume(dims, seq(dims * dims, _ => row))
  }

  /** The voxel at `(x, y, z)`. */
  function VoxelAt(vol: Volume, x: nat, y: nat, z: nat): i8
    requires WellFormedVolume(vol) && x < vol.dims && y < vol.dims && z < vol.dims
  {
    RowIndexInjective(vol.dims, x, y, x, y);
    var row := vol.rows[RowIndex(vol.dims, x, y)];
    ExpandLength(row.runs);
    Expand(row.runs)[z]
  }

  /** Every voxel of a fresh volume holds the initial value. */
  lemma InitialVoxels(dims: nat, initialValue: i8, x: nat, y: nat, z: nat)
    requires dims <= EncodedDataRowMaxSize && x < dims && y < dims && z < dims
    ensures VoxelAt(InitializeArrays(dims, initialValue), x, y, z) == initialValue
  {
    RowIndexInjective(dims, x, y, x, y);
  }

  /** `TerrainVoxelVolume::GetValue`: the column's row, read at `z`. */
  method GetVolumeValue(vol: Volume, x: nat, y: nat, z: nat) returns (v: i8)
    requires WellFormedVolume(vol) && x < vol.dims && y < vol.dims && z < vol.dims
    ensures v == VoxelAt(vol, x, y, z)
  {
    RowIndexInjective(vol.dims, x, y, x, y);
    v := GetValue(vol.rows[RowIndex(vol.dims, x, y)], z);
  }

  /** `TerrainVoxelVolume::SetValue`: the column's row, written at `z`. */
  function SetVolumeValue(vol: Volume, x: nat, y: nat, z: nat, v: i8): (r: Volume)
    requires WellFormedVolume(vol) && x < vol.dims && y < vol.dims && z < vol.dims
    ensures WellFormedVolume(r) && r.dims == vol.dims
  {
    RowIndexInjective(vol.dims, x, y, x, y);
    var k := RowIndex(vol.dims, x, y);
    var row := SetValue(vol.rows[k], z, v);
    ExpandLength(vol.rows[k].runs);
    ExpandLength(row.runs);
    Volume(vol.dims, vol.rows[k := row])
  }

  /** A write is seen by the read of the same voxel and by no other. */
  lemma GetAfterSet(vol: Volume, x: nat, y: nat, z: nat, v: i8, x2: nat, y2: nat, z2: nat)
    requires WellFormedVolume(vol) && x < vol.dims && y < vol.dims && z < vol.dims
    requires x2 < vol.dims && y2 < vol.dims && z2 < vol.dims
    ensures VoxelAt(SetVolumeValue(vol, x, y, z, v), x2, y2, z2)
      == if x2 == x && y2 == y && z2 == z then v else VoxelAt(vol, x2, y2, z2)
  {
    RowIndexInjective(vol.dims, x, y, x2, y2);
    RowIndexInjective(vol.dims, x2, y2, x2, y2);
    var k := RowIndex(vol.dims, x, y);
    var k2 := RowIndex(vol.dims, x2, y2);
    var r := SetVolumeValue(vol, x, y, z, v);
    assert r.rows[k2] == if k2 == k then SetValue(vol.rows[k], z, v) else vol.rows[k2];
    ExpandLength(vol.rows[k2].runs);
    if k2 == k {
      RowWrite(vol.rows[k], z, v, z2);
    }
  }

  lemma RowWrite(row: Row, z: nat, v: i8, z2: nat)
    requires WellFormedRow(row) && z < Total(row.runs) && z2 < Total(row.runs)
    ensures z2 < |Expand(row.runs)| && z2 < |Expand(SetValue(row, z, v).runs)|
    ensures Expand(SetValue(row, z, v).runs)[z2] == if z2 == z then v else Expand(row.runs)[z2]
  {
    ExpandLength(row.runs);
  }
}
