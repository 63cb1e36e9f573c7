/** The time-axis unifier `generate_R` (usgs2telemac.py:185-218).

    The raw matrix A holds one (time, value) column pair per station.  The
    output matrix R has one time column, taken from the reference station,
    followed by one value column per station.  Every station whose value
    column does not already start with a reading is rebuilt: each of its
    samples is written at the row that `numpy.searchsorted` (side 'left')
    finds for its time on the reference axis, and the column is then passed
    through `interpol`.

    Two inputs make the original raise an IndexError; here they are the two
    kinds of `UnifyError`: a matrix whose last row holds nothing (or that has
    no row), and a sample later than the last reference time, whose search
    result is one past the last row.
 */
module Unification {
  import opened Cells
  import opened Interpolation

  datatype UnifyError =
    | NoReferenceColumn
    | SampleBeyondAxis(station: nat)

  predicate Sorted(axis: seq<real>) {
    forall i, k :: 0 <= i < k < |axis| ==> axis[i] <= axis[k]
  }

  /** `numpy.searchsorted(axis, t)` with side 'left': the first row whose time
      is at least `t`, or `|axis|` when every time is below `t`.  On a sorted
      axis it is the position where `t` can be inserted keeping the order. */
  function SearchLeft(axis: seq<real>, t: real): (r: nat)
    ensures r <= |axis|
    ensures r < |axis| ==> t <= axis[r]
  {
    if axis == [] || t <= axis[0] then 0 else 1 + SearchLeft(axis[1..], t)
  }

  /** Every row before the search result is earlier than `t`; on a sorted
      axis every row from it on is at least `t`. */
  lemma {:induction false} SearchLeftSplits(axis: seq<real>, t: real)
    ensures forall i :: 0 <= i < SearchLeft(axis, t) ==> axis[i] < t
    ensures Sorted(axis) ==> forall i :: SearchLeft(axis, t) <= i < |axis| ==> t <= axis[i]
  {
    if axis != [] && t > axis[0] {
      SearchLeftSplits(axis[1..], t);
      assert Sorted(axis) ==> Sorted(axis[1..]);
      assert forall i :: 1 <= i < |axis| ==> axis[i] == axis[1..][i - 1];
    }
  }

  /** On a sorted axis the search falls past the last row exactly when the
      time is later than the last reference time. */
  lemma SearchLeftPastEnd(axis: seq<real>, t: real)
    requires Sorted(axis) && |axis| > 0
    ensures SearchLeft(axis, t) == |axis| <==> axis[|axis| - 1] < t
  {
    SearchLeftSplits(axis, t);
  }

  /** How many samples the projection loop reads from a time column: it stops
      at the first row without a time (usgs2telemac.py:210-211). */
  function SampleCount(times: seq<Cell>): (n: nat)
    ensures n <= |times|
    ensures forall i :: 0 <= i < n ==> times[i].Some?
    ensures n < |times| ==> times[n].None?
  {
    if times == [] || times[0].None? then 0 else 1 + SampleCount(times[1..])
  }

  /** The last of the first `n` samples whose time the search sends to `row`;
      a later sample landing on the same row overwrites an earlier one. */
  function LastLanding(axis: seq<real>, times: seq<Cell>, n: nat, row: nat): (k: Option<nat>)
    requires n <= |times| && forall i :: 0 <= i < n ==> times[i].Some?
    ensures k.Some? ==> k.value < n && SearchLeft(axis, times[k.value].value) == row
    ensures k.Some? ==> forall i :: k.value < i < n ==> SearchLeft(axis, times[i].value) != row
    ensures k.None? ==> forall i :: 0 <= i < n ==> SearchLeft(axis, times[i].value) != row
  {
    if n == 0 then None
    else if SearchLeft(axis, times[n - 1].value) == row then Some(n - 1)
    else LastLanding(axis, times, n - 1, row)
  }

  /** Row `row` of a station's column once its first `n` samples are written
      over `base` (usgs2telemac.py:212-214). */
  function LandedAt(base: seq<Cell>, axis: seq<real>, times: seq<Cell>, values: seq<Cell>, n: nat, row: nat): (x: Cell)
    requires row < |base|
    requires n <= |times| && n <= |values| && forall i :: 0 <= i < n ==> times[i].Some?
  {
    match LastLanding(axis, times, n, row)
    case Some(k) => values[k]
    case None => base[row]
  }

  /** Reading one more sample changes only the row it lands on. */
  lemma LandedStep(base: seq<Cell>, axis: seq<real>, times: seq<Cell>, values: seq<Cell>, n: nat, row: nat)
    requires row < |base| && n < |times| && n < |values| && forall i :: 0 <= i <= n ==> times[i].Some?
    ensures LandedAt(base, axis, times, values, n + 1, row) ==
      if SearchLeft(axis, times[n].value) == row then values[n] else LandedAt(base, axis, times, values, n, row)
  {
  }

  function Landed(base: seq<Cell>, axis: seq<real>, times: seq<Cell>, values: seq<Cell>, n: nat): (col: seq<Cell>)
    requires n <= |times| && n <= |values| && forall i :: 0 <= i < n ==> times[i].Some?
    ensures |col| == |base|
  {
    seq(|base|, row requires 0 <= row < |base| => LandedAt(base, axis, times, values, n, row))
  }

  /** Every sample of the station lands on a row of the axis; otherwise the
      original indexes one past the last row. */
  predicate Fits(axis: seq<real>, times: seq<Cell>) {
    forall i :: 0 <= i < SampleCount(times) ==> SearchLeft(axis, times[i].value) < |axis|
  }

  /** On a sorted axis a station fits exactly when none of its sample times
      is later than the last reference time. */
  lemma FitsWithinAxis(axis: seq<real>, times: seq<Cell>)
    requires Sorted(axis) && |axis| > 0
    ensures Fits(axis, times) <==>
      forall i :: 0 <= i < SampleCount(times) ==> times[i].value <= axis[|axis| - 1]
  {
    forall i | 0 <= i < SampleCount(times)
      ensures SearchLeft(axis, times[i].value) < |axis| <==> times[i].value <= axis[|axis| - 1]
    {
      SearchLeftPastEnd(axis, times[i].value);
    }
  }

  /** The output column of one station: kept as seeded when its first row
      already holds a reading (usgs2telemac.py:208, 216-217), otherwise
      projected onto the axis and gap-filled (usgs2telemac.py:209-215). */
  function StationColumn(seed: seq<Cell>, axis: seq<real>, times: seq<Cell>, values: seq<Cell>): (col: seq<Cell>)
    requires |seed| > 0 && |values| == |times|
  {
    if seed[0].Some? then seed
    else Interpolated(Landed(seed, axis, times, values, SampleCount(times)))
  }

  // ---------------------------------------------------------------------
  // The matrices

  function Column(M: array2<Cell>, c: nat): (col: seq<Cell>)
    requires c < M.Length1
    reads M
    ensures |col| == M.Length0
    ensures forall r :: 0 <= r < M.Length0 ==> col[r] == M[r, c]
  {
    seq(M.Length0, r requires 0 <= r < M.Length0 reads M => M[r, c])
  }

  /** The times of a column that holds no missing entry. */
  function Times(col: seq<Cell>): (t: seq<real>)
    requires AllPresent(col)
    ensures |t| == |col| && forall r :: 0 <= r < |col| ==> col[r] == Some(t[r])
  {
    seq(|col|, r requires 0 <= r < |col| => col[r].value)
  }

  /** The first entry of a row that holds a value. */
  function FirstPresent(s: seq<Cell>): (c: Option<nat>)
    ensures c.Some? ==> c.value < |s| && s[c.value].Some?
    ensures c.Some? ==> forall i :: 0 <= i < c.value ==> s[i].None?
    ensures c.None? ==> AllMissing(s)
  {
    if s == [] then None
    else if s[0].Some? then Some(0)
    else match FirstPresent(s[1..])
      case Some(c) => Some(c + 1)
      case None => None
  }

  /** A present entry preceded only by missing ones is the first present. */
  lemma {:induction false} FirstPresentAt(s: seq<Cell>, c: nat)
    requires c < |s| && s[c].Some? && forall i :: 0 <= i < c ==> s[i].None?
    ensures FirstPresent(s) == Some(c)
  {
    if c > 0 {
      FirstPresentAt(s[1..], c - 1);
    }
  }

  /** A row with no reading has no first present entry. */
  lemma {:induction false} FirstPresentNone(s: seq<Cell>)
    requires AllMissing(s)
    ensures FirstPresent(s) == None
  {
    if s != [] {
      FirstPresentNone(s[1..]);
    }
  }

  function LastRow(A: array2<Cell>): (row: seq<Cell>)
    requires A.Length0 > 0
    reads A
    ensures |row| == A.Length1 && forall c :: 0 <= c < A.Length1 ==> row[c] == A[A.Length0 - 1, c]
  {
    seq(A.Length1, c requires 0 <= c < A.Length1 reads A => A[A.Length0 - 1, c])
  }

  /** The layout `generate_A` produces: an even number of columns; in each
      time column (even index) the present entries form a prefix and are
      non-decreasing; a value (odd index) is present only beside a time. */
  ghost predicate RawLayout(A: array2<Cell>)
    reads A
  {
    && A.Length1 % 2 == 0
    && (forall r, r', c :: 0 <= r < r' < A.Length0 && 0 <= c < A.Length1 && c % 2 == 0 && A[r', c].Some?
          ==> A[r, c].Some? && A[r, c].value <= A[r', c].value)
    && (forall r, c :: 0 <= r < A.Length0 && 0 <= c < A.Length1 && c % 2 == 1 && A[r, c].Some?
          ==> A[r, c - 1].Some?)
  }

  ghost predicate HasReference(A: array2<Cell>)
    reads A
  {
    A.Length0 > 0 && FirstPresent(LastRow(A)).Some?
  }

  /** The reference column: the first whose last-row entry is present
      (usgs2telemac.py:202-204). */
  ghost function Reference(A: array2<Cell>): nat
    requires HasReference(A)
    reads A
  {
    FirstPresent(LastRow(A)).value
  }

  /** In the last row, a reading has its time beside it. */
  lemma LastRowTimeBesideValue(A: array2<Cell>, c: nat)
    requires RawLayout(A) && A.Length0 > 0 && c < A.Length1 && c % 2 == 1 && LastRow(A)[c].Some?
    ensures LastRow(A)[c - 1].Some?
  {
  }

  /** The reference is the time column of a station with as many samples as
      the matrix has rows, so it is complete and non-decreasing, and its value
      column follows it. */
  lemma ReferenceFacts(A: array2<Cell>)
    requires RawLayout(A) && HasReference(A)
    ensures Reference(A) % 2 == 0 && Reference(A) + 1 < A.Length1
    ensures AllPresent(Column(A, Reference(A)))
    ensures Sorted(Times(Column(A, Reference(A))))
  {
    var c := Reference(A);
    var last := A.Length0 - 1;
    var row := LastRow(A);
    assert row[c].Some?;
    if c % 2 == 1 {
      LastRowTimeBesideValue(A, c);
    }
    var col := Column(A, c);
    forall r | 0 <= r < A.Length0
      ensures col[r].Some?
    {
      if r < last {
        assert A[last, c].Some?;
      }
    }
    var t := Times(col);
    forall i, k | 0 <= i < k < |t|
      ensures t[i] <= t[k]
    {
      assert A[k, c].Some? && col[i] == A[i, c] && col[k] == A[k, c];
    }
  }

  /** The shared time axis: the reference station's elapsed seconds. */
  ghost function Axis(A: array2<Cell>): (axis: seq<real>)
    requires RawLayout(A) && HasReference(A)
    reads A
    ensures |axis| == A.Length0 && Sorted(axis)
  {
    ReferenceFacts(A);
    Times(Column(A, Reference(A)))
  }

  /** Column `j` of R before the station loop: the reference station's values
      in its own column, nothing elsewhere (usgs2telemac.py:201, 205-206). */
  ghost function Seed(A: array2<Cell>, j: nat): (col: seq<Cell>)
    requires RawLayout(A) && HasReference(A) && 1 <= j <= A.Length1 / 2
    reads A
    ensures |col| == A.Length0
  {
    ReferenceFacts(A);
    if j == Reference(A) / 2 + 1 then Column(A, Reference(A) + 1) else Missing(A.Length0)
  }

  /** Station `j` is rebuilt from its samples: its seeded first row is missing. */
  ghost predicate Rebuilt(A: array2<Cell>, j: nat)
    requires RawLayout(A) && HasReference(A) && 1 <= j <= A.Length1 / 2
    reads A
  {
    Seed(A, j)[0].None?
  }

  ghost predicate StationFits(A: array2<Cell>, j: nat)
    requires RawLayout(A) && HasReference(A) && 1 <= j <= A.Length1 / 2
    reads A
  {
    Rebuilt(A, j) ==> Fits(Axis(A), Column(A, (j - 1) * 2))
  }

  /** Column `j` of the output matrix. */
  ghost function Output(A: array2<Cell>, j: nat): seq<Cell>
    requires RawLayout(A) && HasReference(A) && 1 <= j <= A.Length1 / 2
    reads A
  {
    StationColumn(Seed(A, j), Axis(A), Column(A, (j - 1) * 2), Column(A, j * 2 - 1))
  }

  // ---------------------------------------------------------------------
  // The algorithm

  /** `generate_R(A)`. */
  method GenerateR(A: array2<Cell>) returns (res: Result<array2<Cell>, UnifyError>)
    requires RawLayout(A)
    ensures res == Failure(NoReferenceColumn) <==> !HasReference(A)
    ensures res.Success? <==>
      HasReference(A) && forall j :: 1 <= j <= A.Length1 / 2 ==> StationFits(A, j)
    ensures res.Failure? && res.error.SampleBeyondAxis? ==>
      HasReference(A) && 1 <= res.error.station <= A.Length1 / 2 && !StationFits(A, res.error.station)
    ensures res.Failure? && res.error.SampleBeyondAxis? ==>
      forall j :: 1 <= j < res.error.station ==> StationFits(A, j)
    ensures res.Success? ==>
      && fresh(res.value)
      && res.value.Length0 == A.Length0 && res.value.Length1 == A.Length1 / 2 + 1
      && Column(res.value, 0) == Column(A, Reference(A))
      && forall j :: 1 <= j <= A.Length1 / 2 ==> Column(res.value, j) == Output(A, j)
  {
    if A.Length0 == 0 {
      return Failure(NoReferenceColumn);
    }
    var found := FindReference(A);
    if found.None? {
      return Failure(NoReferenceColumn);
    }
    var i := found.value;
    ReferenceFacts(A);
    var R := SeedOutput(A, i);
    var axis := Times(Column(A, i));
    assert axis == Axis(A);
    var beyond := RebuildStations(A, R, axis);
    if beyond.Some? {
      return Failure(SampleBeyondAxis(beyond.value));
    }
    return Success(R);
  }

  /** The station loop of `generate_R` (usgs2telemac.py:207-217): stations
      whose first row is missing are rebuilt, the others are kept.  Reports
      the first station with a sample beyond the axis, where the original
      raises. */
  method RebuildStations(A: array2<Cell>, R: array2<Cell>, axis: seq<real>) returns (beyond: Option<nat>)
    requires RawLayout(A) && HasReference(A)
    requires A != R && R.Length0 == A.Length0 && R.Length1 == A.Length1 / 2 + 1
    requires axis == Axis(A)
    requires forall c :: 1 <= c < R.Length1 ==> Column(R, c) == Seed(A, c)
    modifies R
    ensures Column(R, 0) == old(Column(R, 0))
    ensures beyond.None? <==> forall j :: 1 <= j <= A.Length1 / 2 ==> StationFits(A, j)
    ensures beyond.Some? ==> 1 <= beyond.value <= A.Length1 / 2 && !StationFits(A, beyond.value)
    ensures beyond.Some? ==> forall j :: 1 <= j < beyond.value ==> StationFits(A, j)
    ensures beyond.None? ==> forall j :: 1 <= j <= A.Length1 / 2 ==> Column(R, j) == Output(A, j)
  {
    for j := 1 to R.Length1
      invariant Column(R, 0) == old(Column(R, 0))
      invariant forall c :: 1 <= c < j ==> Column(R, c) == Output(A, c) && StationFits(A, c)
      invariant forall c :: j <= c < R.Length1 ==> Column(R, c) == Seed(A, c)
    {
      if R[0, j].None? {
        var fits := RebuildStation(A, R, j, axis);
        if !fits {
          return Some(j);
        }
      } else {
        KeptStation(A, j);
      }
    }
    return None;
  }

  /** A station whose seeded first row holds a reading is output as seeded. */
  lemma KeptStation(A: array2<Cell>, j: nat)
    requires RawLayout(A) && HasReference(A) && 1 <= j <= A.Length1 / 2
    requires !Rebuilt(A, j)
    ensures Output(A, j) == Seed(A, j) && StationFits(A, j)
  {
  }

  /** One pass of the station loop for a station whose first row is
      missing (usgs2telemac.py:208-215). */
  method RebuildStation(A: array2<Cell>, R: array2<Cell>, j: nat, axis: seq<real>) returns (fits: bool)
    requires RawLayout(A) && HasReference(A) && 1 <= j <= A.Length1 / 2
    requires A != R && R.Length0 == A.Length0 && R.Length1 == A.Length1 / 2 + 1
    requires axis == Axis(A) && Column(R, j) == Seed(A, j) && R[0, j].None?
    modifies R
    ensures fits == StationFits(A, j)
    ensures fits ==> Column(R, j) == Output(A, j)
    ensures forall c :: 0 <= c < R.Length1 && c != j ==> Column(R, c) == old(Column(R, c))
  {
    assert Rebuilt(A, j);
    fits := ProjectStation(A, R, j, axis);
    if fits {
      InterpolateColumn(R, j);
    }
  }

  /** The scan of the last row for its first reading (usgs2telemac.py:202-204). */
  method FindReference(A: array2<Cell>) returns (found: Option<nat>)
    requires A.Length0 > 0
    ensures found == FirstPresent(LastRow(A))
  {
    var i := 0;
    while i < A.Length1 && A[A.Length0 - 1, i].None?
      invariant i <= A.Length1
      invariant forall c :: 0 <= c < i ==> LastRow(A)[c].None?
    {
      i := i + 1;
    }
    if i == A.Length1 {
      FirstPresentNone(LastRow(A));
      return None;
    }
    FirstPresentAt(LastRow(A), i);
    return Some(i);
  }

  /** R before the station loop: the reference times in column 0, the
      reference values in their station's column, nothing elsewhere
      (usgs2telemac.py:201, 205-206). */
  method SeedOutput(A: array2<Cell>, i: nat) returns (R: array2<Cell>)
    requires RawLayout(A) && HasReference(A) && i == Reference(A)
    ensures fresh(R) && R.Length0 == A.Length0 && R.Length1 == A.Length1 / 2 + 1
    ensures Column(R, 0) == Column(A, i)
    ensures forall c :: 1 <= c < R.Length1 ==> Column(R, c) == Seed(A, c)
  {
    ReferenceFacts(A);
    var row := A.Length0;
    var col := A.Length1 / 2 + 1;
    R := new Cell[row, col]((_, _) => None);
    for r := 0 to row
      invariant forall r', c :: 0 <= r' < row && 0 <= c < col ==>
        R[r', c] == if r' < r && c == 0 then A[r', i]
                    else if r' < r && c == i / 2 + 1 then A[r', i + 1]
                    else None
    {
      R[r, 0] := A[r, i];
      R[r, i / 2 + 1] := A[r, i + 1];
    }
    forall c | 1 <= c < col
      ensures Column(R, c) == Seed(A, c)
    {
      if c == i / 2 + 1 {
        assert Column(R, c) == Column(A, i + 1);
      } else {
        assert Column(R, c) == Missing(row);
      }
    }
  }

  /** The sample loop of `generate_R` for station `j` (usgs2telemac.py:209-214):
      reads the station's rows in order until the first missing time and
      writes each value at the row `searchsorted` gives for its time.  Returns
      false where the original raises an IndexError. */
  method ProjectStation(A: array2<Cell>, R: array2<Cell>, j: nat, axis: seq<real>) returns (fits: bool)
    requires A != R && 1 <= j < R.Length1 && j * 2 - 1 < A.Length1
    requires R.Length0 == A.Length0 == |axis|
    modifies R
    ensures fits == Fits(axis, Column(A, (j - 1) * 2))
    ensures fits ==> (Column(R, j) ==
      old(Landed(Column(R, j), axis, Column(A, (j - 1) * 2), Column(A, j * 2 - 1), SampleCount(Column(A, (j - 1) * 2)))))
    ensures forall c :: 0 <= c < R.Length1 && c != j ==> Column(R, c) == old(Column(R, c))
  {
    ghost var base := Column(R, j);
    ghost var times := Column(A, (j - 1) * 2);
    ghost var values := Column(A, j * 2 - 1);
    var row := R.Length0;
    fits := true;
    var i := 0;
    while i < row
      invariant i <= row
      invariant forall k :: 0 <= k < i ==> times[k].Some? && SearchLeft(axis, times[k].value) < row
      invariant forall r :: 0 <= r < row ==> R[r, j] == LandedAt(base, axis, times, values, i, r)
      invariant forall r, c :: 0 <= r < row && 0 <= c < R.Length1 && c != j ==> R[r, c] == old(R[r, c])
    {
      if A[i, (j - 1) * 2].None? {
        break;
      }
      var index := SearchLeft(axis, A[i, (j - 1) * 2].value);
      if index == row {
        fits := false;
        break;
      }
      R[index, j] := A[i, j * 2 - 1];
      forall r | 0 <= r < row
        ensures R[r, j] == LandedAt(base, axis, times, values, i + 1, r)
      {
        LandedStep(base, axis, times, values, i, r);
      }
      i := i + 1;
    }
    if fits {
      assert i == SampleCount(times);
      assert Column(R, j) == Landed(base, axis, times, values, i);
    } else {
      assert i < SampleCount(times) && SearchLeft(axis, times[i].value) == row;
    }
    forall c | 0 <= c < R.Length1 && c != j
      ensures Column(R, c) == old(Column(R, c))
    {
      SameColumn(R, c, old(Column(R, c)));
    }
  }

  /** `R[:, j] = interpol(R[:, j])` (usgs2telemac.py:215): the column is
      copied out, filled, and written back. */
  method InterpolateColumn(R: array2<Cell>, j: nat)
    requires j < R.Length1
    modifies R
    ensures Column(R, j) == Interpolated(old(Column(R, j)))
    ensures forall c :: 0 <= c < R.Length1 && c != j ==> Column(R, c) == old(Column(R, c))
  {
    var v := ReadColumn(R, j);
    Interpol(v);
    WriteColumn(R, j, v[..]);
  }

  /** `R[:, j]` copied out as the vector `interpol` receives. */
  method ReadColumn(R: array2<Cell>, j: nat) returns (v: array<Cell>)
    requires j < R.Length1
    ensures fresh(v) && v[..] == Column(R, j)
  {
    v := new Cell[R.Length0];
    for r := 0 to R.Length0
      invariant forall r' :: 0 <= r' < r ==> v[r'] == R[r', j]
    {
      v[r] := R[r, j];
    }
  }

  /** `R[:, j] = v`: one column replaced, the others untouched. */
  method WriteColumn(R: array2<Cell>, j: nat, col: seq<Cell>)
    requires j < R.Length1 && |col| == R.Length0
    modifies R
    ensures Column(R, j) == col
    ensures forall c :: 0 <= c < R.Length1 && c != j ==> Column(R, c) == old(Column(R, c))
  {
    for r := 0 to R.Length0
      invariant forall r' :: 0 <= r' < r ==> R[r', j] == col[r']
      invariant forall r', c :: 0 <= r' < R.Length0 && 0 <= c < R.Length1 && c != j ==> R[r', c] == old(R[r', c])
    {
      R[r, j] := col[r];
    }
    forall c | 0 <= c < R.Length1 && c != j
      ensures Column(R, c) == old(Column(R, c))
    {
      SameColumn(R, c, old(Column(R, c)));
    }
  }

  /** A column is determined by its entries. */
  lemma SameColumn(R: array2<Cell>, c: nat, col: seq<Cell>)
    requires c < R.Length1 && |col| == R.Length0
    requires forall r :: 0 <= r < R.Length0 ==> R[r, c] == col[r]
    ensures Column(R, c) == col
  {
  }

  // ---------------------------------------------------------------------
  // Properties of the projection

  predicate StrictlySorted(axis: seq<real>) {
    forall i, k :: 0 <= i < k < |axis| ==> axis[i] < axis[k]
  }

  /** On a strictly increasing axis the search finds each axis time at its
      own row. */
  lemma SearchLeftFindsOwnRow(axis: seq<real>, k: nat)
    requires StrictlySorted(axis) && k < |axis|
    ensures SearchLeft(axis, axis[k]) == k
  {
    SearchLeftSplits(axis, axis[k]);
  }

  /** A time column without gaps is read to its end. */
  lemma {:induction false} SampleCountOfComplete(times: seq<Cell>)
    requires AllPresent(times)
    ensures SampleCount(times) == |times|
  {
    if times != [] {
      SampleCountOfComplete(times[1..]);
    }
  }

  /** A station sampled exactly at the reference times is copied row for
      row: the projection loses nothing when the axes agree. */
  lemma LandedOnOwnAxis(base: seq<Cell>, axis: seq<real>, times: seq<Cell>, values: seq<Cell>)
    requires StrictlySorted(axis)
    requires |base| == |axis| == |times| == |values|
    requires forall r :: 0 <= r < |times| ==> times[r] == Some(axis[r])
    ensures Landed(base, axis, times, values, SampleCount(times)) == values
  {
    SampleCountOfComplete(times);
    var n := SampleCount(times);
    forall row | 0 <= row < |base|
      ensures LastLanding(axis, times, n, row) == Some(row)
    {
      SearchLeftFindsOwnRow(axis, row);
      var k := LastLanding(axis, times, n, row);
      if k.Some? && k.value != row {
        SearchLeftFindsOwnRow(axis, k.value);
      }
    }
  }

  /** The landing row of every sample that was read holds that sample's
      value unless a later sample lands on the same row. */
  lemma LandedKeepsLastSample(base: seq<Cell>, axis: seq<real>, times: seq<Cell>, values: seq<Cell>, k: nat)
    requires |values| == |times|
    requires k < SampleCount(times) && SearchLeft(axis, times[k].value) < |base|
    requires forall i :: k < i < SampleCount(times) ==> SearchLeft(axis, times[i].value) != SearchLeft(axis, times[k].value)
    ensures Landed(base, axis, times, values, SampleCount(times))[SearchLeft(axis, times[k].value)] == values[k]
  {
    var row := SearchLeft(axis, times[k].value);
    var last := LastLanding(axis, times, SampleCount(times), row);
    assert last.Some?;
  }

  /** A row on which no sample lands keeps its seed. */
  lemma LandedKeepsSeed(base: seq<Cell>, axis: seq<real>, times: seq<Cell>, values: seq<Cell>, row: nat)
    requires |values| == |times| && row < |base|
    requires forall i :: 0 <= i < SampleCount(times) ==> SearchLeft(axis, times[i].value) != row
    ensures Landed(base, axis, times, values, SampleCount(times))[row] == base[row]
  {
  }

  /** A rebuilt station that shares the reference station's (strictly
      increasing) times comes out as its own readings, gap-filled. */
  lemma OutputOnReferenceAxis(A: array2<Cell>, j: nat)
    requires RawLayout(A) && HasReference(A) && 1 <= j <= A.Length1 / 2
    requires Rebuilt(A, j) && StrictlySorted(Axis(A))
    requires Column(A, (j - 1) * 2) == Column(A, Reference(A))
    ensures StationFits(A, j)
    ensures Output(A, j) == Interpolated(Column(A, j * 2 - 1))
  {
    ReferenceFacts(A);
    var axis := Axis(A);
    var times := Column(A, (j - 1) * 2);
    LandedOnOwnAxis(Seed(A, j), axis, times, Column(A, j * 2 - 1));
    SampleCountOfComplete(times);
    forall i | 0 <= i < SampleCount(times)
      ensures SearchLeft(axis, times[i].value) < |axis|
    {
      SearchLeftFindsOwnRow(axis, i);
    }
  }
}
