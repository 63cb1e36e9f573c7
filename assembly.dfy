/** Reading the station files and assembling the raw matrix A
    (usgs2telemac.py:33-148).

    A station file is a block of header lines followed by tab-separated data
    rows.  Splitting the rows and parsing their date-time stamps belongs to
    pandas and `datetime`; here each data row arrives as a `Sample` whose
    stamp is already a whole number of seconds and whose reading is the
    entry of the selected data column.
 */
module Assembly {
  import opened Cells
  import opened Unification

  /** One data row of a station file. */
  datatype Sample = Sample(stamp: int, reading: Cell)

  predicate StampsSorted(rows: seq<Sample>) {
    forall i, k :: 0 <= i < k < |rows| ==> rows[i].stamp <= rows[k].stamp
  }

  /** `num_non_data_lines` (usgs2telemac.py:33-56): the leading lines that
      start with `#`, plus the two lines USGS writes between them and the
      data.  Every line `readlines` yields holds at least its newline, so
      none is empty. */
  method NumNonDataLines(lines: seq<string>) returns (n: nat)
    requires forall k :: 0 <= k < |lines| ==> |lines[k]| > 0
    ensures 2 <= n <= |lines| + 2
    ensures forall k :: 0 <= k < n - 2 ==> lines[k][0] == '#'
    ensures n - 2 < |lines| ==> lines[n - 2][0] != '#'
  {
    var i := 0;
    while i < |lines|
      invariant i <= |lines|
      invariant forall k :: 0 <= k < i ==> lines[k][0] == '#'
    {
      if lines[i][0] != '#' {
        break;
      }
      i := i + 1;
    }
    n := i + 2;
  }

  /** `find_longest` (usgs2telemac.py:59-81): the row counts go into an array
      whose maximum is returned.  `np.max` of an empty array raises, so at
      least one station is needed. */
  method FindLongest(stations: seq<seq<Sample>>) returns (longest: nat)
    requires |stations| > 0
    ensures forall i :: 0 <= i < |stations| ==> |stations[i]| <= longest
    ensures exists i :: 0 <= i < |stations| && |stations[i]| == longest
  {
    var counts := new nat[|stations|];
    for i := 0 to |stations|
      invariant forall k :: 0 <= k < i ==> counts[k] == |stations[k]|
    {
      counts[i] := |stations[i]|;
    }
    longest := counts[0];
    ghost var holder := 0;
    for i := 1 to counts.Length
      invariant holder < |stations| && |stations[holder]| == longest
      invariant forall k :: 0 <= k < i ==> |stations[k]| <= longest
    {
      if counts[i] > longest {
        longest := counts[i];
        holder := i;
      }
    }
  }

  /** `extract_time_series` (usgs2telemac.py:84-114): the elapsed time of
      each row is the previous row's plus the difference of their stamps,
      which telescopes to the distance from the first stamp. */
  method ExtractTimeSeries(rows: seq<Sample>) returns (elapsed: seq<real>, readings: seq<Cell>)
    ensures |elapsed| == |rows| && |readings| == |rows|
    ensures forall i :: 0 <= i < |rows| ==> elapsed[i] == (rows[i].stamp - rows[0].stamp) as real
    ensures forall i :: 0 <= i < |rows| ==> readings[i] == rows[i].reading
    ensures StampsSorted(rows) ==> forall i, k :: 0 <= i < k < |rows| ==> elapsed[i] <= elapsed[k]
  {
    var t := new real[|rows|](_ => 0.0);
    var i := 1;
    while i < |rows|
      invariant 1 <= i <= |rows| || |rows| == 0
      invariant forall k :: 0 <= k < i && k < |rows| ==> t[k] == (rows[k].stamp - rows[0].stamp) as real
    {
      var dt := (rows[i].stamp - rows[i - 1].stamp) as real;
      t[i] := t[i - 1] + dt;
      i := i + 1;
    }
    elapsed := t[..];
    readings := seq(|rows|, i requires 0 <= i < |rows| => rows[i].reading);
  }

  // ---------------------------------------------------------------------
  // Units

  const FOOT: real := 0.3048

  /** The factor applied to a station's readings: cubic feet per second to
      cubic metres per second for a type starting with 'Q', feet to metres
      for one starting with 'S', none otherwise (usgs2telemac.py:139-142). */
  function UnitFactor(kind: string): (f: real)
    requires |kind| > 0
    ensures f > 0.0
  {
    if kind[0] == 'Q' then FOOT * FOOT * FOOT
    else if kind[0] == 'S' then FOOT
    else 1.0
  }

  /** One reading after the unit factor and the datum shift; a missing
      datum adds nothing and a missing reading stays missing
      (usgs2telemac.py:139-144). */
  function Converted(kind: string, shift: Cell, x: Cell): (y: Cell)
    requires |kind| > 0
    ensures y.Some? <==> x.Some?
  {
    match x
    case None => None
    case Some(v) => Some(v * UnitFactor(kind) + (if shift.Some? then shift.value else 0.0))
  }

  /** The reading a converted value came from. */
  function Restored(kind: string, shift: Cell, y: Cell): (x: Cell)
    requires |kind| > 0
    ensures x.Some? <==> y.Some?
  {
    match y
    case None => None
    case Some(v) => Some((v - (if shift.Some? then shift.value else 0.0)) / UnitFactor(kind))
  }

  /** The conversion loses nothing: every reading can be recovered. */
  lemma ConvertedRestores(kind: string, shift: Cell, x: Cell)
    requires |kind| > 0
    ensures Restored(kind, shift, Converted(kind, shift, x)) == x
  {
    if x.Some? {
      var f := UnitFactor(kind);
      var s := if shift.Some? then shift.value else 0.0;
      var y := Converted(kind, shift, x);
      assert y.value == x.value * f + s;
      assert Restored(kind, shift, y).value == (y.value - s) / f;
      assert (x.value * f) / f == x.value;
    }
  }

  /** One discharge of 100 cfs is 2.8316846592 cms; a stage of 10 ft over a
      datum of 1.5 m reads 4.548 m; any other type is only shifted. */
  lemma ConvertedExamples()
    ensures Converted("Q", None, Some(100.0)) == Some(2.8316846592)
    ensures Converted("S", Some(1.5), Some(10.0)) == Some(4.548)
    ensures Converted("H", Some(1.5), Some(10.0)) == Some(11.5)
  {
  }

  // ---------------------------------------------------------------------
  // The raw matrix

  /** The configuration `generate_A` indexes: `types` carries the leading
      'T' of the time column, so station i's type is `types[i + 1]`, and its
      first character is read; station i's datum is `datum[i]`. */
  predicate Configured(stations: seq<seq<Sample>>, types: seq<string>, datum: seq<Cell>) {
    && |stations| > 0
    && |types| > |stations|
    && |datum| >= |stations|
    && forall i :: 1 <= i <= |stations| ==> |types[i]| > 0
  }

  /** Entry (r, c) of A: the pair of columns 2i, 2i+1 holds station i's
      elapsed seconds and converted readings in its first rows, and nothing
      below them (usgs2telemac.py:134-147). */
  function RawEntry(stations: seq<seq<Sample>>, types: seq<string>, datum: seq<Cell>, r: nat, c: nat): (x: Cell)
    requires Configured(stations, types, datum) && c < 2 * |stations|
  {
    var rows := stations[c / 2];
    if r >= |rows| then None
    else if c % 2 == 0 then Some((rows[r].stamp - rows[0].stamp) as real)
    else Converted(types[c / 2 + 1], datum[c / 2], rows[r].reading)
  }

  /** `generate_A` (usgs2telemac.py:117-148). */
  method GenerateA(stations: seq<seq<Sample>>, types: seq<string>, datum: seq<Cell>) returns (A: array2<Cell>)
    requires Configured(stations, types, datum)
    ensures fresh(A)
    ensures A.Length1 == 2 * |stations|
    ensures forall i :: 0 <= i < |stations| ==> |stations[i]| <= A.Length0
    ensures exists i :: 0 <= i < |stations| && |stations[i]| == A.Length0
    ensures forall r, c :: 0 <= r < A.Length0 && 0 <= c < A.Length1 ==> A[r, c] == RawEntry(stations, types, datum, r, c)
    ensures (forall i :: 0 <= i < |stations| ==> StampsSorted(stations[i])) ==> RawLayout(A)
  {
    var longest := FindLongest(stations);
    A := new Cell[longest, 2 * |stations|]((_, _) => None);
    for i := 0 to |stations|
      invariant forall r, c :: 0 <= r < longest && 0 <= c < 2 * |stations| ==>
        A[r, c] == if c < 2 * i then RawEntry(stations, types, datum, r, c) else None
    {
      var t, d := ExtractTimeSeries(stations[i]);
      d := seq(|d|, k requires 0 <= k < |d| => Converted(types[i + 1], datum[i], d[k]));
      WriteStation(A, i, t, d);
    }
    if forall i :: 0 <= i < |stations| ==> StampsSorted(stations[i]) {
      RawEntryLayout(A, stations, types, datum);
    }
  }

  /** `A[:len(t), i * 2] = t` and `A[:len(t), i * 2 + 1] = d`
      (usgs2telemac.py:145-146). */
  method WriteStation(A: array2<Cell>, i: nat, t: seq<real>, d: seq<Cell>)
    requires 2 * i + 1 < A.Length1 && |t| == |d| <= A.Length0
    modifies A
    ensures forall r, c :: 0 <= r < A.Length0 && 0 <= c < A.Length1 ==>
      A[r, c] == if r < |t| && c == 2 * i then Some(t[r])
                 else if r < |t| && c == 2 * i + 1 then d[r]
                 else old(A[r, c])
  {
    for r := 0 to |t|
      invariant forall r', c :: 0 <= r' < A.Length0 && 0 <= c < A.Length1 ==>
        A[r', c] == if r' < r && c == 2 * i then Some(t[r'])
                    else if r' < r && c == 2 * i + 1 then d[r']
                    else old(A[r', c])
    {
      A[r, 2 * i] := Some(t[r]);
      A[r, 2 * i + 1] := d[r];
    }
  }

  /** A matrix holding the raw entries of stations with chronological rows
      has the layout `generate_R` relies on. */
  lemma RawEntryLayout(A: array2<Cell>, stations: seq<seq<Sample>>, types: seq<string>, datum: seq<Cell>)
    requires Configured(stations, types, datum) && A.Length1 == 2 * |stations|
    requires forall r, c :: 0 <= r < A.Length0 && 0 <= c < A.Length1 ==> A[r, c] == RawEntry(stations, types, datum, r, c)
    requires forall i :: 0 <= i < |stations| ==> StampsSorted(stations[i])
    ensures RawLayout(A)
  {
    forall r, r', c | 0 <= r < r' < A.Length0 && 0 <= c < A.Length1 && c % 2 == 0 && A[r', c].Some?
      ensures A[r, c].Some? && A[r, c].value <= A[r', c].value
    {
      var rows := stations[c / 2];
      assert r' < |rows|;
      assert rows[r].stamp <= rows[r'].stamp;
    }
    forall r, c | 0 <= r < A.Length0 && 0 <= c < A.Length1 && c % 2 == 1 && A[r, c].Some?
      ensures A[r, c - 1].Some?
    {
      assert (c - 1) / 2 == c / 2;
    }
  }
}
