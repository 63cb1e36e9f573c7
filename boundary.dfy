/** The data flow of `main` (usgs2telemac.py:271-297): the configuration
    read by `load_user_input`, the raw matrix, the unified matrix, and the
    header line block written above it into the liquid boundary file.
 */
module Boundary {
  import opened Cells
  import opened Interpolation
  import opened Unification
  import opened Assembly

  // ---------------------------------------------------------------------
  // The header

  /** `sep.join(xs)`. */
  function Join(xs: seq<string>, sep: char): (s: string)
    ensures |xs| == 1 ==> s == xs[0]
  {
    if |xs| == 0 then ""
    else if |xs| == 1 then xs[0]
    else xs[0] + [sep] + Join(xs[1..], sep)
  }

  /** `s.split(sep)`: the pieces between the separators, empty ones kept. */
  function Split(s: string, sep: char): (parts: seq<string>)
    ensures |parts| > 0
  {
    if s == [] then [""]
    else
      var rest := Split(s[1..], sep);
      if s[0] == sep then [""] + rest
      else [[s[0]] + rest[0]] + rest[1..]
  }

  /** Splitting at the first separator peels off the piece before it. */
  lemma {:induction false} SplitAtSeparator(a: string, sep: char, b: string)
    requires sep !in a
    ensures Split(a + [sep] + b, sep) == [a] + Split(b, sep)
  {
    if a != [] {
      var s := a + [sep] + b;
      assert s[0] == a[0] && s[1..] == a[1..] + [sep] + b;
      SplitAtSeparator(a[1..], sep, b);
      var rest := Split(s[1..], sep);
      assert rest[0] == a[1..] && rest[1..] == Split(b, sep);
      assert [a[0]] + a[1..] == a;
    } else {
      assert a + [sep] + b == [sep] + b;
      assert ([sep] + b)[1..] == b;
    }
  }

  /** A piece without a separator is not split. */
  lemma {:induction false} SplitWithoutSeparator(a: string, sep: char)
    requires sep !in a
    ensures Split(a, sep) == [a]
  {
    if a != [] {
      SplitWithoutSeparator(a[1..], sep);
      assert [a[0]] + a[1..] == a;
    }
  }

  /** Joining fields that hold no separator and splitting the line again
      gives the fields back. */
  lemma {:induction false} SplitJoin(xs: seq<string>, sep: char)
    requires |xs| > 0 && forall k :: 0 <= k < |xs| ==> sep !in xs[k]
    ensures Split(Join(xs, sep), sep) == xs
  {
    if |xs| == 1 {
      SplitWithoutSeparator(xs[0], sep);
    } else {
      SplitAtSeparator(xs[0], sep, Join(xs[1..], sep));
      SplitJoin(xs[1..], sep);
      assert [xs[0]] + xs[1..] == xs;
    }
  }

  /** A joined line holds a character only if a field or the separator does. */
  lemma {:induction false} JoinAvoids(xs: seq<string>, sep: char, ch: char)
    requires ch != sep && forall k :: 0 <= k < |xs| ==> ch !in xs[k]
    ensures ch !in Join(xs, sep)
  {
    if |xs| > 1 {
      JoinAvoids(xs[1..], sep, ch);
    }
  }

  /** The header above the table (usgs2telemac.py:285). */
  function Header(types: seq<string>, units: seq<string>): (h: string) {
    "#\n" + Join(types, '\t') + "\n" + Join(units, '\t')
  }

  /** The header is three lines: a comment mark, the types and the units,
      each of which splits back into its tab-separated fields. */
  lemma HeaderLines(types: seq<string>, units: seq<string>)
    requires |types| > 0 && |units| > 0
    requires forall k :: 0 <= k < |types| ==> '\n' !in types[k] && '\t' !in types[k]
    requires forall k :: 0 <= k < |units| ==> '\n' !in units[k] && '\t' !in units[k]
    ensures Split(Header(types, units), '\n') == ["#", Join(types, '\t'), Join(units, '\t')]
    ensures Split(Join(types, '\t'), '\t') == types
    ensures Split(Join(units, '\t'), '\t') == units
  {
    var t := Join(types, '\t');
    var u := Join(units, '\t');
    JoinAvoids(types, '\t', '\n');
    JoinAvoids(units, '\t', '\n');
    assert Header(types, units) == "#" + ['\n'] + (t + ['\n'] + u);
    SplitAtSeparator("#", '\n', t + ['\n'] + u);
    SplitAtSeparator(t, '\n', u);
    SplitWithoutSeparator(u, '\n');
    SplitJoin(types, '\t');
    SplitJoin(units, '\t');
  }

  /** `load_user_input` puts 'T' before the station types and 's' before the
      station units (usgs2telemac.py:234-235): the second and third header
      lines open with the time column's fields, then name every station in
      order. */
  lemma HeaderNamesTimeColumn(types: seq<string>, units: seq<string>)
    requires forall k :: 0 <= k < |types| ==> '\n' !in types[k] && '\t' !in types[k]
    requires forall k :: 0 <= k < |units| ==> '\n' !in units[k] && '\t' !in units[k]
    ensures Split(Header(["T"] + types, ["s"] + units), '\n')[1..] == [Join(["T"] + types, '\t'), Join(["s"] + units, '\t')]
    ensures Split(Join(["T"] + types, '\t'), '\t') == ["T"] + types
    ensures Split(Join(["s"] + units, '\t'), '\t') == ["s"] + units
  {
    var ts := ["T"] + types;
    var us := ["s"] + units;
    forall k | 0 <= k < |ts|
      ensures '\n' !in ts[k] && '\t' !in ts[k]
    {
      if k > 0 {
        assert ts[k] == types[k - 1];
      }
    }
    forall k | 0 <= k < |us|
      ensures '\n' !in us[k] && '\t' !in us[k]
    {
      if k > 0 {
        assert us[k] == units[k - 1];
      }
    }
    HeaderLines(ts, us);
  }

  // ---------------------------------------------------------------------
  // The table

  /** Station i is the first station with the most rows. */
  predicate FirstLongest(stations: seq<seq<Sample>>, i: nat) {
    && i < |stations|
    && (forall k :: 0 <= k < |stations| ==> |stations[k]| <= |stations[i]|)
    && (forall k :: 0 <= k < i ==> |stations[k]| < |stations[i]|)
  }

  /** A station's time column in elapsed seconds. */
  function ElapsedColumn(rows: seq<Sample>): (col: seq<Cell>)
    ensures |col| == |rows|
    ensures forall r :: 0 <= r < |rows| ==> col[r] == Some((rows[r].stamp - rows[0].stamp) as real)
  {
    seq(|rows|, r requires 0 <= r < |rows| => Some((rows[r].stamp - rows[0].stamp) as real))
  }

  /** In the raw matrix, the reference `generate_R` picks is the time column
      of the first longest station: only a longest station reaches the last
      row, and its time column comes before its value column. */
  lemma ReferenceIsFirstLongest(A: array2<Cell>, stations: seq<seq<Sample>>, types: seq<string>, datum: seq<Cell>, i: nat)
    requires Configured(stations, types, datum) && A.Length1 == 2 * |stations|
    requires forall r, c :: 0 <= r < A.Length0 && 0 <= c < A.Length1 ==> A[r, c] == RawEntry(stations, types, datum, r, c)
    requires FirstLongest(stations, i) && |stations[i]| == A.Length0 > 0
    ensures HasReference(A) && Reference(A) == 2 * i
    ensures Column(A, 2 * i) == ElapsedColumn(stations[i])
  {
    var row := LastRow(A);
    forall c | 0 <= c < 2 * i
      ensures row[c].None?
    {
      assert |stations[c / 2]| < A.Length0;
    }
    FirstPresentAt(row, 2 * i);
  }

  /** A raw matrix without rows has no reference. */
  lemma NoRowsNoReference(A: array2<Cell>)
    requires A.Length0 == 0
    ensures !HasReference(A)
  {
  }

  /** The table `main` writes below the header: `generate_A` followed by
      `generate_R` (usgs2telemac.py:282-283).  Station files are
      chronological, as USGS writes them. */
  method Tabulate(stations: seq<seq<Sample>>, types: seq<string>, datum: seq<Cell>) returns (res: Result<array2<Cell>, UnifyError>)
    requires Configured(stations, types, datum)
    requires forall k :: 0 <= k < |stations| ==> StampsSorted(stations[k])
    ensures res == Failure(NoReferenceColumn) <==> forall k :: 0 <= k < |stations| ==> stations[k] == []
    ensures res.Success? ==>
      && res.value.Length1 == |stations| + 1
      && exists i: nat :: FirstLongest(stations, i) && res.value.Length0 == |stations[i]|
           && Column(res.value, 0) == ElapsedColumn(stations[i])
  {
    var A := GenerateA(stations, types, datum);
    ghost var i := FirstLongestOf(stations, A.Length0);
    if A.Length0 == 0 {
      NoRowsNoReference(A);
    } else {
      ReferenceIsFirstLongest(A, stations, types, datum, i);
    }
    res := GenerateR(A);
  }

  /** The first station whose row count is the maximum `m`. */
  lemma FirstLongestOf(stations: seq<seq<Sample>>, m: nat) returns (i: nat)
    requires forall k :: 0 <= k < |stations| ==> |stations[k]| <= m
    requires exists k :: 0 <= k < |stations| && |stations[k]| == m
    ensures FirstLongest(stations, i) && |stations[i]| == m
  {
    i := 0;
    while |stations[i]| != m
      invariant i < |stations| && forall k :: 0 <= k < i ==> |stations[k]| < m
      invariant exists k :: i <= k < |stations| && |stations[k]| == m
      decreases |stations| - i
    {
      i := i + 1;
    }
  }
}
