/** The gap filler `interpol` (usgs2telemac.py:151-182).

    A column of the output matrix holds a reading at some rows and nothing at
    the others.  `interpol` fills it in two passes: every missing row lying
    strictly between two consecutive present rows gets the straight-line value
    between them, and then every row still missing copies the row above it,
    where "the row above" row 0 is, by Python's negative indexing, the last row.

    `Interpolated` specifies the result row by row; the method `Interpol`
    performs the two passes in place and is proved to produce it.
 */
module Interpolation {
  import opened Cells

  /** The rows of `s` that hold a reading, in ascending order: the `index`
      array the first loop of `interpol` collects. */
  function PresentRows(s: seq<Cell>): (rows: seq<nat>)
    ensures forall t :: 0 <= t < |rows| ==> rows[t] < |s| && s[rows[t]].Some?
    ensures forall t, u :: 0 <= t < u < |rows| ==> rows[t] < rows[u]
  {
    if s == [] then []
    else
      var init := s[..|s| - 1];
      assert forall k :: 0 <= k < |init| ==> init[k] == s[k];
      PresentRows(init) + (if s[|s| - 1].Some? then [|s| - 1] else [])
  }

  /** Every present row is listed by `PresentRows`, at position `t`. */
  lemma {:induction false} PresentRowsComplete(s: seq<Cell>, k: nat) returns (t: nat)
    requires k < |s| && s[k].Some?
    ensures t < |PresentRows(s)| && PresentRows(s)[t] == k
  {
    var init := s[..|s| - 1];
    if k == |s| - 1 {
      t := |PresentRows(init)|;
    } else {
      assert init[k] == s[k];
      t := PresentRowsComplete(init, k);
    }
  }

  /** The closest present row strictly above (before) row `k`, if any. */
  function PresentBelow(s: seq<Cell>, k: nat): (p: Option<nat>)
    requires k <= |s|
    ensures p.Some? ==> p.value < k && s[p.value].Some?
    ensures p.Some? ==> forall r :: p.value < r < k ==> s[r].None?
    ensures p.None? ==> forall r :: 0 <= r < k ==> s[r].None?
  {
    if k == 0 then None
    else if s[k - 1].Some? then Some(k - 1)
    else PresentBelow(s, k - 1)
  }

  /** The closest present row strictly after row `k`, if any. */
  function PresentAbove(s: seq<Cell>, k: nat): (q: Option<nat>)
    requires k < |s|
    ensures q.Some? ==> k < q.value < |s| && s[q.value].Some?
    ensures q.Some? ==> forall r :: k < r < q.value ==> s[r].None?
    ensures q.None? ==> forall r :: k < r < |s| ==> s[r].None?
    decreases |s| - k
  {
    if k + 1 == |s| then None
    else if s[k + 1].Some? then Some(k + 1)
    else PresentAbove(s, k + 1)
  }

  /** The value `interpol` writes at row `k` between reading `a` at row `p`
      and reading `b` at row `q`: a + (b - a) * (k - p) / (q - p). */
  function Lerp(a: real, b: real, p: int, q: int, k: int): (v: real)
    requires p < q
  {
    a + (b - a) * ((k - p) as real) / ((q - p) as real)
  }

  /** The straight line meets both readings at their rows and stays between
      them in the gap. */
  lemma LerpBetween(a: real, b: real, p: int, q: int, k: int)
    requires p <= k <= q && p < q
    ensures k == p ==> Lerp(a, b, p, q, k) == a
    ensures k == q ==> Lerp(a, b, p, q, k) == b
    ensures a <= b ==> a <= Lerp(a, b, p, q, k) <= b
    ensures b <= a ==> b <= Lerp(a, b, p, q, k) <= a
  {
    var m := (k - p) as real;
    var d := (q - p) as real;
    var f := m / d;
    assert 0.0 <= f <= 1.0;
    var e := b - a;
    assert e * m / d == e * f;
    assert Lerp(a, b, p, q, k) == a + e * f;
    if k == q {
      assert f == 1.0;
    }
    if e >= 0.0 {
      assert 0.0 <= e * f && 0.0 <= e * (1.0 - f);
    } else {
      assert 0.0 <= -e * f && 0.0 <= -e * (1.0 - f);
    }
  }

  /** Row `k` after the interpolation pass (usgs2telemac.py:172-178): a present
      row keeps its reading, a missing row with a present row on each side gets
      the straight-line value between the nearest two, any other row stays
      missing. */
  function BridgedAt(s: seq<Cell>, k: nat): (x: Cell)
    requires k < |s|
  {
    if s[k].Some? then s[k]
    else
      match (PresentBelow(s, k), PresentAbove(s, k))
      case (Some(p), Some(q)) => Some(Lerp(s[p].value, s[q].value, p, q, k))
      case _ => None
  }

  function Bridged(s: seq<Cell>): (r: seq<Cell>)
    ensures |r| == |s|
  {
    seq(|s|, k requires 0 <= k < |s| => BridgedAt(s, k))
  }

  /** Row `k` after the carry pass (usgs2telemac.py:179-181): the entry of the
      closest present row at or before `k`; when there is none, the entry of
      the last row, which the carry copies into row 0 and on downwards. */
  function CarriedAt(s: seq<Cell>, k: nat): (x: Cell)
    requires k < |s|
  {
    match PresentBelow(s, k + 1)
    case Some(p) => s[p]
    case None => s[|s| - 1]
  }

  function Carried(s: seq<Cell>): (r: seq<Cell>)
    ensures |r| == |s|
  {
    seq(|s|, k requires 0 <= k < |s| => CarriedAt(s, k))
  }

  /** The column `interpol` returns: same length, every present reading kept,
      and a column without gaps comes back unchanged. */
  function Interpolated(s: seq<Cell>): (r: seq<Cell>)
    ensures |r| == |s|
    ensures forall k :: 0 <= k < |s| && s[k].Some? ==> r[k] == s[k]
    ensures AllPresent(s) ==> r == s
  {
    var g := Bridged(s);
    assert forall k :: 0 <= k < |s| && s[k].Some? ==> g[k] == s[k] && CarriedAt(g, k) == g[k];
    Carried(g)
  }

  // ---------------------------------------------------------------------
  // Facts about the present rows

  lemma {:induction false} PresentRowsOfPrefix(s: seq<Cell>, i: nat)
    requires i <= |s|
    ensures |PresentRows(s[..i])| <= |PresentRows(s)|
    decreases |s| - i
  {
    if i == |s| {
      assert s[..i] == s;
    } else {
      PresentRowsOfPrefix(s, i + 1);
      assert s[..i + 1][..i] == s[..i];
    }
  }

  /** No row strictly between two consecutive present rows holds a reading. */
  lemma GapBetweenPresentRows(s: seq<Cell>, t: nat)
    requires 0 < t < |PresentRows(s)|
    ensures forall r :: PresentRows(s)[t - 1] < r < PresentRows(s)[t] ==> s[r].None?
  {
    var rows := PresentRows(s);
    forall r | rows[t - 1] < r < rows[t]
      ensures s[r].None?
    {
      if s[r].Some? {
        var u := PresentRowsComplete(s, r);
      }
    }
  }

  /** A missing row with no present row on one of its sides is left missing
      by the interpolation pass. */
  lemma BridgedOutside(s: seq<Cell>, k: nat)
    requires k < |s|
    requires s[k].Some? || PresentBelow(s, k).None? || PresentAbove(s, k).None?
    ensures Bridged(s)[k] == s[k]
  {
  }

  /** Rows up to the first present row are left as they are by the
      interpolation pass; so is a column without readings. */
  lemma BridgedBeforeFirst(s: seq<Cell>)
    ensures var rows := PresentRows(s);
      forall k :: 0 <= k < |s| && (|rows| == 0 || k <= rows[0]) ==> Bridged(s)[k] == s[k]
  {
    var rows := PresentRows(s);
    forall k | 0 <= k < |s| && (|rows| == 0 || k <= rows[0])
      ensures Bridged(s)[k] == s[k]
    {
      var below := PresentBelow(s, k);
      if below.Some? {
        var u := PresentRowsComplete(s, below.value);
      }
      BridgedOutside(s, k);
    }
  }

  /** Rows after the last present row are left as they are by the
      interpolation pass. */
  lemma BridgedAfterLast(s: seq<Cell>, k: nat)
    requires |PresentRows(s)| > 0 && PresentRows(s)[|PresentRows(s)| - 1] < k < |s|
    ensures Bridged(s)[k] == s[k]
  {
    var above := PresentAbove(s, k);
    if above.Some? {
      var u := PresentRowsComplete(s, above.value);
    }
    BridgedOutside(s, k);
  }

  /** A missing row between consecutive present rows `p` and `q` gets the
      straight-line value between them from the interpolation pass. */
  lemma BridgedInGap(s: seq<Cell>, p: nat, q: nat, k: nat)
    requires p < k < q < |s|
    requires s[p].Some? && s[q].Some?
    requires forall r :: p < r < q ==> s[r].None?
    ensures Bridged(s)[k] == Some(Lerp(s[p].value, s[q].value, p, q, k))
  {
  }

  // ---------------------------------------------------------------------
  // What the filled column looks like

  /** A missing row between consecutive present rows `p` and `q` ends up
      with the straight-line value between their readings. */
  lemma InterpolatedInGap(s: seq<Cell>, p: nat, q: nat, k: nat)
    requires p < k < q < |s|
    requires s[p].Some? && s[q].Some?
    requires forall r :: p < r < q ==> s[r].None?
    ensures Interpolated(s)[k] == Some(Lerp(s[p].value, s[q].value, p, q, k))
  {
    BridgedInGap(s, p, q, k);
    assert PresentBelow(Bridged(s), k + 1) == Some(k);
  }

  /** Rows after the last present row `p` all take its reading. */
  lemma InterpolatedAfterLast(s: seq<Cell>, p: nat, k: nat)
    requires p < k < |s| && s[p].Some?
    requires forall r :: p < r < |s| ==> s[r].None?
    ensures Interpolated(s)[k] == s[p]
  {
    var g := Bridged(s);
    BridgedOutside(s, p);
    forall r | p < r < |s|
      ensures g[r].None?
    {
      BridgedOutside(s, r);
    }
    assert g[p].Some?;
    assert PresentBelow(g, k + 1) == Some(p);
  }

  /** Rows before the first present row take the last row's entry: its
      reading when the last row holds one, and otherwise they stay missing.
      In particular a column without any reading stays entirely missing. */
  lemma InterpolatedBeforeFirst(s: seq<Cell>, k: nat)
    requires k < |s|
    requires forall r :: 0 <= r <= k ==> s[r].None?
    ensures Interpolated(s)[k] == s[|s| - 1]
  {
    var g := Bridged(s);
    forall r | 0 <= r <= k
      ensures g[r].None?
    {
      BridgedOutside(s, r);
    }
    if s[|s| - 1].None? {
      BridgedOutside(s, |s| - 1);
    }
    assert g[|s| - 1] == s[|s| - 1];
    assert PresentBelow(g, k + 1).None?;
  }

  lemma InterpolatedAllMissing(s: seq<Cell>)
    requires AllMissing(s)
    ensures Interpolated(s) == s
  {
    forall k | 0 <= k < |s|
      ensures Interpolated(s)[k] == s[k]
    {
      InterpolatedBeforeFirst(s, k);
    }
  }

  /** From the first present row down to the last row, every row of the
      filled column holds a value. */
  lemma InterpolatedPresentFrom(s: seq<Cell>, f: nat)
    requires f < |s| && s[f].Some?
    ensures forall k :: f <= k < |s| ==> Interpolated(s)[k].Some?
  {
    var g := Bridged(s);
    BridgedOutside(s, f);
    forall k | f <= k < |s|
      ensures Interpolated(s)[k].Some?
    {
      assert PresentBelow(g, k + 1).Some?;
    }
  }

  /** When the last row holds a reading, the filled column has no missing
      entry at all. */
  lemma InterpolatedDense(s: seq<Cell>)
    requires |s| > 0 && s[|s| - 1].Some?
    ensures AllPresent(Interpolated(s))
  {
    var g := Bridged(s);
    BridgedOutside(s, |s| - 1);
    forall k | 0 <= k < |s|
      ensures Interpolated(s)[k].Some?
    {
      var below := PresentBelow(g, k + 1);
    }
  }

  /** Readings 5 at row 0 and 15 at row 4 give 7.5, 10 and 12.5 in between. */
  lemma InterpolatedExample()
    ensures Interpolated([Some(5.0), None, None, None, Some(15.0)])
         == [Some(5.0), Some(7.5), Some(10.0), Some(12.5), Some(15.0)]
  {
    var s := [Some(5.0), None, None, None, Some(15.0)];
    forall k | 1 <= k < 4
      ensures Interpolated(s)[k] == Some(Lerp(5.0, 15.0, 0, 4, k))
    {
      InterpolatedInGap(s, 0, 4, k);
    }
  }

  // ---------------------------------------------------------------------
  // The algorithm

  /** `interpol(v)`: fills the missing entries of `v` in place. */
  method Interpol(v: array<Cell>)
    modifies v
    ensures v[..] == Interpolated(old(v[..]))
  {
    var index := CollectPresentRows(v);
    BridgeGaps(v, index);
    CarryDown(v);
  }

  /** First loop of `interpol` (usgs2telemac.py:165-171): the rows holding a
      reading, collected with the counter `j` into an array sized by their
      number. */
  method CollectPresentRows(v: array<Cell>) returns (index: array<nat>)
    ensures index[..] == PresentRows(v[..])
  {
    ghost var s := v[..];
    index := new nat[|PresentRows(v[..])|];
    var j := 0;
    for i := 0 to v.Length
      invariant j <= index.Length
      invariant index[..j] == PresentRows(s[..i])
    {
      PresentRowsOfPrefix(s, i + 1);
      assert s[..i + 1][..i] == s[..i];
      if v[i].Some? {
        index[j] := i;
        j := j + 1;
      }
    }
    assert s[..v.Length] == s;
    assert index[..j] == index[..];
  }

  /** Second loop of `interpol` (usgs2telemac.py:172-178): for each pair of
      consecutive present rows, the rows strictly between them get the
      straight-line values. */
  method BridgeGaps(v: array<Cell>, index: array<nat>)
    requires index[..] == PresentRows(v[..])
    modifies v
    ensures v[..] == Bridged(old(v[..]))
  {
    ghost var s := v[..];
    var j := index.Length;
    if j == 0 {
      BridgedBeforeFirst(s);
      assert v[..] == Bridged(s);
      return;
    }
    BridgeStart(s);
    var i := 1;
    while i < j
      invariant 1 <= i <= j
      invariant BridgedUpTo(v[..], s, index[i - 1])
    {
      var p, q := index[i - 1], index[i];
      GapBetweenPresentRows(s, i);
      BridgedUpToEnds(v[..], s, p, q);
      ghost var before := v[..];
      FillGap(v, p, q);
      BridgeStep(s, before, v[..], p, q);
      i := i + 1;
    }
    BridgeFinish(s, v[..]);
  }

  /** `cur` agrees with the interpolation pass over `s` up to row `d` and
      with `s` itself below it: the state of `BridgeGaps` once every gap
      above row `d` is filled. */
  ghost predicate BridgedUpTo(cur: seq<Cell>, s: seq<Cell>, d: nat) {
    && |cur| == |s|
    && (forall k :: 0 <= k <= d && k < |s| ==> cur[k] == Bridged(s)[k])
    && (forall k :: d < k < |s| ==> cur[k] == s[k])
  }

  /** Before any gap is filled, the column agrees with the pass up to its
      first present row. */
  lemma BridgeStart(s: seq<Cell>)
    requires |PresentRows(s)| > 0
    ensures BridgedUpTo(s, s, PresentRows(s)[0])
  {
    BridgedBeforeFirst(s);
  }

  /** The ends of the next gap still hold their readings. */
  lemma BridgedUpToEnds(cur: seq<Cell>, s: seq<Cell>, p: nat, q: nat)
    requires BridgedUpTo(cur, s, p) && p < q < |s| && s[p].Some? && s[q].Some?
    ensures cur[p] == s[p] && cur[q] == s[q]
  {
    BridgedOutside(s, p);
  }

  /** Filling the gap between consecutive present rows `p` and `q` carries
      the agreement from row `p` to row `q`. */
  lemma BridgeStep(s: seq<Cell>, before: seq<Cell>, after: seq<Cell>, p: nat, q: nat)
    requires BridgedUpTo(before, s, p) && p < q < |s| && s[p].Some? && s[q].Some?
    requires forall r :: p < r < q ==> s[r].None?
    requires |after| == |before|
    requires forall r :: 0 <= r < |before| ==>
      after[r] == if p < r < q then Some(Lerp(before[p].value, before[q].value, p, q, r)) else before[r]
    ensures BridgedUpTo(after, s, q)
  {
    BridgedUpToEnds(before, s, p, q);
    BridgedOutside(s, q);
    forall k | 0 <= k <= q
      ensures after[k] == Bridged(s)[k]
    {
      if p < k < q {
        BridgedInGap(s, p, q, k);
      }
    }
  }

  /** Once the last gap is filled, the column is the whole pass. */
  lemma BridgeFinish(s: seq<Cell>, cur: seq<Cell>)
    requires |PresentRows(s)| > 0 && BridgedUpTo(cur, s, PresentRows(s)[|PresentRows(s)| - 1])
    ensures cur == Bridged(s)
  {
    var rows := PresentRows(s);
    var g := Bridged(s);
    forall k | 0 <= k < |s|
      ensures cur[k] == g[k]
    {
      if rows[|rows| - 1] < k {
        BridgedAfterLast(s, k);
      }
    }
  }

  /** The innermost loop of `interpol` (usgs2telemac.py:173-178): rows
      strictly between the present rows `p` and `q` get the straight-line
      values between their readings, the step `m` counting from `p`. */
  method FillGap(v: array<Cell>, p: nat, q: nat)
    requires p < q < v.Length && v[p].Some? && v[q].Some?
    modifies v
    ensures forall r :: 0 <= r < v.Length ==>
      v[r] == if p < r < q then Some(Lerp(old(v[p].value), old(v[q].value), p, q, r)) else old(v[r])
  {
    var a := v[p];
    var b := v[q];
    var m := 1;
    for k := p + 1 to q
      invariant m == k - p
      invariant forall r :: 0 <= r < v.Length ==>
        v[r] == if p < r < k then Some(Lerp(a.value, b.value, p, q, r)) else old(v[r])
    {
      var x := a.value + (b.value - a.value) * (m as real) / ((q - p) as real);
      assert x == Lerp(a.value, b.value, p, q, k);
      v[k] := Some(x);
      m := m + 1;
    }
  }

  /** Last loop of `interpol` (usgs2telemac.py:179-181): from row 0 down, a
      missing row copies the row before it; for row 0 that is `v[-1]`, the
      last row. */
  method CarryDown(v: array<Cell>)
    modifies v
    ensures v[..] == Carried(old(v[..]))
  {
    ghost var g := v[..];
    for i := 0 to v.Length
      invariant forall k :: 0 <= k < i ==> v[k] == CarriedAt(g, k)
      invariant forall k :: i <= k < v.Length ==> v[k] == g[k]
    {
      if v[i].None? {
        var previous := if i == 0 then v.Length - 1 else i - 1;
        v[i] := v[previous];
      }
    }
    assert v[..] == Carried(g);
  }
}
