/**
 * The selection engine of dbi/ui/main_window.py, lifted out of the event handlers:
 * index sets from geometric tests over the coordinate sequences, the circle mask,
 * nearest-atom picking, periodic decimation, `np.unique` and `np.argsort`.
 */
module Selection {
  import opened Wrappers
  import opened Model

  /** Orientation of a line pick: 'h' (constant y) or 'v' (constant x). */
  datatype Axis = Horizontal | Vertical

  /** The circle mask state: enabled flag, optional centre and radius. */
  datatype CircleMask = CircleMask(enabled: bool, center: Option<(real, real)>, radius: real)

  /** `circle_enabled and circle_center and circle_radius > 0.0` */
  predicate MaskActive(m: CircleMask)
  {
    m.enabled && m.center.Some? && m.radius > 0.0
  }

  function Abs(v: real): real
  {
    if v < 0.0 then -v else v
  }

  function Sq(v: real): real
  {
    v * v
  }

  /** Squared distance of atom `i` from the point (px, py). */
  function Dist2(xs: seq<real>, ys: seq<real>, i: nat, px: real, py: real): real
    requires i < |xs| && i < |ys|
  {
    Sq(xs[i] - px) + Sq(ys[i] - py)
  }

  /** Atom `i` lies in the closed disc of an active mask. */
  predicate InCircle(xs: seq<real>, ys: seq<real>, m: CircleMask, i: nat)
    requires m.center.Some?
  {
    i < |xs| && i < |ys| && Dist2(xs, ys, i, m.center.value.0, m.center.value.1) <= Sq(m.radius)
  }

  /** `r` is `s` with some elements left out, the rest in their order. */
  predicate IsSubsequence(r: seq<nat>, s: seq<nat>)
    decreases |s|
  {
    if |r| == 0 then true
    else if |s| == 0 then false
    else if r[0] == s[0] then IsSubsequence(r[1..], s[1..])
    else IsSubsequence(r, s[1..])
  }

  /** `s[mask]` for the boolean mask `p(s)`: the elements that satisfy `p`, in order, each as
      often as in `s`. */
  function Filter(s: seq<nat>, p: nat -> bool): (r: seq<nat>)
    ensures IsSubsequence(r, s)
    ensures forall k :: 0 <= k < |r| ==> p(r[k])
    ensures forall i: nat :: multiset(r)[i] == if p(i) then multiset(s)[i] else 0
  {
    if |s| == 0 then []
    else
      var rest := Filter(s[1..], p);
      assert s == [s[0]] + s[1..];
      if p(s[0]) then [s[0]] + rest
      else
        assert rest != [] ==> rest[0] != s[0];
        rest
  }

  /** `np.nonzero(cond)[0]` for a condition over 0..n-1: the satisfying indices in ascending order. */
  function IndicesWhere(n: nat, p: nat -> bool): (r: seq<nat>)
    ensures StrictlyIncreasing(r) && InBounds(r, n)
    ensures forall i: nat :: i in r <==> i < n && p(i)
  {
    if n == 0 then []
    else
      var r := IndicesWhere(n - 1, p);
      if p(n - 1) then r + [n - 1] else r
  }

  /** `_apply_circle_constraint`: unchanged when the mask is inactive, otherwise the in-order
      subsequence of indices inside the disc. */
  function ApplyCircleConstraint(xs: seq<real>, ys: seq<real>, indices: seq<nat>, m: CircleMask): (r: seq<nat>)
    ensures !MaskActive(m) ==> r == indices
    ensures MaskActive(m) ==>
      && IsSubsequence(r, indices)
      && (forall k :: 0 <= k < |r| ==> InCircle(xs, ys, m, r[k]))
      && (forall i: nat :: multiset(r)[i] == if InCircle(xs, ys, m, i) then multiset(indices)[i] else 0)
  {
    if !MaskActive(m) then indices
    else Filter(indices, (i: nat) => InCircle(xs, ys, m, i))
  }

  /** Rectangle pick: indices with both coordinates inside the closed bounds, then the mask. */
  function RectHits(xs: seq<real>, ys: seq<real>, xmin: real, xmax: real, ymin: real, ymax: real, m: CircleMask): seq<nat>
  {
    var inRect := IndicesWhere(|xs|, (i: nat) => i < |xs| && i < |ys| && xmin <= xs[i] <= xmax && ymin <= ys[i] <= ymax);
    ApplyCircleConstraint(xs, ys, inRect, m)
  }

  /** The coordinate a line of this orientation holds constant, and the one it runs along. */
  function Across(xs: seq<real>, ys: seq<real>, a: Axis): seq<real>
  {
    if a == Horizontal then ys else xs
  }

  function Along(xs: seq<real>, ys: seq<real>, a: Axis): seq<real>
  {
    if a == Horizontal then xs else ys
  }

  function Perpendicular(a: Axis): Axis
  {
    if a == Horizontal then Vertical else Horizontal
  }

  /** Band pick: indices within `r` of the line at `coord` (|y - coord| <= r for a horizontal
      line, |x - coord| <= r for a vertical one), then the mask. */
  function LineBand(xs: seq<real>, ys: seq<real>, a: Axis, coord: real, r: real, m: CircleMask): seq<nat>
  {
    var c := Across(xs, ys, a);
    ApplyCircleConstraint(xs, ys, IndicesWhere(|c|, (i: nat) => i < |c| && Abs(c[i] - coord) <= r), m)
  }

  /** A masked index is one of the inputs that lies in the disc, or any input when the mask is off. */
  lemma ApplyCircleMembers(xs: seq<real>, ys: seq<real>, indices: seq<nat>, m: CircleMask)
    ensures forall i: nat :: i in ApplyCircleConstraint(xs, ys, indices, m) <==>
      i in indices && (MaskActive(m) ==> InCircle(xs, ys, m, i))
  {
    var r := ApplyCircleConstraint(xs, ys, indices, m);
    forall i: nat ensures i in r <==> i in indices && (MaskActive(m) ==> InCircle(xs, ys, m, i)) {
      var mr: multiset<nat>, mi: multiset<nat> := multiset(r), multiset(indices);
      assert i in r <==> mr[i] > 0;
      assert i in indices <==> mi[i] > 0;
    }
  }

  /** The rectangle pick is exactly the atoms inside the closed rectangle (and the active disc). */
  lemma RectHitsMembers(xs: seq<real>, ys: seq<real>, xmin: real, xmax: real, ymin: real, ymax: real, m: CircleMask)
    requires |xs| == |ys|
    ensures forall i: nat :: i in RectHits(xs, ys, xmin, xmax, ymin, ymax, m) <==>
      && i < |xs|
      && xmin <= xs[i] <= xmax && ymin <= ys[i] <= ymax
      && (MaskActive(m) ==> InCircle(xs, ys, m, i))
  {
    var inRect := IndicesWhere(|xs|, (i: nat) => i < |xs| && i < |ys| && xmin <= xs[i] <= xmax && ymin <= ys[i] <= ymax);
    ApplyCircleMembers(xs, ys, inRect, m);
  }

  /** The band pick is exactly the atoms within `r` of the line (and in the active disc). */
  lemma LineBandMembers(xs: seq<real>, ys: seq<real>, a: Axis, coord: real, r: real, m: CircleMask)
    requires |xs| == |ys|
    ensures forall i: nat :: i in LineBand(xs, ys, a, coord, r, m) <==>
      && i < |xs|
      && Abs(Across(xs, ys, a)[i] - coord) <= r
      && (MaskActive(m) ==> InCircle(xs, ys, m, i))
  {
    var c := Across(xs, ys, a);
    ApplyCircleMembers(xs, ys, IndicesWhere(|c|, (i: nat) => i < |c| && Abs(c[i] - coord) <= r), m);
  }

  /** Every picked index addresses an atom. */
  lemma PicksBounded(xs: seq<real>, ys: seq<real>, indices: seq<nat>, m: CircleMask, n: nat)
    requires InBounds(indices, n)
    ensures InBounds(ApplyCircleConstraint(xs, ys, indices, m), n)
  {
    var r := ApplyCircleConstraint(xs, ys, indices, m);
    ApplyCircleMembers(xs, ys, indices, m);
    forall k | 0 <= k < |r| ensures r[k] < n {
      assert r[k] in indices;
    }
  }

  /** Index of the first minimum of `d` (`np.argmin`). */
  function FirstMinimum(d: seq<real>): (k: nat)
    requires |d| > 0
    ensures k < |d|
    ensures forall j :: 0 <= j < |d| ==> d[k] <= d[j]
    ensures forall j :: 0 <= j < k ==> d[k] < d[j]
  {
    if |d| == 1 then 0
    else
      var m := FirstMinimum(d[..|d| - 1]);
      assert forall j :: 0 <= j < |d| - 1 ==> d[..|d| - 1][j] == d[j];
      if d[|d| - 1] < d[m] then |d| - 1 else m
  }

  /** `_nearest_atom_index`: the first atom of least squared distance from (px, py), provided
      that distance is within `tol2`; none otherwise (and none for an empty dataset). */
  function NearestAtom(xs: seq<real>, ys: seq<real>, px: real, py: real, tol2: real): (r: Option<nat>)
    requires |xs| == |ys|
    ensures r.Some? ==>
      && r.value < |xs|
      && Dist2(xs, ys, r.value, px, py) <= tol2
      && (forall j :: 0 <= j < |xs| ==> Dist2(xs, ys, r.value, px, py) <= Dist2(xs, ys, j, px, py))
      && (forall j :: 0 <= j < r.value ==> Dist2(xs, ys, r.value, px, py) < Dist2(xs, ys, j, px, py))
    ensures r.None? <==> forall j :: 0 <= j < |xs| ==> Dist2(xs, ys, j, px, py) > tol2
  {
    if |xs| == 0 then None
    else
      var d := seq(|xs|, i requires 0 <= i < |xs| => Dist2(xs, ys, i, px, py));
      assert forall j :: 0 <= j < |xs| ==> d[j] == Dist2(xs, ys, j, px, py);
      var k := FirstMinimum(d);
      if d[k] <= tol2 then Some(k) else None
  }

  // ---------- periodic decimation ----------

  /** `max(1, n)` */
  function Stride(n: int): (s: nat)
    ensures s >= 1 && (n >= 1 ==> s == n) && (n < 1 ==> s == 1)
  {
    if n < 1 then 1 else n
  }

  /** `s[np.arange(len(s)) % stride == phase]`: the elements at positions congruent to `phase`. */
  function KeepPositions(s: seq<nat>, stride: nat, phase: nat): seq<nat>
    requires stride >= 1
  {
    if |s| == 0 then []
    else KeepPositions(s[..|s| - 1], stride, phase) + (if (|s| - 1) % stride == phase then [s[|s| - 1]] else [])
  }

  /** Keep one in `n` (at least 1) starting at `off`, as `keep = arange % N == off % N` does. */
  function Decimate(s: seq<nat>, n: int, off: int): seq<nat>
  {
    KeepPositions(s, Stride(n), off % Stride(n))
  }

  lemma MulStrict(d: int, n: int)
    requires d >= 1 && n >= 1
    ensures d * n >= n
  {
  }

  /** Euclidean division has only one quotient and remainder. */
  lemma DivModUnique(a: int, n: int, q: int, r: int)
    requires n >= 1 && 0 <= r < n && a == q * n + r
    ensures a / n == q && a % n == r
  {
    var q', r' := a / n, a % n;
    assert (q - q') * n == r' - r;
    if q > q' {
      MulStrict(q - q', n);
    } else if q < q' {
      MulStrict(q' - q, n);
    }
  }

  /** If `c` hits positions phase, phase+stride, ... stay below `last` and the next one does
      not, and `last` is congruent to `phase`, then the next one is `last`. */
  lemma CountAtHit(last: nat, stride: nat, phase: nat, c: nat)
    requires stride >= 1 && phase < stride && last % stride == phase
    requires phase + c * stride >= last
    requires c == 0 || phase + (c - 1) * stride < last
    ensures phase + c * stride == last
  {
    var q := last / stride;
    assert last == q * stride + phase;
    if c < q {
      MulStrict(q - c, stride);
    }
  }

  /** `r` holds the elements of `s` at positions phase, phase+stride, ..., up to the end of `s`. */
  predicate Strided(r: seq<nat>, s: seq<nat>, stride: nat, phase: nat)
  {
    && (forall j :: 0 <= j < |r| ==> phase + j * stride < |s| && r[j] == s[phase + j * stride])
    && phase + |r| * stride >= |s|
  }

  /** Appending an element at a position congruent to the phase extends the strided run. */
  lemma StridedHit(s: seq<nat>, stride: nat, phase: nat, p: seq<nat>)
    requires stride >= 1 && phase < stride && |s| > 0 && (|s| - 1) % stride == phase
    requires Strided(p, s[..|s| - 1], stride, phase)
    ensures Strided(p + [s[|s| - 1]], s, stride, phase)
  {
    var last := |s| - 1;
    var r := p + [s[last]];
    if |p| > 0 {
      assert phase + (|p| - 1) * stride < last;
    }
    CountAtHit(last, stride, phase, |p|);
    forall j | 0 <= j < |r| ensures phase + j * stride < |s| && r[j] == s[phase + j * stride] {
      if j < |p| {
        assert r[j] == p[j] == s[..last][phase + j * stride];
      }
    }
    assert (|p| + 1) * stride == |p| * stride + stride;
  }

  /** An element at a position not congruent to the phase leaves the strided run as it is. */
  lemma StridedMiss(s: seq<nat>, stride: nat, phase: nat, p: seq<nat>)
    requires stride >= 1 && phase < stride && |s| > 0 && (|s| - 1) % stride != phase
    requires Strided(p, s[..|s| - 1], stride, phase)
    ensures Strided(p, s, stride, phase)
  {
    var last := |s| - 1;
    if phase + |p| * stride == last {
      DivModUnique(last, stride, |p|, phase);
    }
    forall j | 0 <= j < |p| ensures phase + j * stride < |s| && p[j] == s[phase + j * stride] {
      assert p[j] == s[..last][phase + j * stride];
    }
  }

  /** The j-th kept element is the one at position phase + j*stride, and the next such
      position lies past the end: decimation keeps every stride-th element from `phase` on. */
  lemma {:induction false} KeepPositionsStrided(s: seq<nat>, stride: nat, phase: nat)
    requires stride >= 1 && phase < stride
    ensures Strided(KeepPositions(s, stride, phase), s, stride, phase)
  {
    if |s| > 0 {
      var last := |s| - 1;
      var p := KeepPositions(s[..last], stride, phase);
      KeepPositionsStrided(s[..last], stride, phase);
      if last % stride == phase {
        assert KeepPositions(s, stride, phase) == p + [s[last]];
        StridedHit(s, stride, phase, p);
      } else {
        assert KeepPositions(s, stride, phase) == p;
        StridedMiss(s, stride, phase, p);
      }
    }
  }

  /** Decimation with stride `n` and offset `off`: the j-th kept element sits at position
      `off % N + j * N` of `s` (N = max(1, n)), and every such position within `s` is kept. */
  lemma DecimateStrided(s: seq<nat>, n: int, off: int)
    ensures var N := Stride(n); var r := Decimate(s, n, off);
      && (forall j :: 0 <= j < |r| ==> off % N + j * N < |s| && r[j] == s[off % N + j * N])
      && off % N + |r| * N >= |s|
  {
    KeepPositionsStrided(s, Stride(n), off % Stride(n));
  }

  /** Decimating with stride 1 keeps everything. */
  lemma {:induction false} DecimateByOne(s: seq<nat>, off: int)
    ensures Decimate(s, 1, off) == s
  {
    DecimateStrided(s, 1, off);
    var r := Decimate(s, 1, off);
    assert off % 1 == 0;
    if |r| > 0 {
      assert 0 + (|r| - 1) * 1 < |s|;
    }
    assert |r| == |s|;
  }

  lemma {:induction false} KeepPositionsBounded(s: seq<nat>, stride: nat, phase: nat, n: nat)
    requires stride >= 1 && InBounds(s, n)
    ensures InBounds(KeepPositions(s, stride, phase), n)
  {
    if |s| > 0 {
      KeepPositionsBounded(s[..|s| - 1], stride, phase, n);
    }
  }

  // ---------- np.unique ----------

  function InsertSorted(r: seq<nat>, x: nat): (r': seq<nat>)
    requires StrictlyIncreasing(r)
    ensures StrictlyIncreasing(r')
    ensures forall y :: y in r' <==> y in r || y == x
  {
    if |r| == 0 then [x]
    else if x < r[0] then [x] + r
    else if x == r[0] then r
    else
      var rest := InsertSorted(r[1..], x);
      assert forall y :: y in rest ==> y > r[0];
      [r[0]] + rest
  }

  /** `np.unique` (and `sorted(set(...))`): the distinct elements of `s` in ascending order. */
  function Unique(s: seq<nat>): (r: seq<nat>)
    ensures StrictlyIncreasing(r)
    ensures forall y :: y in r <==> y in s
  {
    if |s| == 0 then [] else InsertSorted(Unique(s[..|s| - 1]), s[|s| - 1])
  }

  /** A set has only one ascending listing. */
  lemma {:induction false} AscendingListingUnique(a: seq<nat>, b: seq<nat>)
    requires StrictlyIncreasing(a) && StrictlyIncreasing(b)
    requires forall y :: y in a <==> y in b
    ensures a == b
  {
    assert |a| > 0 ==> a[0] in a;
    assert |b| > 0 ==> b[0] in b;
    if |a| > 0 && |b| > 0 {
      assert a[0] in b && b[0] in a;
      assert a[0] == b[0];
      assert a == [a[0]] + a[1..] && b == [b[0]] + b[1..];
      forall y ensures y in a[1..] <==> y in b[1..] {
        if y in a[1..] { assert y > a[0] && y in b; }
        if y in b[1..] { assert y > b[0] && y in a; }
      }
      AscendingListingUnique(a[1..], b[1..]);
    }
  }

  /** `np.unique` of a sorted, repetition-free sequence gives it back; in particular
      `np.unique(sorted(set(s)))` is `sorted(set(s))`. */
  lemma UniqueOfAscending(s: seq<nat>)
    requires StrictlyIncreasing(s)
    ensures Unique(s) == s
  {
    AscendingListingUnique(Unique(s), s);
  }

  /** Deduplicating keeps every index within the bound it had. */
  lemma UniqueBounded(s: seq<nat>, n: nat)
    requires InBounds(s, n)
    ensures InBounds(Unique(s), n)
  {
    var u := Unique(s);
    forall k | 0 <= k < |u| ensures u[k] < n {
      assert u[k] in s;
    }
  }

  // ---------- np.argsort ----------

  predicate SortedBy(r: seq<nat>, key: seq<real>)
    requires InBounds(r, |key|)
  {
    forall i, j :: 0 <= i < j < |r| ==> key[r[i]] <= key[r[j]]
  }

  /** Placing `x` after the elements whose key is at most its own keeps `r` sorted. */
  lemma InsertKeepsSorted(r: seq<nat>, k: nat, x: nat, key: seq<real>)
    requires InBounds(r, |key|) && SortedBy(r, key) && x < |key| && k <= |r|
    requires forall m :: 0 <= m < k ==> key[r[m]] <= key[x]
    requires k < |r| ==> key[x] < key[r[k]]
    ensures InBounds(r[..k] + [x] + r[k..], |key|) && SortedBy(r[..k] + [x] + r[k..], key)
  {
    var t := r[..k] + [x] + r[k..];
    forall i, j | 0 <= i < j < |t| ensures key[t[i]] <= key[t[j]] {
      if j < k {
        assert t[i] == r[i] && t[j] == r[j];
      } else if j == k {
        assert t[j] == x && t[i] == r[i];
      } else if i < k {
        assert t[i] == r[i] && t[j] == r[j - 1];
      } else if i == k {
        assert t[i] == x && t[j] == r[j - 1];
        assert key[r[k]] <= key[r[j - 1]] || k == j - 1;
      } else {
        assert t[i] == r[i - 1] && t[j] == r[j - 1];
      }
    }
  }

  /** `s[np.argsort(key[s])]` with the default (unstable) sort: the order of equal keys is not fixed. */
  method SortAlong(s: seq<nat>, key: seq<real>) returns (r: seq<nat>)
    requires InBounds(s, |key|)
    ensures multiset(r) == multiset(s)
    ensures InBounds(r, |key|) && SortedBy(r, key)
  {
    r := [];
    var i := 0;
    while i < |s|
      invariant 0 <= i <= |s|
      invariant multiset(r) == multiset(s[..i])
      invariant InBounds(r, |key|) && SortedBy(r, key)
    {
      var x := s[i];
      var k := 0;
      while k < |r| && key[r[k]] <= key[x]
        invariant 0 <= k <= |r|
        invariant forall m :: 0 <= m < k ==> key[r[m]] <= key[x]
      {
        k := k + 1;
      }
      InsertKeepsSorted(r, k, x, key);
      assert r == r[..k] + r[k..];
      assert s[..i + 1] == s[..i] + [x];
      r := r[..k] + [x] + r[k..];
      i := i + 1;
    }
    assert s[..i] == s;
  }
}
