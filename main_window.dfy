/**
 * The non-UI part of `MainWindow` in dbi/ui/main_window.py: the relabelling transaction
 * `_assign_indices` (with history push, eviction and redo clearing) and the selection handlers
 * for rectangle, horizontal/vertical line, click and the row/column rule.
 */
module MainWindow {
  import opened Wrappers
  import opened Text
  import opened Model
  import opened Selection

  /** The `mode` argument of `_assign_indices`; any other string does nothing. */
  datatype Mode = Add | Remove | Toggle | Other(name: string)

  /** The part of a `ProjectState` that a transaction changes. */
  datatype Labels = Labels(assignment: seq<int>, undo: seq<Edit>, redo: seq<Edit>)

  function LabelsOf(st: ProjectState): Labels
    reads st
  {
    Labels(st.assignment, st.undoStack, st.redoStack)
  }

  /** The part of a `ProjectState` that no selection handler touches. */
  function SettingsOf(st: ProjectState): (DataSet, map<int, Group>, seq<int>, nat, BreatherParams, bool, bool)
    reads st
  {
    (st.data, st.groups, st.groupOrder, st.maxHistory, st.breather, st.applyLocalizing, st.preserveBaseSelection)
  }

  /** Remove always goes ahead; add and toggle need an active group (gid 0 is "none"). */
  predicate Proceeds(mode: Mode, gid: int)
  {
    mode == Remove || ((mode == Add || mode == Toggle) && gid != 0)
  }

  /** The new label of one atom: `np.zeros_like`, `np.where(curr == gid, 0, gid)` or
      `np.where(curr == gid, curr, gid)`. */
  function NewLabel(mode: Mode, gid: int, cur: int): int
  {
    match mode
    case Remove => 0
    case Toggle => if cur == gid then 0 else gid
    case Add => if cur == gid then cur else gid
    case Other(_) => cur
  }

  function NewLabels(mode: Mode, gid: int, curr: seq<int>): (r: seq<int>)
    ensures |r| == |curr|
  {
    seq(|curr|, k requires 0 <= k < |curr| => NewLabel(mode, gid, curr[k]))
  }

  /** The history entry's description text. */
  function Description(mode: Mode, gid: int, n: nat): string
  {
    match mode
    case Remove => "remove " + NatToString(n)
    case Toggle => "toggle " + NatToString(n) + " to group " + IntToString(gid)
    case Add => "add " + NatToString(n) + " to group " + IntToString(gid)
    case Other(_) => ""
  }

  /** The edit `_assign_indices` records: the deduplicated indices with their labels before and after. */
  function PushedEdit(a: seq<int>, gid: int, indices: seq<nat>, mode: Mode): (e: Edit)
    requires InBounds(indices, |a|)
    ensures EditFits(e, |a|)
  {
    var u := Unique(indices);
    UniqueBounded(indices, |a|);
    var before := Gather(a, u);
    Edit(u, before, NewLabels(mode, gid, before), Description(mode, gid, |u|))
  }

  /** `_assign_indices` on the labels and the history: nothing when it is refused, otherwise the
      indices are relabelled, the edit is pushed (dropping the oldest one past `maxHistory`) and
      the redo stack is cleared. */
  function Transaction(h: Labels, maxHistory: nat, gid: int, indices: seq<nat>, mode: Mode): Labels
    requires InBounds(indices, |h.assignment|)
  {
    if !Proceeds(mode, gid) then h
    else
      var e := PushedEdit(h.assignment, gid, indices, mode);
      var pushed := h.undo + [e];
      Labels(WriteAt(h.assignment, e.indices, e.after), if |pushed| > maxHistory then pushed[1..] else pushed, [])
  }

  /** Add gives every selected atom the active group, also atoms that belonged to another group. */
  lemma AddRelabelsAll(h: Labels, maxHistory: nat, gid: int, indices: seq<nat>)
    requires InBounds(indices, |h.assignment|) && gid != 0
    ensures var r := Transaction(h, maxHistory, gid, indices, Add);
      |r.assignment| == |h.assignment| && forall k :: 0 <= k < |indices| ==> r.assignment[indices[k]] == gid
  {
    TransactionLabels(h, maxHistory, gid, indices, Add);
    assert forall k :: 0 <= k < |indices| ==> indices[k] in indices;
  }

  /** Labels after a transaction: the mode's new label at the given indices and the old one
      everywhere else; a refused transaction changes nothing. */
  lemma TransactionLabels(h: Labels, maxHistory: nat, gid: int, indices: seq<nat>, mode: Mode)
    requires InBounds(indices, |h.assignment|)
    ensures var r := Transaction(h, maxHistory, gid, indices, mode);
      && (!Proceeds(mode, gid) ==> r == h)
      && |r.assignment| == |h.assignment|
      && forall i :: 0 <= i < |h.assignment| ==>
           r.assignment[i] == if Proceeds(mode, gid) && i in indices then NewLabel(mode, gid, h.assignment[i])
                              else h.assignment[i]
  {
    if Proceeds(mode, gid) {
      var e := PushedEdit(h.assignment, gid, indices, mode);
      var r := Transaction(h, maxHistory, gid, indices, mode);
      StrictlyIncreasingIsDistinct(e.indices);
      WriteAtDistinct(h.assignment, e.indices, e.after);
      forall i | 0 <= i < |h.assignment| && i in indices
        ensures r.assignment[i] == NewLabel(mode, gid, h.assignment[i])
      {
        assert i in e.indices;
        var k :| 0 <= k < |e.indices| && e.indices[k] == i;
        assert r.assignment[e.indices[k]] == e.after[k];
      }
    }
  }

  /** History after a transaction that goes ahead: the redo stack is empty, the edit is on top,
      the oldest edit is dropped once the bound would be exceeded, and the bound is kept. */
  lemma TransactionHistory(h: Labels, maxHistory: nat, gid: int, indices: seq<nat>, mode: Mode)
    requires InBounds(indices, |h.assignment|) && Proceeds(mode, gid) && |h.undo| <= maxHistory
    ensures var r := Transaction(h, maxHistory, gid, indices, mode);
      var e := PushedEdit(h.assignment, gid, indices, mode);
      && r.redo == []
      && |r.undo| <= maxHistory
      && (|h.undo| < maxHistory ==> r.undo == h.undo + [e])
      && (0 < |h.undo| == maxHistory ==> r.undo == h.undo[1..] + [e])
      && (maxHistory == 0 ==> r.undo == [])
  {
    var e := PushedEdit(h.assignment, gid, indices, mode);
    if |h.undo| > 0 {
      assert (h.undo + [e])[1..] == h.undo[1..] + [e];
    }
  }

  /** A transaction keeps every edit of the history fitting the labels and the history within
      its bound. */
  lemma TransactionKeepsFit(h: Labels, maxHistory: nat, gid: int, indices: seq<nat>, mode: Mode)
    requires InBounds(indices, |h.assignment|)
    requires forall e :: e in h.undo ==> EditFits(e, |h.assignment|)
    requires forall e :: e in h.redo ==> EditFits(e, |h.assignment|)
    requires |h.undo| + |h.redo| <= maxHistory
    ensures var r := Transaction(h, maxHistory, gid, indices, mode);
      && |r.assignment| == |h.assignment|
      && (forall e :: e in r.undo ==> EditFits(e, |r.assignment|))
      && (forall e :: e in r.redo ==> EditFits(e, |r.assignment|))
      && |r.undo| + |r.redo| <= maxHistory
  {
    if Proceeds(mode, gid) {
      var e := PushedEdit(h.assignment, gid, indices, mode);
      var pushed := h.undo + [e];
      assert forall x :: x in pushed ==> x in h.undo || x == e;
      assert |pushed| > 0 ==> forall x :: x in pushed[1..] ==> x in pushed;
    }
  }

  /** The pushed edit holds the deduplicated, ascending indices, exactly the labels there before
      the transaction, and exactly the labels there after it. */
  lemma TransactionEdit(h: Labels, maxHistory: nat, gid: int, indices: seq<nat>, mode: Mode)
    requires InBounds(indices, |h.assignment|) && Proceeds(mode, gid)
    ensures var r := Transaction(h, maxHistory, gid, indices, mode);
      var e := PushedEdit(h.assignment, gid, indices, mode);
      && StrictlyIncreasing(e.indices)
      && (forall i :: i in e.indices <==> i in indices)
      && InBounds(e.indices, |r.assignment|)
      && e.before == Gather(h.assignment, e.indices)
      && e.after == Gather(r.assignment, e.indices)
  {
    var e := PushedEdit(h.assignment, gid, indices, mode);
    StrictlyIncreasingIsDistinct(e.indices);
    WriteAtDistinct(h.assignment, e.indices, e.after);
  }

  /** Writing the pushed edit's `before` labels back over the result restores the labels the
      transaction started from: what `undo` does with that edit. */
  lemma TransactionUndone(h: Labels, maxHistory: nat, gid: int, indices: seq<nat>, mode: Mode)
    requires InBounds(indices, |h.assignment|) && Proceeds(mode, gid)
    ensures var r := Transaction(h, maxHistory, gid, indices, mode);
      var e := PushedEdit(h.assignment, gid, indices, mode);
      InBounds(e.indices, |r.assignment|) && WriteAt(r.assignment, e.indices, e.before) == h.assignment
  {
    var e := PushedEdit(h.assignment, gid, indices, mode);
    StrictlyIncreasingIsDistinct(e.indices);
    WriteAtRestores(h.assignment, e.indices, e.after, e.before);
  }

  /** Toggling the same atoms twice gives the labels back exactly when each of them was
      unlabelled or in the active group; an atom of another group ends up unlabelled. */
  lemma ToggleTwice(h: Labels, maxHistory: nat, gid: int, indices: seq<nat>)
    requires InBounds(indices, |h.assignment|) && gid != 0
    ensures var r := Transaction(h, maxHistory, gid, indices, Toggle);
      && InBounds(indices, |r.assignment|)
      && (Transaction(r, maxHistory, gid, indices, Toggle).assignment == h.assignment <==>
          forall k :: 0 <= k < |indices| ==> h.assignment[indices[k]] == 0 || h.assignment[indices[k]] == gid)
  {
    var r := Transaction(h, maxHistory, gid, indices, Toggle);
    TransactionLabels(h, maxHistory, gid, indices, Toggle);
    var t := Transaction(r, maxHistory, gid, indices, Toggle);
    TransactionLabels(r, maxHistory, gid, indices, Toggle);
    if t.assignment == h.assignment {
      forall k | 0 <= k < |indices| ensures h.assignment[indices[k]] == 0 || h.assignment[indices[k]] == gid {
        var i := indices[k];
        assert t.assignment[i] == h.assignment[i];
      }
    }
    if forall k :: 0 <= k < |indices| ==> h.assignment[indices[k]] == 0 || h.assignment[indices[k]] == gid {
      forall i | 0 <= i < |h.assignment| ensures t.assignment[i] == h.assignment[i] {
        if i in indices {
          var k :| 0 <= k < |indices| && indices[k] == i;
        }
      }
    }
  }

  /** The mode a rectangle or line pick uses. */
  function PickMode(preserveBase: bool): Mode
  {
    if preserveBase then Add else Toggle
  }

  /** The mode a click uses: with base selection preserved, an unlabelled atom is added and a
      labelled one removed; otherwise the atom is toggled. */
  function ClickMode(preserveBase: bool, current: int): Mode
  {
    if preserveBase then (if current == 0 then Add else Remove) else Toggle
  }

  /** The atom a click picks: the nearest within tolerance, provided it lies in the active disc. */
  function ClickTarget(xs: seq<real>, ys: seq<real>, px: real, py: real, tol2: real, mask: CircleMask): (r: Option<nat>)
    requires |xs| == |ys|
    ensures r.Some? ==> r == NearestAtom(xs, ys, px, py, tol2) && (MaskActive(mask) ==> InCircle(xs, ys, mask, r.value))
    ensures r.None? ==> NearestAtom(xs, ys, px, py, tol2).None? || (MaskActive(mask) && !InCircle(xs, ys, mask, NearestAtom(xs, ys, px, py, tol2).value))
  {
    var n := NearestAtom(xs, ys, px, py, tol2);
    if n.None? then None
    else if MaskActive(mask) && !InCircle(xs, ys, mask, n.value) then None
    else n
  }

  /** The perpendicular band through an anchor atom of the rule. */
  function PerpBand(xs: seq<real>, ys: seq<real>, a: Axis, anchor: nat, r: real, m: CircleMask): seq<nat>
    requires anchor < |Along(xs, ys, a)|
  {
    LineBand(xs, ys, Perpendicular(a), Along(xs, ys, a)[anchor], r, m)
  }

  /** A perpendicular band holds atom indices only. */
  lemma PerpBandBounded(xs: seq<real>, ys: seq<real>, a: Axis, anchor: nat, r: real, m: CircleMask)
    requires |xs| == |ys| && anchor < |xs|
    ensures InBounds(PerpBand(xs, ys, a, anchor, r, m), |xs|)
  {
    var band := PerpBand(xs, ys, a, anchor, r, m);
    LineBandMembers(xs, ys, Perpendicular(a), Along(xs, ys, a)[anchor], r, m);
    forall j | 0 <= j < |band| ensures band[j] < |xs| {
      assert band[j] in band;
    }
  }

  /** `final`: the decimated bands of the rule, one after the other. */
  function RuleUnion(bands: seq<seq<nat>>, m: int, off2: int): seq<nat>
  {
    if |bands| == 0 then [] else RuleUnion(bands[..|bands| - 1], m, off2) + Decimate(bands[|bands| - 1], m, off2)
  }

  /** An index is in the union exactly when it is kept in one of the bands. */
  lemma {:induction false} RuleUnionMembers(bands: seq<seq<nat>>, m: int, off2: int)
    ensures forall i :: i in RuleUnion(bands, m, off2) <==> exists k :: 0 <= k < |bands| && i in Decimate(bands[k], m, off2)
  {
    if |bands| > 0 {
      var n := |bands| - 1;
      RuleUnionMembers(bands[..n], m, off2);
      assert RuleUnion(bands, m, off2) == RuleUnion(bands[..n], m, off2) + Decimate(bands[n], m, off2);
      forall i ensures i in RuleUnion(bands, m, off2) <==> exists k :: 0 <= k < |bands| && i in Decimate(bands[k], m, off2) {
        if i in RuleUnion(bands, m, off2) && i !in Decimate(bands[n], m, off2) {
          var k :| 0 <= k < n && i in Decimate(bands[..n][k], m, off2);
          assert bands[..n][k] == bands[k];
        }
        if exists k :: 0 <= k < |bands| && i in Decimate(bands[k], m, off2) {
          var k :| 0 <= k < |bands| && i in Decimate(bands[k], m, off2);
          if k < n {
            assert bands[..n][k] == bands[k];
          }
        }
      }
    }
  }

  lemma {:induction false} RuleUnionBounded(bands: seq<seq<nat>>, m: int, off2: int, n: nat)
    requires forall k :: 0 <= k < |bands| ==> InBounds(bands[k], n)
    ensures InBounds(RuleUnion(bands, m, off2), n)
  {
    if |bands| > 0 {
      RuleUnionBounded(bands[..|bands| - 1], m, off2, n);
      KeepPositionsBounded(bands[|bands| - 1], Stride(m), off2 % Stride(m), n);
    }
  }

  /** Assigning `sorted(set(final))` is the same transaction as assigning `final`. */
  lemma SortedSetTransaction(h: Labels, maxHistory: nat, gid: int, indices: seq<nat>, mode: Mode)
    requires InBounds(indices, |h.assignment|)
    ensures InBounds(Unique(indices), |h.assignment|)
    ensures Transaction(h, maxHistory, gid, Unique(indices), mode) == Transaction(h, maxHistory, gid, indices, mode)
  {
    UniqueBounded(indices, |h.assignment|);
    UniqueOfAscending(Unique(indices));
  }

  /** `{int(i): idx for idx, i in enumerate(ids)}`: a later duplicate id wins. */
  function IdToIndex(ids: seq<int>): (m: map<int, nat>)
    ensures forall id :: id in m <==> id in ids
    ensures forall id :: id in m ==> m[id] < |ids| && ids[m[id]] == id
    ensures forall id, j :: id in m && m[id] < j < |ids| ==> ids[j] != id
  {
    if |ids| == 0 then map[]
    else
      var n := |ids| - 1;
      var m := IdToIndex(ids[..n]);
      assert ids == ids[..n] + [ids[n]];
      m[ids[n] := n]
  }

  /** `pos(atom_id)`: the (x, y) of the atom with that id, or none for an unknown id. */
  function Pos(ds: DataSet, aid: int): (r: Option<(real, real)>)
    requires |ds.x| == |ds.ids| && |ds.y| == |ds.ids|
    ensures r.None? <==> aid !in ds.ids
    ensures r.Some? ==> exists i :: && 0 <= i < |ds.ids| && ds.ids[i] == aid && r.value == (ds.x[i], ds.y[i])
                                   && forall j :: i < j < |ds.ids| ==> ds.ids[j] != aid
  {
    var m := IdToIndex(ds.ids);
    if aid in m then Some((ds.x[m[aid]], ds.y[m[aid]])) else None
  }

  /** `band` is the perpendicular band at `anchor`, reordered along the perpendicular axis. */
  predicate SortedBand(band: seq<nat>, xs: seq<real>, ys: seq<real>, axis: Axis, anchor: nat, r: real, mask: CircleMask)
    requires |xs| == |ys| && anchor < |xs|
  {
    && multiset(band) == multiset(PerpBand(xs, ys, axis, anchor, r, mask))
    && InBounds(band, |xs|)
    && SortedBy(band, Along(xs, ys, Perpendicular(axis)))
  }

  /** The loop of `on_rule_clicked` over the anchors: each anchor's perpendicular band sorted
      along the perpendicular axis, and `final`, the union of their decimations. */
  method RuleBands(xs: seq<real>, ys: seq<real>, axis: Axis, anchors: seq<nat>, r: real, mask: CircleMask,
                   m: int, off2: int)
    returns (bands: seq<seq<nat>>, final: seq<nat>)
    requires |xs| == |ys| && InBounds(anchors, |xs|)
    ensures |bands| == |anchors|
    ensures forall k :: 0 <= k < |anchors| ==> SortedBand(bands[k], xs, ys, axis, anchors[k], r, mask)
    ensures final == RuleUnion(bands, m, off2)
  {
    bands, final := [], [];
    var k := 0;
    while k < |anchors|
      invariant 0 <= k <= |anchors| && |bands| == k
      invariant forall j :: 0 <= j < k ==> SortedBand(bands[j], xs, ys, axis, anchors[j], r, mask)
      invariant final == RuleUnion(bands, m, off2)
    {
      var band := PerpBand(xs, ys, axis, anchors[k], r, mask);
      PerpBandBounded(xs, ys, axis, anchors[k], r, mask);
      var sortedBand := SortAlong(band, Along(xs, ys, Perpendicular(axis)));
      assert SortedBand(sortedBand, xs, ys, axis, anchors[k], r, mask);
      var more := bands + [sortedBand];
      assert more[..k] == bands && more[k] == sortedBand;
      assert RuleUnion(more, m, off2) == final + Decimate(sortedBand, m, off2);
      forall j | 0 <= j < k + 1 ensures SortedBand(more[j], xs, ys, axis, anchors[j], r, mask) {
        if j < k {
          assert more[j] == bands[j];
        }
      }
      final := final + Decimate(sortedBand, m, off2);
      bands := more;
      k := k + 1;
    }
  }

  /** The pieces `_assign_indices` writes, piece by piece: the relabelled array, the pushed
      stack with its oldest edit evicted past the bound, and an empty redo stack; every stacked
      edit still fits. */
  lemma TransactionPieces(h: Labels, maxHistory: nat, gid: int, indices: seq<nat>, mode: Mode, e: Edit, undo: seq<Edit>)
    requires InBounds(indices, |h.assignment|) && Proceeds(mode, gid)
    requires forall x :: x in h.undo ==> EditFits(x, |h.assignment|)
    requires |h.undo| + |h.redo| <= maxHistory
    requires e == PushedEdit(h.assignment, gid, indices, mode)
    requires undo == if |h.undo + [e]| > maxHistory then (h.undo + [e])[1..] else h.undo + [e]
    ensures Transaction(h, maxHistory, gid, indices, mode) == Labels(WriteAt(h.assignment, e.indices, e.after), undo, [])
    ensures forall x :: x in undo ==> EditFits(x, |h.assignment|)
    ensures |undo| <= maxHistory
  {
    assert forall x :: x in undo ==> x in h.undo + [e];
  }

  /** The body of `_assign_indices` on the project state, for the group `gid`: the labels are
      written, the edit is pushed with the oldest one dropped past `max_history`, and the redo
      stack is cleared; a refused transaction changes nothing. */
  method ApplyTransaction(st: ProjectState, gid: int, indices: seq<nat>, mode: Mode)
    requires st.Valid() && InBounds(indices, |st.assignment|)
    modifies st
    ensures st.Valid()
    ensures LabelsOf(st) == Transaction(old(LabelsOf(st)), st.maxHistory, gid, indices, mode)
    ensures |st.assignment| == old(|st.assignment|)
    ensures SettingsOf(st) == old(SettingsOf(st))
  {
    if !Proceeds(mode, gid) {
      return;
    }
    ghost var h := LabelsOf(st);
    var e := PushedEdit(st.assignment, gid, indices, mode);
    var undo := st.undoStack + [e];
    if |undo| > st.maxHistory {
      undo := undo[1..];
    }
    TransactionPieces(h, st.maxHistory, gid, indices, mode, e, undo);
    CommitEdit(st, e, undo);
  }

  /** The writes that end `_assign_indices`: the edit's new labels in place, the new undo stack,
      and the redo stack cleared. */
  method CommitEdit(st: ProjectState, e: Edit, undo: seq<Edit>)
    requires TableValid(st.groupOrder, st.groups) && EditFits(e, |st.assignment|)
    requires forall x :: x in undo ==> EditFits(x, |st.assignment|)
    requires |undo| <= st.maxHistory
    modifies st
    ensures st.Valid()
    ensures LabelsOf(st) == Labels(WriteAt(old(st.assignment), e.indices, e.after), undo, [])
    ensures SettingsOf(st) == old(SettingsOf(st))
  {
    st.Scatter(e.indices, e.after);
    st.undoStack, st.redoStack := undo, [];
  }

  /** The selection state of the main window over one project state. */
  class Editor {
    var state: ProjectState
    var activeGroupId: int
    var lastLineOrientation: Option<Axis>
    var lastLineIndices: Option<seq<nat>>

    /** The project state is valid, its coordinate sequences run parallel to the labels and a
        recorded line addresses atoms of the dataset. */
    ghost predicate Valid()
      reads this, state
    {
      && state.Valid()
      && |state.data.x| == |state.assignment|
      && |state.data.y| == |state.assignment|
      && (lastLineIndices.Some? ==> InBounds(lastLineIndices.value, |state.assignment|))
    }

    constructor (state: ProjectState)
      requires state.Valid() && |state.data.x| == |state.assignment| && |state.data.y| == |state.assignment|
      ensures Valid()
      ensures this.state == state && activeGroupId == 0
      ensures lastLineOrientation.None? && lastLineIndices.None?
    {
      this.state := state;
      activeGroupId := 0;
      lastLineOrientation := None;
      lastLineIndices := None;
    }

    /** `_assign_indices`: relabels the given atoms with the active group as `Transaction` says. */
    method AssignIndices(indices: seq<nat>, mode: Mode)
      requires Valid() && InBounds(indices, |state.assignment|)
      modifies state
      ensures Valid()
      ensures LabelsOf(state) == Transaction(old(LabelsOf(state)), state.maxHistory, activeGroupId, indices, mode)
      ensures SettingsOf(state) == old(SettingsOf(state))
    {
      ApplyTransaction(state, activeGroupId, indices, mode);
    }

    /** Rectangle pick: the atoms inside the closed rectangle and the mask, added or toggled. */
    method SelectRect(xmin: real, xmax: real, ymin: real, ymax: real, mask: CircleMask)
      requires Valid()
      modifies state
      ensures Valid()
      ensures var hits := RectHits(old(state.data.x), old(state.data.y), xmin, xmax, ymin, ymax, mask);
        && InBounds(hits, |old(state.assignment)|)
        && LabelsOf(state) == if |hits| == 0 then old(LabelsOf(state))
           else Transaction(old(LabelsOf(state)), state.maxHistory, activeGroupId, hits, PickMode(state.preserveBaseSelection))
      ensures SettingsOf(state) == old(SettingsOf(state))
    {
      var xs, ys := state.data.x, state.data.y;
      var hits := RectHits(xs, ys, xmin, xmax, ymin, ymax, mask);
      RectHitsMembers(xs, ys, xmin, xmax, ymin, ymax, mask);
      assert InBounds(hits, |state.assignment|) by {
        forall k | 0 <= k < |hits| ensures hits[k] < |state.assignment| {
          assert hits[k] in hits;
        }
      }
      if |hits| > 0 {
        AssignIndices(hits, PickMode(state.preserveBaseSelection));
      }
    }

    /** Line pick: the band around the line, sorted along it and decimated by (spacing, offset),
        is recorded as the last line and added or toggled; an empty band does nothing at all. */
    method SelectLine(axis: Axis, coord: real, r: real, spacing: int, offset: int, mask: CircleMask)
      returns (sorted: seq<nat>)
      requires Valid()
      modifies this, state
      ensures Valid() && state == old(state) && activeGroupId == old(activeGroupId)
      ensures var band := LineBand(old(state.data.x), old(state.data.y), axis, coord, r, mask);
        if |band| == 0 then
          && LabelsOf(state) == old(LabelsOf(state))
          && lastLineOrientation == old(lastLineOrientation) && lastLineIndices == old(lastLineIndices)
        else
          && multiset(sorted) == multiset(band)
          && InBounds(sorted, |state.data.x|)
          && SortedBy(sorted, Along(state.data.x, state.data.y, axis))
          && lastLineOrientation == Some(axis)
          && lastLineIndices == Some(Decimate(sorted, spacing, offset))
          && InBounds(Decimate(sorted, spacing, offset), |old(state.assignment)|)
          && LabelsOf(state) == Transaction(old(LabelsOf(state)), state.maxHistory, activeGroupId,
                                            Decimate(sorted, spacing, offset), PickMode(state.preserveBaseSelection))
      ensures SettingsOf(state) == old(SettingsOf(state))
    {
      var xs, ys := state.data.x, state.data.y;
      var band := LineBand(xs, ys, axis, coord, r, mask);
      if |band| == 0 {
        return [];
      }
      LineBandMembers(xs, ys, axis, coord, r, mask);
      assert InBounds(band, |xs|) by {
        forall k | 0 <= k < |band| ensures band[k] < |xs| {
          assert band[k] in band;
        }
      }
      sorted := SortAlong(band, Along(xs, ys, axis));
      var hits := Decimate(sorted, spacing, offset);
      KeepPositionsBounded(sorted, Stride(spacing), offset % Stride(spacing), |xs|);
      lastLineOrientation := Some(axis);
      lastLineIndices := Some(hits);
      AssignIndices(hits, PickMode(state.preserveBaseSelection));
    }

    /** Click: the nearest atom within tolerance inside the active disc, relabelled by `ClickMode`
        according to its current label; nothing happens without such an atom. */
    method Click(px: real, py: real, tol2: real, mask: CircleMask)
      requires Valid()
      modifies state
      ensures Valid()
      ensures var t := ClickTarget(old(state.data.x), old(state.data.y), px, py, tol2, mask);
        LabelsOf(state) == if t.None? then old(LabelsOf(state))
          else Transaction(old(LabelsOf(state)), state.maxHistory, activeGroupId, [t.value],
                           ClickMode(state.preserveBaseSelection, old(state.assignment)[t.value]))
      ensures SettingsOf(state) == old(SettingsOf(state))
    {
      var xs, ys := state.data.x, state.data.y;
      var t := ClickTarget(xs, ys, px, py, tol2, mask);
      if t.None? {
        return;
      }
      var i := t.value;
      AssignIndices([i], ClickMode(state.preserveBaseSelection, state.assignment[i]));
    }

    /** The row/column rule over the recorded line: its atoms sorted along the line and decimated
        by (n, off) are the anchors; each anchor's perpendicular band, sorted across and decimated
        by (m, off2), joins the union, which is added to the active group. Without a recorded line,
        without anchors or with an empty union nothing changes. */
    method ApplyRule(n: int, off: int, m: int, off2: int, r: real, mask: CircleMask)
      returns (lineSorted: seq<nat>, anchors: seq<nat>, bands: seq<seq<nat>>)
      requires Valid()
      modifies state
      ensures Valid()
      ensures lastLineOrientation == old(lastLineOrientation) && lastLineIndices == old(lastLineIndices)
      ensures lastLineOrientation.None? || lastLineIndices.None? ==> LabelsOf(state) == old(LabelsOf(state))
      ensures lastLineOrientation.Some? && lastLineIndices.Some? ==>
        var axis := lastLineOrientation.value;
        var xs, ys := state.data.x, state.data.y;
        && multiset(lineSorted) == multiset(lastLineIndices.value)
        && InBounds(lineSorted, |xs|) && SortedBy(lineSorted, Along(xs, ys, axis))
        && anchors == Decimate(lineSorted, n, off)
        && InBounds(anchors, |xs|)
        && |bands| == |anchors|
        && (forall k :: 0 <= k < |anchors| ==> SortedBand(bands[k], xs, ys, axis, anchors[k], r, mask))
        && InBounds(RuleUnion(bands, m, off2), |old(state.assignment)|)
        && LabelsOf(state) == if |RuleUnion(bands, m, off2)| == 0 then old(LabelsOf(state))
           else Transaction(old(LabelsOf(state)), state.maxHistory, activeGroupId, RuleUnion(bands, m, off2), Add)
      ensures SettingsOf(state) == old(SettingsOf(state))
    {
      lineSorted, anchors, bands := [], [], [];
      if lastLineOrientation.None? || lastLineIndices.None? {
        return;
      }
      var axis := lastLineOrientation.value;
      var xs, ys := state.data.x, state.data.y;
      lineSorted := SortAlong(lastLineIndices.value, Along(xs, ys, axis));
      anchors := Decimate(lineSorted, n, off);
      KeepPositionsBounded(lineSorted, Stride(n), off % Stride(n), |xs|);
      if |anchors| == 0 {
        return;
      }
      var final;
      bands, final := RuleBands(xs, ys, axis, anchors, r, mask, m, off2);
      RuleUnionBounded(bands, m, off2, |xs|);
      if |final| == 0 {
        return;
      }
      SortedSetTransaction(LabelsOf(state), state.maxHistory, activeGroupId, final, Add);
      AssignIndices(Unique(final), Add);
    }
  }

  /** A fresh relabelling that goes ahead can be undone: `undo` pops exactly its edit and
      restores the labels it started from. */
  method AssignThenUndo(ed: Editor, indices: seq<nat>, mode: Mode)
    requires ed.Valid() && InBounds(indices, |ed.state.assignment|)
    requires Proceeds(mode, ed.activeGroupId) && ed.state.maxHistory >= 1
    modifies ed.state
    ensures ed.Valid()
    ensures ed.state.assignment == old(ed.state.assignment)
    ensures ed.state.redoStack == [PushedEdit(old(ed.state.assignment), ed.activeGroupId, indices, mode)]
  {
    ghost var h := LabelsOf(ed.state);
    ed.AssignIndices(indices, mode);
    TransactionUndone(h, ed.state.maxHistory, ed.activeGroupId, indices, mode);
    TransactionHistory(h, ed.state.maxHistory, ed.activeGroupId, indices, mode);
    var e := ed.state.Undo();
  }
}
