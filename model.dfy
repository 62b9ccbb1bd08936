/**
 * The records of dbi/core/model.py and the assignment store `ProjectState`: a per-atom
 * label array, an insertion-ordered group table and two edit stacks.
 */
module Model {
  import opened Wrappers

  /** Simulation cell bounds. */
  datatype Box = Box(xlo: real, xhi: real, ylo: real, yhi: real, zlo: real, zhi: real)

  /** Parallel per-atom sequences plus the cell. */
  datatype DataSet = DataSet(ids: seq<int>, x: seq<real>, y: seq<real>, z: seq<real>, box: Box)

  /** A labelled group; `color` is the RGBA tuple and `direction` the 3-vector, both as given. */
  datatype Group = Group(gid: int, name: string, color: seq<int>, direction: seq<real>)

  /** Localisation parameters A, beta, x0, y0 (data for the exporter). */
  datatype BreatherParams = BreatherParams(a: real, beta: real, x0: real, y0: real)

  /** One undoable relabelling: the labels at `indices` before and after it. */
  datatype Edit = Edit(indices: seq<nat>, before: seq<int>, after: seq<int>, description: string)

  const DefaultDirection: seq<real> := [1.0, 0.0, 0.0]
  const DefaultBreather: BreatherParams := BreatherParams(0.05, 1.0, 0.0, 0.0)
  const DefaultMaxHistory: nat := 100

  /** `np.zeros(n)`. */
  function Zeros(n: nat): (r: seq<int>)
    ensures |r| == n && forall i :: 0 <= i < n ==> r[i] == 0
  {
    seq(n, _ => 0)
  }

  predicate Distinct<T(==)>(s: seq<T>)
  {
    forall i, j :: 0 <= i < j < |s| ==> s[i] != s[j]
  }

  /** The shape `np.unique` produces: sorted, without repetitions. */
  predicate StrictlyIncreasing(s: seq<nat>)
  {
    forall i, j :: 0 <= i < j < |s| ==> s[i] < s[j]
  }

  predicate InBounds(idx: seq<nat>, n: nat)
  {
    forall k :: 0 <= k < |idx| ==> idx[k] < n
  }

  /** An edit that can be replayed on an assignment array of length `n`. */
  predicate EditFits(e: Edit, n: nat)
  {
    && |e.before| == |e.indices|
    && |e.after| == |e.indices|
    && StrictlyIncreasing(e.indices)
    && InBounds(e.indices, n)
  }

  /** `a[idx]` with an index array. */
  function Gather(a: seq<int>, idx: seq<nat>): (r: seq<int>)
    requires InBounds(idx, |a|)
    ensures |r| == |idx|
    ensures forall k :: 0 <= k < |idx| ==> r[k] == a[idx[k]]
  {
    seq(|idx|, k requires 0 <= k < |idx| => a[idx[k]])
  }

  /** `a[idx] = vals` with an index array: the writes happen in order, so a later duplicate index wins. */
  function WriteAt(a: seq<int>, idx: seq<nat>, vals: seq<int>): (r: seq<int>)
    requires |vals| == |idx| && InBounds(idx, |a|)
    ensures |r| == |a|
    ensures forall i :: 0 <= i < |a| && i !in idx ==> r[i] == a[i]
    decreases |idx|
  {
    if |idx| == 0 then a
    else
      var n := |idx| - 1;
      assert forall i :: i in idx[..n] ==> i in idx;
      WriteAt(a, idx[..n], vals[..n])[idx[n] := vals[n]]
  }

  /** With distinct indices every written position ends up holding its value. */
  lemma {:induction false} WriteAtDistinct(a: seq<int>, idx: seq<nat>, vals: seq<int>)
    requires |vals| == |idx| && InBounds(idx, |a|) && Distinct(idx)
    ensures forall k :: 0 <= k < |idx| ==> WriteAt(a, idx, vals)[idx[k]] == vals[k]
    decreases |idx|
  {
    if |idx| > 0 {
      var n := |idx| - 1;
      WriteAtDistinct(a, idx[..n], vals[..n]);
      forall k | 0 <= k < n ensures WriteAt(a, idx, vals)[idx[k]] == vals[k] {
        assert idx[..n][k] == idx[k] && vals[..n][k] == vals[k];
      }
    }
  }

  /** Writing v1 and then the values v2 that were there before gives the array back. */
  lemma WriteAtRestores(a: seq<int>, idx: seq<nat>, v1: seq<int>, v2: seq<int>)
    requires |v1| == |idx| && |v2| == |idx| && InBounds(idx, |a|) && Distinct(idx)
    requires Gather(a, idx) == v2
    ensures WriteAt(WriteAt(a, idx, v1), idx, v2) == a
  {
    var b := WriteAt(a, idx, v1);
    var c := WriteAt(b, idx, v2);
    WriteAtDistinct(b, idx, v2);
    forall i | 0 <= i < |a| ensures c[i] == a[i] {
      if i in idx {
        var k :| 0 <= k < |idx| && idx[k] == i;
        assert c[idx[k]] == v2[k];
      }
    }
  }

  lemma StrictlyIncreasingIsDistinct(s: seq<nat>)
    requires StrictlyIncreasing(s)
    ensures Distinct(s)
  {
  }

  /** The group table (keys in insertion order plus the dict) is consistent. */
  ghost predicate TableValid(order: seq<int>, groups: map<int, Group>)
  {
    && Distinct(order)
    && (forall k :: k in groups <==> k in order)
    && (forall k :: k in groups ==> groups[k].gid == k)
  }

  /** `groups[g.gid] = g` on an insertion-ordered dict: a new key goes last, an existing key keeps its place. */
  function PutGroup(order: seq<int>, groups: map<int, Group>, g: Group): (seq<int>, map<int, Group>)
  {
    (if g.gid in groups then order else order + [g.gid], groups[g.gid := g])
  }

  /** Storing a group keeps the table consistent. */
  lemma PutGroupValid(order: seq<int>, groups: map<int, Group>, g: Group)
    requires TableValid(order, groups)
    ensures var r := PutGroup(order, groups, g); TableValid(r.0, r.1)
  {
    if g.gid !in groups {
      var o := order + [g.gid];
      forall i, j | 0 <= i < j < |o| ensures o[i] != o[j] {
        if j == |order| {
          assert o[i] == order[i] && order[i] in order;
        }
      }
    }
  }

  /** `order` without `x`. */
  function Without(order: seq<int>, x: int): (r: seq<int>)
    ensures forall y :: y in r <==> y in order && y != x
    ensures Distinct(order) ==> Distinct(r)
  {
    if |order| == 0 then []
    else
      var rest := Without(order[1..], x);
      assert Distinct(order) ==> order[0] !in order[1..];
      if order[0] == x then rest else [order[0]] + rest
  }

  class ProjectState {
    var data: DataSet
    var assignment: seq<int>
    var groups: map<int, Group>
    /** the keys of `groups` in the order a Python dict iterates them */
    var groupOrder: seq<int>
    var undoStack: seq<Edit>
    var redoStack: seq<Edit>
    var maxHistory: nat
    var breather: BreatherParams
    var applyLocalizing: bool
    var preserveBaseSelection: bool

    /** The group table is consistent, every stacked edit fits the assignment array, and
        the two stacks together stay within the history bound. */
    ghost predicate Valid()
      reads this
    {
      && TableValid(groupOrder, groups)
      && (forall e :: e in undoStack ==> EditFits(e, |assignment|))
      && (forall e :: e in redoStack ==> EditFits(e, |assignment|))
      && |undoStack| + |redoStack| <= maxHistory
    }

    /** The dataclass constructor with its defaults; `__post_init__` replaces an empty
        assignment by zeros, one per atom. */
    constructor (data: DataSet, assignment: seq<int>)
      ensures Valid()
      ensures this.data == data
      ensures this.assignment == if |assignment| == 0 then Zeros(|data.ids|) else assignment
      ensures groups == map[] && groupOrder == []
      ensures undoStack == [] && redoStack == [] && maxHistory == DefaultMaxHistory
      ensures breather == DefaultBreather && applyLocalizing && preserveBaseSelection
    {
      this.data := data;
      this.assignment := if |assignment| == 0 then Zeros(|data.ids|) else assignment;
      groups := map[];
      groupOrder := [];
      undoStack := [];
      redoStack := [];
      maxHistory := DefaultMaxHistory;
      breather := DefaultBreather;
      applyLocalizing := true;
      preserveBaseSelection := true;
    }

    /** Empties the table, zeroes every label and forgets the history. */
    method ClearGroups()
      requires Valid()
      modifies this
      ensures Valid()
      ensures groups == map[] && groupOrder == []
      ensures assignment == Zeros(|old(assignment)|)
      ensures undoStack == [] && redoStack == []
      ensures data == old(data) && maxHistory == old(maxHistory) && breather == old(breather)
      ensures applyLocalizing == old(applyLocalizing) && preserveBaseSelection == old(preserveBaseSelection)
    {
      groups := map[];
      groupOrder := [];
      assignment := Zeros(|assignment|);
      undoStack := [];
      redoStack := [];
    }

    /** Stores a fresh group under `gid` with direction (1,0,0); every other key keeps its group. */
    method AddGroup(gid: int, name: string, color: seq<int>) returns (g: Group)
      requires Valid()
      modifies this
      ensures Valid()
      ensures g == Group(gid, name, color, DefaultDirection)
      ensures (groupOrder, groups) == PutGroup(old(groupOrder), old(groups), g)
      ensures groups.Keys == old(groups).Keys + {gid} && groups[gid] == g
      ensures forall k :: k in old(groups) && k != gid ==> groups[k] == old(groups)[k]
      ensures assignment == old(assignment) && undoStack == old(undoStack) && redoStack == old(redoStack)
      ensures data == old(data) && maxHistory == old(maxHistory) && breather == old(breather)
      ensures applyLocalizing == old(applyLocalizing) && preserveBaseSelection == old(preserveBaseSelection)
    {
      g := Group(gid, name, color, DefaultDirection);
      PutGroupValid(groupOrder, groups, g);
      if gid !in groups {
        groupOrder := groupOrder + [gid];
      }
      groups := groups[gid := g];
    }

    /** Deletes a present group and resets its atoms to 0, outside the edit history. */
    method RemoveGroup(gid: int)
      requires Valid()
      modifies this
      ensures Valid()
      ensures gid !in old(groups) ==> unchanged(this)
      ensures gid in old(groups) ==>
        && groups == old(groups) - {gid}
        && groupOrder == Without(old(groupOrder), gid)
        && |assignment| == |old(assignment)|
        && forall i :: 0 <= i < |assignment| ==>
             assignment[i] == if old(assignment)[i] == gid then 0 else old(assignment)[i]
      ensures undoStack == old(undoStack) && redoStack == old(redoStack)
      ensures data == old(data) && maxHistory == old(maxHistory) && breather == old(breather)
      ensures applyLocalizing == old(applyLocalizing) && preserveBaseSelection == old(preserveBaseSelection)
    {
      if gid in groups {
        groups := groups - {gid};
        groupOrder := Without(groupOrder, gid);
        var a := assignment;
        var i := 0;
        while i < |a|
          invariant 0 <= i <= |a| == |assignment|
          invariant forall j :: 0 <= j < i ==> a[j] == if assignment[j] == gid then 0 else assignment[j]
          invariant forall j :: i <= j < |a| ==> a[j] == assignment[j]
        {
          if a[i] == gid {
            a := a[i := 0];
          }
          i := i + 1;
        }
        assignment := a;
      }
    }

    /** One RGBA row per atom: the unassigned colour for label 0 or a label with no group,
        otherwise that group's colour. */
    method ColorsRgbaForAll(unassigned: seq<int>) returns (out: seq<seq<int>>)
      ensures |out| == |assignment|
      ensures forall i :: 0 <= i < |assignment| ==>
        out[i] == if assignment[i] == 0 || assignment[i] !in groups then unassigned
                  else groups[assignment[i]].color
    {
      out := [];
      var i := 0;
      while i < |assignment|
        invariant 0 <= i <= |assignment| && |out| == i
        invariant forall j :: 0 <= j < i ==>
          out[j] == if assignment[j] == 0 || assignment[j] !in groups then unassigned
                    else groups[assignment[j]].color
      {
        var gid := assignment[i];
        if gid == 0 || gid !in groups {
          out := out + [unassigned];
        } else {
          out := out + [groups[gid].color];
        }
        i := i + 1;
      }
    }

    predicate CanUndo()
      reads this
    {
      |undoStack| > 0
    }

    predicate CanRedo()
      reads this
    {
      |redoStack| > 0
    }

    /** `self.assignment[idx] = vals`. */
    method Scatter(idx: seq<nat>, vals: seq<int>)
      requires |vals| == |idx| && InBounds(idx, |assignment|)
      modifies this`assignment
      ensures assignment == WriteAt(old(assignment), idx, vals)
    {
      var k := 0;
      while k < |idx|
        invariant 0 <= k <= |idx|
        invariant assignment == WriteAt(old(assignment), idx[..k], vals[..k])
      {
        assert idx[..k + 1][..k] == idx[..k] && vals[..k + 1][..k] == vals[..k];
        assignment := assignment[idx[k] := vals[k]];
        k := k + 1;
      }
      assert idx[..k] == idx && vals[..k] == vals;
    }

    /** Pops the newest edit, writes its `before` labels back and moves it to the redo stack. */
    method Undo() returns (r: Option<Edit>)
      requires Valid()
      modifies this
      ensures Valid()
      ensures r.Some? <==> old(CanUndo())
      ensures !old(CanUndo()) ==> unchanged(this)
      ensures old(CanUndo()) ==>
        var e := old(undoStack)[|old(undoStack)| - 1];
        && EditFits(e, |old(assignment)|)
        && r == Some(e)
        && undoStack == old(undoStack)[..|old(undoStack)| - 1]
        && redoStack == old(redoStack) + [e]
        && assignment == WriteAt(old(assignment), e.indices, e.before)
        && (forall k :: 0 <= k < |e.indices| ==> assignment[e.indices[k]] == e.before[k])
      ensures data == old(data) && groups == old(groups) && groupOrder == old(groupOrder)
      ensures maxHistory == old(maxHistory) && breather == old(breather)
      ensures applyLocalizing == old(applyLocalizing) && preserveBaseSelection == old(preserveBaseSelection)
    {
      if |undoStack| == 0 {
        return None;
      }
      var e := undoStack[|undoStack| - 1];
      assert e in undoStack;
      undoStack := undoStack[..|undoStack| - 1];
      Scatter(e.indices, e.before);
      WriteAtDistinct(old(assignment), e.indices, e.before);
      redoStack := redoStack + [e];
      r := Some(e);
    }

    /** Pops the newest undone edit, writes its `after` labels and moves it back to the undo stack. */
    method Redo() returns (r: Option<Edit>)
      requires Valid()
      modifies this
      ensures Valid()
      ensures r.Some? <==> old(CanRedo())
      ensures !old(CanRedo()) ==> unchanged(this)
      ensures old(CanRedo()) ==>
        var e := old(redoStack)[|old(redoStack)| - 1];
        && EditFits(e, |old(assignment)|)
        && r == Some(e)
        && redoStack == old(redoStack)[..|old(redoStack)| - 1]
        && undoStack == old(undoStack) + [e]
        && assignment == WriteAt(old(assignment), e.indices, e.after)
        && (forall k :: 0 <= k < |e.indices| ==> assignment[e.indices[k]] == e.after[k])
      ensures data == old(data) && groups == old(groups) && groupOrder == old(groupOrder)
      ensures maxHistory == old(maxHistory) && breather == old(breather)
      ensures applyLocalizing == old(applyLocalizing) && preserveBaseSelection == old(preserveBaseSelection)
    {
      if |redoStack| == 0 {
        return None;
      }
      var e := redoStack[|redoStack| - 1];
      assert e in redoStack;
      redoStack := redoStack[..|redoStack| - 1];
      Scatter(e.indices, e.after);
      WriteAtDistinct(old(assignment), e.indices, e.after);
      undoStack := undoStack + [e];
      r := Some(e);
    }
  }

  /** When the newest edit's `after` labels are still in place, undo followed by redo restores
      the labels and both stacks. */
  method UndoThenRedo(st: ProjectState)
    requires st.Valid() && st.CanUndo()
    requires var e := st.undoStack[|st.undoStack| - 1]; e in st.undoStack && Gather(st.assignment, e.indices) == e.after
    modifies st
    ensures st.Valid()
    ensures st.assignment == old(st.assignment)
    ensures st.undoStack == old(st.undoStack) && st.redoStack == old(st.redoStack)
  {
    ghost var e := st.undoStack[|st.undoStack| - 1];
    ghost var a := st.assignment;
    var u := st.Undo();
    var r := st.Redo();
    StrictlyIncreasingIsDistinct(e.indices);
    WriteAtRestores(a, e.indices, e.before, e.after);
  }

  /** When the newest undone edit's `before` labels are in place, redo followed by undo restores
      the labels and both stacks. */
  method RedoThenUndo(st: ProjectState)
    requires st.Valid() && st.CanRedo()
    requires var e := st.redoStack[|st.redoStack| - 1]; e in st.redoStack && Gather(st.assignment, e.indices) == e.before
    modifies st
    ensures st.Valid()
    ensures st.assignment == old(st.assignment)
    ensures st.undoStack == old(st.undoStack) && st.redoStack == old(st.redoStack)
  {
    ghost var e := st.redoStack[|st.redoStack| - 1];
    ghost var a := st.assignment;
    var r := st.Redo();
    var u := st.Undo();
    StrictlyIncreasingIsDistinct(e.indices);
    WriteAtRestores(a, e.indices, e.after, e.before);
  }

  /** `remove_group` bypasses the history: an undo right after it can write the removed gid
      back onto atoms, leaving labels that name no group. */
  method RemoveThenUndo(st: ProjectState, gid: int, k: nat)
    requires st.Valid() && gid in st.groups && st.CanUndo()
    requires var e := st.undoStack[|st.undoStack| - 1]; k < |e.before| && e.before[k] == gid
    modifies st
    ensures st.Valid()
    ensures gid !in st.groups
    ensures var e := old(st.undoStack)[|old(st.undoStack)| - 1];
      k < |e.indices| && e.indices[k] < |st.assignment| && st.assignment[e.indices[k]] == gid
  {
    st.RemoveGroup(gid);
    var u := st.Undo();
  }
}
