/**
 * Generic scans over sequences, stated for an arbitrary test so that the line scanner can use
 * them with its own line predicates: the first position that passes a test, the last value a
 * partial function gives, and the values it gives in order.
 */
module Scan {
  import opened Wrappers

  /** The first position at or after `i` whose element satisfies `p`, or `|s|` when none does. */
  function FirstFrom<T>(s: seq<T>, i: nat, p: T -> bool): (r: nat)
    requires i <= |s|
    ensures i <= r <= |s|
    ensures forall j :: i <= j < r ==> !p(s[j])
    ensures r < |s| ==> p(s[r])
    decreases |s| - i
  {
    if i < |s| && !p(s[i]) then FirstFrom(s, i + 1, p) else i
  }

  /** The first passing position is the only one with nothing passing before it. */
  lemma FirstFromUnique<T>(s: seq<T>, i: nat, p: T -> bool, k: nat)
    requires i <= k <= |s|
    requires forall j :: i <= j < k ==> !p(s[j])
    requires k < |s| ==> p(s[k])
    ensures FirstFrom(s, i, p) == k
  {
  }

  /** The value `f` gives for the last element it gives one for. */
  function LastSome<T, U>(s: seq<T>, f: T -> Option<U>): Option<U>
  {
    if |s| == 0 then None
    else
      var n := |s| - 1;
      var here := f(s[n]);
      if here.Some? then here else LastSome(s[..n], f)
  }

  /** There is no last value exactly when no element gives one; otherwise it is the value of an
      element after which no element gives one. */
  lemma {:induction false} LastSomeSpec<T, U>(s: seq<T>, f: T -> Option<U>)
    ensures var r := LastSome(s, f);
      && (r.None? <==> forall i :: 0 <= i < |s| ==> f(s[i]).None?)
      && (r.Some? ==> exists i :: 0 <= i < |s| && f(s[i]) == r && (forall j :: i < j < |s| ==> f(s[j]).None?))
  {
    if |s| > 0 {
      var n := |s| - 1;
      LastSomeSpec(s[..n], f);
      assert forall i :: 0 <= i < n ==> s[..n][i] == s[i];
      if f(s[n]).None? && LastSome(s[..n], f).Some? {
        var i :| 0 <= i < n && f(s[..n][i]) == LastSome(s[..n], f) && (forall j :: i < j < n ==> f(s[..n][j]).None?);
        assert f(s[i]) == LastSome(s, f);
      }
    }
  }

  /** Skipping to the first element that passes `p` and then taking elements up to the first that
      passes `q`: the skipped elements fail `p`, the taken ones fail `q`, and each scan stops
      at a passing element or at the end. */
  lemma SkipThenTake<T>(s: seq<T>, i: nat, p: T -> bool, q: T -> bool)
    requires i <= |s|
    ensures var b := FirstFrom(s, i, p); var e := FirstFrom(s, b, q);
      && i <= b <= e <= |s|
      && (forall j :: i <= j < b ==> !p(s[j]))
      && (b < |s| ==> p(s[b]))
      && (forall k :: 0 <= k < e - b ==> !q(s[b..e][k]))
      && (e < |s| ==> q(s[e]))
  {
    var b := FirstFrom(s, i, p);
    var e := FirstFrom(s, b, q);
    assert forall k :: 0 <= k < e - b ==> s[b..e][k] == s[b + k];
  }

  /** The elements from `from` up to the first that passes `p`, collected one at a time. */
  method TakeUntil<T>(s: seq<T>, from: nat, p: T -> bool) returns (out: seq<T>)
    requires from <= |s|
    ensures out == s[from..FirstFrom(s, from, p)]
  {
    out := [];
    var i := from;
    while i < |s|
      invariant from <= i <= |s|
      invariant FirstFrom(s, i, p) == FirstFrom(s, from, p)
      invariant out == s[from..i]
    {
      if p(s[i]) {
        break;
      }
      out := out + [s[i]];
      i := i + 1;
    }
  }

  /** The values `f` gives, in the order of the elements. */
  function Collect<T, U>(s: seq<T>, f: T -> Option<U>): (r: seq<U>)
    ensures |r| <= |s|
  {
    if |s| == 0 then []
    else
      var n := |s| - 1;
      Collect(s[..n], f) + (if f(s[n]).Some? then [f(s[n]).value] else [])
  }

  /** Collecting is compatible with concatenation. */
  lemma {:induction false} CollectAppend<T, U>(a: seq<T>, b: seq<T>, f: T -> Option<U>)
    ensures Collect(a + b, f) == Collect(a, f) + Collect(b, f)
    decreases |b|
  {
    if |b| == 0 {
      assert a + b == a;
    } else {
      var n := |b| - 1;
      assert (a + b)[..|a| + n] == a + b[..n];
      assert (a + b)[|a| + n] == b[n];
      CollectAppend(a, b[..n], f);
      var tail := if f(b[n]).Some? then [f(b[n]).value] else [];
      assert Collect(a + b, f) == Collect(a + b[..n], f) + tail;
      assert Collect(b, f) == Collect(b[..n], f) + tail;
    }
  }

  /** Each value collected comes from an element, and every element with a value contributes. */
  lemma {:induction false} CollectMembers<T, U>(s: seq<T>, f: T -> Option<U>)
    ensures forall v :: v in Collect(s, f) <==> exists i :: 0 <= i < |s| && f(s[i]) == Some(v)
  {
    if |s| > 0 {
      var n := |s| - 1;
      CollectMembers(s[..n], f);
      forall v ensures v in Collect(s, f) <==> exists i :: 0 <= i < |s| && f(s[i]) == Some(v) {
        if v in Collect(s[..n], f) {
          var i :| 0 <= i < n && f(s[..n][i]) == Some(v);
          assert s[..n][i] == s[i];
        }
        if exists i :: 0 <= i < |s| && f(s[i]) == Some(v) {
          var i :| 0 <= i < |s| && f(s[i]) == Some(v);
          if i < n {
            assert s[..n][i] == s[i];
          }
        }
      }
    }
  }
}
