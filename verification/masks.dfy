/** Boolean masks over a sequence and the positions where they are set:
    the selections the compiler's passes make over the columns. */
module Masks {
  import opened Wrappers

  /** The positions where a mask is set, in increasing order. */
  function Positions(m: seq<bool>): (r: seq<nat>)
    ensures |r| <= |m|
    ensures forall k :: 0 <= k < |r| ==> r[k] < |m| && m[r[k]]
    ensures forall k, l :: 0 <= k < l < |r| ==> r[k] < r[l]
    ensures forall i :: 0 <= i < |m| && m[i] ==> i in r
    decreases |m|
  {
    if m == [] then []
    else
      var n := |m| - 1;
      var p := Positions(m[..n]);
      if m[n] then p + [n] else p
  }

  /** The last position where a mask is set. */
  function LastSet(m: seq<bool>): (r: Option<nat>)
    ensures r.None? <==> forall i :: 0 <= i < |m| ==> !m[i]
    ensures r.Some? ==> r.value < |m| && m[r.value] && forall j :: r.value < j < |m| ==> !m[j]
    decreases |m|
  {
    if m == [] then None
    else if m[|m| - 1] then Some(|m| - 1)
    else LastSet(m[..|m| - 1])
  }

  /** The first position set, if any. */
  function FirstSet(m: seq<bool>): (r: Option<nat>)
    ensures r.None? <==> forall i :: 0 <= i < |m| ==> !m[i]
    ensures r.Some? ==> r.value < |m| && m[r.value] && forall j :: 0 <= j < r.value ==> !m[j]
    decreases |m|
  {
    if m == [] then None
    else if m[0] then Some(0)
    else match FirstSet(m[1..])
      case None => None
      case Some(i) => Some(i + 1)
  }

  // ---------------------------------------------------------------------
  // Lemmas

  /** Only the first position can be 0; it is 0 exactly when the mask is
      set there. */
  lemma PositionsFirst(m: seq<bool>)
    ensures var r := Positions(m);
      && (forall k :: 1 <= k < |r| ==> r[k] > 0)
      && (m != [] && m[0] ==> r != [] && r[0] == 0)
      && (m != [] && !m[0] ==> forall k :: 0 <= k < |r| ==> r[k] > 0)
  {
    var r := Positions(m);
    assert forall k :: 1 <= k < |r| ==> r[0] < r[k];
    if m != [] && m[0] {
      assert 0 in r;
    }
  }

  /** The positions set in a prefix are a prefix of the positions, and
      every later position lies beyond the prefix. */
  lemma {:induction false} PositionsPrefix(m: seq<bool>, i: nat)
    requires i <= |m|
    ensures var p, q := Positions(m), Positions(m[..i]);
      |q| <= |p| && q == p[..|q|] && forall k :: |q| <= k < |p| ==> p[k] >= i
    decreases |m| - i
  {
    if i < |m| {
      var n: nat := |m| - 1;
      var init := m[..n];
      assert init[..i] == m[..i];
      PositionsPrefix(init, i);
      PositionsAppend(m, n);
      assert m[..n + 1] == m;
      PrefixStep(Positions(init), Positions(m[..i]), Positions(m), i, n, m[n]);
    } else {
      assert m[..i] == m;
    }
  }

  /** The step of `PositionsPrefix`, over plain sequences: appending a
      position at or beyond i keeps q a prefix whose successors lie
      beyond i. */
  lemma PrefixStep(p: seq<nat>, q: seq<nat>, p': seq<nat>, i: nat, n: nat, added: bool)
    requires |q| <= |p| && q == p[..|q|] && forall k :: |q| <= k < |p| ==> p[k] >= i
    requires n >= i && p' == p + if added then [n] else []
    ensures |q| <= |p'| && q == p'[..|q|] && forall k :: |q| <= k < |p'| ==> p'[k] >= i
  {
    assert p'[..|p|] == p;
  }

  /** A set position's place among the positions is the number of set
      positions before it. */
  lemma PositionsAt(m: seq<bool>, i: nat)
    requires i < |m| && m[i]
    ensures var c := |Positions(m[..i])|; c < |Positions(m)| && Positions(m)[c] == i
  {
    PositionsPrefix(m, i + 1);
    PositionsAppend(m, i);
  }

  /** The k-th set position has exactly k set positions before it. */
  lemma PositionsRank(m: seq<bool>, k: nat)
    requires k < |Positions(m)|
    ensures |Positions(m[..Positions(m)[k]])| == k
  {
    var p := Positions(m);
    PositionsAt(m, p[k]);
    var c := |Positions(m[..p[k]])|;
    assert p[c] == p[k];
  }

  /** A prefix's set and unset positions together number its length. */
  lemma {:induction false} PositionsSplit(m: seq<bool>, m': seq<bool>, i: nat)
    requires |m| == |m'| && i <= |m|
    requires forall j :: 0 <= j < |m| ==> m'[j] == !m[j]
    ensures |Positions(m[..i])| + |Positions(m'[..i])| == i
  {
    if i > 0 {
      var j: nat := i - 1;
      PositionsSplit(m, m', j);
      PositionsAppend(m, j);
      PositionsAppend(m', j);
      assert m'[j] == !m[j];
    }
  }

  /** One more element adds its position when it is set. */
  lemma PositionsAppend(m: seq<bool>, i: nat)
    requires i < |m|
    ensures Positions(m[..i + 1]) == Positions(m[..i]) + if m[i] then [i] else []
    ensures |Positions(m[..i + 1])| == |Positions(m[..i])| + if m[i] then 1 else 0
  {
    var mi := m[..i + 1];
    assert mi[..i] == m[..i];
    assert mi[i] == m[i];
  }

  /** The last set position of a longer prefix. */
  lemma LastSetAppend(m: seq<bool>, i: nat)
    requires i < |m|
    ensures LastSet(m[..i + 1]) == if m[i] then Some(i) else LastSet(m[..i])
  {
    var mi := m[..i + 1];
    assert mi[..i] == m[..i];
    assert mi[i] == m[i];
  }

  /** The first position set is the one set with none set before it. */
  lemma {:induction false} FirstSetUnique(m: seq<bool>, i: nat)
    requires i < |m| && m[i] && forall j :: 0 <= j < i ==> !m[j]
    ensures FirstSet(m) == Some(i)
  {
    var r := FirstSet(m);
    assert r.Some? && m[r.value];
  }

  /** One more entry changes the first position set only when none was. */
  lemma {:induction false} FirstSetSnoc(m: seq<bool>, b: bool)
    ensures FirstSet(m + [b]) == if FirstSet(m).Some? then FirstSet(m) else if b then Some(|m|) else None
  {
    var m' := m + [b];
    var r := FirstSet(m);
    assert forall i :: 0 <= i < |m| ==> m'[i] == m[i];
    if r.Some? {
      FirstSetUnique(m', r.value);
    } else if b {
      FirstSetUnique(m', |m|);
    } else {
      assert forall i :: 0 <= i < |m'| ==> !m'[i];
    }
  }

  /** Which entries of a list of optional values hold a value. */
  function Present<T>(xs: seq<Option<T>>): (m: seq<bool>)
    ensures |m| == |xs|
    ensures forall i :: 0 <= i < |xs| ==> (m[i] <==> xs[i].Some?)
  {
    seq(|xs|, i requires 0 <= i < |xs| => xs[i].Some?)
  }

  /** The values a list of optional values holds, in order: a loop that
      adds an item whenever there is one. */
  function Collect<T>(xs: seq<Option<T>>): (r: seq<T>)
    ensures var p := Positions(Present(xs));
      && |r| == |p|
      && forall k :: 0 <= k < |r| ==> xs[p[k]] == Some(r[k])
    decreases |xs|
  {
    if xs == [] then []
    else
      var n: nat := |xs| - 1;
      var prev := Collect(xs[..n]);
      assert Present(xs[..n]) == Present(xs)[..n];
      PositionsAppend(Present(xs), n);
      assert Present(xs)[..n + 1] == Present(xs);
      if xs[n].Some? then prev + [xs[n].value] else prev
  }
}
