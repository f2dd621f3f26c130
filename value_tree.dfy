/**
 * The nested key -> number trees that a mutation animates, and the two
 * helpers of src/Mutation.js that walk them: `getPartialValues`, which
 * interpolates every leaf of the target between the start and the target,
 * and `isAlreadyAtEnd`, which asks whether the start already equals the
 * target on every key of the target.
 *
 * The source tells a leaf from a sub-tree by the probe `value >= 0`; here the
 * datatype tags them instead. The functions with the suffix `AsWritten`
 * keep the probe, so that the difference can be stated and proved.
 */
module ValueTree {
  import opened Wrappers

  datatype Tree = Leaf(value: real) | Node(kids: map<string, Tree>)

  /**
   * The start tree is congruent with the target: at every key of the target
   * it holds a value of the same kind (a number against a number, a
   * sub-tree against a sub-tree). Keys of the start outside the target are
   * free. A mismatch is the caller's fault; the source does not handle it.
   */
  predicate Fits(start: Tree, end: Tree) {
    match end
    case Leaf(_) => start.Leaf?
    case Node(m) =>
      start.Node? && forall k :: k in m ==> k in start.kids && Fits(start.kids[k], m[k])
  }

  /** `a` has exactly the keys of `b` at every level, leaves where `b` has leaves. */
  predicate SameShape(a: Tree, b: Tree) {
    match b
    case Leaf(_) => a.Leaf?
    case Node(m) =>
      a.Node? && a.kids.Keys == m.Keys && forall k :: k in m ==> SameShape(a.kids[k], m[k])
  }

  /** The number stored at the end of `path`, if the path leads to a leaf. */
  function LeafAt(t: Tree, path: seq<string>): Option<real>
    decreases |path|
  {
    if path == [] then
      if t.Leaf? then Some(t.value) else None
    else if t.Node? && path[0] in t.kids then
      LeafAt(t.kids[path[0]], path[1..])
    else
      None
  }

  /** One leaf of the partial state: `progress` of the way from `s` to `e`. */
  function Lerp(s: real, e: real, progress: real): (r: real)
    ensures progress == 0.0 ==> r == s
    ensures progress == 1.0 ==> r == e
  {
    progress * (e - s) + s
  }

  /**
   * The partial state for `progress`: a tree shaped like `end` whose every
   * leaf is `Lerp` of the start's and the target's leaf (src/Mutation.js, getPartialValues).
   */
  function GetPartialValues(start: Tree, end: Tree, progress: real): (r: Tree)
    requires Fits(start, end)
    ensures SameShape(r, end)
    ensures Fits(r, end)
  {
    match end
    case Leaf(e) => Leaf(Lerp(start.value, e, progress))
    case Node(m) =>
      Node(map k | k in m :: GetPartialValues(start.kids[k], m[k], progress))
  }

  /**
   * Whether the start already holds the target's value at every key of the
   * target, compared exactly (src/Mutation.js, isAlreadyAtEnd).
   */
  predicate IsAlreadyAtEnd(start: Tree, end: Tree)
    requires Fits(start, end)
  {
    match end
    case Leaf(e) => start.value == e
    case Node(m) => forall k :: k in m ==> IsAlreadyAtEnd(start.kids[k], m[k])
  }

  // ----- paths -----

  lemma PathIntoKid(t: Tree, k: string, rest: seq<string>)
    requires t.Node? && k in t.kids
    ensures LeafAt(t, [k] + rest) == LeafAt(t.kids[k], rest)
  {
    assert ([k] + rest)[0] == k;
    assert ([k] + rest)[1..] == rest;
  }

  /** A congruent start has a leaf wherever the target has one. */
  lemma {:induction false} FitsLeafAt(start: Tree, end: Tree, path: seq<string>)
    requires Fits(start, end)
    ensures LeafAt(end, path).Some? ==> LeafAt(start, path).Some?
    decreases |path|
  {
    if path != [] && end.Node? && path[0] in end.kids {
      FitsLeafAt(start.kids[path[0]], end.kids[path[0]], path[1..]);
    }
  }

  /** Every tree is congruent with itself. */
  lemma {:induction false} FitsReflexive(t: Tree)
    ensures Fits(t, t)
  {
    match t
    case Leaf(_) =>
    case Node(m) =>
      forall k | k in m ensures Fits(m[k], m[k]) {
        FitsReflexive(m[k]);
      }
  }

  // ----- getPartialValues -----

  /**
   * Leaf by leaf: the result has a leaf exactly where the target has one,
   * and there it interpolates between the start's and the target's leaves.
   */
  lemma {:induction false} PartialValuesLeafAt(start: Tree, end: Tree, progress: real, path: seq<string>)
    requires Fits(start, end)
    ensures LeafAt(GetPartialValues(start, end, progress), path).Some? <==> LeafAt(end, path).Some?
    ensures LeafAt(end, path).Some? ==>
      LeafAt(start, path).Some? &&
      var s, e := LeafAt(start, path).value, LeafAt(end, path).value;
      LeafAt(GetPartialValues(start, end, progress), path) == Some(Lerp(s, e, progress))
    decreases |path|
  {
    var r := GetPartialValues(start, end, progress);
    if path == [] {
      if end.Leaf? {
        assert LeafAt(r, path) == Some(r.value);
      }
    } else if end.Node? && path[0] in end.kids {
      var k := path[0];
      assert r.kids[k] == GetPartialValues(start.kids[k], end.kids[k], progress);
      PartialValuesLeafAt(start.kids[k], end.kids[k], progress, path[1..]);
    } else {
      assert LeafAt(r, path).None? && LeafAt(end, path).None?;
    }
  }

  /** Keys of the start that the target lacks never reach the result, at any depth. */
  lemma {:induction false} PartialValuesDropsStartOnlyKeys(start: Tree, end: Tree, progress: real, path: seq<string>)
    requires Fits(start, end)
    requires LeafAt(end, path).None?
    ensures LeafAt(GetPartialValues(start, end, progress), path).None?
  {
    PartialValuesLeafAt(start, end, progress, path);
  }

  /** At progress 1 the partial state is the target itself. */
  lemma {:induction false} PartialValuesAtOne(start: Tree, end: Tree)
    requires Fits(start, end)
    ensures GetPartialValues(start, end, 1.0) == end
  {
    match end
    case Leaf(e) =>
    case Node(m) =>
      var r := GetPartialValues(start, end, 1.0);
      forall k | k in m ensures r.kids[k] == m[k] {
        PartialValuesAtOne(start.kids[k], m[k]);
      }
      assert r.kids == m;
  }

  /** At progress 0 every leaf of the result is the start's leaf. */
  lemma PartialValuesAtZero(start: Tree, end: Tree, path: seq<string>)
    requires Fits(start, end)
    requires LeafAt(end, path).Some?
    ensures LeafAt(GetPartialValues(start, end, 0.0), path) == LeafAt(start, path)
  {
    PartialValuesLeafAt(start, end, 0.0, path);
  }

  lemma LerpBetween(s: real, e: real, p: real)
    requires 0.0 <= p <= 1.0
    ensures s <= e ==> s <= Lerp(s, e, p) <= e
    ensures e <= s ==> e <= Lerp(s, e, p) <= s
  {
    var d := e - s;
    assert p * d + (1.0 - p) * d == d;
    if s <= e {
      assert 0.0 <= p * d && 0.0 <= (1.0 - p) * d;
    } else {
      assert p * d <= 0.0 && (1.0 - p) * d <= 0.0;
    }
  }

  /** For progress in [0, 1] every leaf of the result lies between its start and target values. */
  lemma PartialValuesBetween(start: Tree, end: Tree, progress: real, path: seq<string>)
    requires Fits(start, end)
    requires 0.0 <= progress <= 1.0
    requires LeafAt(end, path).Some?
    ensures LeafAt(start, path).Some? && LeafAt(GetPartialValues(start, end, progress), path).Some?
    ensures var s, e, v :=
        LeafAt(start, path).value, LeafAt(end, path).value,
        LeafAt(GetPartialValues(start, end, progress), path).value;
      (s <= v <= e) || (e <= v <= s)
  {
    PartialValuesLeafAt(start, end, progress, path);
    var s, e := LeafAt(start, path).value, LeafAt(end, path).value;
    LerpBetween(s, e, progress);
  }

  // ----- isAlreadyAtEnd -----

  /** A number holds a leaf only at the empty path. */
  lemma LeafOnlyAtRoot(v: real, path: seq<string>)
    ensures LeafAt(Leaf(v), path) == if path == [] then Some(v) else None
  {
  }

  /** The leaf case of `AtEndIffLeavesAgree`: a number target is reached exactly when the start's number equals it. */
  lemma AtEndIffLeafAgrees(start: Tree, e: real)
    requires start.Leaf?
    ensures IsAlreadyAtEnd(start, Leaf(e)) <==>
      forall path :: LeafAt(Leaf(e), path).Some? ==> LeafAt(start, path) == LeafAt(Leaf(e), path)
  {
    var here: seq<string> := [];
    LeafOnlyAtRoot(start.value, here);
    LeafOnlyAtRoot(e, here);
    if start.value == e {
      forall path | LeafAt(Leaf(e), path).Some?
        ensures LeafAt(start, path) == LeafAt(Leaf(e), path)
      {
        LeafOnlyAtRoot(e, path);
        LeafOnlyAtRoot(start.value, path);
      }
    } else {
      assert LeafAt(Leaf(e), here).Some? && LeafAt(start, here) != LeafAt(Leaf(e), here);
    }
  }

  /**
   * `IsAlreadyAtEnd` holds exactly when every leaf of the target equals the
   * start's leaf at the same path; paths outside the target do not matter.
   */
  lemma {:induction false} AtEndIffLeavesAgree(start: Tree, end: Tree)
    requires Fits(start, end)
    ensures IsAlreadyAtEnd(start, end) <==>
      forall path :: LeafAt(end, path).Some? ==> LeafAt(start, path) == LeafAt(end, path)
  {
    match end
    case Leaf(e) => AtEndIffLeafAgrees(start, e);
    case Node(m) =>
      if IsAlreadyAtEnd(start, end) {
        forall path | LeafAt(end, path).Some? ensures LeafAt(start, path) == LeafAt(end, path) {
          var k, rest := path[0], path[1..];
          assert path == [k] + rest;
          PathIntoKid(end, k, rest);
          PathIntoKid(start, k, rest);
          AtEndIffLeavesAgree(start.kids[k], m[k]);
        }
      } else {
        var k :| k in m && !IsAlreadyAtEnd(start.kids[k], m[k]);
        AtEndIffLeavesAgree(start.kids[k], m[k]);
        var rest :| LeafAt(m[k], rest).Some? && LeafAt(start.kids[k], rest) != LeafAt(m[k], rest);
        PathIntoKid(end, k, rest);
        PathIntoKid(start, k, rest);
        assert LeafAt(end, [k] + rest).Some? && LeafAt(start, [k] + rest) != LeafAt(end, [k] + rest);
      }
  }

  /** A target with no keys is always reached. */
  lemma AtEndOfEmptyTarget(start: Tree)
    requires start.Node?
    ensures Fits(start, Node(map[])) && IsAlreadyAtEnd(start, Node(map[]))
  {
  }

  /** Every tree is already at its own end. */
  lemma {:induction false} AtEndReflexive(t: Tree)
    ensures Fits(t, t) && IsAlreadyAtEnd(t, t)
  {
    FitsReflexive(t);
    match t
    case Leaf(_) =>
    case Node(m) =>
      forall k | k in m ensures IsAlreadyAtEnd(m[k], m[k]) {
        AtEndReflexive(m[k]);
      }
  }

  /** The partial state at progress 1 is already at the end. */
  lemma AtEndAfterFullProgress(start: Tree, end: Tree)
    requires Fits(start, end)
    ensures Fits(GetPartialValues(start, end, 1.0), end)
    ensures IsAlreadyAtEnd(GetPartialValues(start, end, 1.0), end)
  {
    PartialValuesAtOne(start, end);
    AtEndReflexive(end);
  }

  // ----- the sign probe of the source -----

  /** Every leaf of `t` is non-negative, the only case the source's `>= 0` probe reads right. */
  predicate NonNegative(t: Tree) {
    match t
    case Leaf(v) => v >= 0.0
    case Node(m) => forall k :: k in m ==> NonNegative(m[k])
  }

  /**
   * `getPartialValues` as the source writes it: a leaf counts as a leaf only
   * when `>= 0`; a negative leaf is walked like an object, and a number has
   * no keys to walk, so it comes out as an empty sub-tree.
   */
  function GetPartialValuesAsWritten(start: Tree, end: Tree, progress: real): Tree
    requires Fits(start, end)
  {
    match end
    case Leaf(e) =>
      if e >= 0.0 then Leaf(Lerp(start.value, e, progress)) else Node(map[])
    case Node(m) =>
      Node(map k | k in m :: GetPartialValuesAsWritten(start.kids[k], m[k], progress))
  }

  /** `isAlreadyAtEnd` as the source writes it: a negative target leaf has no keys, so it is always reached. */
  predicate IsAlreadyAtEndAsWritten(start: Tree, end: Tree)
    requires Fits(start, end)
  {
    match end
    case Leaf(e) => if e >= 0.0 then start.value == e else true
    case Node(m) => forall k :: k in m ==> IsAlreadyAtEndAsWritten(start.kids[k], m[k])
  }

  /** A negative target leaf is lost: the source writes an empty object where the number should be. */
  lemma NegativeLeafLostAsWritten()
    ensures Fits(Leaf(0.0), Leaf(-1.0))
    ensures GetPartialValuesAsWritten(Leaf(0.0), Leaf(-1.0), 1.0) == Node(map[])
    ensures GetPartialValues(Leaf(0.0), Leaf(-1.0), 1.0) == Leaf(-1.0)
  {
  }

  /** A negative target leaf is taken as reached although the start differs. */
  lemma NegativeLeafAtEndAsWritten()
    ensures Fits(Leaf(0.0), Leaf(-1.0))
    ensures IsAlreadyAtEndAsWritten(Leaf(0.0), Leaf(-1.0))
    ensures !IsAlreadyAtEnd(Leaf(0.0), Leaf(-1.0))
  {
  }

  /** On non-negative targets the probe and the tag agree: both helpers compute what the source computes. */
  lemma {:induction false} AgreeOnNonNegative(start: Tree, end: Tree, progress: real)
    requires Fits(start, end)
    requires NonNegative(end)
    ensures GetPartialValuesAsWritten(start, end, progress) == GetPartialValues(start, end, progress)
    ensures IsAlreadyAtEndAsWritten(start, end) == IsAlreadyAtEnd(start, end)
  {
    match end
    case Leaf(_) =>
    case Node(m) =>
      forall k | k in m
        ensures GetPartialValuesAsWritten(start.kids[k], m[k], progress) == GetPartialValues(start.kids[k], m[k], progress)
        ensures IsAlreadyAtEndAsWritten(start.kids[k], m[k]) == IsAlreadyAtEnd(start.kids[k], m[k])
      {
        AgreeOnNonNegative(start.kids[k], m[k], progress);
      }
      assert GetPartialValuesAsWritten(start, end, progress).kids == GetPartialValues(start, end, progress).kids;
  }
}
