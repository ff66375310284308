/** What the call-tree walk guarantees: every recorded method is recorded
    once, lies in the project and is reached from the test along project
    methods in exactly as many calls as its recorded depth; and every
    method so reachable is recorded. */
module TraversalProps {
  import opened Common
  import opened MethodId
  import opened Traversal

  // ----- Each method is recorded once -----

  lemma {:induction false} TraverseDistinct(g: CallMap, prefix: string, root: Method, depth: nat, entries: seq<CallEntry>)
    requires NoDuplicates(Callees(entries))
    ensures NoDuplicates(Callees(Traverse(g, prefix, root, depth, entries)))
    decreases Universe(g) - Seen(entries), 1, 0
  {
    if root in g {
      VisitDistinct(g, prefix, root, 0, depth, entries);
    }
  }

  lemma {:induction false} VisitDistinct(g: CallMap, prefix: string, root: Method, idx: nat, depth: nat, entries: seq<CallEntry>)
    requires root in g && idx <= |g[root]|
    requires NoDuplicates(Callees(entries))
    ensures NoDuplicates(Callees(VisitCallees(g, prefix, root, idx, depth, entries)))
    decreases Universe(g) - Seen(entries), 0, |g[root]| - idx
  {
    if idx < |g[root]| {
      var callee := g[root][idx];
      if callee in Callees(entries) || !Allowed(prefix, callee) {
        VisitDistinct(g, prefix, root, idx + 1, depth, entries);
      } else {
        var grown := entries + [CallEntry(callee, depth)];
        assert Callees(grown) == Callees(entries) + [callee];
        Grows(g, root, idx, depth, entries);
        TraverseDistinct(g, prefix, callee, depth + 1, grown);
        var after := Traverse(g, prefix, callee, depth + 1, grown);
        VisitDistinct(g, prefix, root, idx + 1, depth, after);
      }
    }
  }

  // ----- Recorded methods lie in the project, at least as deep as the walk -----

  /** The entries from position `base` on are project methods recorded at
      depth `depth` or deeper. */
  ghost predicate NewEntriesInProject(prefix: string, depth: nat, base: nat, r: seq<CallEntry>) {
    forall i | base <= i < |r| :: Allowed(prefix, r[i].callee) && r[i].level >= depth
  }

  lemma {:induction false} TraverseInProject(g: CallMap, prefix: string, root: Method, depth: nat, entries: seq<CallEntry>)
    ensures NewEntriesInProject(prefix, depth, |entries|, Traverse(g, prefix, root, depth, entries))
    decreases Universe(g) - Seen(entries), 1, 0
  {
    if root in g {
      VisitInProject(g, prefix, root, 0, depth, entries);
    }
  }

  lemma {:induction false} VisitInProject(g: CallMap, prefix: string, root: Method, idx: nat, depth: nat, entries: seq<CallEntry>)
    requires root in g && idx <= |g[root]|
    ensures NewEntriesInProject(prefix, depth, |entries|, VisitCallees(g, prefix, root, idx, depth, entries))
    decreases Universe(g) - Seen(entries), 0, |g[root]| - idx
  {
    if idx < |g[root]| {
      var callee := g[root][idx];
      if callee in Callees(entries) || !Allowed(prefix, callee) {
        VisitInProject(g, prefix, root, idx + 1, depth, entries);
      } else {
        var grown := entries + [CallEntry(callee, depth)];
        Grows(g, root, idx, depth, entries);
        TraverseInProject(g, prefix, callee, depth + 1, grown);
        var after := Traverse(g, prefix, callee, depth + 1, grown);
        VisitInProject(g, prefix, root, idx + 1, depth, after);
      }
    }
  }

  // ----- Every recorded depth is justified by a call -----

  /** Entry `i` of `r` is a callee of entry `j`, recorded one level below. */
  ghost predicate CalledBy(g: CallMap, r: seq<CallEntry>, j: nat, i: nat)
    requires j < |r| && i < |r|
  {
    r[j].level + 1 == r[i].level && r[i].callee in Succ(g, r[j].callee)
  }

  /** Entry `i` is either a callee of `root` recorded at `depth`, or a
      callee of an earlier entry from `base` on, recorded one level below. */
  ghost predicate JustifiedAt(g: CallMap, root: Method, depth: nat, base: nat, r: seq<CallEntry>, i: nat)
    requires i < |r|
  {
    || (r[i].level == depth && r[i].callee in Succ(g, root))
    || exists j | base <= j < i :: CalledBy(g, r, j, i)
  }

  /** Every entry from `base` on is justified. */
  ghost predicate Justified(g: CallMap, root: Method, depth: nat, base: nat, r: seq<CallEntry>) {
    forall i | base <= i < |r| :: JustifiedAt(g, root, depth, base, r, i)
  }

  lemma {:induction false} TraverseJustified(g: CallMap, prefix: string, root: Method, depth: nat, entries: seq<CallEntry>)
    ensures Justified(g, root, depth, |entries|, Traverse(g, prefix, root, depth, entries))
    decreases Universe(g) - Seen(entries), 1, 0
  {
    if root in g {
      VisitJustified(g, prefix, root, 0, depth, entries);
    }
  }

  lemma {:induction false} VisitJustified(g: CallMap, prefix: string, root: Method, idx: nat, depth: nat, entries: seq<CallEntry>)
    requires root in g && idx <= |g[root]|
    ensures Justified(g, root, depth, |entries|, VisitCallees(g, prefix, root, idx, depth, entries))
    decreases Universe(g) - Seen(entries), 0, |g[root]| - idx
  {
    if idx < |g[root]| {
      var callee := g[root][idx];
      if callee in Callees(entries) || !Allowed(prefix, callee) {
        VisitJustified(g, prefix, root, idx + 1, depth, entries);
      } else {
        var grown := entries + [CallEntry(callee, depth)];
        Grows(g, root, idx, depth, entries);
        TraverseJustified(g, prefix, callee, depth + 1, grown);
        var after := Traverse(g, prefix, callee, depth + 1, grown);
        VisitJustified(g, prefix, root, idx + 1, depth, after);
        var r := VisitCallees(g, prefix, root, idx + 1, depth, after);
        assert r == VisitCallees(g, prefix, root, idx, depth, entries);
        assert callee in Succ(g, root);
        JustifiedCombine(g, root, callee, depth, entries, after, r);
      }
    }
  }

  /** Recording a callee of `root`, walking below it, and walking the rest
      of `root`'s callees justifies every new entry. */
  lemma JustifiedCombine(g: CallMap, root: Method, callee: Method, depth: nat,
                         entries: seq<CallEntry>, after: seq<CallEntry>, r: seq<CallEntry>)
    requires callee in Succ(g, root)
    requires Extends(entries + [CallEntry(callee, depth)], after) && Extends(after, r)
    requires Justified(g, callee, depth + 1, |entries| + 1, after)
    requires Justified(g, root, depth, |after|, r)
    ensures Justified(g, root, depth, |entries|, r)
  {
    var grown := entries + [CallEntry(callee, depth)];
    var b := |entries|;
    assert r[b] == after[b] == grown[b] == CallEntry(callee, depth);
    forall i | b <= i < |r|
      ensures JustifiedAt(g, root, depth, b, r, i)
    {
      if i == b {
        assert r[i].level == depth && r[i].callee in Succ(g, root);
      } else if i < |after| {
        assert JustifiedAt(g, callee, depth + 1, b + 1, after, i);
        assert r[i] == after[i];
        if after[i].level == depth + 1 && after[i].callee in Succ(g, callee) {
          assert CalledBy(g, r, b, i);
        } else {
          var j :| b + 1 <= j < i && CalledBy(g, after, j, i);
          assert r[j] == after[j];
          assert CalledBy(g, r, j, i);
        }
      } else {
        assert JustifiedAt(g, root, depth, |after|, r, i);
        if !(r[i].level == depth && r[i].callee in Succ(g, root)) {
          var j :| |after| <= j < i && CalledBy(g, r, j, i);
          assert b <= j;
        }
      }
    }
  }

  // ----- Every project method the walk can reach gets recorded -----

  /** Every project callee of `m` is recorded in `r`. */
  ghost predicate CalleesSeen(g: CallMap, prefix: string, m: Method, r: seq<CallEntry>) {
    forall c | c in Succ(g, m) && Allowed(prefix, c) :: c in Seen(r)
  }

  /** Every entry from `base` on has all its project callees recorded. */
  ghost predicate ClosedFrom(g: CallMap, prefix: string, base: nat, r: seq<CallEntry>) {
    forall i | base <= i < |r| :: CalleesSeen(g, prefix, r[i].callee, r)
  }

  lemma CalleesSeenGrow(g: CallMap, prefix: string, m: Method, r: seq<CallEntry>, r2: seq<CallEntry>)
    requires CalleesSeen(g, prefix, m, r) && Seen(r) <= Seen(r2)
    ensures CalleesSeen(g, prefix, m, r2)
  {
  }

  lemma {:induction false} TraverseClosed(g: CallMap, prefix: string, root: Method, depth: nat, entries: seq<CallEntry>)
    ensures CalleesSeen(g, prefix, root, Traverse(g, prefix, root, depth, entries))
    ensures ClosedFrom(g, prefix, |entries|, Traverse(g, prefix, root, depth, entries))
    decreases Universe(g) - Seen(entries), 1, 0
  {
    if root in g {
      VisitClosed(g, prefix, root, 0, depth, entries);
      var r := Traverse(g, prefix, root, depth, entries);
      forall c | c in Succ(g, root) && Allowed(prefix, c)
        ensures c in Seen(r)
      {
        var j :| 0 <= j < |g[root]| && g[root][j] == c;
      }
    }
  }

  lemma {:induction false} VisitClosed(g: CallMap, prefix: string, root: Method, idx: nat, depth: nat, entries: seq<CallEntry>)
    requires root in g && idx <= |g[root]|
    ensures forall j | idx <= j < |g[root]| ::
              Allowed(prefix, g[root][j]) ==> g[root][j] in Seen(VisitCallees(g, prefix, root, idx, depth, entries))
    ensures ClosedFrom(g, prefix, |entries|, VisitCallees(g, prefix, root, idx, depth, entries))
    decreases Universe(g) - Seen(entries), 0, |g[root]| - idx
  {
    if idx < |g[root]| {
      var callee := g[root][idx];
      var r := VisitCallees(g, prefix, root, idx, depth, entries);
      if callee in Callees(entries) || !Allowed(prefix, callee) {
        VisitClosed(g, prefix, root, idx + 1, depth, entries);
        if Allowed(prefix, callee) {
          var k :| 0 <= k < |entries| && Callees(entries)[k] == callee;
          assert r[k] == entries[k];
        }
      } else {
        var grown := entries + [CallEntry(callee, depth)];
        Grows(g, root, idx, depth, entries);
        TraverseClosed(g, prefix, callee, depth + 1, grown);
        var after := Traverse(g, prefix, callee, depth + 1, grown);
        VisitClosed(g, prefix, root, idx + 1, depth, after);
        assert r == VisitCallees(g, prefix, root, idx + 1, depth, after);
        assert r[|entries|] == after[|entries|] == grown[|entries|];
        forall i | |entries| <= i < |r|
          ensures CalleesSeen(g, prefix, r[i].callee, r)
        {
          if i == |entries| {
            CalleesSeenGrow(g, prefix, callee, after, r);
          } else if i < |after| {
            assert r[i] == after[i];
            CalleesSeenGrow(g, prefix, after[i].callee, after, r);
          }
        }
      }
    }
  }

  // ----- The call tree of a unit test -----

  /** A walk of calls from `ut` through project methods: each step is a
      call of the graph, and every method after the test is in the project. */
  ghost predicate IsProjectWalk(g: CallMap, prefix: string, ut: Method, path: seq<Method>) {
    && |path| >= 2 && path[0] == ut
    && (forall k | 1 <= k < |path| :: Allowed(prefix, path[k]))
    && (forall k | 0 <= k < |path| - 1 :: path[k + 1] in Succ(g, path[k]))
  }

  /** `m` is reachable from `ut` along some project walk. */
  ghost predicate Reaches(g: CallMap, prefix: string, ut: Method, m: Method) {
    exists path | IsProjectWalk(g, prefix, ut, path) :: path[|path| - 1] == m
  }

  /** The walk that justifies entry `i` of a call tree: as many calls as the
      entry's recorded depth. */
  ghost function WalkTo(g: CallMap, prefix: string, ut: Method, r: seq<CallEntry>, i: nat): (path: seq<Method>)
    requires Justified(g, ut, 1, 0, r) && NewEntriesInProject(prefix, 1, 0, r)
    requires i < |r|
    ensures IsProjectWalk(g, prefix, ut, path)
    ensures |path| == r[i].level + 1 && path[|path| - 1] == r[i].callee
    decreases i
  {
    assert JustifiedAt(g, ut, 1, 0, r, i);
    if r[i].level == 1 && r[i].callee in Succ(g, ut) then [ut, r[i].callee]
    else
      var j :| 0 <= j < i && CalledBy(g, r, j, i);
      WalkTo(g, prefix, ut, r, j) + [r[i].callee]
  }

  /** Following a project walk never leaves the recorded methods when the
      test's project callees and every recorded method's project callees
      are recorded. */
  lemma {:induction false} WalkEndsSeen(g: CallMap, prefix: string, ut: Method, r: seq<CallEntry>, path: seq<Method>)
    requires CalleesSeen(g, prefix, ut, r) && ClosedFrom(g, prefix, 0, r)
    requires IsProjectWalk(g, prefix, ut, path)
    ensures path[|path| - 1] in Seen(r)
    decreases |path|
  {
    if |path| > 2 {
      var init := path[..|path| - 1];
      assert IsProjectWalk(g, prefix, ut, init) by {
        assert forall k | 0 <= k < |init| :: init[k] == path[k];
      }
      WalkEndsSeen(g, prefix, ut, r, init);
      var i :| 0 <= i < |r| && r[i].callee == init[|init| - 1];
      assert CalleesSeen(g, prefix, r[i].callee, r);
      assert path[|path| - 1] in Succ(g, path[|path| - 2]);
    }
  }

  lemma SeenIsCallees(r: seq<CallEntry>, m: Method)
    ensures m in Seen(r) <==> m in Callees(r)
  {
    if m in Seen(r) {
      var i :| 0 <= i < |r| && r[i].callee == m;
      assert Callees(r)[i] == m;
    }
  }

  /** What a call tree is: every method recorded once; recorded exactly
      when it is reachable from the test along project methods; and each
      at a depth some project walk of that many calls reaches it at. */
  ghost predicate IsCallTreeOf(g: CallMap, prefix: string, ut: Method, es: seq<CallEntry>) {
    && NoDuplicates(Callees(es))
    && (forall m :: m in Callees(es) <==> Reaches(g, prefix, ut, m))
    && (forall i | 0 <= i < |es| ::
          exists path | IsProjectWalk(g, prefix, ut, path) :: |path| == es[i].level + 1 && path[|path| - 1] == es[i].callee)
  }

  /** `construct_ut_call_tree`: the walk from a unit test, starting at depth
      one with nothing recorded. What it records is a call tree of the test
      in the above sense. */
  function CallTree(g: CallMap, prefix: string, ut: Method): (r: seq<CallEntry>)
    ensures IsCallTreeOf(g, prefix, ut, r)
  {
    CallTreeSpec(g, prefix, ut);
    Traverse(g, prefix, ut, 1, [])
  }

  /** The walk from a test, at depth one from an empty record, builds a
      call tree. */
  lemma CallTreeSpec(g: CallMap, prefix: string, ut: Method)
    ensures IsCallTreeOf(g, prefix, ut, Traverse(g, prefix, ut, 1, []))
  {
    var r := Traverse(g, prefix, ut, 1, []);
    assert Callees([]) == [];
    TraverseDistinct(g, prefix, ut, 1, []);
    TraverseInProject(g, prefix, ut, 1, []);
    TraverseJustified(g, prefix, ut, 1, []);
    TraverseClosed(g, prefix, ut, 1, []);
    forall i | 0 <= i < |r|
      ensures exists path | IsProjectWalk(g, prefix, ut, path) :: |path| == r[i].level + 1 && path[|path| - 1] == r[i].callee
    {
      var path := WalkTo(g, prefix, ut, r, i);
    }
    forall m
      ensures m in Callees(r) <==> Reaches(g, prefix, ut, m)
    {
      SeenIsCallees(r, m);
      if m in Callees(r) {
        var i :| 0 <= i < |r| && Callees(r)[i] == m;
        var path := WalkTo(g, prefix, ut, r, i);
      }
      if Reaches(g, prefix, ut, m) {
        var path :| IsProjectWalk(g, prefix, ut, path) && path[|path| - 1] == m;
        WalkEndsSeen(g, prefix, ut, r, path);
      }
    }
  }
}
