/** The replay of a test body that enumerates its subcases and generated values: an unknown decision
    tree is explored by running the body again and again along a recorded path. */
module Traversal {
  import opened Wrappers

  datatype Signature = Signature(name: string, file: string, line: int)

  /** A test body as the traversal sees it. A generator fixes an index for the rest of its body;
      otherwise the body is its sibling subcases, none at a leaf. */
  datatype Body =
    | Generate(count: nat, branches: seq<Body>)
    | Subcases(subcases: seq<Subcase>)

  datatype Subcase = Subcase(signature: Signature, body: Body)

  /** How many ways a run can go on. A generator without values still goes on one way. */
  function Arity(b: Body): nat {
    match b
    case Generate(count, _) => if count == 0 then 1 else count
    case Subcases(subcases) => |subcases|
  }

  predicate WellFormed(b: Body) {
    match b
    case Generate(count, branches) => |branches| == Arity(b) && forall i :: 0 <= i < |branches| ==> WellFormed(branches[i])
    case Subcases(subcases) =>
      (forall i, j :: 0 <= i < j < |subcases| ==> subcases[i].signature != subcases[j].signature)
      && forall i :: 0 <= i < |subcases| ==> WellFormed(subcases[i].body)
  }

  type Tree = b: Body | WellFormed(b) witness Subcases([])

  function Child(b: Tree, i: nat): (c: Tree)
    requires i < Arity(b)
    ensures c < b
  {
    match b
    case Generate(_, branches) => branches[i]
    case Subcases(subcases) => subcases[i].body
  }

  // ----- the runs a body has

  /** A root-to-leaf path: the branch taken at each decision. */
  type Path = seq<nat>

  predicate IsPath(b: Tree, p: Path)
    decreases b
  {
    if Arity(b) == 0 then p == []
    else p != [] && p[0] < Arity(b) && IsPath(Child(b, p[0]), p[1..])
  }

  function Prepend(i: nat, ps: seq<Path>): (r: seq<Path>)
    ensures |r| == |ps| && forall k :: 0 <= k < |ps| ==> r[k] == [i] + ps[k]
  {
    seq(|ps|, k requires 0 <= k < |ps| => [i] + ps[k])
  }

  /** All paths, depth first, branches in order. */
  function Paths(b: Tree): (ps: seq<Path>)
    ensures |ps| >= 1
    decreases b, Arity(b) + 1
  {
    if Arity(b) == 0 then [[]] else PathsFrom(b, 0)
  }

  function PathsFrom(b: Tree, i: nat): (ps: seq<Path>)
    requires i <= Arity(b)
    ensures i < Arity(b) ==> |ps| >= 1
    decreases b, Arity(b) - i
  {
    if i == Arity(b) then [] else Prepend(i, Paths(Child(b, i))) + PathsFrom(b, i + 1)
  }

  /** The paths listed are exactly the paths there are. */
  lemma {:induction false} PathsExact(b: Tree, p: Path)
    ensures p in Paths(b) <==> IsPath(b, p)
    decreases b, Arity(b) + 1
  {
    if Arity(b) != 0 {
      PathsFromExact(b, 0, p);
    }
  }

  lemma {:induction false} PathsFromExact(b: Tree, i: nat, p: Path)
    requires i <= Arity(b) && Arity(b) != 0
    ensures p in PathsFrom(b, i) <==> IsPath(b, p) && p[0] >= i
    decreases b, Arity(b) - i
  {
    if i < Arity(b) {
      PathsFromExact(b, i + 1, p);
      var ps := Paths(Child(b, i));
      if p != [] {
        PathsExact(Child(b, i), p[1..]);
        if p[0] == i && p[1..] in ps {
          var k :| 0 <= k < |ps| && ps[k] == p[1..];
          assert Prepend(i, ps)[k] == p;
        }
      }
    }
  }

  /** Lexicographic order. */
  predicate Less(p: Path, q: Path) {
    p != [] && q != [] && (p[0] < q[0] || (p[0] == q[0] && Less(p[1..], q[1..])))
  }

  /** The paths are listed in strictly increasing order, so none is listed twice. */
  lemma {:induction false} PathsIncreasing(b: Tree, k: nat, m: nat)
    requires k < m < |Paths(b)|
    ensures Less(Paths(b)[k], Paths(b)[m])
    decreases b, Arity(b) + 1
  {
    if Arity(b) != 0 {
      PathsFromIncreasing(b, 0, k, m);
    }
  }

  lemma PathsFromAt(b: Tree, i: nat, k: nat)
    requires i < Arity(b) && k < |PathsFrom(b, i)|
    ensures var own := Paths(Child(b, i));
            if k < |own| then PathsFrom(b, i)[k] == [i] + own[k]
            else k - |own| < |PathsFrom(b, i + 1)| && PathsFrom(b, i)[k] == PathsFrom(b, i + 1)[k - |own|]
    ensures |PathsFrom(b, i)| == |Paths(Child(b, i))| + |PathsFrom(b, i + 1)|
  {
  }

  lemma {:induction false} PathsFromIncreasing(b: Tree, i: nat, k: nat, m: nat)
    requires i < Arity(b) && k < m < |PathsFrom(b, i)|
    ensures Less(PathsFrom(b, i)[k], PathsFrom(b, i)[m])
    decreases b, Arity(b) - i
  {
    hide Paths, PathsFrom;
    var own := Paths(Child(b, i));
    PathsFromAt(b, i, k);
    PathsFromAt(b, i, m);
    if m < |own| {
      PathsIncreasing(Child(b, i), k, m);
    } else if k >= |own| {
      PathsFromEnd(b);
      PathsFromIncreasing(b, i + 1, k - |own|, m - |own|);
    } else {
      PathsFromExact(b, i + 1, PathsFrom(b, i)[m]);
    }
  }

  // ----- one run along a recorded prefix, and the step to the next prefix

  /** A prefix of choices the body admits. */
  predicate IsPrefix(b: Tree, q: Path)
    decreases b
  {
    q == [] || (q[0] < Arity(b) && IsPrefix(Child(b, q[0]), q[1..]))
  }

  function Rest(q: Path): Path {
    if q == [] then [] else q[1..]
  }

  function First(q: Path): nat {
    if q == [] then 0 else q[0]
  }

  /** The path a run takes: the recorded choices, then the first branch everywhere. */
  function Complete(b: Tree, q: Path): Path
    requires IsPrefix(b, q)
    decreases b
  {
    if Arity(b) == 0 then [] else [First(q)] + Complete(Child(b, First(q)), Rest(q))
  }

  datatype DecisionPoint = DecisionPoint(branchCount: nat, subcases: seq<Signature>)

  function Signatures(subcases: seq<Subcase>): (s: seq<Signature>)
    ensures |s| == |subcases|
  {
    seq(|subcases|, i requires 0 <= i < |subcases| => subcases[i].signature)
  }

  /** What a run along a path discovers at each depth. */
  function Points(b: Tree, p: Path): (ds: seq<DecisionPoint>)
    requires IsPath(b, p)
    ensures |ds| == |p|
    decreases b
  {
    if Arity(b) == 0 then []
    else [Point(b)] + Points(Child(b, p[0]), p[1..])
  }

  function Point(b: Tree): DecisionPoint {
    match b
    case Generate(count, _) => DecisionPoint(count, [])
    case Subcases(subcases) => DecisionPoint(|subcases|, Signatures(subcases))
  }

  /** The deepest choice that has a branch left moves to it, and what lies below is forgotten. */
  function Successor(p: Path, ds: seq<DecisionPoint>): Option<Path>
    requires |p| == |ds|
  {
    if p == [] then None
    else
      match Successor(p[1..], ds[1..])
      case Some(s) => Some([p[0]] + s)
      case None => if p[0] + 1 < ds[0].branchCount then Some([p[0] + 1]) else None
  }

  lemma {:induction false} CompleteIsPath(b: Tree, q: Path)
    requires IsPrefix(b, q)
    ensures IsPath(b, Complete(b, q)) && q <= Complete(b, q)
    decreases b
  {
    if Arity(b) != 0 {
      CompleteIsPath(Child(b, First(q)), Rest(q));
    }
  }

  lemma {:induction false} FirstPath(b: Tree)
    ensures Complete(b, []) == Paths(b)[0]
    decreases b
  {
    if Arity(b) != 0 {
      FirstPath(Child(b, 0));
    }
  }

  /** After the k-th path comes the (k+1)-st: advancing and completing is the step in the list, and advancing
      fails exactly at its end. */
  lemma {:induction false} NextPath(b: Tree, k: nat)
    requires k < |Paths(b)|
    ensures var p := Paths(b)[k]; IsPath(b, p) && NextIs(b, p, if k + 1 < |Paths(b)| then Some(Paths(b)[k + 1]) else None)
    decreases b, Arity(b) + 1
  {
    PathsExact(b, Paths(b)[k]);
    if Arity(b) != 0 {
      NextPathFrom(b, 0, k);
    }
  }

  ghost predicate NextIs(b: Tree, p: Path, next: Option<Path>)
    requires IsPath(b, p)
  {
    match Successor(p, Points(b, p))
    case None => next == None
    case Some(q) => IsPrefix(b, q) && next == Some(Complete(b, q))
  }

  lemma {:induction false} NextPathFrom(b: Tree, i: nat, k: nat)
    requires i < Arity(b) && k < |PathsFrom(b, i)|
    ensures var ps := PathsFrom(b, i); IsPath(b, ps[k]) && NextIs(b, ps[k], if k + 1 < |ps| then Some(ps[k + 1]) else None)
    decreases b, Arity(b) - i
  {
    hide Paths, PathsFrom, IsPath, NextIs;
    var ps, c := PathsFrom(b, i), Child(b, i);
    var own := Paths(c);
    PathsFromExact(b, i, ps[k]);
    PathsFromAt(b, i, k);
    if k >= |own| {
      PathsFromEnd(b);
      if k + 1 < |ps| { PathsFromAt(b, i, k + 1); }
      NextPathFrom(b, i + 1, k - |own|);
    } else {
      NextPath(c, k);
      if k + 1 < |own| {
        PathsFromAt(b, i, k + 1);
        NextInside(b, i, own[k], own[k + 1]);
      } else if i + 1 < Arity(b) {
        PathsFromAt(b, i, k + 1);
        PathsFromAt(b, i + 1, 0);
        FirstPath(Child(b, i + 1));
        NextSibling(b, i, own[k]);
      } else {
        PathsFromEnd(b);
        NextNone(b, i, own[k]);
      }
    }
  }

  lemma PathsFromEnd(b: Tree)
    ensures PathsFrom(b, Arity(b)) == []
  {
  }

  lemma NextInside(b: Tree, i: nat, p: Path, p': Path)
    requires i < Arity(b) && IsPath(Child(b, i), p) && IsPath(b, [i] + p) && NextIs(Child(b, i), p, Some(p'))
    ensures NextIs(b, [i] + p, Some([i] + p'))
  {
    hide IsPath;
    PointsCons(b, i, p);
    var q := Successor(p, Points(Child(b, i), p)).value;
    assert ([i] + p)[1..] == p && ([i] + q)[1..] == q;
  }

  lemma NextSibling(b: Tree, i: nat, p: Path)
    requires i + 1 < Arity(b) && IsPath(Child(b, i), p) && IsPath(b, [i] + p) && NextIs(Child(b, i), p, None)
    ensures NextIs(b, [i] + p, Some([i + 1] + Complete(Child(b, i + 1), [])))
  {
    hide IsPath;
    PointsCons(b, i, p);
    assert ([i] + p)[1..] == p && [i + 1][1..] == [];
    assert Points(b, [i] + p)[1..] == Points(Child(b, i), p);
    assert Successor([i] + p, Points(b, [i] + p)) == Some([i + 1]);
    assert IsPrefix(b, [i + 1]);
    assert Complete(b, [i + 1]) == [i + 1] + Complete(Child(b, i + 1), []);
  }

  lemma NextNone(b: Tree, i: nat, p: Path)
    requires i + 1 == Arity(b) && IsPath(Child(b, i), p) && IsPath(b, [i] + p) && NextIs(Child(b, i), p, None)
    ensures NextIs(b, [i] + p, None)
  {
    hide IsPath;
    PointsCons(b, i, p);
    assert ([i] + p)[1..] == p;
  }

  lemma PointsCons(b: Tree, i: nat, p: Path)
    requires i < Arity(b) && IsPath(Child(b, i), p) && IsPath(b, [i] + p)
    ensures Points(b, [i] + p) == [Point(b)] + Points(Child(b, i), p)
    ensures i + 1 < Point(b).branchCount <==> i + 1 < Arity(b)
  {
    assert ([i] + p)[1..] == p;
  }

  // ----- the traversal state

  /** Where a signature stands among those already seen, or past their end. */
  function IndexOf(sigs: seq<Signature>, s: Signature): (i: nat)
    ensures i <= |sigs| && (i < |sigs| ==> sigs[i] == s) && forall j :: 0 <= j < i ==> sigs[j] != s
  {
    if sigs == [] || sigs[0] == s then 0 else 1 + IndexOf(sigs[1..], s)
  }

  /** The point with a signature registered, if it was not already. */
  function Register(point: DecisionPoint, s: Signature): DecisionPoint {
    var sigs := if s in point.subcases then point.subcases else point.subcases + [s];
    DecisionPoint(|sigs|, sigs)
  }

  lemma {:induction false} SuccessorBelow(p: Path, ds: seq<DecisionPoint>, depth: nat)
    requires |p| == |ds| && depth < |p| && Successor(p[depth + 1..], ds[depth + 1..]) == None
    ensures p[depth] + 1 < ds[depth].branchCount ==> Successor(p, ds) == Some(p[..depth] + [p[depth] + 1])
    ensures p[depth] + 1 >= ds[depth].branchCount ==> Successor(p[depth..], ds[depth..]) == None
    decreases depth
  {
    assert p[depth..][1..] == p[depth + 1..] && ds[depth..][1..] == ds[depth + 1..];
    if depth > 0 {
      assert p[1..][depth..] == p[depth + 1..] && ds[1..][depth..] == ds[depth + 1..];
      SuccessorBelow(p[1..], ds[1..], depth - 1);
      assert [p[0]] + (p[1..][..depth - 1] + [p[depth] + 1]) == p[..depth] + [p[depth] + 1];
    } else {
      assert p[..0] + [p[0] + 1] == [p[0] + 1];
    }
  }

  class TraversalState {
    var decisionPath: Path                 // the selected prefix
    var discovered: seq<DecisionPoint>     // rebuilt on each run
    var decisionDepth: nat
    var enteredDepths: seq<nat>
    var activeDepth: nat

    /** Inside a run, before the next decision. */
    ghost predicate Valid()
      reads this
    {
      decisionDepth <= |discovered| <= |decisionPath|
    }

    constructor ()
      ensures decisionPath == [] && discovered == [] && decisionDepth == 0 && enteredDepths == [] && activeDepth == 0
    {
      decisionPath, discovered, decisionDepth, enteredDepths, activeDepth := [], [], 0, [], 0;
    }

    method ResetForTestCase()
      modifies this
      ensures decisionPath == [] && discovered == [] && decisionDepth == 0 && enteredDepths == [] && activeDepth == 0
    {
      decisionPath := [];
      discovered := [];
      enteredDepths := [];
      activeDepth := 0;
      decisionDepth := 0;
    }

    method ResetForRun()
      modifies this
      ensures decisionPath == old(decisionPath)
      ensures discovered == [] && decisionDepth == 0 && enteredDepths == [] && activeDepth == 0
    {
      activeDepth := 0;
      discovered := [];
      decisionDepth := 0;
      enteredDepths := [];
    }

    method EnsureDecisionPoint()
      requires decisionDepth <= |discovered| && decisionDepth <= |decisionPath|
      modifies this`discovered, this`decisionPath
      ensures discovered == if |old(discovered)| == decisionDepth then old(discovered) + [DecisionPoint(0, [])] else old(discovered)
      ensures decisionPath == if |old(discovered)| == decisionDepth == |old(decisionPath)| then old(decisionPath) + [0]
                              else old(decisionPath)
    {
      if |discovered| == decisionDepth {
        discovered := discovered + [DecisionPoint(0, [])];
        if |decisionPath| == decisionDepth {
          decisionPath := decisionPath + [0];
        }
      }
    }

    /** Register the subcase at the current decision; enter it exactly when the recorded choice is its position. */
    method TryEnterSubcase(s: Signature) returns (entered: bool)
      requires decisionDepth <= |discovered| && decisionDepth <= |decisionPath|
      requires decisionDepth < |discovered| ==> decisionDepth < |decisionPath|
      modifies this
      ensures decisionPath == if |old(discovered)| == old(decisionDepth) == |old(decisionPath)| then old(decisionPath) + [0]
                              else old(decisionPath)
      ensures var d := old(decisionDepth);
        var points := if |old(discovered)| == d then old(discovered) + [DecisionPoint(0, [])] else old(discovered);
        discovered == points[d := Register(points[d], s)]
        && (entered <==> IndexOf(points[d].subcases, s) == decisionPath[d])
        && (if entered then decisionDepth == d + 1 && enteredDepths == old(enteredDepths) + [d] && activeDepth == old(activeDepth) + 1
            else decisionDepth == d && enteredDepths == old(enteredDepths) && activeDepth == old(activeDepth))
    {
      EnsureDecisionPoint();
      var point := discovered[decisionDepth];
      var sibling := 0;
      while sibling < |point.subcases|
        invariant sibling <= |point.subcases| && forall j :: 0 <= j < sibling ==> point.subcases[j] != s
      {
        if point.subcases[sibling] == s { break; }
        sibling := sibling + 1;
      }
      assert sibling == IndexOf(point.subcases, s);
      var subcases := point.subcases;
      if sibling == |subcases| {
        subcases := subcases + [s];
      }
      discovered := discovered[decisionDepth := DecisionPoint(|subcases|, subcases)];
      if sibling != decisionPath[decisionDepth] {
        return false;
      }
      enteredDepths := enteredDepths + [decisionDepth];
      activeDepth := activeDepth + 1;
      decisionDepth := decisionDepth + 1;
      return true;
    }

    method LeaveSubcase()
      requires enteredDepths != [] && activeDepth > 0
      modifies this
      ensures decisionDepth == old(enteredDepths[|enteredDepths| - 1]) && enteredDepths == old(enteredDepths[..|enteredDepths| - 1])
      ensures activeDepth == old(activeDepth) - 1 && discovered == old(discovered) && decisionPath == old(decisionPath)
    {
      decisionDepth := enteredDepths[|enteredDepths| - 1];
      enteredDepths := enteredDepths[..|enteredDepths| - 1];
      activeDepth := activeDepth - 1;
    }

    /** The recorded choice among `count` values, or the first where the record does not fit. */
    method AcquireGeneratorIndex(count: nat) returns (index: nat)
      requires |discovered| == decisionDepth <= |decisionPath|
      modifies this
      ensures decisionDepth == old(decisionDepth) + 1 && enteredDepths == old(enteredDepths) && activeDepth == old(activeDepth)
      ensures discovered == old(discovered) + [DecisionPoint(count, [])]
      ensures decisionPath == if old(decisionDepth) == |old(decisionPath)| then old(decisionPath) + [0] else old(decisionPath)
      ensures index == if decisionPath[old(decisionDepth)] < count then decisionPath[old(decisionDepth)] else 0
    {
      EnsureDecisionPoint();
      discovered := discovered[decisionDepth := discovered[decisionDepth].(branchCount := count)];
      index := decisionPath[decisionDepth];
      decisionDepth := decisionDepth + 1;
      return if index < count then index else 0;
    }

    /** Move to the next path, or report that there is none. */
    method Advance() returns (more: bool)
      modifies this
      ensures var m := if |old(decisionPath)| < |discovered| then |old(decisionPath)| else |discovered|;
        match Successor(old(decisionPath)[..m], discovered[..m])
        case None => !more && decisionPath == old(decisionPath)
        case Some(q) => more && decisionPath == q
      ensures discovered == old(discovered) && decisionDepth == old(decisionDepth)
      ensures enteredDepths == old(enteredDepths) && activeDepth == old(activeDepth)
    {
      var maxDepth := if |decisionPath| < |discovered| then |decisionPath| else |discovered|;
      ghost var p, ds := decisionPath[..maxDepth], discovered[..maxDepth];
      var depth := maxDepth;
      while depth > 0
        invariant depth <= maxDepth && decisionPath == old(decisionPath) && discovered == old(discovered)
        invariant decisionDepth == old(decisionDepth) && enteredDepths == old(enteredDepths) && activeDepth == old(activeDepth)
        invariant Successor(p[depth..], ds[depth..]) == None
      {
        var index := depth - 1;
        SuccessorBelow(p, ds, index);
        if decisionPath[index] + 1 < discovered[index].branchCount {
          decisionPath := decisionPath[index := decisionPath[index] + 1];
          decisionPath := decisionPath[..index + 1];
          assert decisionPath == p[..index] + [p[index] + 1];
          return true;
        }
        depth := depth - 1;
      }
      assert p[0..] == p && ds[0..] == ds;
      return false;
    }
  }

  // ----- running a test body

  ghost predicate ReadyFor(t: TraversalState, b: Tree)
    reads t
  {
    |t.discovered| == t.decisionDepth <= |t.decisionPath| && IsPrefix(b, t.decisionPath[t.decisionDepth..])
  }

  /** Running a body takes the recorded path, first branches beyond it, and discovers what lies along it. */
  method RunBody(t: TraversalState, b: Tree) returns (path: Path)
    requires ReadyFor(t, b)
    modifies t
    ensures path == Complete(b, old(t.decisionPath[t.decisionDepth..])) && IsPath(b, path)
    ensures t.decisionPath == old(t.decisionPath[..t.decisionDepth]) + path
    ensures t.discovered == old(t.discovered) + Points(b, path)
    ensures t.enteredDepths == old(t.enteredDepths) && t.activeDepth == old(t.activeDepth)
    decreases b, 1
  {
    hide Complete, Points, IsPath, IsPrefix;
    ghost var d, q := t.decisionDepth, t.decisionPath[t.decisionDepth..];
    CompleteIsPath(b, q);
    match b
    case Generate(count, branches) =>
      PrefixStep(b, q);
      var index := t.AcquireGeneratorIndex(count);
      assert index == First(q);
      assert t.decisionPath[d + 1..] == Rest(q);
      var rest := RunBody(t, branches[index]);
      path := [index] + rest;
    case Subcases(subcases) =>
      if |subcases| == 0 {
        LeafRun(b, q);
        path := [];
        assert t.decisionPath[..d] == t.decisionPath;
      } else {
        path := RunSiblings(t, b);
      }
  }

  lemma LeafRun(b: Tree, q: Path)
    requires Arity(b) == 0 && IsPrefix(b, q)
    ensures q == [] && Complete(b, q) == [] && IsPath(b, []) && Points(b, []) == []
  {
  }

  /** One decision: the choice taken, and what it leaves for the chosen branch. */
  lemma PrefixStep(b: Tree, q: Path)
    requires Arity(b) != 0 && IsPrefix(b, q)
    ensures First(q) < Arity(b) && IsPrefix(Child(b, First(q)), Rest(q))
    ensures var rest := Complete(Child(b, First(q)), Rest(q));
      Complete(b, q) == [First(q)] + rest && IsPath(Child(b, First(q)), rest) && IsPath(b, [First(q)] + rest)
      && Points(b, [First(q)] + rest) == [Point(b)] + Points(Child(b, First(q)), rest)
  {
    CompleteIsPath(b, q);
    CompleteIsPath(Child(b, First(q)), Rest(q));
    PointsCons(b, First(q), Complete(Child(b, First(q)), Rest(q)));
  }

  /** The sibling subcases of one decision: each is tried in order, one is entered. */
  method RunSiblings(t: TraversalState, b: Tree) returns (path: Path)
    requires ReadyFor(t, b) && b.Subcases? && Arity(b) != 0
    modifies t
    ensures path == Complete(b, old(t.decisionPath[t.decisionDepth..])) && IsPath(b, path)
    ensures t.decisionPath == old(t.decisionPath[..t.decisionDepth]) + path
    ensures t.discovered == old(t.discovered) + Points(b, path)
    ensures t.enteredDepths == old(t.enteredDepths) && t.activeDepth == old(t.activeDepth)
    decreases b, 0
  {
    hide Complete, Points, IsPath, IsPrefix, Register, IndexOf, WellFormed;
    var subcases := b.subcases;
    ghost var d, q := t.decisionDepth, t.decisionPath[t.decisionDepth..];
    ghost var before, seen := t.decisionPath[..d], t.discovered;
    ghost var c := First(q);
    PrefixStep(b, q);
    ghost var child := Child(b, c);
    ghost var rest := Complete(child, Rest(q));
    path := [];
    for k := 0 to |subcases|
      invariant t.decisionDepth == d && t.enteredDepths == old(t.enteredDepths) && t.activeDepth == old(t.activeDepth)
      invariant k == 0 ==> t.decisionPath == old(t.decisionPath) && t.discovered == seen
      invariant 0 < k <= c ==> t.decisionPath == before + [c] + Rest(q)
      invariant 0 < k <= c ==> t.discovered == seen + [DecisionPoint(k, Signatures(subcases)[..k])]
      invariant k > c ==> t.decisionPath == before + [c] + rest && path == [c] + rest
      invariant k > c ==> t.discovered == seen + [DecisionPoint(k, Signatures(subcases)[..k])] + Points(child, rest)
    {
      RegisterNext(b, k);
      assert q == t.decisionPath[d..] || k > 0;
      var entered := t.TryEnterSubcase(subcases[k].signature);
      assert entered <==> k == c;
      if entered {
        assert t.decisionPath[d + 1..] == Rest(q);
        var inner := RunBody(t, subcases[k].body);
        t.LeaveSubcase();
        path := [k] + inner;
      }
    }
    assert Signatures(subcases)[..|subcases|] == Signatures(subcases);
    assert Point(b) == DecisionPoint(|subcases|, Signatures(subcases));
  }

  lemma RegisterNext(b: Tree, k: nat)
    requires b.Subcases? && k < |b.subcases|
    ensures var sigs := Signatures(b.subcases);
      IndexOf(sigs[..k], sigs[k]) == k
      && forall n :: Register(DecisionPoint(n, sigs[..k]), sigs[k]) == DecisionPoint(k + 1, sigs[..k + 1])
  {
    var sigs := Signatures(b.subcases);
    assert sigs[..k + 1] == sigs[..k] + [sigs[k]];
    forall j | 0 <= j < k
      ensures sigs[j] != sigs[k]
    {
      assert b.subcases[j].signature != b.subcases[k].signature;
    }
  }

  /** The rerun loop of one test case: every path is run exactly once, in order, and then the loop stops. */
  method RunTestCase(t: TraversalState, b: Tree) returns (runs: seq<Path>)
    modifies t
    ensures runs == Paths(b)
  {
    hide Paths, Complete, Points, IsPath, IsPrefix, NextIs;
    t.ResetForTestCase();
    runs := [];
    EmptyPrefix(b);
    FirstPath(b);
    var more := true;
    while more
      invariant more ==> |runs| < |Paths(b)| && IsPrefix(b, t.decisionPath)
      invariant more ==> Complete(b, t.decisionPath) == Paths(b)[|runs|]
      invariant !more ==> |runs| == |Paths(b)|
      invariant |runs| <= |Paths(b)| && runs == Paths(b)[..|runs|]
      decreases |Paths(b)| - |runs|, if more then 1 else 0
    {
      t.ResetForRun();
      assert t.decisionPath[0..] == t.decisionPath;
      var path := RunBody(t, b);
      NextPath(b, |runs|);
      runs := runs + [path];
      assert t.decisionPath == path && t.discovered == Points(b, path);
      assert path[..|path|] == path && t.discovered[..|path|] == t.discovered;
      NextIsMeans(b, path, if |runs| < |Paths(b)| then Some(Paths(b)[|runs|]) else None);
      more := t.Advance();
    }
  }

  lemma EmptyPrefix(b: Tree)
    ensures IsPrefix(b, [])
  {
  }

  lemma NextIsMeans(b: Tree, p: Path, next: Option<Path>)
    requires IsPath(b, p) && NextIs(b, p, next)
    ensures match Successor(p, Points(b, p))
      case None => next == None
      case Some(q) => IsPrefix(b, q) && next == Some(Complete(b, q))
  {
  }
}
