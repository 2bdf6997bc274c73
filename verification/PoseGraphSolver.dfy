/** CeresSolver: the index that the pose-graph solver keeps over Ceres' problem.

    Of Ceres only its documented contract is used: a residual block brings its parameter blocks with it,
    removing a parameter block removes the residuals that depend on it, and only a live residual may be
    removed. The optimisation itself is an arbitrary new pose for every free node. */
module PoseGraphSolver {
  import opened Wrappers

  datatype Pose = Pose(x: real, y: real, heading: real)

  /** first_node_: the end iterator, a live node, or an iterator whose node has been erased. */
  datatype First = End | Live(id: int) | Dangling

  type Hash = (int, int) -> int

  /** nodes_, first_node_, blocks_, was_constant_set_, corrections_, and the problem: its live residuals
      with the nodes they join, the nodes it has parameter blocks for, and those held constant. */
  datatype Solver = Solver(
    nodes: map<int, Pose>, first: First, blocks: map<int, nat>, wasConstantSet: bool, corrections: map<int, Pose>,
    residuals: map<nat, (int, int)>, params: set<int>, constant: set<int>, nextId: nat)

  const EMPTY := Solver(map[], End, map[], false, map[], map[], {}, {}, 0)

  datatype Op =
    | AddNode(id: int, pose: Pose)
    | AddConstraint(a: int, b: int)
    | RemoveNode(id: int)
    | RemoveConstraint(a: int, b: int)
    | Compute(solution: map<int, Pose>, usable: bool)
    | Reset

  function Drop(residuals: map<nat, (int, int)>, id: int): map<nat, (int, int)> {
    map r | r in residuals && residuals[r].0 != id && residuals[r].1 != id :: residuals[r]
  }

  /** Where Ceres moves the nodes: constant nodes and nodes without parameter blocks stay. */
  function Solved(s: Solver, solution: map<int, Pose>): map<int, Pose> {
    map k | k in s.nodes :: if k in s.params && k !in s.constant && k in solution then solution[k] else s.nodes[k]
  }

  /** The key under which RemoveConstraint finds a block: the given direction first, then the other. */
  function FoundKey(s: Solver, hash: Hash, a: int, b: int): Option<int> {
    if hash(a, b) in s.blocks then Some(hash(a, b))
    else if hash(b, a) in s.blocks then Some(hash(b, a))
    else None
  }

  /** Pin the first node, once per epoch, as soon as it takes part in the problem. */
  function Pinned(s: Solver): Solver {
    if !s.wasConstantSet && s.first.Live? && s.first.id in s.params
    then s.(constant := s.constant + {s.first.id}, wasConstantSet := true) else s
  }

  /** first_node_ still points at a node when Compute looks at it. */
  predicate Computable(s: Solver) { s.nodes != map[] && !s.wasConstantSet ==> !s.first.Dangling? }

  /** The call does not touch freed memory and hands Ceres only live residuals. */
  predicate Defined(s: Solver, hash: Hash, op: Op) {
    match op
    case RemoveConstraint(a, b) => var k := FoundKey(s, hash, a, b); k.Some? ==> s.blocks[k.value] in s.residuals
    case Compute(_, _) => Computable(s)
    case _ => true
  }

  function Step(s: Solver, hash: Hash, op: Op): Solver
    requires Defined(s, hash, op)
  {
    match op
    case AddNode(id, pose) =>
      var nodes := if id in s.nodes then s.nodes else s.nodes[id := pose];
      s.(nodes := nodes, first := if |nodes| == 1 then Live(id) else s.first)
    case AddConstraint(a, b) =>
      if a !in s.nodes || b !in s.nodes || a == b then s
      else s.(residuals := s.residuals[s.nextId := (a, b)], params := s.params + {a, b}, nextId := s.nextId + 1,
              blocks := if hash(a, b) in s.blocks then s.blocks else s.blocks[hash(a, b) := s.nextId])
    case RemoveNode(id) =>
      if id !in s.nodes then s
      else
        var t := s.(nodes := s.nodes - {id}, first := if s.first == Live(id) then Dangling else s.first);
        if id in s.params
        then t.(residuals := Drop(s.residuals, id), params := s.params - {id}, constant := s.constant - {id}) else t
    case RemoveConstraint(a, b) =>
      var k := FoundKey(s, hash, a, b);
      if k.None? then s else s.(residuals := s.residuals - {s.blocks[k.value]}, blocks := s.blocks - {k.value})
    case Compute(solution, usable) =>
      if s.nodes == map[] then s
      else
        var t := Pinned(s);
        var nodes := Solved(t, solution);
        t.(nodes := nodes, corrections := if usable then nodes else s.corrections)
    case Reset => EMPTY.(nextId := s.nextId)
  }

  // ---- The solver object ----

  class CeresSolver {
    const hash: Hash
    var nodes: map<int, Pose>
    var first: First
    var blocks: map<int, nat>
    var wasConstantSet: bool
    var corrections: map<int, Pose>
    // The problem.
    var residuals: map<nat, (int, int)>
    var params: set<int>
    var constant: set<int>
    var nextId: nat

    function State(): Solver
      reads this
    {
      Solver(nodes, first, blocks, wasConstantSet, corrections, residuals, params, constant, nextId)
    }

    constructor (hash: Hash)
      ensures this.hash == hash && State() == EMPTY
    {
      this.hash := hash;
      nodes, first, blocks, wasConstantSet, corrections := map[], End, map[], false, map[];
      residuals, params, constant, nextId := map[], {}, {}, 0;
    }

    method DoAddNode(id: int, pose: Pose)
      modifies this`nodes, this`first
      ensures State() == Step(old(State()), hash, AddNode(id, pose))
    {
      if id !in nodes {
        nodes := nodes[id := pose];
      }
      if |nodes| == 1 {
        first := Live(id);
      }
    }

    method DoAddConstraint(a: int, b: int)
      modifies this`residuals, this`params, this`nextId, this`blocks
      ensures State() == Step(old(State()), hash, AddConstraint(a, b))
    {
      if a !in nodes || b !in nodes || a == b {
        return;
      }
      var block := nextId;
      residuals, params, nextId := residuals[block := (a, b)], params + {a, b}, nextId + 1;
      if hash(a, b) !in blocks {
        blocks := blocks[hash(a, b) := block];
      }
    }

    method DoRemoveNode(id: int)
      modifies this`nodes, this`first, this`residuals, this`params, this`constant
      ensures State() == Step(old(State()), hash, RemoveNode(id))
    {
      if id in nodes {
        if id in params {
          residuals, params, constant := Drop(residuals, id), params - {id}, constant - {id};
        }
        nodes := nodes - {id};
        if first == Live(id) {
          first := Dangling;
        }
      }
    }

    method DoRemoveConstraint(a: int, b: int)
      requires Defined(State(), hash, RemoveConstraint(a, b))
      modifies this`residuals, this`blocks
      ensures State() == Step(old(State()), hash, RemoveConstraint(a, b))
    {
      if hash(a, b) in blocks {
        residuals, blocks := residuals - {blocks[hash(a, b)]}, blocks - {hash(a, b)};
      } else if hash(b, a) in blocks {
        residuals, blocks := residuals - {blocks[hash(b, a)]}, blocks - {hash(b, a)};
      }
    }

    method DoCompute(solution: map<int, Pose>, usable: bool)
      requires Defined(State(), hash, Compute(solution, usable))
      modifies this`constant, this`wasConstantSet, this`nodes, this`corrections
      ensures State() == Step(old(State()), hash, Compute(solution, usable))
    {
      if |nodes| == 0 {
        return;
      }
      if !wasConstantSet && first != End && first.id in params {
        constant, wasConstantSet := constant + {first.id}, true;
      }
      nodes := Solved(State(), solution);
      if !usable {
        return;
      }
      corrections := nodes;
    }

    method DoReset()
      modifies this
      ensures State() == Step(old(State()), hash, Reset)
    {
      corrections, wasConstantSet := map[], false;
      residuals, params, constant := map[], {}, {};
      nodes, blocks, first := map[], map[], End;
    }
  }

  // ---- What every operation keeps ----

  predicate Joins(s: Solver, r: nat)
    requires r in s.residuals
  {
    r < s.nextId && s.residuals[r].0 != s.residuals[r].1 && s.residuals[r].0 in s.params && s.residuals[r].1 in s.params
  }

  /** Every live residual joins two different live nodes, blocks_ names only residuals that were handed
      out, and at most one node is held constant. */
  ghost predicate WellFormed(s: Solver) {
    (forall r :: r in s.residuals ==> Joins(s, r)) &&
    s.params <= s.nodes.Keys && s.constant <= s.params && |s.constant| <= 1 &&
    (s.constant != {} ==> s.wasConstantSet) &&
    (forall h :: h in s.blocks ==> s.blocks[h] < s.nextId) &&
    (s.first.Live? ==> s.first.id in s.nodes)
  }

  lemma WellFormedKept(s: Solver, hash: Hash, op: Op)
    requires WellFormed(s) && Defined(s, hash, op)
    ensures WellFormed(Step(s, hash, op))
  {
    match op
    case RemoveNode(id) =>
      RemoveNodeWellFormed(s, hash, id);
    case AddConstraint(a, b) =>
      AddConstraintWellFormed(s, hash, a, b);
    case Compute(solution, usable) =>
      ComputeWellFormed(s, hash, solution, usable);
    case _ =>
  }

  lemma RemoveNodeWellFormed(s: Solver, hash: Hash, id: int)
    requires WellFormed(s)
    ensures WellFormed(Step(s, hash, RemoveNode(id)))
  {
    RemoveNodeJoins(s, hash, id);
    hide Joins, Drop;
    SubsetSize(s.constant - {id}, s.constant);
    if id in s.nodes && id !in s.params {
      assert s.params - {id} == s.params;
    }
  }

  lemma RemoveNodeJoins(s: Solver, hash: Hash, id: int)
    requires WellFormed(s)
    ensures forall r :: r in Step(s, hash, RemoveNode(id)).residuals ==> Joins(Step(s, hash, RemoveNode(id)), r)
  {
    var t := Step(s, hash, RemoveNode(id));
    forall r | r in t.residuals ensures Joins(t, r) {
      assert Joins(s, r);
    }
  }

  lemma AddConstraintWellFormed(s: Solver, hash: Hash, a: int, b: int)
    requires WellFormed(s)
    ensures WellFormed(Step(s, hash, AddConstraint(a, b)))
  {
    var t := Step(s, hash, AddConstraint(a, b));
    forall r | r in t.residuals ensures Joins(t, r) {
      assert r in s.residuals ==> Joins(s, r);
    }
  }

  lemma ComputeWellFormed(s: Solver, hash: Hash, solution: map<int, Pose>, usable: bool)
    requires WellFormed(s) && Defined(s, hash, Compute(solution, usable))
    ensures WellFormed(Step(s, hash, Compute(solution, usable)))
  {
    assert s.constant == {} || s.wasConstantSet;
    assert Pinned(s).constant == s.constant || (s.constant == {} && |Pinned(s).constant| == 1);
  }

  lemma SubsetSize<T>(a: set<T>, b: set<T>)
    requires a <= b
    ensures |a| <= |b|
  {
    if x :| x in a {
      SubsetSize(a - {x}, b - {x});
    }
  }

  // ---- When the index agrees with the problem ----

  /** The key of a live residual: the hash of the pair it joins. */
  function KeyOf(s: Solver, hash: Hash, r: nat): int
    requires r in s.residuals
  {
    hash(s.residuals[r].0, s.residuals[r].1)
  }

  /** blocks_ holds exactly the live residuals, each under the hash of the pair it joins. */
  ghost predicate Agrees(s: Solver, hash: Hash) {
    (forall r :: r in s.residuals ==> KeyOf(s, hash, r) in s.blocks && s.blocks[KeyOf(s, hash, r)] == r) &&
    (forall h :: h in s.blocks ==> s.blocks[h] in s.residuals && KeyOf(s, hash, s.blocks[h]) == h)
  }

  lemma AgreesMeansSameIds(s: Solver, hash: Hash)
    requires Agrees(s, hash)
    ensures s.blocks.Values == s.residuals.Keys
    ensures forall g, h :: g in s.blocks && h in s.blocks && s.blocks[g] == s.blocks[h] ==> g == h
  {
    forall r | r in s.residuals ensures r in s.blocks.Values {
      assert s.blocks[KeyOf(s, hash, r)] == r;
    }
    forall g, h | g in s.blocks && h in s.blocks && s.blocks[g] == s.blocks[h] ensures g == h {
      assert KeyOf(s, hash, s.blocks[g]) == g && KeyOf(s, hash, s.blocks[h]) == h;
    }
  }

  /** A live residual joins the node. */
  predicate Touches(s: Solver, r: nat, id: int) {
    r in s.residuals && (s.residuals[r].0 == id || s.residuals[r].1 == id)
  }

  /** What a caller has to check: the key of a new constraint is free, and a node that is removed takes
      part in no live constraint. */
  ghost predicate Careful(s: Solver, hash: Hash, op: Op) {
    match op
    case AddConstraint(a, b) => a in s.nodes && b in s.nodes && a != b ==> hash(a, b) !in s.blocks
    case RemoveNode(id) => forall r :: !Touches(s, r, id)
    case _ => true
  }

  lemma AddConstraintAgrees(s: Solver, hash: Hash, a: int, b: int)
    requires WellFormed(s) && Agrees(s, hash)
    ensures Agrees(Step(s, hash, AddConstraint(a, b)), hash) <==> Careful(s, hash, AddConstraint(a, b))
  {
    var t := Step(s, hash, AddConstraint(a, b));
    if a in s.nodes && b in s.nodes && a != b {
      var n := s.nextId;
      assert KeyOf(t, hash, n) == hash(a, b);
      forall r | r in s.residuals ensures r in t.residuals && KeyOf(t, hash, r) == KeyOf(s, hash, r) {
        assert Joins(s, r);
      }
      if hash(a, b) in s.blocks {
        assert t.blocks[hash(a, b)] < n;
      }
    }
  }

  lemma RemoveNodeAgrees(s: Solver, hash: Hash, id: int)
    requires WellFormed(s) && Agrees(s, hash)
    ensures Agrees(Step(s, hash, RemoveNode(id)), hash) <==> Careful(s, hash, RemoveNode(id))
  {
    var t := Step(s, hash, RemoveNode(id));
    forall r | r in t.residuals ensures r in s.residuals && KeyOf(t, hash, r) == KeyOf(s, hash, r) {
    }
    if r :| Touches(s, r, id) {
      var h := KeyOf(s, hash, r);
      assert Joins(s, r);
      assert h in t.blocks && t.blocks[h] == r;
      assert r !in t.residuals;
    } else {
      assert forall r :: r in s.residuals ==> !Touches(s, r, id);
      assert t.residuals == s.residuals;
    }
  }

  lemma RemoveConstraintAgrees(s: Solver, hash: Hash, a: int, b: int)
    requires Agrees(s, hash)
    ensures Defined(s, hash, RemoveConstraint(a, b))
    ensures Agrees(Step(s, hash, RemoveConstraint(a, b)), hash)
  {
    AgreesMeansSameIds(s, hash);
    var k, g, h := FoundKey(s, hash, a, b), hash(a, b), hash(b, a);
    assert g in s.blocks ==> s.blocks[g] in s.residuals;
    assert h in s.blocks ==> s.blocks[h] in s.residuals;
    if k.Some? {
      assert s.blocks[k.value] in s.residuals;
      var t := Step(s, hash, RemoveConstraint(a, b));
      forall r | r in t.residuals ensures r in s.residuals && KeyOf(t, hash, r) == KeyOf(s, hash, r) {
      }
    }
  }

  /** A step from agreement ends in agreement exactly when it is careful. */
  lemma AgreementExactly(s: Solver, hash: Hash, op: Op)
    requires WellFormed(s) && Agrees(s, hash) && Defined(s, hash, op)
    ensures Agrees(Step(s, hash, op), hash) <==> Careful(s, hash, op)
  {
    match op
    case AddConstraint(a, b) => AddConstraintAgrees(s, hash, a, b);
    case RemoveNode(id) => RemoveNodeAgrees(s, hash, id);
    case RemoveConstraint(a, b) => RemoveConstraintAgrees(s, hash, a, b);
    case Reset => assert Agrees(Step(s, hash, op), hash);
    case _ =>
      var t := Step(s, hash, op);
      assert t.residuals == s.residuals && t.blocks == s.blocks;
      forall r | r in s.residuals ensures KeyOf(t, hash, r) == KeyOf(s, hash, r) {
      }
  }

  // ---- Whole runs ----

  /** The state after the calls; None once a call was not defined. */
  function RunFrom(s: Solver, hash: Hash, ops: seq<Op>): Option<Solver> {
    if ops == [] then Some(s)
    else
      var p := RunFrom(s, hash, ops[..|ops| - 1]);
      if p.None? || !Defined(p.value, hash, ops[|ops| - 1]) then None else Some(Step(p.value, hash, ops[|ops| - 1]))
  }

  function Run(hash: Hash, ops: seq<Op>): Option<Solver> { RunFrom(EMPTY, hash, ops) }

  /** Every call of the run was careful when it was made. */
  ghost predicate CarefulRun(hash: Hash, ops: seq<Op>) {
    forall i :: 0 <= i < |ops| && Run(hash, ops[..i]).Some? ==> Careful(Run(hash, ops[..i]).value, hash, ops[i])
  }

  /** On every run the residuals join different live nodes and at most one node is constant. */
  lemma AlwaysWellFormed(hash: Hash, ops: seq<Op>)
    requires Run(hash, ops).Some?
    ensures WellFormed(Run(hash, ops).value)
  {
    RunWellFormed(EMPTY, hash, ops);
  }

  /** In every careful run, from construction and across resets, blocks_ and the problem hold the same
      residuals, and removing a constraint hands Ceres only live ones. */
  lemma {:induction false} CarefulRunsAgree(hash: Hash, ops: seq<Op>)
    requires Run(hash, ops).Some? && CarefulRun(hash, ops)
    ensures var s := Run(hash, ops).value;
      Agrees(s, hash) && s.blocks.Values == s.residuals.Keys &&
      forall a, b :: Defined(s, hash, RemoveConstraint(a, b))
  {
    hide WellFormed, Step, Defined, Careful;
    if ops != [] {
      var n := |ops| - 1;
      forall i | 0 <= i < n ensures ops[..n][..i] == ops[..i] {
      }
      CarefulRunsAgree(hash, ops[..n]);
      AlwaysWellFormed(hash, ops[..n]);
      AgreementExactly(Run(hash, ops[..n]).value, hash, ops[n]);
    } else {
      assert Agrees(EMPTY, hash);
    }
    var s := Run(hash, ops).value;
    AgreesMeansSameIds(s, hash);
    forall a, b ensures Defined(s, hash, RemoveConstraint(a, b)) {
      RemoveConstraintAgrees(s, hash, a, b);
    }
  }

  // ---- With a hash that tells pairs apart ----

  /** GetHash is injective on the pairs of the ids in use. */
  ghost predicate Injective(hash: Hash, ids: set<int>) {
    forall a, b, c, d :: a in ids && b in ids && c in ids && d in ids && hash(a, b) == hash(c, d) ==> a == c && b == d
  }

  lemma SameHashSamePair(hash: Hash, ids: set<int>, a: int, b: int, c: int, d: int)
    requires Injective(hash, ids) && a in ids && b in ids && c in ids && d in ids && hash(a, b) == hash(c, d)
    ensures a == c && b == d
  {
  }

  predicate LivePair(s: Solver, a: int, b: int) {
    exists r :: r in s.residuals && s.residuals[r] == (a, b)
  }

  /** Then being careful is not to add an ordered pair that is live. */
  lemma CarefulMeansNewPair(s: Solver, hash: Hash, ids: set<int>, a: int, b: int)
    requires Injective(hash, ids) && s.nodes.Keys <= ids && WellFormed(s) && Agrees(s, hash)
    requires a in s.nodes && b in s.nodes && a != b
    ensures Careful(s, hash, AddConstraint(a, b)) <==> !LivePair(s, a, b)
  {
    KeyIsLivePair(s, hash, ids, a, b);
  }

  lemma KeyIsLivePair(s: Solver, hash: Hash, ids: set<int>, a: int, b: int)
    requires Injective(hash, ids) && s.nodes.Keys <= ids && WellFormed(s) && Agrees(s, hash) && a in ids && b in ids
    ensures hash(a, b) in s.blocks <==> LivePair(s, a, b)
    ensures hash(a, b) in s.blocks ==> s.blocks[hash(a, b)] in s.residuals && s.residuals[s.blocks[hash(a, b)]] == (a, b)
    ensures forall r :: r in s.residuals && s.residuals[r] == (a, b) ==> hash(a, b) in s.blocks && s.blocks[hash(a, b)] == r
  {
    var h := hash(a, b);
    if h in s.blocks {
      assert s.blocks[h] in s.residuals && KeyOf(s, hash, s.blocks[h]) == h;
      var p := s.residuals[s.blocks[h]];
      assert Joins(s, s.blocks[h]);
      SameHashSamePair(hash, ids, p.0, p.1, a, b);
    }
    forall r | r in s.residuals && s.residuals[r] == (a, b) ensures hash(a, b) in s.blocks && s.blocks[hash(a, b)] == r {
      assert KeyOf(s, hash, r) == hash(a, b);
    }
  }

  /** And removing a constraint removes that pair's residual and no other; when the pair is not live, the
      reversed pair's. */
  lemma RemoveConstraintIsExact(s: Solver, hash: Hash, ids: set<int>, a: int, b: int)
    requires Injective(hash, ids) && s.nodes.Keys <= ids && WellFormed(s) && Agrees(s, hash) && a in ids && b in ids
    ensures Defined(s, hash, RemoveConstraint(a, b))
    ensures var t := Step(s, hash, RemoveConstraint(a, b)).residuals;
      t == if LivePair(s, a, b) then map r | r in s.residuals && s.residuals[r] != (a, b) :: s.residuals[r]
           else map r | r in s.residuals && s.residuals[r] != (b, a) :: s.residuals[r]
  {
    RemoveConstraintAgrees(s, hash, a, b);
    KeyIsLivePair(s, hash, ids, a, b);
    KeyIsLivePair(s, hash, ids, b, a);
  }

  /** What a caller can check without the hash: no ordered pair is added while it is live, and a node that
      is removed takes part in no live constraint. */
  ghost predicate NewPair(s: Solver, op: Op) {
    match op
    case AddConstraint(a, b) => a in s.nodes && b in s.nodes && a != b ==> !LivePair(s, a, b)
    case RemoveNode(id) => forall r :: !Touches(s, r, id)
    case _ => true
  }

  ghost predicate NewPairsRun(hash: Hash, ops: seq<Op>) {
    forall i :: 0 <= i < |ops| && Run(hash, ops[..i]).Some? ==> NewPair(Run(hash, ops[..i]).value, ops[i])
  }

  lemma StepNodes(s: Solver, hash: Hash, op: Op)
    requires Defined(s, hash, op)
    ensures forall k :: k in Step(s, hash, op).nodes ==> k in s.nodes || (op.AddNode? && k == op.id)
  {
  }

  lemma {:induction false} NodesWithin(hash: Hash, ids: set<int>, ops: seq<Op>)
    requires Run(hash, ops).Some? && forall op :: op in ops && op.AddNode? ==> op.id in ids
    ensures Run(hash, ops).value.nodes.Keys <= ids
  {
    if ops != [] {
      hide Step, Defined;
      var n := |ops| - 1;
      NodesWithin(hash, ids, ops[..n]);
      StepNodes(Run(hash, ops[..n]).value, hash, ops[n]);
    }
  }

  /** Over whole runs, with a hash that tells the pairs of the ids in use apart: all steps are careful
      exactly when no live pair is added again and no node is removed with live constraints; then index and
      problem agree at the end. */
  lemma {:induction false} NewPairsExactly(hash: Hash, ids: set<int>, ops: seq<Op>)
    requires Injective(hash, ids) && forall op :: op in ops && op.AddNode? ==> op.id in ids
    ensures CarefulRun(hash, ops) <==> NewPairsRun(hash, ops)
    ensures NewPairsRun(hash, ops) && Run(hash, ops).Some? ==> Agrees(Run(hash, ops).value, hash)
  {
    hide WellFormed, Step, Defined, Careful, NewPair, Injective, Agrees;
    if ops != [] {
      var n := |ops| - 1;
      forall i | 0 <= i < n ensures ops[..n][..i] == ops[..i] && ops[..n][i] == ops[i] {
      }
      NewPairsExactly(hash, ids, ops[..n]);
      RunPrefixes(hash, ops);
      if CarefulRun(hash, ops[..n]) && Run(hash, ops[..n]).Some? {
        var s := Run(hash, ops[..n]).value;
        NodesWithin(hash, ids, ops[..n]);
        AlwaysWellFormed(hash, ops[..n]);
        NewPairIsCareful(s, hash, ids, ops[n]);
      }
    }
    if CarefulRun(hash, ops) && Run(hash, ops).Some? {
      CarefulRunsAgree(hash, ops);
    }
  }

  lemma RunPrefixes(hash: Hash, ops: seq<Op>)
    requires ops != []
    ensures var n := |ops| - 1;
      && CarefulRun(hash, ops) == (CarefulRun(hash, ops[..n])
            && (Run(hash, ops[..n]).Some? ==> Careful(Run(hash, ops[..n]).value, hash, ops[n])))
      && NewPairsRun(hash, ops) == (NewPairsRun(hash, ops[..n])
            && (Run(hash, ops[..n]).Some? ==> NewPair(Run(hash, ops[..n]).value, ops[n])))
  {
    hide Careful, NewPair, Run;
    var n := |ops| - 1;
    assert forall i :: 0 <= i < n ==> ops[..n][..i] == ops[..i] && ops[..n][i] == ops[i];
  }

  lemma NewPairIsCareful(s: Solver, hash: Hash, ids: set<int>, op: Op)
    requires Injective(hash, ids) && s.nodes.Keys <= ids && WellFormed(s) && Agrees(s, hash)
    ensures Careful(s, hash, op) <==> NewPair(s, op)
  {
    hide Injective, WellFormed, Agrees, LivePair;
    if op.AddConstraint? && op.a in s.nodes && op.b in s.nodes && op.a != op.b {
      CarefulMeansNewPair(s, hash, ids, op.a, op.b);
    }
  }

  // ---- The fixed node ----

  /** Once a node was pinned no operation but Reset adds a constant node or moves the pinned one. */
  lemma PinStep(s: Solver, hash: Hash, op: Op)
    requires WellFormed(s) && Defined(s, hash, op) && s.wasConstantSet && !op.Reset?
    ensures Step(s, hash, op).wasConstantSet && Step(s, hash, op).constant <= s.constant
    ensures forall k :: k in Step(s, hash, op).constant ==>
      k in s.nodes && k in Step(s, hash, op).nodes && Step(s, hash, op).nodes[k] == s.nodes[k]
  {
    WellFormedKept(s, hash, op);
    var t := Step(s, hash, op);
    assert t.constant <= t.nodes.Keys && s.constant <= s.nodes.Keys;
  }

  /** Every later state t of the epoch holds constant nothing but what s does, at the same pose. */
  ghost predicate KeepsPin(s: Solver, t: Solver) {
    t.wasConstantSet && t.constant <= s.constant &&
    forall k :: k in t.constant ==> k in s.nodes && k in t.nodes && t.nodes[k] == s.nodes[k]
  }

  /** Over every run between two resets: from the first pinning on nothing else is ever held constant, and
      the pinned node keeps its pose through all optimisations. */
  lemma {:induction false} PinnedOnce(s: Solver, hash: Hash, ops: seq<Op>, i: nat)
    requires WellFormed(s) && Reset !in ops && RunFrom(s, hash, ops).Some? && i <= |ops|
    ensures RunFrom(s, hash, ops[..i]).Some?
    ensures var p, t := RunFrom(s, hash, ops[..i]).value, RunFrom(s, hash, ops).value;
      && WellFormed(p) && WellFormed(t)
      && (p.wasConstantSet ==> KeepsPin(p, t))
      && (forall j, k :: j in p.constant && k in t.constant ==> j == k)
    decreases |ops|
  {
    hide Step, Defined;
    var n := |ops| - 1;
    if i == |ops| {
      assert ops[..i] == ops;
      RunWellFormed(s, hash, ops);
      AtMostOne(RunFrom(s, hash, ops).value);
    } else {
      assert ops[..n][..i] == ops[..i];
      PinnedOnce(s, hash, ops[..n], i);
      var p, q := RunFrom(s, hash, ops[..i]).value, RunFrom(s, hash, ops[..n]).value;
      WellFormedKept(q, hash, ops[n]);
      if p.wasConstantSet {
        PinStep(q, hash, ops[n]);
      }
      AtMostOne(p);
    }
  }

  lemma AtMostOne(s: Solver)
    requires WellFormed(s)
    ensures forall j, k :: j in s.constant && k in s.constant ==> j == k
    ensures s.constant != {} ==> s.wasConstantSet
  {
    forall j, k | j in s.constant && k in s.constant ensures j == k {
      if j != k {
        SubsetSize({j, k}, s.constant);
      }
    }
  }

  lemma {:induction false} RunWellFormed(s: Solver, hash: Hash, ops: seq<Op>)
    requires WellFormed(s) && RunFrom(s, hash, ops).Some?
    ensures WellFormed(RunFrom(s, hash, ops).value)
  {
    if ops != [] {
      var n := |ops| - 1;
      RunWellFormed(s, hash, ops[..n]);
      WellFormedKept(RunFrom(s, hash, ops[..n]).value, hash, ops[n]);
    }
  }

  /** When the pinned node is removed nothing takes its place before the next Reset: every later Compute
      of the epoch runs without a fixed node. */
  lemma {:induction false} PinIsNotRenewed(s: Solver, hash: Hash, ops: seq<Op>)
    requires WellFormed(s) && s.wasConstantSet && s.constant == {} && Reset !in ops
    requires RunFrom(s, hash, ops).Some?
    ensures WellFormed(RunFrom(s, hash, ops).value)
    ensures RunFrom(s, hash, ops).value.wasConstantSet && RunFrom(s, hash, ops).value.constant == {}
  {
    if ops != [] {
      var n := |ops| - 1;
      PinIsNotRenewed(s, hash, ops[..n]);
      var p := RunFrom(s, hash, ops[..n]).value;
      WellFormedKept(p, hash, ops[n]);
      PinStep(p, hash, ops[n]);
    }
  }

  /** Removes the node that the next Compute would hold constant, while other nodes remain. */
  predicate RemovesPinCandidate(s: Solver, op: Op) {
    op.RemoveNode? && !s.wasConstantSet && s.first == Live(op.id) && s.nodes.Keys != {op.id}
  }

  lemma RemoveNodeComputable(s: Solver, hash: Hash, id: int)
    requires Computable(s) && (s.first.Live? ==> s.first.id in s.nodes)
    ensures Computable(Step(s, hash, RemoveNode(id))) <==> !RemovesPinCandidate(s, RemoveNode(id))
  {
    hide Drop;
    var t := Step(s, hash, RemoveNode(id));
    if id in s.nodes {
      assert t.nodes == s.nodes - {id};
      assert t.nodes.Keys == s.nodes.Keys - {id};
      assert t.nodes == map[] <==> t.nodes.Keys == {};
      assert s.nodes.Keys == t.nodes.Keys + {id};
    }
  }

  lemma AddNodeComputable(s: Solver, hash: Hash, id: int, pose: Pose)
    requires Computable(s)
    ensures Computable(Step(s, hash, AddNode(id, pose)))
  {
    if s.nodes == map[] {
      assert |Step(s, hash, AddNode(id, pose)).nodes| == 1;
    }
  }

  /** Compute stays defined exactly when the step does not remove the node about to be pinned. */
  lemma ComputableExactly(s: Solver, hash: Hash, op: Op)
    requires WellFormed(s) && Defined(s, hash, op) && Computable(s)
    ensures Computable(Step(s, hash, op)) <==> !RemovesPinCandidate(s, op)
  {
    assert s.first.Live? ==> s.first.id in s.nodes;
    hide WellFormed, Drop, FoundKey;
    match op
    case AddNode(id, pose) =>
      AddNodeComputable(s, hash, id, pose);
    case RemoveNode(id) =>
      RemoveNodeComputable(s, hash, id);
    case _ =>
  }

  /** No run of any length makes an undefined call, as long as it is careful and keeps the pin candidate. */
  lemma {:induction false} CarefulRunsAreDefined(hash: Hash, ops: seq<Op>)
    requires CarefulRun(hash, ops)
    requires forall i :: 0 <= i < |ops| && Run(hash, ops[..i]).Some? ==> !RemovesPinCandidate(Run(hash, ops[..i]).value, ops[i])
    ensures Run(hash, ops).Some? && Computable(Run(hash, ops).value)
  {
    hide WellFormed, Step, Careful, Computable, RemovesPinCandidate;
    if ops == [] {
      assert Computable(EMPTY) by { ComputableAtStart(); }
    } else {
      var n := |ops| - 1;
      forall i | 0 <= i < n ensures ops[..n][..i] == ops[..i] {
      }
      CarefulRunsAreDefined(hash, ops[..n]);
      var s := Run(hash, ops[..n]).value;
      CarefulRunsAgree(hash, ops[..n]);
      AlwaysWellFormed(hash, ops[..n]);
      ComputableIsDefined(s, hash, ops[n]);
      ComputableExactly(s, hash, ops[n]);
    }
  }

  lemma ComputableAtStart()
    ensures Computable(EMPTY)
  {
  }

  lemma ComputableIsDefined(s: Solver, hash: Hash, op: Op)
    requires Computable(s) && forall a, b :: Defined(s, hash, RemoveConstraint(a, b))
    ensures Defined(s, hash, op)
  {
  }

  /** Removing the first node before the first Compute leaves first_node_ dangling: the next Compute is
      not defined. */
  lemma FirstNodeCanDangle(hash: Hash, pose: Pose, solution: map<int, Pose>)
    ensures var s := RunFrom(EMPTY, hash, [AddNode(1, pose), AddNode(2, pose), RemoveNode(1)]);
      s.Some? && !Defined(s.value, hash, Compute(solution, true))
  {
    var a := Step(EMPTY, hash, AddNode(1, pose));
    assert |a.nodes| == 1;
    var b := Step(a, hash, AddNode(2, pose));
    assert b.nodes.Keys == {1, 2};
    assert |b.nodes| == |b.nodes.Keys|;
    var c := Step(b, hash, RemoveNode(1));
    assert 2 in c.nodes;
    assert [] + [AddNode(1, pose)] == [AddNode(1, pose)];
    RunMore(EMPTY, hash, [], AddNode(1, pose));
    assert [AddNode(1, pose)] + [AddNode(2, pose)] == [AddNode(1, pose), AddNode(2, pose)];
    RunMore(EMPTY, hash, [AddNode(1, pose)], AddNode(2, pose));
    assert [AddNode(1, pose), AddNode(2, pose)] + [RemoveNode(1)] == [AddNode(1, pose), AddNode(2, pose), RemoveNode(1)];
    RunMore(EMPTY, hash, [AddNode(1, pose), AddNode(2, pose)], RemoveNode(1));
  }

  lemma OneConstraint(hash: Hash, pose: Pose)
    ensures var s := RunFrom(EMPTY, hash, [AddNode(1, pose), AddNode(2, pose), AddConstraint(1, 2)]);
      s.Some? && s.value.blocks == map[hash(1, 2) := 0] && s.value.residuals == map[0 := (1, 2)]
      && s.value.nodes.Keys == {1, 2} && s.value.params == {1, 2}
  {
    var n1, n2, c := AddNode(1, pose), AddNode(2, pose), AddConstraint(1, 2);
    assert [] + [n1] == [n1] && [n1] + [n2] == [n1, n2] && [n1, n2] + [c] == [n1, n2, c];
    RunMore(EMPTY, hash, [], n1);
    RunMore(EMPTY, hash, [n1], n2);
    RunMore(EMPTY, hash, [n1, n2], c);
  }

  // ---- What Compute leaves behind ----

  /** The poses right after the last usable solve since the last reset. */
  function LastSolved(hash: Hash, ops: seq<Op>): map<int, Pose> {
    if ops == [] then map[]
    else
      var before := ops[..|ops| - 1];
      match ops[|ops| - 1]
      case Reset => map[]
      case Compute(_, usable) =>
        if usable && Run(hash, ops).Some? && Run(hash, before).value.nodes != map[] then Run(hash, ops).value.nodes
        else LastSolved(hash, before)
      case _ => LastSolved(hash, before)
  }

  /** After every run the corrections are these poses; an unusable solve leaves them. */
  lemma {:induction false} CorrectionsByHistory(hash: Hash, ops: seq<Op>)
    requires Run(hash, ops).Some?
    ensures Run(hash, ops).value.corrections == LastSolved(hash, ops)
  {
    if ops != [] {
      CorrectionsByHistory(hash, ops[..|ops| - 1]);
    }
  }

  /** A solve gives every node of a live residual its solved pose, the pinned one excepted, and moves no node
      that takes part in no constraint. */
  lemma ComputeMoves(s: Solver, hash: Hash, solution: map<int, Pose>, usable: bool, id: int)
    requires WellFormed(s) && Defined(s, hash, Compute(solution, usable)) && id in s.nodes
    ensures var t := Step(s, hash, Compute(solution, usable));
      && t.nodes.Keys == s.nodes.Keys
      && (id in t.constant || id !in s.params ==> t.nodes[id] == s.nodes[id])
      && ((exists r :: Touches(s, r, id)) && id !in t.constant && id in solution ==> t.nodes[id] == solution[id])
  {
    if r :| Touches(s, r, id) {
      assert Joins(s, r);
    }
  }

  /** The last call about the id, or reset, was to add it. */
  predicate Alive(ops: seq<Op>, id: int) {
    ops != [] &&
    match ops[|ops| - 1]
    case AddNode(i, _) => i == id || Alive(ops[..|ops| - 1], id)
    case RemoveNode(i) => i != id && Alive(ops[..|ops| - 1], id)
    case Reset => false
    case _ => Alive(ops[..|ops| - 1], id)
  }

  lemma StepLives(s: Solver, hash: Hash, op: Op, id: int)
    requires Defined(s, hash, op)
    ensures id in Step(s, hash, op).nodes <==>
      match op
      case AddNode(i, _) => i == id || id in s.nodes
      case RemoveNode(i) => i != id && id in s.nodes
      case Reset => false
      case _ => id in s.nodes
  {
    hide Drop, FoundKey, Computable;
    match op
    case AddNode(i, _) =>
    case RemoveNode(i) =>
    case Compute(_, _) =>
    case _ =>
  }

  lemma StepKeepsPose(s: Solver, hash: Hash, op: Op, id: int)
    requires Defined(s, hash, op) && id in s.nodes && !op.Compute? && !op.Reset? && op != RemoveNode(id)
    ensures id in Step(s, hash, op).nodes && Step(s, hash, op).nodes[id] == s.nodes[id]
  {
    hide Drop, FoundKey, Computable;
  }

  lemma {:induction false} NodesByHistory(hash: Hash, ops: seq<Op>, id: int)
    requires Run(hash, ops).Some?
    ensures id in Run(hash, ops).value.nodes <==> Alive(ops, id)
  {
    if ops != [] {
      hide Step, Defined;
      NodesByHistory(hash, ops[..|ops| - 1], id);
      StepLives(Run(hash, ops[..|ops| - 1]).value, hash, ops[|ops| - 1], id);
    }
  }

  /** A node has the pose it was first added with until it is removed or a solve moves it. */
  lemma {:induction false} PoseKept(s: Solver, hash: Hash, id: int, pose: Pose, ops: seq<Op>)
    requires id !in s.nodes && RunFrom(Step(s, hash, AddNode(id, pose)), hash, ops).Some?
    requires forall op :: op in ops ==> !op.Compute? && !op.Reset? && op != RemoveNode(id)
    ensures var t := RunFrom(Step(s, hash, AddNode(id, pose)), hash, ops).value;
      id in t.nodes && t.nodes[id] == pose
  {
    AddedPose(s, hash, id, pose);
    hide Step, Defined;
    if ops != [] {
      var n, a := |ops| - 1, Step(s, hash, AddNode(id, pose));
      assert forall op :: op in ops[..n] ==> op in ops;
      assert ops[n] in ops;
      PoseKept(s, hash, id, pose, ops[..n]);
      StepKeepsPose(RunFrom(a, hash, ops[..n]).value, hash, ops[n], id);
    }
  }

  lemma AddedPose(s: Solver, hash: Hash, id: int, pose: Pose)
    requires id !in s.nodes
    ensures Defined(s, hash, AddNode(id, pose))
    ensures var t := Step(s, hash, AddNode(id, pose)); id in t.nodes && t.nodes[id] == pose
  {
  }

  /** The first node of an epoch is the one that is pinned: it stays first_node_ as long as it is not removed,
      nothing else is ever pinned, and a Compute pins it as soon as it takes part in a constraint. */
  lemma {:induction false} FirstNodeIsPinned(s: Solver, hash: Hash, id: int, pose: Pose, ops: seq<Op>)
    requires WellFormed(s) && s.nodes == map[] && !s.wasConstantSet && s.constant == {}
    requires Reset !in ops && RemoveNode(id) !in ops && RunFrom(Step(s, hash, AddNode(id, pose)), hash, ops).Some?
    ensures var t := RunFrom(Step(s, hash, AddNode(id, pose)), hash, ops).value;
      && WellFormed(t) && t.first == Live(id) && id in t.nodes
      && t.constant == (if t.wasConstantSet then {id} else {})
      && forall solution, usable :: Defined(t, hash, Compute(solution, usable)) && (exists r :: Touches(t, r, id)) ==>
           Step(t, hash, Compute(solution, usable)).constant == {id}
  {
    var a := Step(s, hash, AddNode(id, pose));
    if ops == [] {
      assert a.nodes == map[id := pose] && |a.nodes| == 1;
      WellFormedKept(s, hash, AddNode(id, pose));
    } else {
      var n := |ops| - 1;
      FirstNodeIsPinned(s, hash, id, pose, ops[..n]);
      var p := RunFrom(a, hash, ops[..n]).value;
      WellFormedKept(p, hash, ops[n]);
      StaysFirst(p, hash, id, ops[n]);
    }
    PinsWhatIsJoined(RunFrom(a, hash, ops).value, hash, id);
  }

  lemma StaysFirst(s: Solver, hash: Hash, id: int, op: Op)
    requires WellFormed(s) && Defined(s, hash, op) && s.first == Live(id) && id in s.nodes
    requires !op.Reset? && op != RemoveNode(id) && s.constant == if s.wasConstantSet then {id} else {}
    ensures var t := Step(s, hash, op);
      t.first == Live(id) && id in t.nodes && t.constant == if t.wasConstantSet then {id} else {}
  {
    hide WellFormed, Drop, FoundKey;
    if op.AddNode? {
      var t := Step(s, hash, op);
      if |t.nodes| == 1 && op.id != id {
        assert |t.nodes.Keys| == |t.nodes| && {id, op.id} <= t.nodes.Keys;
        SubsetSize({id, op.id}, t.nodes.Keys);
      }
    }
  }

  lemma PinsWhatIsJoined(t: Solver, hash: Hash, id: int)
    requires WellFormed(t) && t.first == Live(id) && t.constant == if t.wasConstantSet then {id} else {}
    ensures forall solution, usable :: Defined(t, hash, Compute(solution, usable)) && (exists r :: Touches(t, r, id)) ==>
      Step(t, hash, Compute(solution, usable)).constant == {id}
  {
    if r :| Touches(t, r, id) {
      assert Joins(t, r);
    }
  }

  /** Removing a node that still has a constraint leaves its residual in the index; removing the constraint
      then hands Ceres a residual that is gone. */
  lemma StaleResidual(hash: Hash, pose: Pose)
    ensures var s := RunFrom(EMPTY, hash, [AddNode(1, pose), AddNode(2, pose), AddConstraint(1, 2), RemoveNode(1)]);
      s.Some? && !Agrees(s.value, hash) && !Defined(s.value, hash, RemoveConstraint(1, 2))
  {
    var ops, r := [AddNode(1, pose), AddNode(2, pose), AddConstraint(1, 2)], RemoveNode(1);
    var all := [AddNode(1, pose), AddNode(2, pose), AddConstraint(1, 2), RemoveNode(1)];
    OneConstraint(hash, pose);
    var s := RunFrom(EMPTY, hash, ops).value;
    assert ops + [r] == all;
    RunMore(EMPTY, hash, ops, r);
    hide RunFrom;
    var t := Step(s, hash, r);
    assert RunFrom(EMPTY, hash, all) == Some(t);
    assert hash(1, 2) in t.blocks && t.blocks[hash(1, 2)] == 0 && 0 !in t.residuals;
    assert !Agrees(t, hash);
    assert FoundKey(t, hash, 1, 2) == Some(hash(1, 2));
  }

  lemma RunMore(s: Solver, hash: Hash, ops: seq<Op>, op: Op)
    requires RunFrom(s, hash, ops).Some? && Defined(RunFrom(s, hash, ops).value, hash, op)
    ensures RunFrom(s, hash, ops + [op]) == Some(Step(RunFrom(s, hash, ops).value, hash, op))
  {
    assert (ops + [op])[..|ops|] == ops;
  }
}
