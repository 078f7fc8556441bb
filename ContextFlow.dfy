/** The Node-RED flow diff of `inputs/node-red/context-flow.ts`: the edited
    flow file is compared with the state recorded when it was generated, and
    the differences become edit operations on the generated TypeScript.

    The JavaScript closure keeps its working state in local arrays and
    objects (`flowNodes`, `nodeInfo`, `addedWires`, `removedWires`,
    `nodesById`); here that state is the `Work` value, and each step is a
    method returning the new value, proved equal to a specification function
    about which the properties are stated. Node objects that the code mutates
    through two names (`nodesById[id]` and an element of `flowNodes`) live in
    one sequence `nodes`, and both names hold indices into it. */
module ContextFlow {
  import opened Util

  /** `FLOW_INFO_KEY`: the id of the element that carries the recorded state. */
  const FlowInfoKey: string := "flow-info-48978d9a8f7d9a87"

  /** The errors the JavaScript engine throws where the source dereferences a missing value. */
  const NoInfo: Thrown := TypeError("Cannot read properties of undefined (reading 'info')")
  const NoPredecessorId: Thrown := TypeError("Cannot read properties of undefined (reading 'id')")
  const NoPredecessorWires: Thrown := TypeError("Cannot destructure property 'wires' of 'nodeInfo[predecessorId].flowNode' as it is null.")
  const NoWires: Thrown := TypeError("node.wires[0] is not iterable")
  const NoNode: Thrown := TypeError("Cannot read properties of undefined (reading 'initialize')")
  const OperationsUninitialized: Thrown := ReferenceError("Cannot access 'operations' before initialization")
  const NoTsNodeInfo: Thrown := TypeError("Cannot read properties of undefined (reading 'tsNodeInfo')")
  const NoFlowNodeInfo: Thrown := TypeError("Cannot read properties of undefined (reading 'flowNode')")

  /** A Node-RED node as far as the diff reads it: `wires[0]` lists the ids it
      leads to, `initialize` is the source text it stands for. */
  datatype FlowNode = FlowNode(id: string, name: string, wires: seq<seq<string>>, initialize: Option<string>)

  /** Where a node's text sits in the generated file. */
  datatype TsNodeInfo = TsNodeInfo(fileName: string, pos: int, end: int)

  /** The recorded state of a node; `flowNode` is `None` for the entries the
      diff creates for new nodes (the source stores `null` there). */
  datatype FlowNodeInfo = FlowNodeInfo(flowNode: Option<FlowNode>, tsNodeInfo: TsNodeInfo)

  type Info = map<string, FlowNodeInfo>

  /** One element of the parsed flow file; only the flow-info element has an
      `info` property. */
  datatype Parsed = Parsed(node: FlowNode, info: Option<Info>)

  /** The edit operations of `lib/decompiler.ts`, without their random ids. */
  datatype Operation =
    | Insert(fileName: string, pos: int, text: Option<string>)
    | Delete(fileName: string, pos: int, end: int)
    | Replace(fileName: string, pos: int, end: int, replacement: string)
    | Move(fileName: string, pos: int, end: int, to: int)

  // ---------------------------------------------------------------------
  // Array helpers with JavaScript's semantics

  /** `s.indexOf(x)`: the first position of `x`, or -1. */
  function IndexOfElem<T(==)>(s: seq<T>, x: T): (i: int)
    ensures -1 <= i < |s|
    ensures 0 <= i ==> s[i] == x && forall j :: 0 <= j < i ==> s[j] != x
    ensures i == -1 <==> x !in s
    decreases |s|
  {
    if |s| == 0 then -1
    else if s[0] == x then 0
    else
      var k := IndexOfElem(s[1..], x);
      if k == -1 then -1 else k + 1
  }

  /** Where `splice(start, …)` starts on an array of length `len`: a negative
      start counts from the end. */
  function SpliceStart(len: nat, start: int): (k: nat)
    ensures k <= len
    ensures 0 <= start <= len ==> k == start
    ensures start < 0 <= len + start ==> k == len + start
  {
    if start < 0 then (if len + start < 0 then 0 else len + start)
    else if start > len then len
    else start
  }

  /** `s.splice(start, 1)`: the array left behind and the removed elements. */
  function SpliceOne<T>(s: seq<T>, start: int): (r: (seq<T>, seq<T>))
    ensures |r.1| <= 1 && |r.0| + |r.1| == |s|
    ensures multiset(r.0) + multiset(r.1) == multiset(s)
    ensures start < |s| && -|s| <= start ==> |r.1| == 1
  {
    var k := SpliceStart(|s|, start);
    if k < |s| then
      assert s == s[..k] + [s[k]] + s[k + 1..];
      (s[..k] + s[k + 1..], [s[k]])
    else (s, [])
  }

  /** A start inside the array removes exactly the element there. */
  lemma SpliceOneAt<T>(s: seq<T>, i: nat)
    requires i < |s|
    ensures SpliceOne(s, i) == (s[..i] + s[i + 1..], [s[i]])
  {
  }

  /** A start of -1, what `indexOf` returns for a missing element, removes the
      last element instead. */
  lemma SpliceOneMissing<T>(s: seq<T>)
    ensures |s| > 0 ==> SpliceOne(s, -1) == (s[..|s| - 1], [s[|s| - 1]])
    ensures |s| == 0 ==> SpliceOne(s, -1) == (s, [])
  {
    if |s| > 0 {
      assert s[|s|..] == [];
      assert s[..|s| - 1] + s[|s|..] == s[..|s| - 1];
    }
  }

  /** `s.splice(s.indexOf(x), 1)`. */
  function RemoveOne<T(==)>(s: seq<T>, x: T): (r: seq<T>)
    ensures multiset(r) <= multiset(s) && |r| == if |s| == 0 then 0 else |s| - 1
    ensures x in s ==> multiset(r) == multiset(s) - multiset{x}
    ensures x !in s && |s| > 0 ==> r == s[..|s| - 1]
    ensures forall y :: y in r ==> y in s
  {
    var i := IndexOfElem(s, x);
    if i == -1 then SpliceOneMissing(s); SpliceOne(s, -1).0
    else SpliceOneAt(s, i); SpliceOne(s, i).0
  }

  /** The elements of `ws` that are not in `other` (all of them when there is
      no `other`), in order: `ws.filter(it => !other?.includes(it))`. */
  function Missing(ws: seq<string>, other: Option<seq<string>>): seq<string>
    decreases |ws|
  {
    if |ws| == 0 then []
    else
      (if other.Some? && ws[0] in other.value then [] else [ws[0]]) + Missing(ws[1..], other)
  }

  /** `Missing` keeps exactly the elements of `ws` absent from `other`. */
  lemma {:induction false} MissingHas(ws: seq<string>, other: Option<seq<string>>, x: string)
    ensures x in Missing(ws, other) <==> x in ws && !(other.Some? && x in other.value)
    decreases |ws|
  {
    if |ws| > 0 {
      MissingHas(ws[1..], other, x);
      assert ws == [ws[0]] + ws[1..];
    }
  }

  /** `Missing` keeps every occurrence of the elements it keeps. */
  lemma {:induction false} MissingCounts(ws: seq<string>, other: Option<seq<string>>, x: string)
    ensures multiset(Missing(ws, other))[x] == if other.Some? && x in other.value then 0 else multiset(ws)[x]
    decreases |ws|
  {
    if |ws| > 0 {
      MissingCounts(ws[1..], other, x);
      assert ws == [ws[0]] + ws[1..];
    }
  }

  /** The elements of `ws` that are in `other`, in order: `ws.filter(it => other.includes(it))`. */
  function Shared(ws: seq<string>, other: seq<string>): (r: seq<string>)
    ensures forall x :: multiset(r)[x] == if x in other then multiset(ws)[x] else 0
    ensures forall x :: x in r <==> x in ws && x in other
    decreases |ws|
  {
    if |ws| == 0 then []
    else
      assert ws == [ws[0]] + ws[1..];
      (if ws[0] in other then [ws[0]] else []) + Shared(ws[1..], other)
  }

  // ---------------------------------------------------------------------
  // Taking out the recorded state (context-flow.ts:18-23)

  /** `findIndex(flow => flow.id === getFlowInfoKey())`. */
  function FindInfoIndex(ps: seq<Parsed>): (i: int)
    ensures -1 <= i < |ps|
    ensures 0 <= i ==> ps[i].node.id == FlowInfoKey && forall j :: 0 <= j < i ==> ps[j].node.id != FlowInfoKey
    ensures i == -1 ==> forall j :: 0 <= j < |ps| ==> ps[j].node.id != FlowInfoKey
    decreases |ps|
  {
    if |ps| == 0 then -1
    else if ps[0].node.id == FlowInfoKey then 0
    else
      var k := FindInfoIndex(ps[1..]);
      if k == -1 then -1 else k + 1
  }

  function NodesOf(ps: seq<Parsed>): (r: seq<FlowNode>)
    ensures |r| == |ps| && forall j :: 0 <= j < |ps| ==> r[j] == ps[j].node
  {
    seq(|ps|, j requires 0 <= j < |ps| => ps[j].node)
  }

  /** Splice the flow-info element out of the list and read its `info`: the
      remaining nodes and the recorded state, if any. */
  function TakeInfo(ps: seq<Parsed>): (r: Result<(seq<FlowNode>, Option<Info>), Thrown>)
    ensures r.Err? <==> |ps| == 0
    ensures r.Err? ==> r.error == NoInfo
    ensures r.Ok? ==> |r.value.0| == |ps| - 1 && exists i :: 0 <= i < |ps| && r.value.1 == ps[i].info
  {
    var (rest, removed) := SpliceOne(ps, FindInfoIndex(ps));
    if |removed| == 0 then Err(NoInfo)
    else
      assert removed[0] in multiset(removed);
      assert removed[0] in ps;
      Ok((NodesOf(rest), removed[0].info))
  }

  /** The first element with the flow-info key is taken out, and its `info`
      becomes the recorded state. */
  lemma TakeInfoFound(ps: seq<Parsed>, i: nat)
    requires i < |ps| && ps[i].node.id == FlowInfoKey
    requires forall j :: 0 <= j < i ==> ps[j].node.id != FlowInfoKey
    ensures TakeInfo(ps) == Ok((NodesOf(ps[..i] + ps[i + 1..]), ps[i].info))
  {
    assert FindInfoIndex(ps) == i;
    SpliceOneAt(ps, i);
  }

  /** Without a flow-info element the splice at -1 takes the LAST node out,
      and its `info` (normally absent) becomes the recorded state; an empty
      file fails. */
  lemma TakeInfoMissing(ps: seq<Parsed>)
    requires forall j :: 0 <= j < |ps| ==> ps[j].node.id != FlowInfoKey
    ensures |ps| == 0 ==> TakeInfo(ps).Err? && TakeInfo(ps).error.TypeError?
    ensures |ps| > 0 ==> TakeInfo(ps) == Ok((NodesOf(ps[..|ps| - 1]), ps[|ps| - 1].info))
  {
    if |ps| > 0 {
      assert ps[0].node.id != FlowInfoKey;
      assert FindInfoIndex(ps) == -1;
    }
    SpliceOneMissing(ps);
  }

  // ---------------------------------------------------------------------
  // The wire diff (context-flow.ts:27-58)

  /** `node.wires?.[0]` */
  function FirstWires(n: FlowNode): Option<seq<string>> {
    if |n.wires| == 0 then None else Some(n.wires[0])
  }

  /** `nodeInfo[id]?.flowNode`: the recorded node, `None` for a new one. */
  function Previous(info: Info, id: string): Option<FlowNode> {
    if id in info then info[id].flowNode else None
  }

  /** `previous?.wires[0]` */
  function RecordedWires(info: Info, id: string): Option<seq<string>> {
    var p := Previous(info, id);
    if p.Some? then FirstWires(p.value) else None
  }

  /** The targets `n` now leads to and did not before. */
  function AddedBy(info: Info, n: FlowNode): (r: seq<string>)
  {
    if |n.wires| == 0 then [] else Missing(n.wires[0], RecordedWires(info, n.id))
  }

  /** The targets `n` led to before and no longer does. */
  function RemovedBy(info: Info, n: FlowNode): (r: seq<string>)
  {
    var was := RecordedWires(info, n.id);
    if was.None? then [] else Missing(was.value, FirstWires(n))
  }

  /** `Object.assign(m, Object.fromEntries(ts.map(t => [t, v])))`: every key
      of `ts` now maps to `v`. */
  function Assign(m: map<string, string>, ts: seq<string>, v: string): (r: map<string, string>)
    ensures forall t :: t in r <==> t in m || t in ts
    ensures forall t :: t in r ==> r[t] == if t in ts then v else m[t]
    decreases |ts|
  {
    if |ts| == 0 then m
    else
      assert forall t :: t in ts <==> t == ts[0] || t in ts[1..];
      Assign(m[ts[0] := v], ts[1..], v)
  }

  /** The targets each node gained, `gains[j]` for node `j`. */
  function Gains(info: Info, nodes: seq<FlowNode>): (g: seq<seq<string>>)
    ensures |g| == |nodes|
  {
    seq(|nodes|, j requires 0 <= j < |nodes| => AddedBy(info, nodes[j]))
  }

  /** The targets each node lost, `losses[j]` for node `j`. */
  function Losses(info: Info, nodes: seq<FlowNode>): (l: seq<seq<string>>)
    ensures |l| == |nodes|
  {
    seq(|nodes|, j requires 0 <= j < |nodes| => RemovedBy(info, nodes[j]))
  }

  /** The `Object.assign` of the first `k` gains, each to its node's id. */
  function AssignAll(gains: seq<seq<string>>, nodes: seq<FlowNode>, k: nat): map<string, string>
    requires k <= |gains| && k <= |nodes|
    decreases k
  {
    if k == 0 then map[] else Assign(AssignAll(gains, nodes, k - 1), gains[k - 1], nodes[k - 1].id)
  }

  /** The concatenation of the first `k` losses. */
  function ConcatAll(losses: seq<seq<string>>, k: nat): seq<string>
    requires k <= |losses|
    decreases k
  {
    if k == 0 then [] else ConcatAll(losses, k - 1) + losses[k - 1]
  }

  /** `addedWires` after the first `k` nodes. */
  function AddedOf(info: Info, nodes: seq<FlowNode>, k: nat): map<string, string>
    requires k <= |nodes|
  {
    AssignAll(Gains(info, nodes), nodes, k)
  }

  /** `removedWires` after the first `k` nodes. */
  function RemovedOf(info: Info, nodes: seq<FlowNode>, k: nat): seq<string>
    requires k <= |nodes|
  {
    ConcatAll(Losses(info, nodes), k)
  }

  /** `newNodes` after the first `k` nodes. */
  function NewIdsOf(info: Info, nodes: seq<FlowNode>, k: nat): seq<string>
    requires k <= |nodes|
    decreases k
  {
    if k == 0 then []
    else NewIdsOf(info, nodes, k - 1) + if Previous(info, nodes[k - 1].id).None? then [nodes[k - 1].id] else []
  }

  /** `nodesById` over the first `k` nodes, as positions in `nodes`. */
  function ByIdOf(nodes: seq<FlowNode>, k: nat): (m: map<string, nat>)
    requires k <= |nodes|
    ensures forall id :: id in m ==> m[id] < k && nodes[m[id]].id == id
    decreases k
  {
    if k == 0 then map[] else ByIdOf(nodes, k - 1)[nodes[k - 1].id := k - 1]
  }

  /** A key is assigned exactly when one of the first `k` gains holds it. */
  lemma {:induction false} AssignAllHas(gains: seq<seq<string>>, nodes: seq<FlowNode>, k: nat, t: string)
    requires k <= |gains| && k <= |nodes|
    ensures t in AssignAll(gains, nodes, k) <==> exists j :: 0 <= j < k && t in gains[j]
  {
    if k > 0 {
      AssignAllHas(gains, nodes, k - 1, t);
      if t in gains[k - 1] {
        assert 0 <= k - 1 < k && t in gains[k - 1];
      }
      if exists j :: 0 <= j < k && t in gains[j] {
        var j :| 0 <= j < k && t in gains[j];
        if j < k - 1 { assert t in AssignAll(gains, nodes, k - 1); }
      }
    }
  }

  /** Gain `j` is the last of the first `k` gains that holds `t`. */
  ghost predicate LastGain(gains: seq<seq<string>>, k: nat, t: string, j: nat) {
    j < k <= |gains| && t in gains[j] && forall j' :: j < j' < k ==> t !in gains[j']
  }

  /** An assigned key maps to the id of the node of the LAST gain holding it. */
  lemma {:induction false} AssignAllLast(gains: seq<seq<string>>, nodes: seq<FlowNode>, k: nat, t: string)
    requires k <= |gains| && k <= |nodes|
    ensures t in AssignAll(gains, nodes, k) ==>
      exists j: nat :: LastGain(gains, k, t, j) && AssignAll(gains, nodes, k)[t] == nodes[j].id
  {
    if k > 0 && t in AssignAll(gains, nodes, k) {
      var before := AssignAll(gains, nodes, k - 1);
      if t in gains[k - 1] {
        assert LastGain(gains, k, t, k - 1);
      } else {
        assert t in before && AssignAll(gains, nodes, k)[t] == before[t];
        AssignAllLast(gains, nodes, k - 1, t);
        var j: nat :| LastGain(gains, k - 1, t, j) && before[t] == nodes[j].id;
        assert LastGain(gains, k, t, j);
      }
    }
  }

  /** An element is in the concatenation exactly when one of the lists holds it. */
  lemma {:induction false} ConcatAllHas(losses: seq<seq<string>>, k: nat, t: string)
    requires k <= |losses|
    ensures t in ConcatAll(losses, k) <==> exists j :: 0 <= j < k && t in losses[j]
  {
    if k > 0 {
      ConcatAllHas(losses, k - 1, t);
      if t in losses[k - 1] {
        assert 0 <= k - 1 < k && t in losses[k - 1];
      }
      if exists j :: 0 <= j < k && t in losses[j] {
        var j :| 0 <= j < k && t in losses[j];
        if j < k - 1 { assert t in ConcatAll(losses, k - 1); }
      }
    }
  }

  /** A target is in `addedWires` exactly when some node gained a wire to it. */
  lemma AddedFromNodes(info: Info, nodes: seq<FlowNode>, k: nat, t: string)
    requires k <= |nodes|
    ensures t in AddedOf(info, nodes, k) <==> exists j :: 0 <= j < k && t in AddedBy(info, nodes[j])
  {
    var gains := Gains(info, nodes);
    AssignAllHas(gains, nodes, k, t);
    if t in AddedOf(info, nodes, k) {
      var j :| 0 <= j < k && t in gains[j];
      assert t in AddedBy(info, nodes[j]);
    }
    if exists j :: 0 <= j < k && t in AddedBy(info, nodes[j]) {
      var j :| 0 <= j < k && t in AddedBy(info, nodes[j]);
      assert t in gains[j];
    }
  }

  /** Node `j` is the last of the first `k` nodes that gained a wire to `t`. */
  ghost predicate LastAdder(info: Info, nodes: seq<FlowNode>, k: nat, t: string, j: nat) {
    j < k <= |nodes| && t in AddedBy(info, nodes[j]) &&
    forall j' :: j < j' < k ==> t !in AddedBy(info, nodes[j'])
  }

  /** `addedWires[t]` is the id of the LAST node that gained a wire to `t`. */
  lemma AddedLastWins(info: Info, nodes: seq<FlowNode>, k: nat, t: string)
    requires k <= |nodes|
    ensures t in AddedOf(info, nodes, k) ==>
      exists j: nat :: LastAdder(info, nodes, k, t, j) && AddedOf(info, nodes, k)[t] == nodes[j].id
  {
    var gains := Gains(info, nodes);
    AssignAllLast(gains, nodes, k, t);
    if t in AddedOf(info, nodes, k) {
      var j: nat :| LastGain(gains, k, t, j) && AssignAll(gains, nodes, k)[t] == nodes[j].id;
      assert forall j' :: 0 <= j' < k ==> gains[j'] == AddedBy(info, nodes[j']);
      assert LastAdder(info, nodes, k, t, j);
    }
  }

  /** `removedWires` holds, with repetition, the targets each node lost. */
  lemma RemovedFromNodes(info: Info, nodes: seq<FlowNode>, k: nat, t: string)
    requires k <= |nodes|
    ensures t in RemovedOf(info, nodes, k) <==> exists j :: 0 <= j < k && t in RemovedBy(info, nodes[j])
  {
    var losses := Losses(info, nodes);
    ConcatAllHas(losses, k, t);
    if t in RemovedOf(info, nodes, k) {
      var j :| 0 <= j < k && t in losses[j];
      assert t in RemovedBy(info, nodes[j]);
    }
    if exists j :: 0 <= j < k && t in RemovedBy(info, nodes[j]) {
      var j :| 0 <= j < k && t in RemovedBy(info, nodes[j]);
      assert t in losses[j];
    }
  }

  /** `newNodes` holds the ids of the nodes without recorded state. */
  lemma {:induction false} NewIdsUnrecorded(info: Info, nodes: seq<FlowNode>, k: nat, id: string)
    requires k <= |nodes|
    ensures id in NewIdsOf(info, nodes, k) <==> Previous(info, id).None? && exists j :: 0 <= j < k && nodes[j].id == id
  {
    if k > 0 {
      NewIdsUnrecorded(info, nodes, k - 1, id);
      if nodes[k - 1].id == id {
        assert 0 <= k - 1 < k && nodes[k - 1].id == id;
      }
      if exists j :: 0 <= j < k && nodes[j].id == id {
        var j :| 0 <= j < k && nodes[j].id == id;
        if j < k - 1 { assert exists j :: 0 <= j < k - 1 && nodes[j].id == id; }
      }
    }
  }

  /** `nodesById` maps each id to the last node with it. */
  lemma {:induction false} ByIdLastWins(nodes: seq<FlowNode>, k: nat, id: string)
    requires k <= |nodes|
    ensures id in ByIdOf(nodes, k) <==> exists j :: 0 <= j < k && nodes[j].id == id
    ensures id in ByIdOf(nodes, k) ==> forall j :: ByIdOf(nodes, k)[id] < j < k ==> nodes[j].id != id
  {
    if k > 0 {
      ByIdLastWins(nodes, k - 1, id);
      var before := ByIdOf(nodes, k - 1);
      assert ByIdOf(nodes, k) == before[nodes[k - 1].id := k - 1];
      if nodes[k - 1].id == id {
        assert 0 <= k - 1 < k && nodes[k - 1].id == id;
      } else if id in before {
        assert ByIdOf(nodes, k)[id] == before[id];
      }
      if exists j :: 0 <= j < k && nodes[j].id == id {
        var j :| 0 <= j < k && nodes[j].id == id;
        if j < k - 1 { assert exists j :: 0 <= j < k - 1 && nodes[j].id == id; }
      }
    }
  }

  /** What the pass over the flow nodes collects: `addedWires`,
      `removedWires`, `newNodes` and `nodesById` (as positions in the node
      list). */
  datatype Diff = Diff(added: map<string, string>, removed: seq<string>, newIds: seq<string>, byId: map<string, nat>)

  function DiffOf(info: Info, nodes: seq<FlowNode>, k: nat): Diff
    requires k <= |nodes|
  {
    Diff(AddedOf(info, nodes, k), RemovedOf(info, nodes, k), NewIdsOf(info, nodes, k), ByIdOf(nodes, k))
  }

  /** One more node extends each of the four collections. */
  lemma DiffOfNext(info: Info, nodes: seq<FlowNode>, i: nat)
    requires i < |nodes|
    ensures AddedOf(info, nodes, i + 1) == Assign(AddedOf(info, nodes, i), AddedBy(info, nodes[i]), nodes[i].id)
    ensures RemovedOf(info, nodes, i + 1) == RemovedOf(info, nodes, i) + RemovedBy(info, nodes[i])
    ensures NewIdsOf(info, nodes, i + 1) ==
      NewIdsOf(info, nodes, i) + if Previous(info, nodes[i].id).None? then [nodes[i].id] else []
    ensures ByIdOf(nodes, i + 1) == ByIdOf(nodes, i)[nodes[i].id := i]
  {
    assert Gains(info, nodes)[i] == AddedBy(info, nodes[i]);
    assert Losses(info, nodes)[i] == RemovedBy(info, nodes[i]);
  }

  /** The pass over the flow nodes (context-flow.ts:32-58). */
  method DiffWires(info: Info, nodes: seq<FlowNode>) returns (d: Diff)
    ensures d == DiffOf(info, nodes, |nodes|)
  {
    d := Diff(map[], [], [], map[]);
    var i := 0;
    while i < |nodes|
      invariant i <= |nodes| && d == DiffOf(info, nodes, i)
    {
      var node := nodes[i];
      if Previous(info, node.id).None? {
        d := d.(newIds := d.newIds + [node.id]);
      }
      DiffOfNext(info, nodes, i);
      d := d.(added := Assign(d.added, AddedBy(info, node), node.id));
      d := d.(removed := d.removed + RemovedBy(info, node));
      d := d.(byId := d.byId[node.id := i]);
      i := i + 1;
    }
  }

  // ---------------------------------------------------------------------
  // Placing the new nodes (context-flow.ts:60-130)

  /** The closure's state once the nodes are indexed: the node objects,
      `flowNodes` as references into them, `nodeInfo`, `addedWires`,
      `removedWires` and `nodesById`. */
  datatype Work = Work(nodes: seq<FlowNode>, flowNodes: seq<nat>, nodeInfo: Info,
                       added: map<string, string>, removed: seq<string>, byId: map<string, nat>)

  /** Every reference names a node object. */
  ghost predicate Valid(w: Work) {
    (forall id :: id in w.byId ==> w.byId[id] < |w.nodes|) &&
    (forall k :: 0 <= k < |w.flowNodes| ==> w.flowNodes[k] < |w.nodes|)
  }

  /** `getNewPredecessorId`: the node that gained a wire to `id`; a missing
      entry and an empty id (falsy in JavaScript) both mean none. */
  function Predecessor(w: Work, id: string): Option<string> {
    if id in w.added && w.added[id] != "" then Some(w.added[id]) else None
  }

  /** `flowNodes.splice(flowNodes.indexOf(node), 1)` for the node `nodesById[id]`. */
  function Unlist(w: Work, id: string): (r: Work)
    requires Valid(w) && id in w.byId
    ensures Valid(r) && r == w.(flowNodes := r.flowNodes)
  {
    w.(flowNodes := RemoveOne(w.flowNodes, w.byId[id]))
  }

  /** The end of `populateNewNodeInfo` (context-flow.ts:83-101), once the
      predecessor `pid` has had its chance to be placed: without recorded
      state for it the node is dropped, otherwise its text goes right after
      the predecessor's. */
  function Settle(w: Work, id: string, pid: string): (r: (bool, Work))
    requires Valid(w) && id in w.byId
    ensures Valid(r.1) && r.1 == w.(flowNodes := r.1.flowNodes, nodeInfo := r.1.nodeInfo)
    ensures r.0 <==> pid in w.nodeInfo
    ensures !r.0 ==> r.1.nodeInfo == w.nodeInfo && |r.1.flowNodes| == if |w.flowNodes| == 0 then 0 else |w.flowNodes| - 1
    ensures !r.0 ==> r.1.flowNodes == RemoveOne(w.flowNodes, w.byId[id])
    ensures r.0 ==>
      r.1.flowNodes == w.flowNodes && id in r.1.nodeInfo && r.1.nodeInfo[id].flowNode.None? &&
      r.1.nodeInfo[id].tsNodeInfo.pos == w.nodeInfo[pid].tsNodeInfo.end + 1 &&
      r.1.nodeInfo[id].tsNodeInfo.fileName == w.nodeInfo[pid].tsNodeInfo.fileName
    ensures r.0 ==> forall k :: k in w.nodeInfo && k != id ==> k in r.1.nodeInfo && r.1.nodeInfo[k] == w.nodeInfo[k]
  {
    if pid !in w.nodeInfo then (false, Unlist(w, id))
    else
      var end := w.nodeInfo[pid].tsNodeInfo.end;
      var init := w.nodes[w.byId[id]].initialize;
      var length := if init.Some? then Utf16Length(init.value) else 0;
      (true, w.(nodeInfo := w.nodeInfo[id := FlowNodeInfo(None, TsNodeInfo(w.nodeInfo[pid].tsNodeInfo.fileName, end + 1, end + 1 + length))]))
  }

  const StackOverflow: Thrown := RangeError("Maximum call stack size exceeded")

  /** `populateNewNodeInfo(nodesById[id])`, called while the calls for the
      ids in `visited` are still running; a call for one of those would run
      in the same state again, so the recursion never ends. */
  function Populate(w: Work, id: string, visited: set<string>): (r: Result<(bool, Work), Thrown>)
    requires Valid(w) && id in w.byId && id !in visited && visited <= w.byId.Keys
    ensures r.Ok? ==> Valid(r.value.1) && r.value.1 == w.(flowNodes := r.value.1.flowNodes, nodeInfo := r.value.1.nodeInfo)
    ensures Predecessor(w, id).None? ==> r.Ok? && !r.value.0
    ensures Predecessor(w, id).None? ==> r == Ok((false, w.(flowNodes := RemoveOne(w.flowNodes, w.byId[id]))))
    ensures r.Err? ==> Predecessor(w, id).Some? && (r.error == NoPredecessorId || r.error == StackOverflow)
    ensures r.Ok? && Predecessor(w, id).Some? && Predecessor(w, id).value in w.nodeInfo ==> r.value.0
    decreases w.byId.Keys - visited
  {
    var p := Predecessor(w, id);
    if p.None? then Ok((false, Unlist(w, id)))
    else if p.value in w.nodeInfo then Ok(Settle(w, id, p.value))
    else if p.value !in w.byId then Err(NoPredecessorId)
    else if p.value == id || p.value in visited then Err(StackOverflow)
    else
      var r1 := Populate(w, p.value, visited + {id});
      if r1.Err? then r1 else Ok(Settle(r1.value.1, id, p.value))
  }

  /** The recursive `populateNewNodeInfo`. */
  method PopulateNewNodeInfo(w0: Work, id: string, visited: set<string>) returns (r: Result<(bool, Work), Thrown>)
    requires Valid(w0) && id in w0.byId && id !in visited && visited <= w0.byId.Keys
    ensures r == Populate(w0, id, visited)
    decreases w0.byId.Keys - visited
  {
    var p := Predecessor(w0, id);
    if p.None? {
      return Ok((false, Unlist(w0, id)));
    }
    var pid := p.value;
    var w := w0;
    if pid !in w.nodeInfo {
      if pid !in w.byId {
        return Err(NoPredecessorId);
      }
      if pid == id || pid in visited {
        return Err(StackOverflow);
      }
      var r1 := PopulateNewNodeInfo(w, pid, visited + {id});
      if r1.Err? {
        return r1;
      }
      w := r1.value.1;
    }
    r := Ok(Settle(w, id, pid));
  }

  /** What `populateNewNodeInfo` leaves behind. A placed node keeps every
      node listed, and its text is as long as its own `initialize` counted
      in UTF-16 code units and starts right after its predecessor's (unless
      the node is its own predecessor); other recorded entries stay as they
      were. A node that is not placed is dropped: `nodeInfo` is untouched
      and the list loses one element for it and one for each predecessor
      dropped on the way. */
  lemma {:induction false} PopulateOutcome(w: Work, id: string, visited: set<string>)
    requires Valid(w) && id in w.byId && id !in visited && visited <= w.byId.Keys
    requires Populate(w, id, visited).Ok?
    ensures var w' := Populate(w, id, visited).value.1;
      var init := w.nodes[w.byId[id]].initialize;
      Populate(w, id, visited).value.0 ==>
        Predecessor(w, id).Some? && w'.flowNodes == w.flowNodes &&
        var pid := Predecessor(w, id).value;
        pid in w'.nodeInfo && id in w'.nodeInfo && w'.nodeInfo[id].flowNode.None? &&
        w'.nodeInfo[id].tsNodeInfo.end == w'.nodeInfo[id].tsNodeInfo.pos + (if init.Some? then Utf16Length(init.value) else 0) &&
        (pid != id ==>
          w'.nodeInfo[id].tsNodeInfo.fileName == w'.nodeInfo[pid].tsNodeInfo.fileName &&
          w'.nodeInfo[id].tsNodeInfo.pos == w'.nodeInfo[pid].tsNodeInfo.end + 1) &&
        forall k :: k in w.nodeInfo && k != id ==> k in w'.nodeInfo && w'.nodeInfo[k] == w.nodeInfo[k]
    ensures var w' := Populate(w, id, visited).value.1;
      !Populate(w, id, visited).value.0 ==>
        w'.nodeInfo == w.nodeInfo && multiset(w'.flowNodes) <= multiset(w.flowNodes) &&
        (|w.flowNodes| > 0 ==> |w'.flowNodes| < |w.flowNodes|)
    ensures var w' := Populate(w, id, visited).value.1;
      !Populate(w, id, visited).value.0 ==>
        (Predecessor(w, id).None? ==> w'.flowNodes == RemoveOne(w.flowNodes, w.byId[id])) &&
        exists m :: multiset(m) <= multiset(w.flowNodes) && w'.flowNodes == RemoveOne(m, w.byId[id])
    decreases w.byId.Keys - visited
  {
    var p := Predecessor(w, id);
    if p.Some? && p.value !in w.nodeInfo {
      PopulateOutcome(w, p.value, visited + {id});
    }
    var r := Populate(w, id, visited);
    if !r.value.0 {
      if p.None? {
        assert r.value.1.flowNodes == RemoveOne(w.flowNodes, w.byId[id]);
      } else {
        var m := Populate(w, p.value, visited + {id}).value.1;
        assert r.value.1.flowNodes == RemoveOne(m.flowNodes, w.byId[id]);
      }
    }
  }

  /** The newline padding of a truthy `initialize` (context-flow.ts:107-109). */
  function Pad(n: FlowNode): (m: FlowNode)
    ensures m.id == n.id && m.wires == n.wires
    ensures n.initialize == Some("") || n.initialize.None? ==> m == n
    ensures n.initialize.Some? && n.initialize.value != "" ==> m.initialize == Some("\n" + n.initialize.value + "\n")
  {
    if n.initialize.Some? && n.initialize.value != "" then n.(initialize := Some("\n" + n.initialize.value + "\n")) else n
  }

  /** `predecessorWires[0].push(...ws)`, after pushing an empty first list
      onto a node without wires. */
  function AppendWires(n: FlowNode, ws: seq<string>): (m: FlowNode)
    ensures |n.wires| > 0 ==> m.wires == n.wires[0 := n.wires[0] + ws]
    ensures |n.wires| == 0 ==> m.wires == [ws]
    ensures m.id == n.id && m.initialize == n.initialize && m.name == n.name
  {
    var pw := if |n.wires| == 0 then [[]] else n.wires;
    assert |n.wires| == 0 ==> pw[0] + ws == ws;
    n.(wires := pw[0 := pw[0] + ws])
  }

  /** `drops.forEach(it => s.splice(s.indexOf(it), 1))`. */
  function RemoveEach(s: seq<string>, drops: seq<string>): seq<string>
    decreases |drops|
  {
    if |drops| == 0 then s else RemoveEach(RemoveOne(s, drops[0]), drops[1..])
  }

  /** When `s` holds every dropped target (with repetition), one occurrence of
      each is removed. */
  lemma {:induction false} RemoveEachCounts(s: seq<string>, drops: seq<string>)
    requires multiset(drops) <= multiset(s)
    ensures multiset(RemoveEach(s, drops)) == multiset(s) - multiset(drops)
    decreases |drops|
  {
    if |drops| > 0 {
      assert drops == [drops[0]] + drops[1..];
      assert drops[0] in s by {
        assert multiset(drops)[drops[0]] > 0;
      }
      var s' := RemoveOne(s, drops[0]);
      assert multiset(s') == multiset(s) - multiset{drops[0]};
      RemoveEachCounts(s', drops[1..]);
    }
  }

  /** A target dropped twice but removed once costs `removedWires` another,
      unrelated element: the second `indexOf` is -1. */
  lemma RemoveEachRepeated()
    ensures RemoveEach(["b", "c"], ["b", "b"]) == []
  {
    assert RemoveOne(["b", "c"], "b") == ["c"] by {
      assert IndexOfElem(["b", "c"], "b") == 0;
      SpliceOneAt(["b", "c"], 0);
    }
    assert RemoveOne(["c"], "b") == [] by {
      assert "b" !in ["c"];
    }
  }

  /** The inner `forEach` splicing `removedWires`. */
  method RemoveWires(s: seq<string>, drops: seq<string>) returns (r: seq<string>)
    ensures r == RemoveEach(s, drops)
  {
    r := s;
    var i := 0;
    while i < |drops|
      invariant i <= |drops| && RemoveEach(r, drops[i..]) == RemoveEach(s, drops)
    {
      assert drops[i..][1..] == drops[i + 1..];
      r := RemoveOne(r, drops[i]);
      i := i + 1;
    }
  }

  /** Context-flow.ts:115-129 for a placed node: its targets are appended to
      the predecessor's recorded wires and taken off `removedWires`. A
      predecessor that is itself new has a `null` node there, and a node
      with no wires has nothing to spread: both throw. */
  function Connect(w: Work, id: string): (r: Result<Work, Thrown>)
    requires Valid(w) && id in w.byId
    ensures r.Ok? ==> Valid(r.value) && r.value == w.(nodeInfo := r.value.nodeInfo, removed := r.value.removed)
    ensures Predecessor(w, id).None? ==> r == Ok(w)
    ensures r.Err? <==>
      Predecessor(w, id).Some? &&
      (Predecessor(w, id).value !in w.nodeInfo || w.nodeInfo[Predecessor(w, id).value].flowNode.None? ||
       |w.nodes[w.byId[id]].wires| == 0)
    ensures r.Ok? ==> forall k :: k in w.nodeInfo && Some(k) != Predecessor(w, id) ==>
      k in r.value.nodeInfo && r.value.nodeInfo[k] == w.nodeInfo[k]
  {
    var p := Predecessor(w, id);
    if p.None? then Ok(w)
    else if p.value !in w.nodeInfo || w.nodeInfo[p.value].flowNode.None? then
      Err(NoPredecessorWires)
    else
      var ws := w.nodes[w.byId[id]].wires;
      if |ws| == 0 then Err(NoWires)
      else
        var info := w.nodeInfo[p.value];
        Ok(w.(nodeInfo := w.nodeInfo[p.value := info.(flowNode := Some(AppendWires(info.flowNode.value, ws[0])))],
              removed := RemoveEach(w.removed, Shared(ws[0], w.removed))))
  }

  /** One iteration of the loop over `newNodes` (context-flow.ts:104-130). */
  function PlaceNode(w: Work, id: string): (r: Result<Work, Thrown>)
    requires Valid(w)
    ensures r.Ok? ==> Valid(r.value) && r.value.byId == w.byId && r.value.added == w.added && |r.value.nodes| == |w.nodes|
  {
    if id !in w.byId then Err(NoNode)
    else
      var ref := w.byId[id];
      var padded := w.(nodes := w.nodes[ref := Pad(w.nodes[ref])]);
      var p := Populate(padded, id, {});
      if p.Err? then Err(p.error)
      else if !p.value.0 then Ok(p.value.1)
      else Connect(p.value.1, id)
  }

  /** A placed node's own targets end up after its predecessor's recorded
      ones, and one occurrence of each that was removed is no longer. */
  lemma ConnectAppends(w: Work, id: string)
    requires Valid(w) && id in w.byId && Connect(w, id).Ok? && Predecessor(w, id).Some?
    ensures var pid := Predecessor(w, id).value; var w' := Connect(w, id).value;
      var ws := w.nodes[w.byId[id]].wires[0];
      var before := w.nodeInfo[pid].flowNode.value;
      pid in w'.nodeInfo && w'.nodeInfo[pid].flowNode.Some? &&
      FirstWires(w'.nodeInfo[pid].flowNode.value) == Some((if |before.wires| == 0 then [] else before.wires[0]) + ws) &&
      (multiset(Shared(ws, w.removed)) <= multiset(w.removed) ==>
        multiset(w'.removed) == multiset(w.removed) - multiset(Shared(ws, w.removed)))
  {
    var ws := w.nodes[w.byId[id]].wires[0];
    if multiset(Shared(ws, w.removed)) <= multiset(w.removed) {
      RemoveEachCounts(w.removed, Shared(ws, w.removed));
    }
  }

  /** The new-node loop from the `k`-th id on. */
  function PlaceAll(w: Work, ids: seq<string>): (r: Result<Work, Thrown>)
    requires Valid(w)
    ensures r.Ok? ==> Valid(r.value) && r.value.byId == w.byId && r.value.added == w.added && |r.value.nodes| == |w.nodes|
    decreases |ids|
  {
    if |ids| == 0 then Ok(w)
    else
      var r := PlaceNode(w, ids[0]);
      if r.Err? then r else PlaceAll(r.value, ids[1..])
  }

  /** One iteration of the new-node loop. */
  method PlaceNewNode(w0: Work, id: string) returns (r: Result<Work, Thrown>)
    requires Valid(w0)
    ensures r == PlaceNode(w0, id)
  {
    if id !in w0.byId {
      return Err(NoNode);
    }
    var ref := w0.byId[id];
    var w := w0.(nodes := w0.nodes[ref := Pad(w0.nodes[ref])]);
    var placed := PopulateNewNodeInfo(w, id, {});
    if placed.Err? {
      return Err(placed.error);
    }
    w := placed.value.1;
    if !placed.value.0 {
      return Ok(w);
    }
    var p := Predecessor(w, id);
    if p.None? {
      return Ok(w);
    }
    var pid := p.value;
    if pid !in w.nodeInfo || w.nodeInfo[pid].flowNode.None? {
      return Err(NoPredecessorWires);
    }
    var ws := w.nodes[w.byId[id]].wires;
    if |ws| == 0 {
      return Err(NoWires);
    }
    var info := w.nodeInfo[pid];
    w := w.(nodeInfo := w.nodeInfo[pid := info.(flowNode := Some(AppendWires(info.flowNode.value, ws[0])))]);
    var removed := RemoveWires(w.removed, Shared(ws[0], w.removed));
    r := Ok(w.(removed := removed));
  }

  /** The loop over `newNodes`. */
  method PlaceNewNodes(w0: Work, ids: seq<string>) returns (r: Result<Work, Thrown>)
    requires Valid(w0)
    ensures r == PlaceAll(w0, ids)
  {
    var w := w0;
    var i := 0;
    while i < |ids|
      invariant i <= |ids| && Valid(w) && PlaceAll(w, ids[i..]) == PlaceAll(w0, ids)
    {
      assert ids[i..][1..] == ids[i + 1..];
      var step := PlaceNewNode(w, ids[i]);
      if step.Err? {
        return step;
      }
      w := step.value;
      i := i + 1;
    }
    r := Ok(w);
  }

  // ---------------------------------------------------------------------
  // Deleted targets (context-flow.ts:133-146)

  /** What the body of the loop over `removedWires` throws for a target that
      no longer exists: reading its recorded position fails when there is
      none, and otherwise the push does, since `operations` is only declared
      further down (line 151) and is still in its temporal dead zone. */
  function DeletedTargetError(w: Work, t: string): (r: Thrown)
    ensures r == OperationsUninitialized <==> t in w.nodeInfo
    ensures r == NoTsNodeInfo <==> t !in w.nodeInfo
  {
    if t in w.nodeInfo then OperationsUninitialized
    else NoTsNodeInfo
  }

  /** `rs[i]` is the first of the targets `rs` that no longer exists. */
  ghost predicate FirstDeleted(w: Work, rs: seq<string>, i: int) {
    0 <= i < |rs| && rs[i] !in w.byId && forall j :: 0 <= j < i ==> rs[j] in w.byId
  }

  /** The error the loop over the targets `rs` throws, if any: the one for
      the first target that no longer exists. */
  function RemovedTargetError(w: Work, rs: seq<string>): (e: Option<Thrown>)
    ensures e.None? <==> forall x :: x in rs ==> x in w.byId
    ensures e.Some? ==> exists i :: FirstDeleted(w, rs, i) && e.value == DeletedTargetError(w, rs[i])
    decreases |rs|
  {
    if |rs| == 0 then None
    else if rs[0] !in w.byId then
      assert FirstDeleted(w, rs, 0);
      Some(DeletedTargetError(w, rs[0]))
    else
      var e := RemovedTargetError(w, rs[1..]);
      assert forall x :: x in rs <==> x == rs[0] || x in rs[1..];
      assert e.Some? ==> exists i :: FirstDeleted(w, rs, i) && e.value == DeletedTargetError(w, rs[i]) by {
        if e.Some? {
          var i :| FirstDeleted(w, rs[1..], i) && e.value == DeletedTargetError(w, rs[1..][i]);
          assert FirstDeleted(w, rs, i + 1) by {
            forall j | 0 <= j < i + 1 ensures rs[j] in w.byId {
              if j > 0 { assert rs[j] == rs[1..][j - 1]; }
            }
          }
        }
      }
      e
  }

  /** The loop over `removedWires`. */
  method FindDeletedTargets(w: Work) returns (e: Option<Thrown>)
    ensures e == RemovedTargetError(w, w.removed)
  {
    var i := 0;
    while i < |w.removed|
      invariant i <= |w.removed| && RemovedTargetError(w, w.removed[i..]) == RemovedTargetError(w, w.removed)
    {
      assert w.removed[i..][1..] == w.removed[i + 1..];
      var wire := w.removed[i];
      if wire !in w.byId {
        return Some(DeletedTargetError(w, wire));
      }
      i := i + 1;
    }
    e := None;
  }

  // ---------------------------------------------------------------------
  // Operations per node (context-flow.ts:151-256)

  /** The text changed, and to something defined. */
  predicate TextChanged(previous: FlowNode, n: FlowNode) {
    previous.initialize != n.initialize && n.initialize.Some?
  }

  /** The node has recorded state with a recorded node (it is not new). */
  predicate Recorded(w: Work, n: FlowNode) {
    n.id in w.nodeInfo && w.nodeInfo[n.id].flowNode.Some?
  }

  /** A wire to the node disappeared and none was added. */
  predicate Dropped(w: Work, n: FlowNode) {
    Recorded(w, n) && n.id in w.removed && Predecessor(w, n.id).None?
  }

  /** A wire to the node disappeared and another one was added. */
  predicate Moved(w: Work, n: FlowNode) {
    Recorded(w, n) && n.id in w.removed && Predecessor(w, n.id).Some?
  }

  /** The text changed and the wires leading to the node did not. */
  predicate Edited(w: Work, n: FlowNode) {
    Recorded(w, n) && n.id !in w.removed && Predecessor(w, n.id).None? &&
    TextChanged(w.nodeInfo[n.id].flowNode.value, n)
  }

  /** The operations for one flow node. */
  function NodeOperations(w: Work, n: FlowNode): (r: Result<seq<Operation>, Thrown>)
    ensures r.Err? <==> n.id !in w.nodeInfo || (Moved(w, n) && Predecessor(w, n.id).value !in w.nodeInfo)
    ensures r.Ok? ==> |r.value| <= 2
  {
    if n.id !in w.nodeInfo then Err(NoFlowNodeInfo)
    else
      var t := w.nodeInfo[n.id].tsNodeInfo;
      var previous := w.nodeInfo[n.id].flowNode;
      var pred := Predecessor(w, n.id);
      var wasRemoved := n.id in w.removed;
      if previous.None? then Ok([Insert(t.fileName, t.pos, n.initialize)])
      else if wasRemoved && pred.None? then Ok([Delete(t.fileName, t.pos, t.end)])
      else if TextChanged(previous.value, n) && pred.None? then Ok([Replace(t.fileName, t.pos, t.end, n.initialize.value)])
      else if !(wasRemoved && pred.Some?) then Ok([])
      else if pred.value !in w.nodeInfo then Err(NoTsNodeInfo)
      else
        var to := w.nodeInfo[pred.value].tsNodeInfo.end + 1;
        if TextChanged(previous.value, n) then Ok([Delete(t.fileName, t.pos, t.end), Insert(t.fileName, to, n.initialize)])
        else Ok([Move(t.fileName, t.pos, t.end, to)])
  }

  /** Which operations a flow node yields: an INSERT for a new node, a DELETE
      for one that lost its wire, a REPLACE for one whose text alone
      changed, a MOVE or a DELETE and INSERT for one wired elsewhere, and
      nothing otherwise. */
  lemma NodeOperationsCases(w: Work, n: FlowNode)
    ensures n.id !in w.nodeInfo ==> NodeOperations(w, n).Err?
    ensures n.id in w.nodeInfo && w.nodeInfo[n.id].flowNode.None? ==>
      var t := w.nodeInfo[n.id].tsNodeInfo; NodeOperations(w, n) == Ok([Insert(t.fileName, t.pos, n.initialize)])
    ensures Dropped(w, n) ==>
      var t := w.nodeInfo[n.id].tsNodeInfo; NodeOperations(w, n) == Ok([Delete(t.fileName, t.pos, t.end)])
    ensures Edited(w, n) ==>
      var t := w.nodeInfo[n.id].tsNodeInfo; NodeOperations(w, n) == Ok([Replace(t.fileName, t.pos, t.end, n.initialize.value)])
    ensures Moved(w, n) ==>
      var t := w.nodeInfo[n.id].tsNodeInfo; var pid := Predecessor(w, n.id).value;
      if pid !in w.nodeInfo then NodeOperations(w, n).Err?
      else
        var to := w.nodeInfo[pid].tsNodeInfo.end + 1;
        NodeOperations(w, n) == Ok(if TextChanged(w.nodeInfo[n.id].flowNode.value, n) then [Delete(t.fileName, t.pos, t.end), Insert(t.fileName, to, n.initialize)]
                else [Move(t.fileName, t.pos, t.end, to)])
    ensures Recorded(w, n) && !Dropped(w, n) && !Moved(w, n) && !Edited(w, n) ==> NodeOperations(w, n) == Ok([])
  {
  }

  /** The operations of the first `k` listed nodes, or the first error. */
  function OperationsUpTo(w: Work, k: nat): Result<seq<Operation>, Thrown>
    requires Valid(w) && k <= |w.flowNodes|
    decreases k
  {
    if k == 0 then Ok([])
    else
      var before := OperationsUpTo(w, k - 1);
      if before.Err? then before
      else
        var mine := NodeOperations(w, w.nodes[w.flowNodes[k - 1]]);
        if mine.Err? then mine else Ok(before.value + mine.value)
  }

  /** The loop over `flowNodes` that builds the operations. */
  method EmitOperations(w: Work) returns (r: Result<seq<Operation>, Thrown>)
    requires Valid(w)
    ensures r == OperationsUpTo(w, |w.flowNodes|)
  {
    var operations := [];
    var i := 0;
    while i < |w.flowNodes|
      invariant i <= |w.flowNodes| && OperationsUpTo(w, i) == Ok(operations)
    {
      var step := EmitNode(w, i, operations);
      if step.Err? {
        OperationsStayFailed(w, i + 1, |w.flowNodes|);
        return step;
      }
      operations := step.value;
      i := i + 1;
    }
    r := Ok(operations);
  }

  /** One iteration: the operations so far and those of the `i`-th listed node. */
  method EmitNode(w: Work, i: nat, operations: seq<Operation>) returns (r: Result<seq<Operation>, Thrown>)
    requires Valid(w) && i < |w.flowNodes| && OperationsUpTo(w, i) == Ok(operations)
    ensures r == OperationsUpTo(w, i + 1)
  {
    var mine := NodeOperations(w, w.nodes[w.flowNodes[i]]);
    if mine.Err? {
      return mine;
    }
    r := Ok(operations + mine.value);
  }

  /** Once a node has thrown, so has the whole loop. */
  lemma {:induction false} OperationsStayFailed(w: Work, k: nat, n: nat)
    requires Valid(w) && k <= n <= |w.flowNodes| && OperationsUpTo(w, k).Err?
    ensures OperationsUpTo(w, n) == OperationsUpTo(w, k)
    decreases n - k
  {
    if k < n {
      OperationsStayFailed(w, k, n - 1);
      assert OperationsUpTo(w, n - 1).Err?;
    }
  }

  // ---------------------------------------------------------------------
  // The whole diff

  function Refs(n: nat): (r: seq<nat>)
    ensures |r| == n && forall k :: 0 <= k < n ==> r[k] == k
  {
    seq(n, k => k)
  }

  /** The state once the flow nodes are indexed. */
  function Indexed(info: Info, nodes: seq<FlowNode>): (w: Work)
    ensures Valid(w)
  {
    Work(nodes, Refs(|nodes|), info, AddedOf(info, nodes, |nodes|), RemovedOf(info, nodes, |nodes|), ByIdOf(nodes, |nodes|))
  }

  /** The operations for a parsed flow file, or what it throws. */
  function FlowOperations(ps: seq<Parsed>): (r: Result<seq<Operation>, Thrown>)
    ensures |ps| == 0 ==> r == Err(NoInfo)
    ensures (forall j :: 0 <= j < |ps| ==> ps[j].info.None?) ==> (r == Ok([]) <==> |ps| == 1)
    ensures (forall j :: 0 <= j < |ps| ==> ps[j].info.None?) && |ps| > 1 ==> r.Err? && r.error.TypeError?
  {
    var taken := TakeInfo(ps);
    if taken.Err? then Err(taken.error)
    else
      var nodes := taken.value.0;
      if taken.value.1.None? then
        if |nodes| == 0 then Ok([]) else Err(TypeError("Cannot read properties of undefined (reading '" + nodes[0].id + "')"))
      else
        var info := taken.value.1.value;
        var placed := PlaceAll(Indexed(info, nodes), NewIdsOf(info, nodes, |nodes|));
        if placed.Err? then Err(placed.error)
        else
          var e := RemovedTargetError(placed.value, placed.value.removed);
          if e.Some? then Err(e.value) else OperationsUpTo(placed.value, |placed.value.flowNodes|)
  }

  /** The default export of context-flow.ts, on the parsed flow file. */
  method ContextFlowOperations(ps: seq<Parsed>) returns (r: Result<seq<Operation>, Thrown>)
    ensures r == FlowOperations(ps)
  {
    var taken := TakeInfo(ps);
    if taken.Err? {
      return Err(taken.error);
    }
    var nodes := taken.value.0;
    if taken.value.1.None? {
      if |nodes| == 0 {
        return Ok([]);
      }
      return Err(TypeError("Cannot read properties of undefined (reading '" + nodes[0].id + "')"));
    }
    var info := taken.value.1.value;
    var d := DiffWires(info, nodes);
    var w := Work(nodes, Refs(|nodes|), info, d.added, d.removed, d.byId);
    assert w == Indexed(info, nodes);
    var placed := PlaceNewNodes(w, d.newIds);
    if placed.Err? {
      return Err(placed.error);
    }
    w := placed.value;
    var e := FindDeletedTargets(w);
    if e.Some? {
      return Err(e.value);
    }
    r := EmitOperations(w);
  }

  // ---------------------------------------------------------------------
  // A flow whose wiring did not change

  /** The node is recorded and its first output leads where it led before. */
  ghost predicate WiresKept(info: Info, n: FlowNode) {
    n.id in info && info[n.id].flowNode.Some? && FirstWires(info[n.id].flowNode.value) == FirstWires(n)
  }

  /** The REPLACE a recorded node whose text changed calls for, if any. */
  function EditOf(info: Info, n: FlowNode): seq<Operation> {
    if n.id in info && info[n.id].flowNode.Some? && TextChanged(info[n.id].flowNode.value, n) then
      var t := info[n.id].tsNodeInfo;
      [Replace(t.fileName, t.pos, t.end, n.initialize.value)]
    else []
  }

  /** The REPLACEs for the first `k` nodes, in order. */
  function Edits(info: Info, nodes: seq<FlowNode>, k: nat): seq<Operation>
    requires k <= |nodes|
    decreases k
  {
    if k == 0 then [] else Edits(info, nodes, k - 1) + EditOf(info, nodes[k - 1])
  }

  /** Nothing is missing from a list that holds every element. */
  lemma MissingNothing(ws: seq<string>, other: seq<string>)
    requires forall x :: x in ws ==> x in other
    ensures Missing(ws, Some(other)) == []
  {
    var r := Missing(ws, Some(other));
    if |r| > 0 {
      MissingHas(ws, Some(other), r[0]);
      assert false;
    }
  }

  /** A node whose wires were kept gains and loses no target. */
  lemma KeptNodeDiff(info: Info, n: FlowNode)
    requires WiresKept(info, n)
    ensures AddedBy(info, n) == [] && RemovedBy(info, n) == [] && Previous(info, n.id).Some?
  {
    if |n.wires| > 0 {
      MissingNothing(n.wires[0], n.wires[0]);
    }
  }

  /** With every wire kept, the pass over the nodes collects nothing. */
  lemma {:induction false} KeptDiff(info: Info, nodes: seq<FlowNode>, k: nat)
    requires k <= |nodes| && forall j :: 0 <= j < |nodes| ==> WiresKept(info, nodes[j])
    ensures AddedOf(info, nodes, k) == map[] && RemovedOf(info, nodes, k) == [] && NewIdsOf(info, nodes, k) == []
  {
    if k > 0 {
      KeptDiff(info, nodes, k - 1);
      DiffOfNext(info, nodes, k - 1);
      KeptNodeDiff(info, nodes[k - 1]);
    }
  }

  /** With nothing added or removed, a recorded node yields its REPLACE, if any. */
  lemma KeptNodeOperations(w: Work, n: FlowNode)
    requires w.added == map[] && w.removed == [] && WiresKept(w.nodeInfo, n)
    ensures NodeOperations(w, n) == Ok(EditOf(w.nodeInfo, n))
  {
  }

  /** With nothing added or removed, the operations are the REPLACEs. */
  lemma {:induction false} KeptOperations(w: Work, k: nat)
    requires Valid(w) && k <= |w.flowNodes| && w.added == map[] && w.removed == []
    requires w.flowNodes == Refs(|w.nodes|)
    requires forall j :: 0 <= j < |w.nodes| ==> WiresKept(w.nodeInfo, w.nodes[j])
    ensures OperationsUpTo(w, k) == Ok(Edits(w.nodeInfo, w.nodes, k))
  {
    if k > 0 {
      KeptOperations(w, k - 1);
      assert w.flowNodes[k - 1] == k - 1;
      KeptNodeOperations(w, w.nodes[k - 1]);
    }
  }

  /** When every flow node is recorded and still wired as before, the file
      compiles to exactly one REPLACE per node whose text changed, in the
      order of the nodes. */
  lemma KeptFlowOperations(ps: seq<Parsed>, i: nat)
    requires i < |ps| && ps[i].node.id == FlowInfoKey && ps[i].info.Some?
    requires forall j :: 0 <= j < i ==> ps[j].node.id != FlowInfoKey
    requires forall j :: 0 <= j < |ps| && j != i ==> WiresKept(ps[i].info.value, ps[j].node)
    ensures var nodes := NodesOf(ps[..i] + ps[i + 1..]);
      FlowOperations(ps) == Ok(Edits(ps[i].info.value, nodes, |nodes|))
  {
    TakeInfoFound(ps, i);
    var info := ps[i].info.value;
    var nodes := NodesOf(ps[..i] + ps[i + 1..]);
    forall j | 0 <= j < |nodes| ensures WiresKept(info, nodes[j]) {
      if j < i { assert nodes[j] == ps[j].node; } else { assert nodes[j] == ps[j + 1].node; }
    }
    KeptDiff(info, nodes, |nodes|);
    var w := Indexed(info, nodes);
    assert PlaceAll(w, NewIdsOf(info, nodes, |nodes|)) == Ok(w);
    assert RemovedTargetError(w, w.removed).None?;
    KeptOperations(w, |w.flowNodes|);
  }

  /** Compiling a flow that is exactly as recorded yields no operations. */
  lemma UnchangedFlowOperations(ps: seq<Parsed>, i: nat)
    requires i < |ps| && ps[i].node.id == FlowInfoKey && ps[i].info.Some?
    requires forall j :: 0 <= j < i ==> ps[j].node.id != FlowInfoKey
    requires forall j :: 0 <= j < |ps| && j != i ==>
      ps[j].node.id in ps[i].info.value && ps[i].info.value[ps[j].node.id].flowNode == Some(ps[j].node)
    ensures FlowOperations(ps) == Ok([])
  {
    var info := ps[i].info.value;
    KeptFlowOperations(ps, i);
    var nodes := NodesOf(ps[..i] + ps[i + 1..]);
    NoEdits(info, nodes, |nodes|);
  }

  /** Nodes exactly as recorded call for no REPLACE. */
  lemma {:induction false} NoEdits(info: Info, nodes: seq<FlowNode>, k: nat)
    requires k <= |nodes| && forall j :: 0 <= j < |nodes| ==> nodes[j].id in info && info[nodes[j].id].flowNode == Some(nodes[j])
    ensures Edits(info, nodes, k) == []
  {
    if k > 0 {
      NoEdits(info, nodes, k - 1);
    }
  }
}
