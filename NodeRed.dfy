/** The renderer helpers of `lib/node-red.ts` over the compiled call graph:
    the calls of a block in walk order, the two key indexes the flow
    renderers build, the block a definition is drawn from, and the node
    position and flow file name helpers.

    The graph is the one the compiler hands to the renderers, as values: a
    call refers to the definitions it calls and passes by `DefRef`. In the
    program these are the definition objects themselves, compared by
    identity; every definition has a fresh `id`, so comparing references
    is comparing ids. */
module NodeRed {
  import opened Util

  /** A reference to a compiled definition (`ParsedDefinition`). */
  datatype DefRef = DefRef(id: string, key: string)

  /** `ParsedCallExpression`: its callee's definition and the callbacks
      passed to it (absent on a call that has none recorded). */
  datatype Call = Call(id: string, key: string, functionDefinition: DefRef, callbacks: Option<seq<DefRef>>)

  /** `ParsedNode`: a call or a nested block. */
  datatype ParsedNode = CallNode(call: Call) | BlockNode(block: Block)

  /** `ParsedBlock`. */
  datatype Block = Block(id: string, key: string, parsedNodes: seq<ParsedNode>)

  /** `DeclaredDefinition` with its body block, or `SyntheticDefinition`
      with the keys of the statements it holds. */
  datatype Definition =
    | Declared(id: string, key: string, block: Block)
    | Synthetic(id: string, key: string, nodes: seq<string>)

  function RefOf(d: Definition): DefRef {
    DefRef(d.id, d.key)
  }

  // ---------------------------------------------------------------------
  // getFlowFilename, calculatePosition

  /** `getFlowFilename`: the flow file of `name` in `directory`. */
  function FlowFilename(directory: string, name: string): (r: string)
    ensures |r| == |directory| + |name| + 6
    ensures StartsWith(r, directory + "/") && EndsWith(r, name + ".json")
  {
    var r := directory + "/" + name + ".json";
    assert r[..|directory| + 1] == directory + "/";
    assert r[|r| - |name| - 5..] == name + ".json";
    r
  }

  /** The name can be read back from the file name, given the directory. */
  lemma FlowFilenameName(directory: string, name: string)
    ensures var r := FlowFilename(directory, name); r[|directory| + 1..|r| - 5] == name
  {
    var r := FlowFilename(directory, name);
    assert r == directory + "/" + name + ".json";
    assert r[|directory| + 1..|r| - 5] == (directory + "/" + name + ".json")[|directory| + 1..|directory| + 1 + |name|];
  }

  /** Within one directory distinct flows get distinct files. */
  lemma FlowFilenameInjective(directory: string, a: string, b: string)
    requires FlowFilename(directory, a) == FlowFilename(directory, b)
    ensures a == b
  {
    FlowFilenameName(directory, a);
    FlowFilenameName(directory, b);
  }

  /** Across directories they need not: a name may itself contain `/`. */
  lemma FlowFilenameAcrossDirectories()
    ensures FlowFilename("a", "b/c") == FlowFilename("a/b", "c")
  {
  }

  /** A dagre layout position; its coordinates are JavaScript numbers, here
      exact reals. */
  datatype Point = Point(x: real, y: real)

  /** `calculatePosition`: the layout position shifted 500 to the right. */
  function CalculatePosition(p: Point): (r: Point)
    ensures r.x == p.x + 500.0 && r.y == p.y
  {
    Point(p.x + 500.0, p.y)
  }

  /** The shift keeps the nodes' relative placement. */
  lemma CalculatePositionKeepsOffsets(p: Point, q: Point)
    ensures CalculatePosition(p).x - CalculatePosition(q).x == p.x - q.x
    ensures CalculatePosition(p).y - CalculatePosition(q).y == p.y - q.y
  {
  }

  // ---------------------------------------------------------------------
  // getBlockCalls

  /** `getBlockCalls`: the `reduce` over the block's nodes, a call adding
      itself and a nested block adding its own calls. */
  function BlockCalls(b: Block): seq<Call>
    decreases b, 2
  {
    NodesCalls(b.parsedNodes)
  }

  function NodesCalls(ns: seq<ParsedNode>): seq<Call>
    decreases ns, 1
  {
    if |ns| == 0 then [] else NodesCalls(ns[..|ns| - 1]) + NodeCalls(ns[|ns| - 1])
  }

  function NodeCalls(n: ParsedNode): seq<Call>
    decreases n, 0
  {
    match n
    case CallNode(c) => [c]
    case BlockNode(b) => BlockCalls(b)
  }

  /** The calls of consecutive node lists follow one another. */
  lemma {:induction false} NodesCallsAppend(a: seq<ParsedNode>, b: seq<ParsedNode>)
    ensures NodesCalls(a + b) == NodesCalls(a) + NodesCalls(b)
    decreases |b|
  {
    if |b| > 0 {
      var init := b[..|b| - 1];
      assert (a + b)[..|a + b| - 1] == a + init;
      assert (a + b)[|a + b| - 1] == b[|b| - 1];
      NodesCallsAppend(a, init);
    } else {
      assert a + b == a;
    }
  }

  /** So the calls are listed in pre-order: those of the first node, then
      those of the rest. */
  lemma BlockCallsPreOrder(n: ParsedNode, rest: seq<ParsedNode>)
    ensures NodesCalls([n] + rest) == NodeCalls(n) + NodesCalls(rest)
  {
    NodesCallsAppend([n], rest);
    assert [n][..0] == [];
  }

  /** Call `c` occurs somewhere among `ns`, at any depth. */
  ghost predicate CallIn(c: Call, ns: seq<ParsedNode>)
    decreases ns, 1
  {
    exists i :: 0 <= i < |ns| && CallAt(c, ns[i])
  }

  ghost predicate CallAt(c: Call, n: ParsedNode)
    decreases n, 0
  {
    match n
    case CallNode(c') => c' == c
    case BlockNode(b) => CallIn(c, b.parsedNodes)
  }

  /** The calls listed are exactly the calls of the block, at any depth. */
  lemma {:induction false} NodesCallsExactly(ns: seq<ParsedNode>, c: Call)
    ensures c in NodesCalls(ns) <==> CallIn(c, ns)
    decreases ns, 1
  {
    if |ns| > 0 {
      var init, last := ns[..|ns| - 1], ns[|ns| - 1];
      NodesCallsExactly(init, c);
      NodeCallsExactly(last, c);
      if CallIn(c, ns) {
        var i :| 0 <= i < |ns| && CallAt(c, ns[i]);
        if i < |ns| - 1 {
          assert init[i] == ns[i];
        }
      }
      if CallIn(c, init) {
        var i :| 0 <= i < |init| && CallAt(c, init[i]);
        assert ns[i] == init[i];
      }
    }
  }

  lemma {:induction false} NodeCallsExactly(n: ParsedNode, c: Call)
    ensures c in NodeCalls(n) <==> CallAt(c, n)
    decreases n, 0
  {
    if n.BlockNode? {
      NodesCallsExactly(n.block.parsedNodes, c);
    }
  }

  /** A block without nested blocks lists its call nodes, in order. */
  lemma {:induction false} FlatBlockCalls(ns: seq<ParsedNode>)
    requires forall i :: 0 <= i < |ns| ==> ns[i].CallNode?
    ensures NodesCalls(ns) == seq(|ns|, i requires 0 <= i < |ns| => ns[i].call)
    decreases |ns|
  {
    if |ns| > 0 {
      FlatBlockCalls(ns[..|ns| - 1]);
    }
  }

  // ---------------------------------------------------------------------
  // getNodeParms

  /** The block `getNodeParms` draws a definition from: a declared
      definition's own block, or a new empty block keyed at the first
      statement of a synthetic one (`freshId` stands for its `uuidv4()`). */
  function NodeBlock(d: Definition, freshId: string): (b: Block)
    requires d.Synthetic? ==> |d.nodes| > 0
    ensures d.Declared? ==> b == d.block
    ensures d.Synthetic? ==> b == Block(freshId, d.nodes[0], [])
  {
    match d
    case Declared(_, _, block) => block
    case Synthetic(_, _, nodes) => Block(freshId, nodes[0], [])
  }

  /** A synthetic definition is drawn with no calls. */
  lemma SyntheticBlockHasNoCalls(d: Definition, freshId: string)
    requires d.Synthetic? && |d.nodes| > 0
    ensures BlockCalls(NodeBlock(d, freshId)) == []
  {
  }

  // ---------------------------------------------------------------------
  // indexDefinitions

  /** `key + '-' + i` */
  function IndexKey(key: string, i: int): string {
    key + "-" + IntToString(i)
  }

  /** The entry `Object.fromEntries` reads from one list of callbacks:
      `callbacks.map(...).flat()` is `[key0, cb0, key1, cb1, ...]`, of which
      only the first two items count; an empty list gives the key
      `"undefined"` with no value. */
  function FirstCallbackEntry(callbacks: seq<DefRef>): (string, Option<DefRef>) {
    if |callbacks| == 0 then ("undefined", None) else (IndexKey(callbacks[0].key, 0), Some(callbacks[0]))
  }

  /** Each callback under its key and position. */
  function CallbackEntries(callbacks: seq<DefRef>): (r: seq<(string, Option<DefRef>)>)
    ensures |r| == |callbacks|
  {
    seq(|callbacks|, i requires 0 <= i < |callbacks| => (IndexKey(callbacks[i].key, i), Some(callbacks[i])))
  }

  /** All the callbacks passed by the calls of a block, in call order. */
  function PassedCallbacks(b: Block): seq<DefRef> {
    var calls := BlockCalls(b);
    Flatten(seq(|calls|, k requires 0 <= k < |calls| => calls[k].callbacks.GetOr([])))
  }

  /** The entries one definition contributes: itself under its key and
      position, then, for a declared one, every callback its calls pass. */
  function DefinitionEntry(defs: seq<Definition>, idx: nat): seq<(string, Option<DefRef>)>
    requires idx < |defs|
  {
    [(IndexKey(defs[idx].key, idx), Some(RefOf(defs[idx])))]
      + if defs[idx].Declared? then CallbackEntries(PassedCallbacks(defs[idx].block)) else []
  }

  function DefinitionEntries(defs: seq<Definition>): seq<(string, Option<DefRef>)> {
    Flatten(DefinitionGroups(defs))
  }

  function DefinitionGroups(defs: seq<Definition>): (r: seq<seq<(string, Option<DefRef>)>>)
    ensures |r| == |defs| && forall idx :: 0 <= idx < |defs| ==> r[idx] == DefinitionEntry(defs, idx)
  {
    seq(|defs|, idx requires 0 <= idx < |defs| => DefinitionEntry(defs, idx))
  }

  /** The entries of the callbacks part, one per list. */
  function FirstCallbackEntries(definitionCallbacks: seq<(string, seq<DefRef>)>): (r: seq<(string, Option<DefRef>)>)
    ensures |r| == |definitionCallbacks|
    ensures forall i :: 0 <= i < |r| ==> r[i] == FirstCallbackEntry(definitionCallbacks[i].1)
  {
    seq(|definitionCallbacks|, i requires 0 <= i < |definitionCallbacks| => FirstCallbackEntry(definitionCallbacks[i].1))
  }

  /** `indexDefinitions(definitions, definitionCallbacks)`: the object
      spread of the callbacks entries and then the definitions entries.
      `definitionCallbacks` is an object, given as its entries. */
  function IndexDefinitions(defs: seq<Definition>, definitionCallbacks: seq<(string, seq<DefRef>)>)
    : seq<(string, Option<DefRef>)>
  {
    FromEntries(FromEntries(FirstCallbackEntries(definitionCallbacks)) + FromEntries(DefinitionEntries(defs)))
  }

  /** Every definition is indexed under its key and position. A key the
      definitions produce holds the last definitions entry with that key,
      overriding the callbacks part; any other key comes from the first
      callback of some list of `definitionCallbacks` (or is `"undefined"`,
      from an empty list). */
  lemma IndexDefinitionsSpec(defs: seq<Definition>, definitionCallbacks: seq<(string, seq<DefRef>)>)
    ensures var r := IndexDefinitions(defs, definitionCallbacks);
      && (forall idx :: 0 <= idx < |defs| ==> KeyIn(r, IndexKey(defs[idx].key, idx)))
      && (forall i :: 0 <= i < |r| && KeyIn(DefinitionEntries(defs), r[i].0) ==>
            exists j :: 0 <= j < |DefinitionEntries(defs)| && DefinitionEntries(defs)[j] == r[i]
              && LastWithKey(DefinitionEntries(defs), j))
      && (forall i :: 0 <= i < |r| && !KeyIn(DefinitionEntries(defs), r[i].0) ==>
            exists n :: 0 <= n < |definitionCallbacks| && r[i] == FirstCallbackEntry(definitionCallbacks[n].1))
  {
    DefinitionsIndexed(defs, definitionCallbacks);
    SpreadEntries(FromEntries(FirstCallbackEntries(definitionCallbacks)), DefinitionEntries(defs));
    OtherKeysFromCallbacks(defs, definitionCallbacks);
  }

  lemma DefinitionsIndexed(defs: seq<Definition>, definitionCallbacks: seq<(string, seq<DefRef>)>)
    ensures var r := IndexDefinitions(defs, definitionCallbacks);
      forall idx :: 0 <= idx < |defs| ==> KeyIn(r, IndexKey(defs[idx].key, idx))
  {
    var a := FromEntries(FirstCallbackEntries(definitionCallbacks));
    var es := DefinitionEntries(defs);
    var r := IndexDefinitions(defs, definitionCallbacks);
    SpreadEntries(a, es);
    var groups := DefinitionGroups(defs);
    forall idx | 0 <= idx < |defs| ensures KeyIn(r, IndexKey(defs[idx].key, idx)) {
      FlattenMember(groups, groups[idx][0]);
      var j :| 0 <= j < |es| && es[j] == groups[idx][0];
    }
  }

  lemma OtherKeysFromCallbacks(defs: seq<Definition>, definitionCallbacks: seq<(string, seq<DefRef>)>)
    ensures var r := IndexDefinitions(defs, definitionCallbacks);
      forall i :: 0 <= i < |r| && !KeyIn(DefinitionEntries(defs), r[i].0) ==>
        exists n :: 0 <= n < |definitionCallbacks| && r[i] == FirstCallbackEntry(definitionCallbacks[n].1)
  {
    var fromCallbacks := FirstCallbackEntries(definitionCallbacks);
    var a := FromEntries(fromCallbacks);
    var es := DefinitionEntries(defs);
    var r := IndexDefinitions(defs, definitionCallbacks);
    SpreadEntries(a, es);
    forall i | 0 <= i < |r| && !KeyIn(es, r[i].0)
      ensures exists n :: 0 <= n < |definitionCallbacks| && r[i] == FirstCallbackEntry(definitionCallbacks[n].1)
    {
      var j :| 0 <= j < |a| && a[j] == r[i] && LastWithKey(a, j);
      assert a[j] in fromCallbacks;
    }
  }

  /** An empty list of callbacks is indexed as `"undefined"`, with no
      definition, unless a definition produces that key. */
  lemma EmptyCallbacksIndexedAsUndefined(defs: seq<Definition>, definitionCallbacks: seq<(string, seq<DefRef>)>, n: nat)
    requires n < |definitionCallbacks| && definitionCallbacks[n].1 == []
    requires !KeyIn(DefinitionEntries(defs), "undefined")
    ensures var r := IndexDefinitions(defs, definitionCallbacks);
      KeyIn(r, "undefined") && r[KeyIndex(r, "undefined")].1 == None
  {
    var fromCallbacks := FirstCallbackEntries(definitionCallbacks);
    var a := FromEntries(fromCallbacks);
    var r := IndexDefinitions(defs, definitionCallbacks);
    assert fromCallbacks[n] == ("undefined", None);
    FromEntriesKeepsKeys(fromCallbacks);
    SpreadEntries(a, DefinitionEntries(defs));
    var m :| 0 <= m < |a| && a[m].0 == "undefined";
    var i := KeyIndex(r, "undefined");
    var j :| 0 <= j < |a| && a[j] == r[i] && LastWithKey(a, j);
    assert a[j] in fromCallbacks;
    var n' :| 0 <= n' < |fromCallbacks| && fromCallbacks[n'] == a[j];
    if definitionCallbacks[n'].1 != [] {
      IndexKeyNotUndefined(definitionCallbacks[n'].1[0].key, 0);
    }
  }

  /** An index key ends in a digit, so it is never `"undefined"`. */
  lemma IndexKeyNotUndefined(key: string, i: nat)
    ensures IndexKey(key, i) != "undefined"
  {
    var k := IndexKey(key, i);
    var digits := NatToString(i);
    assert k == (key + "-") + digits;
    assert k[|k| - 1] == digits[|digits| - 1];
    assert "undefined"[8] == 'd';
  }

  // ---------------------------------------------------------------------
  // indexDefinitionCallbacks

  /** The position of the referenced definition in `defs`
      (`definitions.indexOf`), or -1. */
  function IndexOfDefinition(defs: seq<Definition>, d: DefRef): (i: int)
    ensures -1 <= i < |defs|
    ensures i >= 0 ==> defs[i].id == d.id && forall j :: 0 <= j < i ==> defs[j].id != d.id
    ensures i == -1 ==> forall j :: 0 <= j < |defs| ==> defs[j].id != d.id
    decreases |defs|
  {
    if |defs| == 0 then -1
    else if defs[0].id == d.id then 0
    else
      var i := IndexOfDefinition(defs[1..], d);
      if i == -1 then -1 else i + 1
  }

  /** The key a call's callbacks are indexed under: its callee's key and
      position. */
  function TargetKey(defs: seq<Definition>, c: Call): string {
    IndexKey(c.functionDefinition.key, IndexOfDefinition(defs, c.functionDefinition))
  }

  /** The entry one call contributes. */
  function TargetEntry(defs: seq<Definition>, c: Call): (string, seq<DefRef>) {
    (TargetKey(defs, c), c.callbacks.GetOr([]))
  }

  /** The entries of the calls of one definition; none for a synthetic one. */
  function TargetEntriesOf(defs: seq<Definition>, idx: nat): (r: seq<(string, seq<DefRef>)>)
    requires idx < |defs|
    ensures defs[idx].Synthetic? ==> r == []
    ensures defs[idx].Declared? ==> |r| == |BlockCalls(defs[idx].block)|
    ensures defs[idx].Declared? ==> forall k :: 0 <= k < |r| ==> r[k] == TargetEntry(defs, BlockCalls(defs[idx].block)[k])
  {
    if defs[idx].Declared? then
      var calls := BlockCalls(defs[idx].block);
      seq(|calls|, k requires 0 <= k < |calls| => TargetEntry(defs, calls[k]))
    else []
  }

  /** The entries of every definition, one group per definition. */
  function TargetGroups(defs: seq<Definition>): (g: seq<seq<(string, seq<DefRef>)>>)
    ensures |g| == |defs| && forall idx :: 0 <= idx < |defs| ==> g[idx] == TargetEntriesOf(defs, idx)
  {
    seq(|defs|, idx requires 0 <= idx < |defs| => TargetEntriesOf(defs, idx))
  }

  function TargetEntries(defs: seq<Definition>): seq<(string, seq<DefRef>)> {
    Flatten(TargetGroups(defs))
  }

  /** `indexDefinitionCallbacks(definitions, definitionCallbacks)`: the
      given object spread with the entries of every call of every declared
      definition. */
  function IndexDefinitionCallbacks(defs: seq<Definition>, definitionCallbacks: seq<(string, seq<DefRef>)>)
    : seq<(string, seq<DefRef>)>
  {
    FromEntries(definitionCallbacks + FromEntries(TargetEntries(defs)))
  }

  /** Every target entry comes from a call of a declared definition. */
  lemma TargetEntryFromCall(defs: seq<Definition>, x: (string, seq<DefRef>))
    requires x in TargetEntries(defs)
    ensures exists idx, c ::
              0 <= idx < |defs| && defs[idx].Declared? && c in BlockCalls(defs[idx].block) && x == TargetEntry(defs, c)
  {
    var groups := TargetGroups(defs);
    FlattenMember(groups, x);
    var idx, k :| 0 <= idx < |groups| && 0 <= k < |groups[idx]| && groups[idx][k] == x;
    assert BlockCalls(defs[idx].block)[k] in BlockCalls(defs[idx].block);
  }

  /** Every call of a declared definition contributes its target entry. */
  lemma CallTargetEntry(defs: seq<Definition>, idx: nat, c: Call)
    requires idx < |defs| && defs[idx].Declared? && c in BlockCalls(defs[idx].block)
    ensures TargetEntry(defs, c) in TargetEntries(defs)
  {
    var groups := TargetGroups(defs);
    var k :| 0 <= k < |BlockCalls(defs[idx].block)| && BlockCalls(defs[idx].block)[k] == c;
    assert groups[idx][k] == TargetEntry(defs, c);
    FlattenMember(groups, TargetEntry(defs, c));
  }

  /** The entries of the target entries are those of the calls of the
      declared definitions. */
  lemma TargetEntriesMember(defs: seq<Definition>, x: (string, seq<DefRef>))
    ensures x in TargetEntries(defs) <==>
      exists idx, c :: 0 <= idx < |defs| && defs[idx].Declared? && c in BlockCalls(defs[idx].block)
        && x == TargetEntry(defs, c)
  {
    if x in TargetEntries(defs) {
      TargetEntryFromCall(defs, x);
    } else {
      forall idx, c | 0 <= idx < |defs| && defs[idx].Declared? && c in BlockCalls(defs[idx].block)
        ensures x != TargetEntry(defs, c)
      {
        CallTargetEntry(defs, idx, c);
      }
    }
  }

  /** Every call of a declared definition has its callee's key indexed; such
      a key holds the callbacks of the last call entered under it, and every
      other key of the given object keeps its value. */
  lemma IndexDefinitionCallbacksSpec(defs: seq<Definition>, definitionCallbacks: seq<(string, seq<DefRef>)>)
    requires DistinctKeys(definitionCallbacks)
    ensures var r := IndexDefinitionCallbacks(defs, definitionCallbacks);
      && (forall idx, c :: 0 <= idx < |defs| && defs[idx].Declared? && c in BlockCalls(defs[idx].block) ==>
            KeyIn(r, TargetKey(defs, c)))
      && (forall i :: 0 <= i < |r| && KeyIn(TargetEntries(defs), r[i].0) ==>
            exists j :: 0 <= j < |TargetEntries(defs)| && TargetEntries(defs)[j] == r[i]
              && LastWithKey(TargetEntries(defs), j))
      && (forall n :: 0 <= n < |definitionCallbacks| && !KeyIn(TargetEntries(defs), definitionCallbacks[n].0) ==>
            definitionCallbacks[n] in r)
  {
    CalleesIndexed(defs, definitionCallbacks);
    SpreadEntries(definitionCallbacks, TargetEntries(defs));
    UntargetedKept(defs, definitionCallbacks);
  }

  lemma CalleesIndexed(defs: seq<Definition>, definitionCallbacks: seq<(string, seq<DefRef>)>)
    ensures var r := IndexDefinitionCallbacks(defs, definitionCallbacks);
      forall idx, c :: 0 <= idx < |defs| && defs[idx].Declared? && c in BlockCalls(defs[idx].block) ==>
        KeyIn(r, TargetKey(defs, c))
  {
    var es := TargetEntries(defs);
    var r := IndexDefinitionCallbacks(defs, definitionCallbacks);
    SpreadEntries(definitionCallbacks, es);
    forall idx, c | 0 <= idx < |defs| && defs[idx].Declared? && c in BlockCalls(defs[idx].block)
      ensures KeyIn(r, TargetKey(defs, c))
    {
      CallTargetEntry(defs, idx, c);
      var j :| 0 <= j < |es| && es[j] == TargetEntry(defs, c);
    }
  }

  lemma UntargetedKept(defs: seq<Definition>, definitionCallbacks: seq<(string, seq<DefRef>)>)
    requires DistinctKeys(definitionCallbacks)
    ensures var r := IndexDefinitionCallbacks(defs, definitionCallbacks);
      forall n :: 0 <= n < |definitionCallbacks| && !KeyIn(TargetEntries(defs), definitionCallbacks[n].0) ==>
        definitionCallbacks[n] in r
  {
    var es := TargetEntries(defs);
    var r := IndexDefinitionCallbacks(defs, definitionCallbacks);
    SpreadEntries(definitionCallbacks, es);
    forall n | 0 <= n < |definitionCallbacks| && !KeyIn(es, definitionCallbacks[n].0)
      ensures definitionCallbacks[n] in r
    {
      var i := KeyIndex(r, definitionCallbacks[n].0);
      var j :| 0 <= j < |definitionCallbacks| && definitionCallbacks[j] == r[i] && LastWithKey(definitionCallbacks, j);
      assert j == n;
    }
  }
}
