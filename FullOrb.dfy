/** The call-graph builder of `compilers/full-orb.ts`: the `Program` walks
    every source file, records each function it meets as a declared
    definition with a block of the calls made in it, follows imports into
    the files they name, and groups the statements of a block that make no
    call into synthetic definitions.

    The objects the TypeScript code links by reference (definitions,
    blocks, synthetic definitions) live here in three arenas of the
    program, and a reference is an index into one of them. `uuidv4` is a
    counter. */
module FullOrb {
  import opened Util
  import opened TrieNodes
  import opened Modules
  import opened FullOrbSyntax

  /** `PARSE_STATUS` without `PENDING`, which no code assigns: a file without
      state has no entry at all. */
  datatype Status = Parsing | Parsed | Skipped

  /** What the program knows about one source file. */
  datatype FileState = FileState(status: Status, exports: map<string, nat>)

  /** A `ParsedDefinition`: an index into the declared or the synthetic arena. */
  datatype DefRef = DeclaredRef(index: nat) | SyntheticRef(index: nat)

  /** The call expression a parsed call stands for: a node of the tree, or
      the placeholder made for a run of statements without calls. */
  datatype CallSite = SiteNode(key: Key) | PlaceholderCall

  datatype CallRec = CallRec(id: nat, key: Key, callExpression: CallSite, functionDefinition: DefRef,
                             callbacks: seq<nat>, parentNode: Option<nat>)

  /** A `ParsedNode`: a call, or a nested block by its index. */
  datatype PNode = CallNode(call: CallRec) | BlockNode(block: nat)

  datatype BlockRec = BlockRec(id: nat, key: Key, blockNode: Key, parsedNodes: seq<PNode>, parentNode: Option<nat>)

  /** A `DeclaredDefinition`: stored under `key`, defined by the function
      node `definition`, with its body's block. */
  datatype DeclaredRec = DeclaredRec(id: nat, key: Key, definition: Key, block: nat)

  datatype SyntheticRec = SyntheticRec(id: nat, key: Key, nodes: seq<Key>)

  const NodeModules := "node_modules"
  const NoFunctionMessage := "resolveDeclaration() was given a VariableDeclaration without a function definition."

  /** The status a file ends with once its parse has finished. */
  function ParsedStatus(fileName: string): Status {
    if Contains(fileName, NodeModules) then Skipped else Parsed
  }

  function Size(n: Node): nat
    decreases n, 1
  {
    1 + SizeOfAll(n.children)
  }

  function SizeOfAll(ns: seq<Node>): nat
    decreases ns, 0
  {
    if |ns| == 0 then 0 else Size(ns[0]) + SizeOfAll(ns[1..])
  }

  lemma {:induction false} SizeOfChild(ns: seq<Node>, i: nat)
    requires i < |ns|
    ensures Size(ns[i]) <= SizeOfAll(ns)
    decreases i
  {
    if i > 0 {
      SizeOfChild(ns[1..], i - 1);
      assert ns[1..][i - 1] == ns[i];
    }
  }

  function Keys(ns: seq<Node>): (r: seq<Key>)
    ensures |r| == |ns| && forall i :: 0 <= i < |ns| ==> r[i] == ns[i].key
  {
    seq(|ns|, i requires 0 <= i < |ns| => ns[i].key)
  }

  // ---------------------------------------------------------------------
  // Declarations the type checker reports point at files of the program

  ghost predicate ContainerClosed(c: Container, names: set<string>) {
    && (c.ExportDeclaration? && c.clause.NamedExports? ==>
          forall e :: e in c.clause.elements && e.1.Some? ==> e.1.value.file in names)
    && (c.ExportAssignment? && c.target.Some? ==> c.target.value.file in names)
    && (c.FunctionContainer? ==> c.self.file in names)
    && (c.VariableStatement? ==> forall d :: d in c.declarations ==> d.file in names)
  }

  ghost predicate CalleeClosed(callee: Callee, names: set<string>) {
    var id := GetCallExpressionIdentifier(callee);
    id.Some? && id.value.declaration.Some? ==> id.value.declaration.value.file in names
  }

  ghost predicate KindClosed(k: Kind, names: set<string>) {
    && (k.CallExpression? ==>
          && (forall a :: a in k.arguments && a.Some? ==> a.value.file in names)
          && CalleeClosed(k.callee, names))
    && (k.ExportKeyword? ==> ContainerClosed(GetExportKeywordContainer(k.parent), names))
  }

  ghost predicate NodeClosed(n: Node, names: set<string>)
    decreases n
  {
    KindClosed(n.kind, names) && forall c :: c in n.children ==> NodeClosed(c, names)
  }

  /** Syntax trees of files, by name, whose declarations all lie in files
      that have a tree. */
  ghost predicate TreesClosed(trees: map<string, Node>) {
    forall f {:trigger FileClosed(trees, f)} :: FileClosed(trees, f)
  }

  ghost predicate FileClosed(trees: map<string, Node>, f: string) {
    f in trees ==> NodeClosed(trees[f], trees.Keys)
  }

  lemma ExportsClosed(c: Container, names: set<string>)
    requires ContainerClosed(c, names)
    ensures ExportKeywordDeclarations(c).Ok? ==> forall e :: e in ExportKeywordDeclarations(c).value ==> e.1.file in names
  {
    match c
    case ExportDeclaration(clause) =>
      if clause.NamedExports? {
        var found := FoundExports(clause.elements);
        forall e | e in FromEntries(found) ensures e.1.file in names {
          assert e in found;
          assert (e.0, Some(e.1)) in clause.elements;
        }
      }
    case VariableStatement(ds) =>
      var es := seq(|ds|, i requires 0 <= i < |ds| => (ObjectKey, ds[i]));
      forall e | e in FromEntries(es) ensures e.1.file in names {
        assert e in es;
      }
    case _ =>
  }

  // ---------------------------------------------------------------------
  // Runs of statements without calls

  /** `runs` lists, in order, the maximal runs `[start, end)` of consecutive
      `false` entries of `flags`. */
  ghost predicate RunsOf(flags: seq<bool>, runs: seq<(nat, nat)>) {
    RunsSound(flags, runs) && RunsCover(flags, runs)
  }

  /** Each run is a non-empty stretch of `false` flags that cannot be
      extended either way, and the runs are in order. */
  ghost predicate RunsSound(flags: seq<bool>, runs: seq<(nat, nat)>) {
    RunsInside(flags, runs) && RunsMaximal(flags, runs) && RunsOrdered(runs)
  }

  /** Every run is a non-empty range of children without calls. */
  ghost predicate RunsInside(flags: seq<bool>, runs: seq<(nat, nat)>) {
    && (forall k :: 0 <= k < |runs| ==> runs[k].0 < runs[k].1 <= |flags|)
    && (forall k, i :: 0 <= k < |runs| && runs[k].0 <= i < runs[k].1 ==> !flags[i])
  }

  /** Every run starts and ends at a child with calls or at an end. */
  ghost predicate RunsMaximal(flags: seq<bool>, runs: seq<(nat, nat)>)
    requires forall k :: 0 <= k < |runs| ==> runs[k].0 < runs[k].1 <= |flags|
  {
    && (forall k :: 0 <= k < |runs| ==> runs[k].0 == 0 || flags[runs[k].0 - 1])
    && (forall k :: 0 <= k < |runs| ==> runs[k].1 == |flags| || flags[runs[k].1])
  }

  /** The runs are in order, apart from one another. */
  ghost predicate RunsOrdered(runs: seq<(nat, nat)>) {
    forall k :: 0 <= k < |runs| - 1 ==> runs[k].1 < runs[k + 1].0
  }

  /** Every `false` flag lies in a run. */
  ghost predicate RunsCover(flags: seq<bool>, runs: seq<(nat, nat)>) {
    forall i :: 0 <= i < |flags| && !flags[i] ==> exists k :: 0 <= k < |runs| && runs[k].0 <= i < runs[k].1
  }

  /** The runs of consecutive children without calls, for the flags saying
      which children of a block had calls, built one child at a time as the
      walk does. */
  function Runs(flags: seq<bool>): seq<(nat, nat)>
    decreases |flags|
  {
    if |flags| == 0 then []
    else
      var n := |flags|;
      var p := Runs(flags[..n - 1]);
      if flags[n - 1] then p
      else if n == 1 || flags[n - 2] then p + [(n - 1, n)]
      else if |p| == 0 then [(n - 1, n)]
      else p[..|p| - 1] + [(p[|p| - 1].0, n)]
  }

  /** A child with calls leaves the runs as they are. */
  lemma RunsSnocTrue(flags: seq<bool>)
    ensures Runs(flags + [true]) == Runs(flags)
  {
    assert (flags + [true])[..|flags|] == flags;
  }

  /** A child without calls after one with calls (or first) starts a run. */
  lemma RunsSnocStart(flags: seq<bool>)
    requires |flags| == 0 || flags[|flags| - 1]
    ensures Runs(flags + [false]) == Runs(flags) + [(|flags|, |flags| + 1)]
  {
    assert (flags + [false])[..|flags|] == flags;
  }

  /** A child without calls after another one extends the current run. */
  lemma RunsSnocExtend(flags: seq<bool>)
    requires |flags| > 0 && !flags[|flags| - 1] && |Runs(flags)| > 0
    ensures var p := Runs(flags);
      Runs(flags + [false]) == p[..|p| - 1] + [(p[|p| - 1].0, |flags| + 1)]
  {
    assert (flags + [false])[..|flags|] == flags;
  }

  /** `Runs` lists exactly the maximal runs of `false` flags, the last one
      reaching the end when the last flag is `false`. */
  lemma {:induction false} RunsAreRuns(flags: seq<bool>)
    ensures RunsOf(flags, Runs(flags))
    ensures |flags| > 0 && !flags[|flags| - 1] ==> |Runs(flags)| > 0 && Runs(flags)[|Runs(flags)| - 1].1 == |flags|
    decreases |flags|
  {
    if |flags| > 0 {
      RunsAreRuns(flags[..|flags| - 1]);
      RunsOfSnoc(flags);
    }
  }

  /** The step of `RunsAreRuns`: the runs of one more flag. */
  lemma RunsOfSnoc(flags: seq<bool>)
    requires |flags| > 0
    requires var init := flags[..|flags| - 1];
      && RunsOf(init, Runs(init))
      && (|init| > 0 && !init[|init| - 1] ==> |Runs(init)| > 0 && Runs(init)[|Runs(init)| - 1].1 == |init|)
    ensures RunsOf(flags, Runs(flags))
    ensures !flags[|flags| - 1] ==> |Runs(flags)| > 0 && Runs(flags)[|Runs(flags)| - 1].1 == |flags|
  {
    var n := |flags|;
    var init := flags[..n - 1];
    assert flags == init + [flags[n - 1]];
    if flags[n - 1] {
      RunsSnocTrue(init);
      RunsEndTrue(init, Runs(init));
    } else if n == 1 || init[n - 2] {
      RunsOfStart(init);
    } else {
      RunsOfExtend(init);
    }
  }

  lemma RunsOfStart(init: seq<bool>)
    requires RunsOf(init, Runs(init)) && (|init| == 0 || init[|init| - 1])
    ensures RunsOf(init + [false], Runs(init + [false]))
    ensures Runs(init + [false])[|Runs(init + [false])| - 1].1 == |init| + 1
  {
    RunsSnocStart(init);
    RunsStartSound(init, Runs(init));
    RunsStartCover(init, Runs(init));
  }

  lemma RunsOfExtend(init: seq<bool>)
    requires RunsOf(init, Runs(init)) && |init| > 0 && !init[|init| - 1]
    requires |Runs(init)| > 0 && Runs(init)[|Runs(init)| - 1].1 == |init|
    ensures RunsOf(init + [false], Runs(init + [false]))
    ensures |Runs(init + [false])| > 0 && Runs(init + [false])[|Runs(init + [false])| - 1].1 == |init| + 1
  {
    RunsSnocExtend(init);
    RunsExtendSound(init, Runs(init));
    RunsExtendCover(init, Runs(init));
  }

  lemma RunsEndTrue(init: seq<bool>, p: seq<(nat, nat)>)
    requires RunsOf(init, p)
    ensures RunsOf(init + [true], p)
  {
    var flags := init + [true];
    assert forall i :: 0 <= i < |init| ==> flags[i] == init[i];
    forall i | 0 <= i < |flags| && !flags[i] ensures exists k :: 0 <= k < |p| && p[k].0 <= i < p[k].1 {
      assert i < |init| && !init[i];
    }
  }

  lemma RunsStartSound(init: seq<bool>, p: seq<(nat, nat)>)
    requires RunsSound(init, p) && (|init| == 0 || init[|init| - 1])
    ensures RunsSound(init + [false], p + [(|init|, |init| + 1)])
  {
    RunsStartInside(init, p);
    RunsStartMaximal(init, p);
    var r := p + [(|init|, |init| + 1)];
    forall k | 0 <= k < |r| - 1 ensures r[k].1 < r[k + 1].0 {
      if k + 1 < |p| {
        assert p[k].1 < p[k + 1].0;
      }
    }
  }

  lemma RunsStartInside(init: seq<bool>, p: seq<(nat, nat)>)
    requires RunsInside(init, p)
    ensures RunsInside(init + [false], p + [(|init|, |init| + 1)])
  {
    var flags, n := init + [false], |init|;
    var r := p + [(n, n + 1)];
    forall k, i | 0 <= k < |r| && r[k].0 <= i < r[k].1 ensures !flags[i] {
      if k < |p| {
        assert !init[i];
      }
    }
  }

  lemma RunsStartMaximal(init: seq<bool>, p: seq<(nat, nat)>)
    requires RunsSound(init, p) && (|init| == 0 || init[|init| - 1])
    ensures RunsInside(init + [false], p + [(|init|, |init| + 1)])
    ensures RunsMaximal(init + [false], p + [(|init|, |init| + 1)])
  {
    RunsStartInside(init, p);
    var flags, n := init + [false], |init|;
    var r := p + [(n, n + 1)];
    forall k | 0 <= k < |p| ensures r[k] == p[k] && p[k].1 < n {
      assert !init[p[k].1 - 1];
    }
    forall k | 0 <= k < |r| ensures r[k].0 == 0 || flags[r[k].0 - 1] {
      if k < |p| && p[k].0 > 0 {
        assert init[p[k].0 - 1];
      }
    }
    forall k | 0 <= k < |r| ensures r[k].1 == |flags| || flags[r[k].1] {
      if k < |p| {
        assert init[p[k].1];
      }
    }
  }

  lemma RunsStartCover(init: seq<bool>, p: seq<(nat, nat)>)
    requires RunsCover(init, p)
    ensures RunsCover(init + [false], p + [(|init|, |init| + 1)])
  {
    var flags, n := init + [false], |init|;
    var r := p + [(n, n + 1)];
    forall i | 0 <= i < |flags| && !flags[i] ensures exists k :: 0 <= k < |r| && r[k].0 <= i < r[k].1 {
      if i < n {
        assert !init[i];
        var k :| 0 <= k < |p| && p[k].0 <= i < p[k].1;
        assert r[k] == p[k];
      } else {
        assert r[|p|] == (n, n + 1);
      }
    }
  }

  lemma RunsExtendSound(init: seq<bool>, p: seq<(nat, nat)>)
    requires RunsSound(init, p) && |init| > 0 && !init[|init| - 1]
    requires |p| > 0 && p[|p| - 1].1 == |init|
    ensures RunsSound(init + [false], p[..|p| - 1] + [(p[|p| - 1].0, |init| + 1)])
  {
    RunsExtendInside(init, p);
    RunsExtendMaximal(init, p);
    var last := |p| - 1;
    var r := p[..last] + [(p[last].0, |init| + 1)];
    forall k | 0 <= k < |r| - 1 ensures r[k].1 < r[k + 1].0 {
      assert p[k].1 < p[k + 1].0;
    }
  }

  lemma RunsExtendInside(init: seq<bool>, p: seq<(nat, nat)>)
    requires RunsInside(init, p) && RunsOrdered(p) && |init| > 0 && !init[|init| - 1]
    requires |p| > 0 && p[|p| - 1].1 == |init|
    ensures RunsInside(init + [false], p[..|p| - 1] + [(p[|p| - 1].0, |init| + 1)])
  {
    var flags, n := init + [false], |init|;
    var last := |p| - 1;
    var r := p[..last] + [(p[last].0, n + 1)];
    assert r[last] == (p[last].0, n + 1);
    forall k | 0 <= k < last ensures r[k] == p[k] && p[k].1 < n {
      assert p[k].1 < p[k + 1].0;
    }
    forall k, i | 0 <= k < |r| && r[k].0 <= i < r[k].1 ensures !flags[i] {
      if k < last {
        assert !init[i];
      } else if i < n {
        assert p[last].0 <= i < p[last].1;
        assert !init[i];
      }
    }
  }

  lemma RunsExtendMaximal(init: seq<bool>, p: seq<(nat, nat)>)
    requires RunsSound(init, p) && |init| > 0 && !init[|init| - 1]
    requires |p| > 0 && p[|p| - 1].1 == |init|
    ensures RunsInside(init + [false], p[..|p| - 1] + [(p[|p| - 1].0, |init| + 1)])
    ensures RunsMaximal(init + [false], p[..|p| - 1] + [(p[|p| - 1].0, |init| + 1)])
  {
    RunsExtendInside(init, p);
    var flags, n := init + [false], |init|;
    var last := |p| - 1;
    var r := p[..last] + [(p[last].0, n + 1)];
    assert r[last] == (p[last].0, n + 1);
    forall k | 0 <= k < last ensures r[k] == p[k] && p[k].1 < n {
      assert p[k].1 < p[k + 1].0;
    }
    forall k | 0 <= k < |r| ensures r[k].0 == 0 || flags[r[k].0 - 1] {
      if p[k].0 > 0 {
        assert init[p[k].0 - 1];
      }
    }
    forall k | 0 <= k < |r| ensures r[k].1 == |flags| || flags[r[k].1] {
      if k < last {
        assert init[p[k].1];
      }
    }
  }

  lemma RunsExtendCover(init: seq<bool>, p: seq<(nat, nat)>)
    requires RunsCover(init, p) && RunsSound(init, p)
    requires |p| > 0 && p[|p| - 1].1 == |init|
    ensures RunsCover(init + [false], p[..|p| - 1] + [(p[|p| - 1].0, |init| + 1)])
  {
    var flags, n := init + [false], |init|;
    var last := |p| - 1;
    var r := p[..last] + [(p[last].0, n + 1)];
    assert r[last] == (p[last].0, n + 1);
    forall i | 0 <= i < |flags| && !flags[i] ensures exists k :: 0 <= k < |r| && r[k].0 <= i < r[k].1 {
      if i < n {
        assert !init[i];
        var k :| 0 <= k < |p| && p[k].0 <= i < p[k].1;
        if k < last {
          assert r[k] == p[k];
        } else {
          assert r[last].0 <= i < r[last].1;
        }
      } else {
        assert r[last].0 <= i < r[last].1;
      }
    }
  }

  /** A block's single remaining node that `parseNode` removes: a call of a
      synthetic definition, or an empty block. */
  predicate DroppedWhenAlone(p: PNode, blocks: seq<BlockRec>) {
    (p.CallNode? && p.call.functionDefinition.SyntheticRef?) ||
    (p.BlockNode? && p.block < |blocks| && |blocks[p.block].parsedNodes| == 0)
  }

  ghost predicate NodesIn(ps: seq<PNode>, n: nat) {
    forall j :: 0 <= j < |ps| && ps[j].BlockNode? ==> ps[j].block < n
  }

  ghost predicate ExportsIn(m: map<string, nat>, n: nat) {
    forall k :: k in m ==> m[k] < n
  }


  // ---------------------------------------------------------------------
  // The program's state

  /** What the compiler is given: the program's source files in order
      (`program.getSourceFiles()`), the syntax tree of each by name, and
      what module resolution needs (`aliasConfig` and the path functions). */
  datatype Env = Env(files: seq<SourceFile>, trees: map<string, Node>, ops: PathOps, aliasTrie: Tree<AliasEntry>)

  /** The fields of `Program` the walk updates, and the `uuidv4` counter. */
  datatype State = State(sourceFiles: map<string, FileState>, functionDefinitions: map<Key, nat>,
                         syntheticDefinitions: map<Key, nat>, declared: seq<DeclaredRec>,
                         synthetic: seq<SyntheticRec>, blocks: seq<BlockRec>, nextId: nat)

  /** The state of a program that has parsed nothing yet. */
  const Initial := State(map[], map[], map[], [], [], [], 0)

  /** Every file of the program has a tree, and every declaration the type
      checker reports lies in a file with a tree. */
  ghost predicate EnvOk(e: Env) {
    && (forall i :: 0 <= i < |e.files| ==> e.files[i].fileName in e.trees)
    && TreesClosed(e.trees)
  }

  /** Every reference into an arena points at an entry of it. */
  ghost predicate Bounded(s: State) {
    && (forall f :: f in s.sourceFiles ==> ExportsIn(s.sourceFiles[f].exports, |s.declared|))
    && (forall k :: k in s.functionDefinitions ==> s.functionDefinitions[k] < |s.declared|)
    && (forall i :: 0 <= i < |s.declared| ==> s.declared[i].block < |s.blocks|)
    && (forall i :: 0 <= i < |s.blocks| ==> NodesIn(s.blocks[i].parsedNodes, |s.blocks|))
  }

  ghost predicate Valid(e: Env, s: State) {
    EnvOk(e) && s.sourceFiles.Keys <= e.trees.Keys && Bounded(s)
  }

  /** The number of files without a state: only these can start a parse,
      so it bounds how deep parses nest. */
  function Remaining(e: Env, s: State): nat {
    if |s.sourceFiles| <= |e.trees| then |e.trees| - |s.sourceFiles| else 0
  }

  /** `Remaining` once `f` has a state. */
  function RemainingWith(e: Env, s: State, f: string): nat {
    var n := |s.sourceFiles.Keys + {f}|;
    if n <= |e.trees| then |e.trees| - n else 0
  }

  /** What every step keeps: files, definitions, blocks and synthetic
      definitions are only ever added, and an existing synthetic definition
      is only extended by the walk that created it. */
  ghost predicate Grew(s0: State, s: State) {
    && |s0.sourceFiles| <= |s.sourceFiles|
    && |s0.declared| <= |s.declared|
    && |s0.blocks| <= |s.blocks|
    && |s0.synthetic| <= |s.synthetic|
    && (forall i :: 0 <= i < |s0.synthetic| ==> s.synthetic[i] == s0.synthetic[i])
  }

  /** Every file that had a state keeps it. */
  ghost predicate Settled(s0: State, s: State) {
    forall g :: g in s0.sourceFiles ==> g in s.sourceFiles && s.sourceFiles[g] == s0.sourceFiles[g]
  }

  /** Every file that had a state, other than `f`, keeps it. */
  ghost predicate OthersSettled(s0: State, s: State, f: string) {
    forall g :: g in s0.sourceFiles && g != f ==> g in s.sourceFiles && s.sourceFiles[g] == s0.sourceFiles[g]
  }

  /** A step that keeps every file's state extends a walk. */
  lemma GrewSameFiles(s0: State, s1: State, s2: State, file: string)
    requires Grew(s0, s1) && OthersSettled(s0, s1, file)
    requires Grew(s1, s2) && s2.sourceFiles == s1.sourceFiles
    ensures Grew(s0, s2) && OthersSettled(s0, s2, file)
  {
  }

  /** Two walks one after the other make one. */
  lemma GrewTrans(s0: State, s1: State, s2: State, file: string)
    requires Grew(s0, s1) && OthersSettled(s0, s1, file)
    requires Grew(s1, s2) && OthersSettled(s1, s2, file)
    ensures Grew(s0, s2) && OthersSettled(s0, s2, file)
  {
  }

  lemma SubsetSize(a: set<string>, b: set<string>)
    requires a <= b
    ensures |a| <= |b|
  {
    assert b == a + (b - a);
  }

  /** The outcome of resolving an import, read from the state of the file
      it maps to. */
  ghost function ImportOutcome(e: Env, s: State, k: Kind): Result<Option<nat>, Thrown>
    requires IsImport(k)
  {
    match ParseImportNode(k)
    case Err(err) => Err(err)
    case Ok((spec, name)) =>
      match MapModuleToSourceFile(e.ops, e.aliasTrie, spec, e.files)
      case Err(err) => Err(err)
      case Ok(None) => Ok(None)
      case Ok(Some(f)) =>
        if f.fileName !in s.sourceFiles || s.sourceFiles[f.fileName].status == Skipped then Ok(None)
        else if name in s.sourceFiles[f.fileName].exports then Ok(Some(s.sourceFiles[f.fileName].exports[name]))
        else Ok(None)
  }

  // ---------------------------------------------------------------------
  // Adding to the arenas

  /** Push `p` onto the parsed nodes of block `b`. */
  function PushNode(s: State, b: nat, p: PNode): (r: State)
    requires b < |s.blocks|
    ensures |r.blocks| == |s.blocks| && r.blocks[b].parsedNodes == s.blocks[b].parsedNodes + [p]
    ensures r.blocks[b].(parsedNodes := s.blocks[b].parsedNodes) == s.blocks[b]
    ensures forall i :: 0 <= i < |s.blocks| && i != b ==> r.blocks[i] == s.blocks[i]
    ensures r.(blocks := s.blocks) == s
    ensures Bounded(s) && (p.BlockNode? ==> p.block < |s.blocks|) ==> Bounded(r)
  {
    var r := s.(blocks := s.blocks[b := s.blocks[b].(parsedNodes := s.blocks[b].parsedNodes + [p])]);
    assert Bounded(s) && (p.BlockNode? ==> p.block < |s.blocks|) ==> Bounded(r) by {
      if Bounded(s) && (p.BlockNode? ==> p.block < |s.blocks|) {
        forall i | 0 <= i < |r.blocks| ensures NodesIn(r.blocks[i].parsedNodes, |r.blocks|) {
          assert NodesIn(s.blocks[i].parsedNodes, |s.blocks|);
        }
      }
    }
    r
  }

  /** Record a synthetic definition keyed at `key` holding `nodes`; it is
      the last of the arena. */
  function AddSynthetic(s: State, key: Key, nodes: seq<Key>): (r: State)
    ensures r.synthetic == s.synthetic + [SyntheticRec(s.nextId, key, nodes)]
    ensures r.syntheticDefinitions == s.syntheticDefinitions[key := |s.synthetic|]
    ensures r.nextId == s.nextId + 1
    ensures Bounded(s) ==> Bounded(r)
  {
    s.(synthetic := s.synthetic + [SyntheticRec(s.nextId, key, nodes)],
       syntheticDefinitions := s.syntheticDefinitions[key := |s.synthetic|],
       nextId := s.nextId + 1)
  }

  /** Append statement `key` to synthetic definition `i`. */
  function ExtendSynthetic(s: State, i: nat, key: Key): (r: State)
    requires i < |s.synthetic|
    ensures |r.synthetic| == |s.synthetic| && r.synthetic[i].nodes == s.synthetic[i].nodes + [key]
    ensures r.synthetic[i].id == s.synthetic[i].id && r.synthetic[i].key == s.synthetic[i].key
    ensures r.(synthetic := s.synthetic) == s
    ensures forall j :: 0 <= j < |s.synthetic| && j != i ==> r.synthetic[j] == s.synthetic[j]
    ensures Bounded(s) ==> Bounded(r)
  {
    s.(synthetic := s.synthetic[i := s.synthetic[i].(nodes := s.synthetic[i].nodes + [key])])
  }

  /** Open a new, empty block for block node `key` inside `parent`; it is
      the last of the arena. */
  function AddBlock(s: State, key: Key, parent: Option<nat>): (r: State)
    ensures r.blocks == s.blocks + [BlockRec(s.nextId, key, key, [], parent)]
    ensures r.nextId == s.nextId + 1
    ensures r.sourceFiles == s.sourceFiles && Grew(s, r)
    ensures Bounded(s) ==> Bounded(r)
  {
    var r := s.(blocks := s.blocks + [BlockRec(s.nextId, key, key, [], parent)], nextId := s.nextId + 1);
    assert Bounded(s) ==> Bounded(r) by {
      if Bounded(s) {
        forall i | 0 <= i < |r.blocks| ensures NodesIn(r.blocks[i].parsedNodes, |r.blocks|) {
          if i < |s.blocks| {
            assert NodesIn(s.blocks[i].parsedNodes, |s.blocks|);
          }
        }
      }
    }
    r
  }

  /** Store a new declared definition under `key`, with an empty block for
      its body; it is the last of the arena. */
  function StoreDefinition(s: State, key: Key, definition: Key, body: Key): (r: State)
    ensures r.functionDefinitions == s.functionDefinitions[key := |s.declared|]
    ensures r.declared == s.declared + [DeclaredRec(s.nextId, key, definition, |s.blocks|)]
    ensures r.blocks == s.blocks + [BlockRec(s.nextId + 1, body, body, [], None)]
    ensures r.nextId == s.nextId + 2
    ensures Bounded(s) ==> Bounded(r)
  {
    var r := s.(blocks := s.blocks + [BlockRec(s.nextId + 1, body, body, [], None)],
                declared := s.declared + [DeclaredRec(s.nextId, key, definition, |s.blocks|)],
                functionDefinitions := s.functionDefinitions[key := |s.declared|],
                nextId := s.nextId + 2);
    assert Bounded(s) ==> Bounded(r) by {
      if Bounded(s) {
        forall f | f in r.sourceFiles ensures ExportsIn(r.sourceFiles[f].exports, |r.declared|) {
          assert ExportsIn(s.sourceFiles[f].exports, |s.declared|);
        }
        forall i | 0 <= i < |r.blocks| ensures NodesIn(r.blocks[i].parsedNodes, |r.blocks|) {
          if i < |s.blocks| {
            assert NodesIn(s.blocks[i].parsedNodes, |s.blocks|);
          }
        }
      }
    }
    r
  }

  /** The end of a block in `parseNode`: a lone node that is a call of a
      synthetic definition or an empty block is removed, and a new block
      that still has nodes is attached to its parent block. */
  function FinishBlock(s: State, b: nat, parent: Option<nat>, newBlock: bool): (r: State)
    requires b < |s.blocks| && (parent.Some? ==> parent.value < |s.blocks|)
    requires newBlock && parent.Some? ==> parent.value != b
    ensures |r.blocks| == |s.blocks| && r.blocks[b].parsedNodes == Collapsed(s.blocks[b].parsedNodes, s.blocks)
    ensures newBlock && parent.Some? ==>
      r.blocks[parent.value].parsedNodes ==
        s.blocks[parent.value].parsedNodes + (if |r.blocks[b].parsedNodes| > 0 then [BlockNode(b)] else [])
    ensures forall i :: 0 <= i < |s.blocks| && i != b && (parent.None? || i != parent.value) ==> r.blocks[i] == s.blocks[i]
    ensures r.(blocks := s.blocks) == s
    ensures r.sourceFiles == s.sourceFiles && Grew(s, r)
    ensures Bounded(s) ==> Bounded(r)
  {
    var nodes := Collapsed(s.blocks[b].parsedNodes, s.blocks);
    var collapsed := s.(blocks := s.blocks[b := s.blocks[b].(parsedNodes := nodes)]);
    assert Bounded(s) ==> Bounded(collapsed) by {
      if Bounded(s) {
        forall i | 0 <= i < |collapsed.blocks| ensures NodesIn(collapsed.blocks[i].parsedNodes, |collapsed.blocks|) {
          assert NodesIn(s.blocks[i].parsedNodes, |s.blocks|);
        }
      }
    }
    if newBlock && |nodes| > 0 && parent.Some? then PushNode(collapsed, parent.value, BlockNode(b)) else collapsed
  }

  /** `FinishBlock` as a step of the walk. */
  method CloseBlock(e: Env, s0: State, b: nat, parent: Option<nat>, newBlock: bool) returns (s: State)
    requires Valid(e, s0) && b < |s0.blocks| && (parent.Some? ==> parent.value < |s0.blocks|)
    requires newBlock && parent.Some? ==> parent.value != b
    ensures Valid(e, s) && Grew(s0, s) && s.sourceFiles == s0.sourceFiles
    ensures s == FinishBlock(s0, b, parent, newBlock)
  {
    s := FinishBlock(s0, b, parent, newBlock);
  }

  // ---------------------------------------------------------------------
  // The walk

  /** `execute`: parse every file of the program, in order; each ends
      parsed, or skipped when it lies under `node_modules`. */
  method Execute(e: Env, s0: State) returns (r: Result<(), Thrown>, s: State)
    requires Valid(e, s0)
    ensures Valid(e, s)
    ensures r.Ok? ==> forall i :: 0 <= i < |e.files| ==>
      e.files[i].fileName in s.sourceFiles && s.sourceFiles[e.files[i].fileName].status == ParsedStatus(e.files[i].fileName)
  {
    s := s0;
    var i := 0;
    while i < |e.files|
      invariant 0 <= i <= |e.files|
      invariant Valid(e, s)
      invariant forall j :: 0 <= j < i ==>
        e.files[j].fileName in s.sourceFiles && s.sourceFiles[e.files[j].fileName].status == ParsedStatus(e.files[j].fileName)
      decreases |e.files| - i
    {
      var res;
      res, s := ParseProgramFile(e, s, e.files[i].fileName);
      if res.Err? {
        return Err(res.error), s;
      }
      i := i + 1;
    }
    return Ok(()), s;
  }

  /** One file of `execute`: once parsed it has its final status, and no
      other file has lost its state. */
  method ParseProgramFile(e: Env, s0: State, f: string) returns (r: Result<(), Thrown>, s: State)
    requires Valid(e, s0) && f in e.trees
    ensures Valid(e, s) && OthersSettled(s0, s, f)
    ensures r.Ok? ==> f in s.sourceFiles && s.sourceFiles[f].status == ParsedStatus(f)
    ensures r.Err? ==> f in s.sourceFiles && s.sourceFiles[f].status == Parsing
    ensures Contains(f, NodeModules) ==> r == Ok(()) && s == s0.(sourceFiles := s0.sourceFiles[f := FileState(Skipped, map[])])
  {
    r, s := ParseSourceFile(e, s0, f);
  }

  /** `handleDeclarationSourceFile`: the state of a file, parsing it first
      when it has none. */
  method HandleDeclarationSourceFile(e: Env, s0: State, f: string) returns (r: Result<FileState, Thrown>, s: State)
    requires Valid(e, s0) && f in e.trees
    ensures Valid(e, s) && Grew(s0, s) && Settled(s0, s)
    ensures r.Ok? ==> f in s.sourceFiles && r.value == s.sourceFiles[f]
    ensures f in s0.sourceFiles ==> r == Ok(s0.sourceFiles[f]) && s == s0
    ensures f !in s0.sourceFiles ==>
      f in s.sourceFiles && s.sourceFiles[f].status == (if r.Ok? then ParsedStatus(f) else Parsing)
    decreases Remaining(e, s0), 1, 0, 0
  {
    s := s0;
    if f !in s.sourceFiles {
      SubsetSize(s.sourceFiles.Keys + {f}, e.trees.Keys);
      assert |s.sourceFiles.Keys + {f}| == |s.sourceFiles| + 1;
      var res;
      res, s := ParseSourceFile(e, s, f);
      if res.Err? {
        return Err(res.error), s;
      }
    }
    return Ok(s.sourceFiles[f]), s;
  }

  /** What resolving declaration `d` from state `s0` answers, ending in
      state `s` (`resolveDeclaration`): a definition it gives exists; a
      declaration of a skipped file has none; one already cached under its
      key gives the cached definition; in a file already parsed nothing is
      created and nothing is found; in a file still being parsed an import
      gives the export it maps to, a variable without a function throws, a
      function without a body has no definition, and any other declaration
      gets a new definition stored under its (re-anchored) key. A file
      without a state is parsed first: a throw there is thrown on and leaves
      the file being parsed; otherwise the file ends skipped, giving nothing,
      or parsed, giving the definition the parse cached under the key, if
      any. */
  ghost predicate Resolved(e: Env, s0: State, s: State, d: Decl, r: Result<Option<nat>, Thrown>) {
    && (r.Ok? && r.value.Some? ==> r.value.value < |s.declared|)
    && (d.file !in s0.sourceFiles ==>
          && d.file in s.sourceFiles
          && (r.Err? <==> s.sourceFiles[d.file].status == Parsing)
          && (r.Ok? ==>
                && s.sourceFiles[d.file].status == ParsedStatus(d.file)
                && r.value == if ParsedStatus(d.file) == Skipped || d.key !in s.functionDefinitions then None
                              else Some(s.functionDefinitions[d.key])))
    && (d.file in s0.sourceFiles && s0.sourceFiles[d.file].status == Skipped ==> r == Ok(None) && s == s0)
    && (d.file in s0.sourceFiles && s0.sourceFiles[d.file].status != Skipped && d.key in s0.functionDefinitions ==>
          r == Ok(Some(s0.functionDefinitions[d.key])) && s == s0)
    && (d.file in s0.sourceFiles && s0.sourceFiles[d.file].status == Parsed && d.key !in s0.functionDefinitions ==>
          r == Ok(None) && s == s0)
    && (d.file in s0.sourceFiles && s0.sourceFiles[d.file].status == Parsing && d.key !in s0.functionDefinitions ==>
          if IsImport(d.kind) then ImportResolved(e, s0, s, d.kind, r)
          else
            match Definition(d)
            case None => r == Err(PlainError(NoFunctionMessage)) && s == s0
            case Some(def) =>
              if def.body.None? then r == Ok(None) && s == s0
              else r == Ok(Some(|s0.declared|)) && s == StoreDefinition(s0, StorageKey(d), def.key, def.body.value))
  }

  /** `resolveDeclaration`: the definition a declaration stands for,
      creating it when its file is still being parsed. */
  method ResolveDeclaration(e: Env, s0: State, d: Decl) returns (r: Result<Option<nat>, Thrown>, s: State)
    requires Valid(e, s0) && d.file in e.trees
    ensures Valid(e, s) && Grew(s0, s) && Settled(s0, s)
    ensures Resolved(e, s0, s, d, r)
    decreases Remaining(e, s0), 1, 1, 0
  {
    var res;
    res, s := HandleDeclarationSourceFile(e, s0, d.file);
    if res.Err? {
      return Err(res.error), s;
    }
    var state := res.value;
    if state.status == Skipped {
      return Ok(None), s;
    }
    if d.key in s.functionDefinitions {
      return Ok(Some(s.functionDefinitions[d.key])), s;
    }
    if state.status == Parsed {
      return Ok(None), s;
    }
    if IsImport(d.kind) {
      r, s := ResolveImport(e, s, d.kind);
      return;
    }
    var definition := Definition(d);
    if definition.None? {
      return Err(PlainError(NoFunctionMessage)), s;
    }
    var body := definition.value.body;
    if body.None? {
      return Ok(None), s;
    }
    var key := ReanchorKey(d);
    var index := |s.declared|;
    s := StoreDefinition(s, key, definition.value.key, body.value);
    return Ok(Some(index)), s;
  }

  /** What resolving import `k` from state `s0` answers, ending in state
      `s`: a malformed import clause or specifier throws, an unmapped module
      gives nothing, and a mapped file that already has a state gives
      `ImportOutcome` with no change. A mapped file without a state is
      parsed first; a throw there is thrown on and leaves the file being
      parsed, and otherwise the outcome is read from the parsed file. */
  ghost predicate ImportResolved(e: Env, s0: State, s: State, k: Kind, r: Result<Option<nat>, Thrown>)
    requires IsImport(k)
  {
    match ParseImportNode(k)
    case Err(err) => r == Err(err) && s == s0
    case Ok((spec, name)) =>
      match MapModuleToSourceFile(e.ops, e.aliasTrie, spec, e.files)
      case Err(err) => r == Err(err) && s == s0
      case Ok(None) => r == Ok(None) && s == s0
      case Ok(Some(f)) =>
        if f.fileName in s0.sourceFiles then r == ImportOutcome(e, s0, k) && s == s0
        else
          && f.fileName in s.sourceFiles
          && (r.Err? <==> s.sourceFiles[f.fileName].status == Parsing)
          && (r.Ok? ==> s.sourceFiles[f.fileName].status == ParsedStatus(f.fileName) && r == ImportOutcome(e, s, k))
  }

  /** The import branch of `resolveDeclaration`: the export of the mapped
      file under the imported name. */
  method ResolveImport(e: Env, s0: State, k: Kind) returns (r: Result<Option<nat>, Thrown>, s: State)
    requires Valid(e, s0) && IsImport(k)
    ensures Valid(e, s) && Grew(s0, s) && Settled(s0, s)
    ensures r.Ok? && r.value.Some? ==> r.value.value < |s.declared|
    ensures r.Ok? ==> r == ImportOutcome(e, s, k)
    ensures ParseImportNode(k).Err? ==> r == Err(ParseImportNode(k).error) && s == s0
    ensures ImportResolved(e, s0, s, k, r)
    decreases Remaining(e, s0), 1, 0, 1
  {
    s := s0;
    var imported :- ParseImportNode(k);
    var (spec, name) := imported;
    var mapped :- MapModuleToSourceFile(e.ops, e.aliasTrie, spec, e.files);
    if mapped.None? {
      return Ok(None), s;
    }
    var target := mapped.value.fileName;
    assert mapped.value in e.files;
    var res;
    res, s := HandleDeclarationSourceFile(e, s, target);
    if res.Err? {
      return Err(res.error), s;
    }
    var state := res.value;
    if state.status == Skipped {
      return Ok(None), s;
    }
    return Ok(if name in state.exports then Some(state.exports[name]) else None), s;
  }

  /** An argument's outcome in `resolveCallExpressionCallbacks`: an argument
      with a declaration of a callback kind is resolved, any other is not
      looked at. */
  ghost predicate ArgResolved(e: Env, s0: State, s: State, a: Option<Decl>, o: Result<Option<nat>, Thrown>) {
    if a.Some? && IsCallbackKind(a.value.kind) then Resolved(e, s0, s, a.value, o)
    else s == s0 && o == Ok(None)
  }

  /** The arguments `args` resolved one after the other through `states`,
      with outcome `outcomes[i]` for `args[i]`. */
  ghost predicate ArgsResolved(e: Env, states: seq<State>, args: seq<Option<Decl>>, outcomes: seq<Result<Option<nat>, Thrown>>) {
    && |states| == |args| + 1 && |outcomes| == |args|
    && forall i :: 0 <= i < |args| ==> ArgResolved(e, states[i], states[i + 1], args[i], outcomes[i])
  }

  /** A resolution as a callback: a throw counts as no definition. */
  function Ignoring(o: Result<Option<nat>, Thrown>): Option<nat> {
    if o.Ok? then o.value else None
  }

  /** The callbacks kept from the outcomes `os`: the definitions found, in
      argument order. */
  function CallbacksOf(os: seq<Result<Option<nat>, Thrown>>): (r: seq<nat>)
    ensures |r| <= |os|
    decreases |os|
  {
    if |os| == 0 then []
    else
      var last := Ignoring(os[|os| - 1]);
      CallbacksOf(os[..|os| - 1]) + if last.Some? then [last.value] else []
  }

  /** A definition is a callback exactly when some argument resolved to it. */
  lemma {:induction false} CallbacksOfHas(os: seq<Result<Option<nat>, Thrown>>, x: nat)
    ensures x in CallbacksOf(os) <==> exists i :: 0 <= i < |os| && Ignoring(os[i]) == Some(x)
    decreases |os|
  {
    if |os| > 0 {
      var init := os[..|os| - 1];
      CallbacksOfHas(init, x);
      if x in CallbacksOf(init) {
        var i :| 0 <= i < |init| && Ignoring(init[i]) == Some(x);
        assert os[i] == init[i];
      }
      if exists i :: 0 <= i < |os| && Ignoring(os[i]) == Some(x) {
        var i :| 0 <= i < |os| && Ignoring(os[i]) == Some(x);
        if i < |init| {
          assert init[i] == os[i];
        }
      }
    }
  }

  /** The callbacks of the arguments are those of the first ones followed
      by those of the rest: argument order is kept. */
  lemma {:induction false} CallbacksOfConcat(os: seq<Result<Option<nat>, Thrown>>, ts: seq<Result<Option<nat>, Thrown>>)
    ensures CallbacksOf(os + ts) == CallbacksOf(os) + CallbacksOf(ts)
    decreases |ts|
  {
    if |ts| == 0 {
      assert os + ts == os;
    } else {
      var init := ts[..|ts| - 1];
      assert (os + ts)[..|os + ts| - 1] == os + init;
      assert (os + ts)[|os + ts| - 1] == ts[|ts| - 1];
      CallbacksOfConcat(os, init);
    }
  }

  /** `resolveCallExpressionCallbacks`: the definitions of the arguments
      that resolve to one, in argument order; a resolution that fails or
      throws is dropped. */
  method ResolveCallExpressionCallbacks(e: Env, s0: State, args: seq<Option<Decl>>)
    returns (callbacks: seq<nat>, s: State, ghost states: seq<State>, ghost outcomes: seq<Result<Option<nat>, Thrown>>)
    requires Valid(e, s0) && forall a :: a in args && a.Some? ==> a.value.file in e.trees
    ensures Valid(e, s) && Grew(s0, s) && Settled(s0, s)
    ensures ArgsResolved(e, states, args, outcomes) && states[0] == s0 && states[|args|] == s
    ensures callbacks == CallbacksOf(outcomes)
    ensures forall j :: 0 <= j < |callbacks| ==> callbacks[j] < |s.declared|
    ensures (forall a :: a in args ==> a.None? || !IsCallbackKind(a.value.kind)) ==> callbacks == [] && s == s0
    decreases Remaining(e, s0), 1, 2, 0
  {
    s := s0;
    callbacks := [];
    states, outcomes := [s0], [];
    var i := 0;
    while i < |args|
      invariant 0 <= i <= |args| && |states| == i + 1 && |outcomes| == i
      invariant states[0] == s0 && states[i] == s
      invariant forall j :: 0 <= j < i ==> ArgResolved(e, states[j], states[j + 1], args[j], outcomes[j])
      invariant callbacks == CallbacksOf(outcomes)
      invariant Valid(e, s) && Grew(s0, s) && Settled(s0, s)
      invariant forall j :: 0 <= j < |callbacks| ==> callbacks[j] < |s.declared|
      invariant (forall a :: a in args ==> a.None? || !IsCallbackKind(a.value.kind)) ==> callbacks == [] && s == s0
      decreases |args| - i
    {
      var arg := args[i];
      ghost var s1 := s;
      ghost var outcome := Ok(None);
      var resolved := None;
      if arg.Some? && IsCallbackKind(arg.value.kind) {
        assert args[i] in args;
        resolved, s, outcome := ResolveCallback(e, s, arg.value);
        GrewSettledTrans(s0, s1, s);
      }
      assert ArgResolved(e, s1, s, args[i], outcome);
      assert (outcomes + [outcome])[..i] == outcomes;
      outcomes := outcomes + [outcome];
      states := states + [s];
      if resolved.Some? {
        callbacks := callbacks + [resolved.value];
      }
      i := i + 1;
    }
  }

  /** One argument of `resolveCallExpressionCallbacks`: its definition, if
      resolving it neither fails nor throws. */
  method ResolveCallback(e: Env, s0: State, d: Decl) returns (r: Option<nat>, s: State, ghost outcome: Result<Option<nat>, Thrown>)
    requires Valid(e, s0) && d.file in e.trees
    ensures Valid(e, s) && Grew(s0, s) && Settled(s0, s)
    ensures Resolved(e, s0, s, d, outcome) && r == Ignoring(outcome)
    ensures r.Some? ==> r.value < |s.declared|
    decreases Remaining(e, s0), 1, 1, 1
  {
    var resolved;
    resolved, s := ResolveDeclaration(e, s0, d);
    outcome := resolved;
    r := if resolved.Ok? then resolved.value else None;
  }

  /** What resolving the callee of a call answers (`resolveCallExpressionDeclaration`):
      nothing, with no change, when there is no identifier or it has no
      declaration, and otherwise the resolution of that declaration. */
  ghost predicate CalleeResolved(e: Env, s0: State, s: State, callee: Callee, r: Result<Option<nat>, Thrown>) {
    var id := GetCallExpressionIdentifier(callee);
    if id.None? || id.value.declaration.None? then r == Ok(None) && s == s0
    else Resolved(e, s0, s, id.value.declaration.value, r)
  }

  /** `resolveCallExpressionDeclaration`: the definition of the called
      identifier, if it has a declaration. */
  method ResolveCallExpressionDeclaration(e: Env, s0: State, callee: Callee) returns (r: Result<Option<nat>, Thrown>, s: State)
    requires Valid(e, s0) && CalleeClosed(callee, e.trees.Keys)
    ensures Valid(e, s) && Grew(s0, s) && Settled(s0, s)
    ensures CalleeResolved(e, s0, s, callee, r)
    ensures r.Ok? && r.value.Some? ==> r.value.value < |s.declared|
    decreases Remaining(e, s0), 1, 2, 0
  {
    var identifier := GetCallExpressionIdentifier(callee);
    if identifier.None? || identifier.value.declaration.None? {
      return Ok(None), s0;
    }
    r, s := ResolveDeclaration(e, s0, identifier.value.declaration.value);
  }

  /** An entry's outcome in `resolveExportKeyword`: an entry that exports a
      function is resolved, any other is filtered out before. */
  ghost predicate EntryResolved(e: Env, s0: State, s: State, d: Decl, o: Result<Option<nat>, Thrown>) {
    if ExportsFunction(d) then Resolved(e, s0, s, d, o) else s == s0 && o == Ok(None)
  }

  /** The first `|outcomes|` entries resolved one after the other through
      `states`. */
  ghost predicate EntriesResolved(e: Env, states: seq<State>, entries: seq<(string, Decl)>,
                                  outcomes: seq<Result<Option<nat>, Thrown>>) {
    && |outcomes| <= |entries| && |states| == |outcomes| + 1
    && forall i :: 0 <= i < |outcomes| ==> EntryResolved(e, states[i], states[i + 1], entries[i].1, outcomes[i])
  }

  /** `Object.fromEntries` of the entries whose resolution found a
      definition, each name holding its definition. */
  function ExportedFrom(entries: seq<(string, Decl)>, outcomes: seq<Result<Option<nat>, Thrown>>): map<string, nat>
    requires |outcomes| <= |entries|
    decreases |outcomes|
  {
    if |outcomes| == 0 then map[]
    else
      var n := |outcomes| - 1;
      var m := ExportedFrom(entries, outcomes[..n]);
      if outcomes[n].Ok? && outcomes[n].value.Some? then m[entries[n].0 := outcomes[n].value.value] else m
  }

  /** A name is exported exactly when one of its entries resolved to a
      definition, and it holds the definition of the last of them. */
  lemma {:induction false} ExportedFromHas(entries: seq<(string, Decl)>, outcomes: seq<Result<Option<nat>, Thrown>>, x: string)
    requires |outcomes| <= |entries|
    ensures var m := ExportedFrom(entries, outcomes);
      x in m <==> exists i :: 0 <= i < |outcomes| && entries[i].0 == x && outcomes[i].Ok? && outcomes[i].value.Some?
    ensures var m := ExportedFrom(entries, outcomes);
      x in m ==>
        exists i :: 0 <= i < |outcomes| && entries[i].0 == x && outcomes[i] == Ok(Some(m[x])) &&
          forall j :: i < j < |outcomes| && entries[j].0 == x ==> !(outcomes[j].Ok? && outcomes[j].value.Some?)
    decreases |outcomes|
  {
    if |outcomes| > 0 {
      var n := |outcomes| - 1;
      var init := outcomes[..n];
      ExportedFromHas(entries, init, x);
      var m := ExportedFrom(entries, outcomes);
      if exists i :: 0 <= i < n && entries[i].0 == x && init[i].Ok? && init[i].value.Some? {
        var i :| 0 <= i < n && entries[i].0 == x && init[i].Ok? && init[i].value.Some?;
        assert outcomes[i] == init[i];
      }
      if exists i :: 0 <= i < |outcomes| && entries[i].0 == x && outcomes[i].Ok? && outcomes[i].value.Some? {
        var i :| 0 <= i < |outcomes| && entries[i].0 == x && outcomes[i].Ok? && outcomes[i].value.Some?;
        if i < n {
          assert init[i] == outcomes[i];
        }
      }
      if x in m && !(entries[n].0 == x && outcomes[n].Ok? && outcomes[n].value.Some?) {
        var i :| 0 <= i < n && entries[i].0 == x && init[i] == Ok(Some(ExportedFrom(entries, init)[x])) &&
          forall j :: i < j < n && entries[j].0 == x ==> !(init[j].Ok? && init[j].value.Some?);
        assert outcomes[i] == init[i];
        forall j | i < j < |outcomes| && entries[j].0 == x
          ensures !(outcomes[j].Ok? && outcomes[j].value.Some?)
        {
          if j < n {
            assert outcomes[j] == init[j];
          }
        }
      }
    }
  }

  /** `resolveExportKeyword`: the definitions of the functions an `export`
      keyword exports, by name. The entries that export a function are
      resolved in order; the first throw is thrown on, and otherwise each
      name holds the definition of its last entry that found one. */
  method ResolveExportKeyword(e: Env, s0: State, p: ExportKeywordParent)
    returns (r: Result<map<string, nat>, Thrown>, s: State, ghost states: seq<State>,
             ghost outcomes: seq<Result<Option<nat>, Thrown>>)
    requires Valid(e, s0) && ContainerClosed(GetExportKeywordContainer(p), e.trees.Keys)
    ensures Valid(e, s) && Grew(s0, s) && Settled(s0, s)
    ensures r.Ok? ==> ExportsIn(r.value, |s.declared|)
    ensures ExportKeywordDeclarations(GetExportKeywordContainer(p)).Err? ==>
      r == Err(ExportKeywordDeclarations(GetExportKeywordContainer(p)).error) && s == s0
    ensures ExportKeywordDeclarations(GetExportKeywordContainer(p)).Ok? ==>
      ExportsResolved(e, s0, s, ExportKeywordDeclarations(GetExportKeywordContainer(p)).value, r, states, outcomes)
    decreases Remaining(e, s0), 1, 2, 1
  {
    s := s0;
    states, outcomes := [s0], [];
    var container := GetExportKeywordContainer(p);
    ExportsClosed(container, e.trees.Keys);
    var entries :- ExportKeywordDeclarations(container);
    r, s, states, outcomes := ResolveEntries(e, s0, entries);
  }

  /** The entries `entries` resolved one after the other from `s0` to `s`:
      the result fails exactly when an entry throws, with the first throw,
      and otherwise every entry is resolved and each name holds the
      definition of its last entry that found one. */
  ghost predicate ExportsResolved(e: Env, s0: State, s: State, entries: seq<(string, Decl)>,
                                  r: Result<map<string, nat>, Thrown>, states: seq<State>,
                                  outcomes: seq<Result<Option<nat>, Thrown>>) {
    && EntriesResolved(e, states, entries, outcomes) && states[0] == s0 && states[|outcomes|] == s
    && (r.Ok? <==> |outcomes| == |entries| && forall i :: 0 <= i < |outcomes| ==> outcomes[i].Ok?)
    && (r.Ok? ==> r.value == ExportedFrom(entries, outcomes))
    && (r.Err? ==>
          && |outcomes| > 0 && outcomes[|outcomes| - 1].Err? && r.error == outcomes[|outcomes| - 1].error
          && forall i :: 0 <= i < |outcomes| - 1 ==> outcomes[i].Ok?)
  }

  /** The loop of `resolveExportKeyword` over the entries. */
  method ResolveEntries(e: Env, s0: State, entries: seq<(string, Decl)>)
    returns (r: Result<map<string, nat>, Thrown>, s: State, ghost states: seq<State>,
             ghost outcomes: seq<Result<Option<nat>, Thrown>>)
    requires Valid(e, s0) && forall x :: x in entries ==> x.1.file in e.trees
    ensures Valid(e, s) && Grew(s0, s) && Settled(s0, s)
    ensures r.Ok? ==> ExportsIn(r.value, |s.declared|)
    ensures ExportsResolved(e, s0, s, entries, r, states, outcomes)
    decreases Remaining(e, s0), 1, 2, 0
  {
    s := s0;
    states, outcomes := [s0], [];
    var exported: map<string, nat> := map[];
    var i := 0;
    while i < |entries|
      invariant 0 <= i <= |entries| && |outcomes| == i
      invariant EntriesResolved(e, states, entries, outcomes) && states[0] == s0 && states[i] == s
      invariant forall j :: 0 <= j < i ==> outcomes[j].Ok?
      invariant exported == ExportedFrom(entries, outcomes)
      invariant Valid(e, s) && Grew(s0, s) && Settled(s0, s)
      invariant ExportsIn(exported, |s.declared|)
      decreases |entries| - i
    {
      assert entries[i] in entries;
      ghost var s1 := s;
      var resolved;
      resolved, s := ResolveEntry(e, s, entries[i].1);
      GrewSettledTrans(s0, s1, s);
      assert (outcomes + [resolved])[..i] == outcomes;
      outcomes := outcomes + [resolved];
      states := states + [s];
      if resolved.Err? {
        return Err(resolved.error), s, states, outcomes;
      }
      if resolved.value.Some? {
        exported := exported[entries[i].0 := resolved.value.value];
      }
      i := i + 1;
    }
    return Ok(exported), s, states, outcomes;
  }

  /** One entry of `resolveExportKeyword`: resolved when it exports a
      function, and left alone otherwise. */
  method ResolveEntry(e: Env, s0: State, d: Decl) returns (r: Result<Option<nat>, Thrown>, s: State)
    requires Valid(e, s0) && d.file in e.trees
    ensures Valid(e, s) && Grew(s0, s) && Settled(s0, s)
    ensures EntryResolved(e, s0, s, d, r)
    ensures r.Ok? && r.value.Some? ==> r.value.value < |s.declared|
    decreases Remaining(e, s0), 1, 1, 2
  {
    if !ExportsFunction(d) {
      return Ok(None), s0;
    }
    r, s := ResolveExported(e, s0, d);
  }

  /** One exported function of `resolveExportKeyword`: its definition, or
      what resolving it threw. */
  method ResolveExported(e: Env, s0: State, d: Decl) returns (r: Result<Option<nat>, Thrown>, s: State)
    requires Valid(e, s0) && d.file in e.trees
    ensures Valid(e, s) && Grew(s0, s) && Settled(s0, s)
    ensures Resolved(e, s0, s, d, r)
    decreases Remaining(e, s0), 1, 1, 1
  {
    r, s := ResolveDeclaration(e, s0, d);
  }

  /** `parseSourceFile`: mark the file as being parsed with no exports,
      skip it when its path is under `node_modules`, and otherwise walk its
      tree and mark it parsed. */
  method ParseSourceFile(e: Env, s0: State, f: string) returns (r: Result<(), Thrown>, s: State)
    requires Valid(e, s0) && f in e.trees
    ensures Valid(e, s) && Grew(s0, s) && OthersSettled(s0, s, f)
    ensures f in s.sourceFiles
    ensures Contains(f, NodeModules) ==> r == Ok(()) && s == s0.(sourceFiles := s0.sourceFiles[f := FileState(Skipped, map[])])
    ensures r.Ok? ==> s.sourceFiles[f].status == ParsedStatus(f)
    ensures r.Err? ==> s.sourceFiles[f].status == Parsing
    decreases RemainingWith(e, s0, f), 3, 0, 0
  {
    if Contains(f, NodeModules) {
      return Ok(()), WithStatus(s0, f, Skipped);
    }
    r, s := WalkFile(e, s0, WithStatus(s0, f, Parsing), f);
  }

  /** The state with file `f` given status `st` and no exports. */
  function WithStatus(s0: State, f: string, st: Status): (s: State)
    ensures s == s0.(sourceFiles := s0.sourceFiles[f := FileState(st, map[])])
    ensures s.sourceFiles.Keys == s0.sourceFiles.Keys + {f}
    ensures Grew(s0, s) && OthersSettled(s0, s, f)
    ensures Bounded(s0) ==> Bounded(s)
  {
    WithStatusBounded(s0, f, st);
    s0.(sourceFiles := s0.sourceFiles[f := FileState(st, map[])])
  }

  lemma WithStatusBounded(s0: State, f: string, st: Status)
    ensures Bounded(s0) ==> Bounded(s0.(sourceFiles := s0.sourceFiles[f := FileState(st, map[])]))
  {
    var s := s0.(sourceFiles := s0.sourceFiles[f := FileState(st, map[])]);
    if Bounded(s0) {
      forall g | g in s.sourceFiles ensures ExportsIn(s.sourceFiles[g].exports, |s.declared|) {
        if g != f {
          assert ExportsIn(s0.sourceFiles[g].exports, |s0.declared|);
        }
      }
    }
  }

  /** The walk of file `f`, once it is marked as being parsed. */
  method WalkFile(e: Env, ghost s0: State, s1: State, f: string) returns (r: Result<(), Thrown>, s: State)
    requires Valid(e, s0) && f in e.trees && !Contains(f, NodeModules) && s1 == WithStatus(s0, f, Parsing)
    ensures Valid(e, s) && Grew(s0, s) && OthersSettled(s0, s, f)
    ensures f in s.sourceFiles
    ensures r.Ok? ==> s.sourceFiles[f].status == ParsedStatus(f)
    ensures r.Err? ==> s.sourceFiles[f].status == Parsing
    decreases RemainingWith(e, s0, f), 2, Size(e.trees[f]) + 1, 0
  {
    assert FileClosed(e.trees, f);
    var walked;
    walked, s := ParseNode(e, s1, e.trees[f], f, [], None, None);
    if walked.Err? {
      return Err(walked.error), s;
    }
    s := MarkParsed(s, f);
    return Ok(()), s;
  }

  /** Mark file `f` parsed, keeping its exports. */
  function MarkParsed(s: State, f: string): (r: State)
    requires f in s.sourceFiles
    ensures r.sourceFiles.Keys == s.sourceFiles.Keys && r.sourceFiles[f].status == Parsed
    ensures forall g :: g in s.sourceFiles && g != f ==> r.sourceFiles[g] == s.sourceFiles[g]
    ensures r.(sourceFiles := s.sourceFiles) == s
    ensures Bounded(s) ==> Bounded(r)
  {
    var r := s.(sourceFiles := s.sourceFiles[f := s.sourceFiles[f].(status := Parsed)]);
    assert Bounded(s) ==> Bounded(r) by {
      if Bounded(s) {
        forall g | g in r.sourceFiles ensures ExportsIn(r.sourceFiles[g].exports, |r.declared|) {
          assert ExportsIn(s.sourceFiles[g].exports, |s.declared|);
        }
      }
    }
    r
  }

  /** `parseNode`: visit `node` of file `file`, whose parents are `anc`,
      inside definition `ctxDef` and block `ctxBlock`; the result is the
      calls the node and its children contribute to the enclosing
      definition. */
  method ParseNode(e: Env, s0: State, node: Node, file: string, anc: seq<Ancestor>, ctxDef: Option<nat>, ctxBlock: Option<nat>)
    returns (r: Result<seq<CallRec>, Thrown>, s: State)
    requires Valid(e, s0) && file in s0.sourceFiles && NodeClosed(node, e.trees.Keys)
    requires ctxDef.Some? ==> ctxDef.value < |s0.declared|
    requires ctxBlock.Some? ==> ctxBlock.value < |s0.blocks|
    ensures Valid(e, s) && Grew(s0, s) && OthersSettled(s0, s, file)
    ensures file in s.sourceFiles && s.sourceFiles[file].status == s0.sourceFiles[file].status
    ensures r.Ok? && ctxDef.None? ==> r.value == []
    decreases Remaining(e, s0), 2, Size(node), 3
  {
    var visited;
    visited, s := VisitKind(e, s0, node, file, anc, ctxDef, ctxBlock);
    if visited.Err? {
      return Err(visited.error), s;
    }
    r, s := ParseBelow(e, s0, s, node, file, anc, ctxDef, ctxBlock, visited.value.0, visited.value.1);
  }

  /** The rest of `parseNode` once the node's kind is visited: open a block
      for a block node, parse the children, and close the block. */
  method ParseBelow(e: Env, ghost s0: State, s1: State, node: Node, file: string, anc: seq<Ancestor>,
                    ctxDef: Option<nat>, ctxBlock: Option<nat>, calls: seq<CallRec>, currentDefinition: Option<nat>)
    returns (r: Result<seq<CallRec>, Thrown>, s: State)
    requires Valid(e, s1) && Grew(s0, s1) && OthersSettled(s0, s1, file) && Remaining(e, s1) <= Remaining(e, s0)
    requires file in s0.sourceFiles && file in s1.sourceFiles && s1.sourceFiles[file].status == s0.sourceFiles[file].status
    requires NodeClosed(node, e.trees.Keys)
    requires ctxBlock.Some? ==> ctxBlock.value < |s0.blocks|
    requires currentDefinition.Some? ==> currentDefinition.value < |s1.declared|
    requires currentDefinition != ctxDef ==> currentDefinition.Some? && IsFunctionKind(node.kind)
    requires ctxDef.None? ==> calls == []
    ensures Valid(e, s) && Grew(s0, s) && OthersSettled(s0, s, file)
    ensures file in s.sourceFiles && s.sourceFiles[file].status == s0.sourceFiles[file].status
    ensures r.Ok? && ctxDef.None? ==> r.value == []
    decreases Remaining(e, s0), 2, Size(node), 2
  {
    var isBlock := node.kind.Block?;
    var newBlock := isBlock && (ctxBlock.None? || s1.blocks[ctxBlock.value].blockNode != node.key);
    var currentContextBlock := if newBlock then Some(|s1.blocks|) else ctxBlock;
    var s2 := if newBlock then AddBlock(s1, node.key, ctxBlock) else s1;
    GrewSameFiles(s0, s1, s2, file);
    var newCurrentDefinition := currentDefinition.Some? && currentDefinition != ctxDef;
    var childBlock := if newCurrentDefinition then Some(s2.declared[currentDefinition.value].block) else currentContextBlock;
    var passed;
    passed, s := WalkBlock(e, s0, s2, node, file, anc, currentDefinition, newCurrentDefinition, childBlock,
      if isBlock then currentContextBlock else None, ctxBlock, newBlock);
    if passed.Err? {
      return Err(passed.error), s;
    }
    return Ok(calls + passed.value), s;
  }

  /** The children of `node` parsed inside `block` when it is a block node,
      which is closed after them. */
  method WalkBlock(e: Env, ghost s0: State, s1: State, node: Node, file: string, anc: seq<Ancestor>,
                   def: Option<nat>, isNew: bool, childBlock: Option<nat>, block: Option<nat>, parent: Option<nat>,
                   newBlock: bool)
    returns (r: Result<seq<CallRec>, Thrown>, s: State)
    requires Valid(e, s1) && Grew(s0, s1) && OthersSettled(s0, s1, file) && Remaining(e, s1) <= Remaining(e, s0)
    requires file in s0.sourceFiles && file in s1.sourceFiles && s1.sourceFiles[file].status == s0.sourceFiles[file].status
    requires forall c :: c in node.children ==> NodeClosed(c, e.trees.Keys)
    requires def.Some? ==> def.value < |s1.declared|
    requires childBlock.Some? ==> childBlock.value < |s1.blocks|
    requires block.Some? ==> block.value < |s1.blocks|
    requires parent.Some? ==> parent.value < |s1.blocks|
    requires block.Some? && newBlock && parent.Some? ==> parent.value != block.value
    ensures Valid(e, s) && Grew(s0, s) && OthersSettled(s0, s, file)
    ensures file in s.sourceFiles && s.sourceFiles[file].status == s0.sourceFiles[file].status
    ensures r.Ok? && !(def.Some? && !isNew) ==> r.value == []
    decreases Remaining(e, s0), 2, Size(node), 1
  {
    var passed;
    ghost var flags, childCalls, runSyn;
    passed, s, flags, childCalls, runSyn := ParseChildren(e, s1, node, file, [AncestorOf(node)] + anc, def, isNew,
      childBlock, block);
    GrewTrans(s0, s1, s, file);
    if passed.Err? {
      return Err(passed.error), s;
    }
    if block.Some? {
      ghost var s2 := s;
      s := CloseBlock(e, s, block.value, parent, newBlock);
      GrewSameFiles(s0, s2, s, file);
    }
    return Ok(passed.value), s;
  }

  /** The `switch` on the node's kind in `parseNode`: the calls a call
      expression contributes, and the current definition, which a function
      that resolves replaces; an `export` keyword adds to the file's
      exports. */
  method VisitKind(e: Env, s0: State, node: Node, file: string, anc: seq<Ancestor>, ctxDef: Option<nat>, ctxBlock: Option<nat>)
    returns (r: Result<(seq<CallRec>, Option<nat>), Thrown>, s: State)
    requires Valid(e, s0) && file in s0.sourceFiles && KindClosed(node.kind, e.trees.Keys)
    requires ctxDef.Some? ==> ctxDef.value < |s0.declared|
    requires ctxBlock.Some? ==> ctxBlock.value < |s0.blocks|
    ensures Valid(e, s) && Grew(s0, s) && OthersSettled(s0, s, file)
    ensures file in s.sourceFiles && s.sourceFiles[file].status == s0.sourceFiles[file].status
    ensures r.Ok? && r.value.1.Some? ==> r.value.1.value < |s.declared|
    ensures r.Ok? && r.value.1 != ctxDef ==> r.value.1.Some? && IsFunctionKind(node.kind)
    ensures r.Ok? && ctxDef.None? ==> r.value.0 == []
    decreases Remaining(e, s0), 2, Size(node), 2
  {
    s := s0;
    if node.kind.CallExpression? {
      var calls;
      ghost var states, outcomes, mid, resolved;
      calls, s, states, outcomes, mid, resolved := VisitCall(e, s, node.key, node.kind.callee, node.kind.arguments, ctxDef, ctxBlock);
      if calls.Err? {
        return Err(calls.error), s;
      }
      return Ok((calls.value, ctxDef)), s;
    } else if node.kind.ExportKeyword? {
      var exported;
      ghost var states, outcomes;
      exported, s, states, outcomes := VisitExport(e, s, file, node.kind.parent);
      if exported.Err? {
        return Err(exported.error), s;
      }
      return Ok(([], ctxDef)), s;
    } else if IsFunctionKind(node.kind) {
      var resolved;
      resolved, s := ResolveDeclaration(e, s, Decl(node.key, node.kind, file, anc));
      if resolved.Err? {
        return Err(resolved.error), s;
      }
      return Ok(([], if resolved.value.Some? then resolved.value else ctxDef)), s;
    }
    return Ok(([], ctxDef)), s;
  }

  /** The function kinds `parseNode` resolves as definitions. */
  predicate IsFunctionKind(k: Kind) {
    k.FunctionDeclaration? || k.FunctionExpression? || k.ArrowFunction? || k.MethodDeclaration?
  }

  /** Call expression `key`, whose callee resolved to `resolved` and whose
      callbacks are `callbacks`, recorded from state `s0` to `s` as `calls`:
      a call is recorded exactly when the callee resolved or there are
      callbacks. It is numbered next, names the call expression, its
      callbacks and its block, and calls the callee's definition, or else a
      new synthetic definition holding just the call and cached under its
      key; it is appended to the context block and nothing else changes.
      Without a call the state is unchanged. */
  ghost predicate CallRecorded(s0: State, s: State, key: Key, resolved: Option<nat>, callbacks: seq<nat>,
                               ctxBlock: Option<nat>, calls: seq<CallRec>) {
    && |calls| <= 1
    && ((resolved.Some? || |callbacks| > 0) <==> |calls| == 1)
    && (|calls| == 0 ==> s == s0)
    && (|calls| == 1 ==>
          var c := calls[0];
          && c.key == key && c.callExpression == SiteNode(key) && c.parentNode == ctxBlock && c.callbacks == callbacks
          && (resolved.Some? ==>
                && c.functionDefinition == DeclaredRef(resolved.value) && c.id == s0.nextId
                && s.synthetic == s0.synthetic && s.syntheticDefinitions == s0.syntheticDefinitions)
          && (resolved.None? ==>
                && c.functionDefinition == SyntheticRef(|s0.synthetic|) && c.id == s0.nextId + 1
                && s.synthetic == s0.synthetic + [SyntheticRec(s0.nextId, key, [key])]
                && s.syntheticDefinitions == s0.syntheticDefinitions[key := |s0.synthetic|])
          && s.nextId == c.id + 1
          && s.sourceFiles == s0.sourceFiles && s.declared == s0.declared
          && s.functionDefinitions == s0.functionDefinitions && |s.blocks| == |s0.blocks|
          && (ctxBlock.Some? ==>
                && ctxBlock.value < |s0.blocks|
                && s.blocks[ctxBlock.value].parsedNodes == s0.blocks[ctxBlock.value].parsedNodes + [CallNode(c)]
                && s.blocks[ctxBlock.value].(parsedNodes := s0.blocks[ctxBlock.value].parsedNodes) == s0.blocks[ctxBlock.value])
          && (forall b :: 0 <= b < |s0.blocks| && (ctxBlock.None? || b != ctxBlock.value) ==> s.blocks[b] == s0.blocks[b]))
  }

  /** The call-expression case of `parseNode`: inside a definition, the
      callbacks are resolved through `states` with outcomes `outcomes`, then
      the callee, from the last of those states to `mid`, with outcome
      `resolved`; a callee that throws is thrown on, and otherwise the call
      is recorded as `CallRecorded` says. Outside a definition a call is
      ignored. */
  method VisitCall(e: Env, s0: State, key: Key, callee: Callee, args: seq<Option<Decl>>, ctxDef: Option<nat>, ctxBlock: Option<nat>)
    returns (r: Result<seq<CallRec>, Thrown>, s: State, ghost states: seq<State>,
             ghost outcomes: seq<Result<Option<nat>, Thrown>>, ghost mid: State, ghost resolved: Result<Option<nat>, Thrown>)
    requires Valid(e, s0) && KindClosed(CallExpression(callee, args), e.trees.Keys)
    requires ctxBlock.Some? ==> ctxBlock.value < |s0.blocks|
    ensures Valid(e, s) && Grew(s0, s) && Settled(s0, s)
    ensures ctxDef.None? ==> r == Ok([]) && s == s0
    ensures ctxDef.Some? ==>
      && ArgsResolved(e, states, args, outcomes) && states[0] == s0
      && CalleeResolved(e, states[|args|], mid, callee, resolved)
      && (r.Err? <==> resolved.Err?)
      && (r.Err? ==> r.error == resolved.error && s == mid)
      && (r.Ok? ==> CallRecorded(mid, s, key, resolved.value, CallbacksOf(outcomes), ctxBlock, r.value))
    ensures r.Ok? ==> |r.value| <= 1
    ensures r.Ok? && |r.value| == 1 ==>
      && (forall j :: 0 <= j < |r.value[0].callbacks| ==> r.value[0].callbacks[j] < |s.declared|)
      && (r.value[0].functionDefinition.DeclaredRef? ==> r.value[0].functionDefinition.index < |s.declared|)
    decreases Remaining(e, s0), 1, 3, 0
  {
    states, outcomes, mid, resolved := [s0], [], s0, Ok(None);
    if ctxDef.None? {
      return Ok([]), s0, states, outcomes, mid, resolved;
    }
    var callbacks, s1;
    callbacks, s1, states, outcomes := ResolveCallExpressionCallbacks(e, s0, args);
    var res, s2 := ResolveCallExpressionDeclaration(e, s1, callee);
    mid, resolved := s2, res;
    GrewSettledTrans(s0, s1, s2);
    if res.Err? {
      return Err(res.error), s2, states, outcomes, mid, resolved;
    }
    r, s := RecordCall(e, s2, key, res.value, callbacks, ctxBlock);
    GrewSettledTrans(s0, s2, s);
  }

  /** The end of `VisitCall`, once the callee and the callbacks are
      resolved: a call of the resolved definition, or of a new synthetic one
      when there is none but there are callbacks, or nothing. */
  method RecordCall(e: Env, s0: State, key: Key, resolved: Option<nat>, callbacks: seq<nat>, ctxBlock: Option<nat>)
    returns (r: Result<seq<CallRec>, Thrown>, s: State)
    requires Valid(e, s0) && (resolved.Some? ==> resolved.value < |s0.declared|)
    requires forall j :: 0 <= j < |callbacks| ==> callbacks[j] < |s0.declared|
    requires ctxBlock.Some? ==> ctxBlock.value < |s0.blocks|
    ensures Valid(e, s) && Grew(s0, s) && s.sourceFiles == s0.sourceFiles
    ensures r.Ok? && CallRecorded(s0, s, key, resolved, callbacks, ctxBlock, r.value)
  {
    s := s0;
    var target: DefRef;
    if resolved.Some? {
      target := DeclaredRef(resolved.value);
    } else if |callbacks| > 0 {
      target := SyntheticRef(|s.synthetic|);
      s := AddSynthetic(s, key, [key]);
    } else {
      return Ok([]), s;
    }
    var placed := PlaceCall(s, key, target, callbacks, ctxBlock);
    return Ok([placed.0]), placed.1;
  }

  lemma GrewSettledTrans(s0: State, s1: State, s2: State)
    requires Grew(s0, s1) && Settled(s0, s1)
    requires Grew(s1, s2) && (Settled(s1, s2) || s2.sourceFiles == s1.sourceFiles)
    ensures Grew(s0, s2) && Settled(s0, s2)
  {
  }

  /** Number call expression `key` as a call of `target` and append it to
      `ctxBlock` when there is one. */
  function PlaceCall(s: State, key: Key, target: DefRef, callbacks: seq<nat>, ctxBlock: Option<nat>): (r: (CallRec, State))
    requires ctxBlock.Some? ==> ctxBlock.value < |s.blocks|
    ensures r.0 == CallRec(s.nextId, key, SiteNode(key), target, callbacks, ctxBlock)
    ensures r.1.(blocks := s.blocks, nextId := s.nextId) == s && r.1.nextId == s.nextId + 1
    ensures |r.1.blocks| == |s.blocks|
    ensures ctxBlock.Some? ==> r.1.blocks[ctxBlock.value].parsedNodes == s.blocks[ctxBlock.value].parsedNodes + [CallNode(r.0)]
    ensures ctxBlock.Some? ==> r.1.blocks[ctxBlock.value].(parsedNodes := s.blocks[ctxBlock.value].parsedNodes) == s.blocks[ctxBlock.value]
    ensures forall i :: 0 <= i < |s.blocks| && (ctxBlock.None? || i != ctxBlock.value) ==> r.1.blocks[i] == s.blocks[i]
    ensures Bounded(s) ==> Bounded(r.1)
  {
    var call := CallRec(s.nextId, key, SiteNode(key), target, callbacks, ctxBlock);
    var numbered := s.(nextId := s.nextId + 1);
    if ctxBlock.Some? then (call, PushNode(numbered, ctxBlock.value, CallNode(call))) else (call, numbered)
  }

  /** The `export` keyword case of `parseNode`: the exported definitions are
      merged into the file's exports, replacing those of the same name. */
  method VisitExport(e: Env, s0: State, file: string, p: ExportKeywordParent)
    returns (r: Result<map<string, nat>, Thrown>, s: State, ghost states: seq<State>,
             ghost outcomes: seq<Result<Option<nat>, Thrown>>)
    requires Valid(e, s0) && file in s0.sourceFiles && ContainerClosed(GetExportKeywordContainer(p), e.trees.Keys)
    ensures Valid(e, s) && Grew(s0, s) && OthersSettled(s0, s, file)
    ensures file in s.sourceFiles && s.sourceFiles[file].status == s0.sourceFiles[file].status
    ensures r.Ok? ==> s.sourceFiles[file].exports == s0.sourceFiles[file].exports + r.value
    ensures r.Ok? ==>
      ExportKeywordDeclarations(GetExportKeywordContainer(p)).Ok? &&
      var entries := ExportKeywordDeclarations(GetExportKeywordContainer(p)).value;
      EntriesResolved(e, states, entries, outcomes) && states[0] == s0 && |outcomes| == |entries| &&
      r.value == ExportedFrom(entries, outcomes)
    ensures r.Err? ==> s.sourceFiles[file] == s0.sourceFiles[file]
    decreases Remaining(e, s0), 1, 3, 0
  {
    var resolved;
    resolved, s, states, outcomes := ResolveExportKeyword(e, s0, p);
    if resolved.Err? {
      return Err(resolved.error), s, states, outcomes;
    }
    var state := s.sourceFiles[file];
    s := s.(sourceFiles := s.sourceFiles[file := state.(exports := state.exports + resolved.value)]);
    assert forall g :: g in s.sourceFiles ==> ExportsIn(s.sourceFiles[g].exports, |s.declared|) by {
      forall g | g in s.sourceFiles ensures ExportsIn(s.sourceFiles[g].exports, |s.declared|) {
        if g == file {
          assert ExportsIn(state.exports, |s.declared|);
        }
      }
    }
    return Ok(resolved.value), s, states, outcomes;
  }

  /** The walk over the children of a node (`forEachChild`), inside
      definition `def` (`isNew` when the node itself opened it). A child's
      calls are passed up unless the node opened a new definition. Inside
      block `runBlock`, each maximal run of consecutive children without
      calls becomes one synthetic definition holding those children, keyed
      at its first child and called by a placeholder call pushed onto the
      block. `flags` says which children had calls and `childCalls` what
      those were; `runSyn` is the synthetic definition of each run. */
  method ParseChildren(e: Env, s0: State, node: Node, file: string, anc: seq<Ancestor>, def: Option<nat>, isNew: bool,
                       childBlock: Option<nat>, runBlock: Option<nat>)
    returns (r: Result<seq<CallRec>, Thrown>, s: State, ghost flags: seq<bool>, ghost childCalls: seq<seq<CallRec>>,
             ghost runSyn: seq<nat>)
    requires Valid(e, s0) && file in s0.sourceFiles && forall c :: c in node.children ==> NodeClosed(c, e.trees.Keys)
    requires def.Some? ==> def.value < |s0.declared|
    requires childBlock.Some? ==> childBlock.value < |s0.blocks|
    requires runBlock.Some? ==> runBlock.value < |s0.blocks|
    ensures Valid(e, s) && Grew(s0, s) && OthersSettled(s0, s, file)
    ensures file in s.sourceFiles && s.sourceFiles[file].status == s0.sourceFiles[file].status
    ensures r.Ok? ==> |flags| == |childCalls| == |node.children|
    ensures r.Ok? ==> forall j :: 0 <= j < |flags| ==> flags[j] == (|childCalls[j]| > 0)
    ensures r.Ok? ==> r.value == if def.Some? && !isNew then Flatten(childCalls) else []
    ensures r.Ok? && def.Some? && runBlock.Some? ==> GroupedInto(Keys(node.children), Runs(flags), runSyn, s.synthetic)
    decreases Remaining(e, s0), 2, Size(node), 0
  {
    s := s0;
    var children := node.children;
    var calls: seq<CallRec> := [];
    var run: Option<nat> := None;
    var grouping := if def.Some? then runBlock else None;
    var passUp := def.Some? && !isNew;
    flags, childCalls, runSyn := [], [], [];
    var i := 0;
    while i < |children|
      invariant ChildrenLoop(e, s0, s, node, file, def, childBlock, grouping, passUp, i, calls, run, flags, childCalls, runSyn)
      decreases |children| - i
    {
      SizeOfChild(children, i);
      var res;
      res, s, calls, run, flags, childCalls, runSyn :=
        ParseChild(e, s0, s, node, i, file, anc, def, childBlock, grouping, passUp, calls, run, flags, childCalls, runSyn);
      if res.Err? {
        return Err(res.error), s, flags, childCalls, runSyn;
      }
      i := i + 1;
    }
    assert Keys(children)[..i] == Keys(children);
    return Ok(calls), s, flags, childCalls, runSyn;
  }

  /** The state of the loop over the children of `node` after `i` of them:
      every child so far parsed, its calls passed up when the definition is
      not new, and the statements grouped into runs. */
  ghost predicate ChildrenLoop(e: Env, s0: State, s: State, node: Node, file: string, def: Option<nat>,
                               childBlock: Option<nat>, grouping: Option<nat>, passUp: bool, i: nat,
                               calls: seq<CallRec>, run: Option<nat>, flags: seq<bool>,
                               childCalls: seq<seq<CallRec>>, runSyn: seq<nat>) {
    && i <= |node.children|
    && Walked(e, s0, s, file, def, childBlock, grouping)
    && |flags| == i && PassedUp(calls, flags, childCalls, passUp)
    && RunState(Keys(node.children)[..i], flags, grouping, run, runSyn, s.synthetic)
    && (run.Some? ==> |s0.synthetic| <= run.value)
  }

  /** One pass of the loop over a node's children: parse child `i`, then
      group it with its neighbours. */
  method ParseChild(e: Env, ghost s0: State, s1: State, node: Node, i: nat, file: string, anc: seq<Ancestor>,
                    def: Option<nat>, childBlock: Option<nat>, grouping: Option<nat>, passUp: bool,
                    calls0: seq<CallRec>, run0: Option<nat>,
                    ghost flags0: seq<bool>, ghost childCalls0: seq<seq<CallRec>>, ghost runSyn0: seq<nat>)
    returns (res: Result<(), Thrown>, s: State, calls: seq<CallRec>, run: Option<nat>,
             ghost flags: seq<bool>, ghost childCalls: seq<seq<CallRec>>, ghost runSyn: seq<nat>)
    requires i < |node.children| && NodeClosed(node.children[i], e.trees.Keys)
    requires ChildrenLoop(e, s0, s1, node, file, def, childBlock, grouping, passUp, i, calls0, run0, flags0, childCalls0, runSyn0)
    ensures Walked(e, s0, s, file, def, childBlock, grouping)
    ensures res.Ok? ==> ChildrenLoop(e, s0, s, node, file, def, childBlock, grouping, passUp, i + 1, calls, run, flags, childCalls, runSyn)
    decreases Remaining(e, s1), 2, Size(node.children[i]), 4
  {
    calls, run, flags, childCalls, runSyn := calls0, run0, flags0, childCalls0, runSyn0;
    var child := node.children[i];
    var parsed;
    parsed, s := ParseNode(e, s1, child, file, anc, def, childBlock);
    if parsed.Err? {
      WalkedStep(e, s0, s1, s, file, def, childBlock, grouping);
      return Err(parsed.error), s, calls, run, flags, childCalls, runSyn;
    }
    s, calls, run, flags, childCalls, runSyn :=
      GroupChild(e, s0, s1, s, node, i, file, def, childBlock, grouping, passUp, calls0, run0, flags0, childCalls0, runSyn0,
        parsed.value);
    res := Ok(());
  }

  /** The rest of one pass of the loop over a node's children, once child
      `i` is parsed with calls `cs`: group it with its neighbours and pass its
      calls up. */
  method GroupChild(e: Env, ghost s0: State, ghost s1: State, s2: State, node: Node, i: nat, file: string,
                    def: Option<nat>, childBlock: Option<nat>, grouping: Option<nat>, passUp: bool,
                    calls0: seq<CallRec>, run0: Option<nat>,
                    ghost flags0: seq<bool>, ghost childCalls0: seq<seq<CallRec>>, ghost runSyn0: seq<nat>,
                    cs: seq<CallRec>)
    returns (s: State, calls: seq<CallRec>, run: Option<nat>,
             ghost flags: seq<bool>, ghost childCalls: seq<seq<CallRec>>, ghost runSyn: seq<nat>)
    requires i < |node.children|
    requires ChildrenLoop(e, s0, s1, node, file, def, childBlock, grouping, passUp, i, calls0, run0, flags0, childCalls0, runSyn0)
    requires Valid(e, s2) && Grew(s1, s2) && OthersSettled(s1, s2, file)
    requires file in s2.sourceFiles && s2.sourceFiles[file].status == s1.sourceFiles[file].status
    ensures ChildrenLoop(e, s0, s, node, file, def, childBlock, grouping, passUp, i + 1, calls, run, flags, childCalls, runSyn)
  {
    run, s, runSyn := GroupStep(e, s1.synthetic, s2, grouping, run0, Keys(node.children)[..i], flags0, runSyn0,
      node.children[i].key, |cs| > 0);
    WalkedStep(e, s0, s1, s, file, def, childBlock, grouping);
    PassedUpSnoc(calls0, flags0, childCalls0, passUp, cs);
    calls := calls0 + if passUp then cs else [];
    flags, childCalls := flags0 + [|cs| > 0], childCalls0 + [cs];
    ChildrenLoopStep(e, s0, s, node, i, file, def, childBlock, grouping, passUp, calls, run, flags, childCalls, runSyn);
  }

  lemma ChildrenLoopStep(e: Env, s0: State, s: State, node: Node, i: nat, file: string, def: Option<nat>,
                         childBlock: Option<nat>, grouping: Option<nat>, passUp: bool, calls: seq<CallRec>,
                         run: Option<nat>, flags: seq<bool>, childCalls: seq<seq<CallRec>>, runSyn: seq<nat>)
    requires i < |node.children| && |flags| == i + 1
    requires Walked(e, s0, s, file, def, childBlock, grouping)
    requires PassedUp(calls, flags, childCalls, passUp)
    requires RunState(Keys(node.children)[..i] + [node.children[i].key], flags, grouping, run, runSyn, s.synthetic)
    requires run.Some? ==> |s0.synthetic| <= run.value
    ensures ChildrenLoop(e, s0, s, node, file, def, childBlock, grouping, passUp, i + 1, calls, run, flags, childCalls, runSyn)
  {
    KeysPrefix(node.children, i);
  }

  /** `Grew`, except that synthetic definitions from `floor` on may have
      been extended. */
  ghost predicate GrewBelow(s0: State, s: State, floor: nat) {
    && |s0.sourceFiles| <= |s.sourceFiles|
    && |s0.declared| <= |s.declared|
    && |s0.blocks| <= |s.blocks|
    && |s0.synthetic| <= |s.synthetic|
    && (forall i :: 0 <= i < floor && i < |s0.synthetic| ==> s.synthetic[i] == s0.synthetic[i])
  }

  /** What the walk over a node's children keeps from its start `s0`. */
  ghost predicate Walked(e: Env, s0: State, s: State, file: string, def: Option<nat>, childBlock: Option<nat>,
                         grouping: Option<nat>) {
    && Valid(e, s) && Grew(s0, s) && OthersSettled(s0, s, file)
    && file in s0.sourceFiles && file in s.sourceFiles
    && s.sourceFiles[file].status == s0.sourceFiles[file].status
    && (def.Some? ==> def.value < |s.declared|)
    && (childBlock.Some? ==> childBlock.value < |s.blocks|)
    && (grouping.Some? ==> grouping.value < |s.blocks|)
  }

  lemma WalkedStep(e: Env, s0: State, s1: State, s2: State, file: string, def: Option<nat>, childBlock: Option<nat>,
                   grouping: Option<nat>)
    requires Walked(e, s0, s1, file, def, childBlock, grouping)
    requires Valid(e, s2) && GrewBelow(s1, s2, |s0.synthetic|) && OthersSettled(s1, s2, file)
    requires file in s2.sourceFiles && s2.sourceFiles[file].status == s1.sourceFiles[file].status
    ensures Walked(e, s0, s2, file, def, childBlock, grouping)
  {
  }

  /** The calls the children parsed so far pass up: those of every child
      when the definition is not new, and none otherwise. */
  ghost predicate PassedUp(calls: seq<CallRec>, flags: seq<bool>, childCalls: seq<seq<CallRec>>, passUp: bool) {
    && |flags| == |childCalls|
    && (forall j :: 0 <= j < |flags| ==> flags[j] == (|childCalls[j]| > 0))
    && calls == if passUp then Flatten(childCalls) else []
  }

  lemma PassedUpSnoc(calls: seq<CallRec>, flags: seq<bool>, childCalls: seq<seq<CallRec>>, passUp: bool, cs: seq<CallRec>)
    requires PassedUp(calls, flags, childCalls, passUp)
    ensures PassedUp(calls + (if passUp then cs else []), flags + [|cs| > 0], childCalls + [cs], passUp)
  {
    FlattenSnoc(childCalls, cs);
  }

  lemma KeysPrefix(ns: seq<Node>, i: nat)
    requires i < |ns|
    ensures Keys(ns)[..i + 1] == Keys(ns)[..i] + [ns[i].key]
  {
  }

  /** The state after a statement without calls opens a new run inside
      block `g`: a synthetic definition keyed and holding the statement, and
      a placeholder call of it appended to the block. */
  function StartRun(s: State, g: nat, key: Key): (r: State)
    requires g < |s.blocks|
    ensures r.synthetic == s.synthetic + [SyntheticRec(s.nextId, key, [key])]
    ensures r.syntheticDefinitions == s.syntheticDefinitions[key := |s.synthetic|]
    ensures |r.blocks| == |s.blocks|
    ensures r.blocks[g].parsedNodes ==
      s.blocks[g].parsedNodes + [CallNode(CallRec(s.nextId + 1, key, PlaceholderCall, SyntheticRef(|s.synthetic|), [], Some(g)))]
    ensures r.blocks[g].(parsedNodes := s.blocks[g].parsedNodes) == s.blocks[g]
    ensures forall i :: 0 <= i < |s.blocks| && i != g ==> r.blocks[i] == s.blocks[i]
    ensures r.nextId == s.nextId + 2
    ensures r.sourceFiles == s.sourceFiles && r.declared == s.declared && r.functionDefinitions == s.functionDefinitions
    ensures Bounded(s) ==> Bounded(r)
  {
    var index := |s.synthetic|;
    var s1 := AddSynthetic(s, key, []);
    var placeholder := CallRec(s1.nextId, key, PlaceholderCall, SyntheticRef(index), [], Some(g));
    var s2 := PushNode(s1.(nextId := s1.nextId + 1), g, CallNode(placeholder));
    assert s2.synthetic == s1.synthetic;
    var r := ExtendSynthetic(s2, index, key);
    assert r.synthetic[index] == SyntheticRec(s.nextId, key, [key]);
    r
  }

  /** A grouping kept over a prefix of the synthetic definitions is kept
      over the longer list. */
  lemma RunStateGrow(keys: seq<Key>, flags: seq<bool>, grouping: Option<nat>, run: Option<nat>,
                     runSyn: seq<nat>, syn: seq<SyntheticRec>, syn2: seq<SyntheticRec>)
    requires RunState(keys, flags, grouping, run, runSyn, syn)
    requires |syn| <= |syn2| && forall i :: 0 <= i < |syn| ==> syn2[i] == syn[i]
    ensures RunState(keys, flags, grouping, run, runSyn, syn2)
  {
    if grouping.Some? {
      GroupedGrow(keys, Runs(flags), runSyn, syn, syn2);
    }
  }

  /** A statement with calls closes the current run. */
  lemma RunStateCalls(keys: seq<Key>, flags: seq<bool>, g: nat, run: Option<nat>,
                      runSyn: seq<nat>, syn: seq<SyntheticRec>, key: Key)
    requires RunState(keys, flags, Some(g), run, runSyn, syn)
    ensures RunState(keys + [key], flags + [true], Some(g), None, runSyn, syn)
  {
    GroupedKeys(keys, Runs(flags), runSyn, syn, key);
    RunsSnocTrue(flags);
  }

  /** A statement without calls after one with calls starts a run. */
  lemma RunStateStart(keys: seq<Key>, flags: seq<bool>, g: nat, runSyn: seq<nat>,
                      syn: seq<SyntheticRec>, key: Key, id: nat)
    requires RunState(keys, flags, Some(g), None, runSyn, syn)
    ensures RunState(keys + [key], flags + [false], Some(g), Some(|syn|), runSyn + [|syn|],
                     syn + [SyntheticRec(id, key, [key])])
  {
    GroupedStart(keys, Runs(flags), runSyn, syn, key, id);
    RunsSnocStart(flags);
  }

  /** A statement without calls after another one joins its run. */
  lemma RunStateExtend(keys: seq<Key>, flags: seq<bool>, g: nat, run: nat, runSyn: seq<nat>,
                       syn: seq<SyntheticRec>, key: Key)
    requires RunState(keys, flags, Some(g), Some(run), runSyn, syn)
    ensures RunState(keys + [key], flags + [false], Some(g), Some(run), runSyn,
                     syn[run := syn[run].(nodes := syn[run].nodes + [key])])
  {
    GroupedExtend(keys, Runs(flags), runSyn, syn, key);
    RunsSnocExtend(flags);
  }

  /** One child of a block after its parse, inside a definition: with
      calls it closes the open run; without calls it joins the open run,
      or starts one with a new synthetic definition and a placeholder call
      of it pushed onto the block. */
  method GroupStep(e: Env, ghost synBefore: seq<SyntheticRec>, s0: State, grouping: Option<nat>, run: Option<nat>,
                   ghost keys: seq<Key>, ghost flags: seq<bool>, ghost runSyn0: seq<nat>, key: Key, hasCalls: bool)
    returns (run': Option<nat>, s: State, ghost runSyn: seq<nat>)
    requires Valid(e, s0) && (grouping.Some? ==> grouping.value < |s0.blocks|)
    requires RunState(keys, flags, grouping, run, runSyn0, synBefore)
    requires |synBefore| <= |s0.synthetic| && forall i :: 0 <= i < |synBefore| ==> s0.synthetic[i] == synBefore[i]
    ensures Valid(e, s)
    ensures RunState(keys + [key], flags + [hasCalls], grouping, run', runSyn, s.synthetic)
    ensures run'.Some? ==> (run.Some? && run'.value == run.value) || run'.value == |s0.synthetic|
    ensures s.sourceFiles == s0.sourceFiles && s.declared == s0.declared && |s0.blocks| == |s.blocks|
    ensures |s0.synthetic| <= |s.synthetic|
    ensures forall i :: 0 <= i < |s0.synthetic| && (run.None? || i != run.value) ==> s.synthetic[i] == s0.synthetic[i]
    ensures grouping.None? || hasCalls ==> s == s0 && run'.None?
    ensures grouping.Some? && !hasCalls && run.None? ==> s == StartRun(s0, grouping.value, key) && run' == Some(|s0.synthetic|)
    ensures grouping.Some? && !hasCalls && run.Some? ==>
      && run' == run && run.value < |s0.synthetic| && s == ExtendSynthetic(s0, run.value, key)
      && s.blocks == s0.blocks && s.nextId == s0.nextId
  {
    if grouping.None? {
      s, runSyn, run' := s0, runSyn0, None;
      return;
    }
    RunStateGrow(keys, flags, grouping, run, runSyn0, synBefore, s0.synthetic);
    if hasCalls {
      s, runSyn, run' := s0, runSyn0, None;
      RunStateCalls(keys, flags, grouping.value, run, runSyn0, s0.synthetic, key);
    } else if run.None? {
      run', s, runSyn := OpenRun(e, s0, grouping.value, keys, flags, runSyn0, key);
    } else {
      s := ExtendRun(e, s0, grouping.value, run.value, keys, flags, runSyn0, key);
      runSyn, run' := runSyn0, run;
    }
  }

  /** `GroupStep` for a statement without calls that starts a run. */
  method OpenRun(e: Env, s0: State, g: nat, ghost keys: seq<Key>, ghost flags: seq<bool>,
                 ghost runSyn0: seq<nat>, key: Key)
    returns (run': Option<nat>, s: State, ghost runSyn: seq<nat>)
    requires Valid(e, s0) && g < |s0.blocks|
    requires RunState(keys, flags, Some(g), None, runSyn0, s0.synthetic)
    ensures Valid(e, s)
    ensures RunState(keys + [key], flags + [false], Some(g), run', runSyn, s.synthetic)
    ensures run' == Some(|s0.synthetic|)
    ensures s == StartRun(s0, g, key)
  {
    s := StartRun(s0, g, key);
    RunStateStart(keys, flags, g, runSyn0, s0.synthetic, key, s0.nextId);
    runSyn := runSyn0 + [|s0.synthetic|];
    run' := Some(|s0.synthetic|);
  }

  /** `GroupStep` for a statement without calls that joins run `run`. */
  method ExtendRun(e: Env, s0: State, g: nat, run: nat, ghost keys: seq<Key>, ghost flags: seq<bool>,
                   ghost runSyn0: seq<nat>, key: Key)
    returns (s: State)
    requires Valid(e, s0) && g < |s0.blocks|
    requires RunState(keys, flags, Some(g), Some(run), runSyn0, s0.synthetic)
    ensures Valid(e, s)
    ensures RunState(keys + [key], flags + [false], Some(g), Some(run), runSyn0, s.synthetic)
    ensures run < |s0.synthetic| && s == ExtendSynthetic(s0, run, key)
    ensures s.blocks == s0.blocks && s.nextId == s0.nextId
  {
    s := ExtendSynthetic(s0, run, key);
    assert s.synthetic == s0.synthetic[run := s0.synthetic[run].(nodes := s0.synthetic[run].nodes + [key])];
    RunStateExtend(keys, flags, g, run, runSyn0, s0.synthetic, key);
  }

  /** The parsed nodes a block keeps when it ends: all of them, unless the
      only one is a call of a synthetic definition or an empty block. */
  function Collapsed(ps: seq<PNode>, blocks: seq<BlockRec>): (r: seq<PNode>)
    ensures r == ps || r == []
    ensures |ps| != 1 ==> r == ps
    ensures |r| == 1 ==> !DroppedWhenAlone(r[0], blocks)
    ensures |ps| == 1 && DroppedWhenAlone(ps[0], blocks) ==> r == []
  {
    if |ps| == 1 && DroppedWhenAlone(ps[0], blocks) then [] else ps
  }

  /** Run `k` of `runs` over the statements `keys` is held by synthetic
      definition `runSyn[k]`: keyed at the run's first statement, holding
      the run's statements in order; later runs have later definitions. */
  ghost predicate GroupedInto(keys: seq<Key>, runs: seq<(nat, nat)>, runSyn: seq<nat>, synthetic: seq<SyntheticRec>) {
    && |runSyn| == |runs|
    && (forall k :: 0 <= k < |runs| ==> runs[k].0 < runs[k].1 <= |keys|)
    && (forall k :: 0 <= k < |runSyn| ==> runSyn[k] < |synthetic|)
    && (forall k, l :: 0 <= k < l < |runSyn| ==> runSyn[k] < runSyn[l])
    && (forall k :: 0 <= k < |runs| ==>
          synthetic[runSyn[k]].key == keys[runs[k].0] &&
          synthetic[runSyn[k]].nodes == keys[runs[k].0..runs[k].1])
  }

  /** New synthetic definitions, with the old ones unchanged, keep the
      grouping. */
  lemma GroupedGrow(keys: seq<Key>, runs: seq<(nat, nat)>, runSyn: seq<nat>, syn: seq<SyntheticRec>, syn2: seq<SyntheticRec>)
    requires GroupedInto(keys, runs, runSyn, syn)
    requires |syn| <= |syn2| && forall i :: 0 <= i < |syn| ==> syn2[i] == syn[i]
    ensures GroupedInto(keys, runs, runSyn, syn2)
  {
    assert forall k :: 0 <= k < |runSyn| ==> syn2[runSyn[k]] == syn[runSyn[k]];
  }

  /** A statement with calls leaves the runs as they are. */
  lemma GroupedKeys(keys: seq<Key>, runs: seq<(nat, nat)>, runSyn: seq<nat>, syn: seq<SyntheticRec>, x: Key)
    requires GroupedInto(keys, runs, runSyn, syn)
    ensures GroupedInto(keys + [x], runs, runSyn, syn)
  {
    forall k | 0 <= k < |runs| ensures (keys + [x])[runs[k].0..runs[k].1] == keys[runs[k].0..runs[k].1] {
    }
  }

  /** A statement without calls after one with calls starts a run, held by
      a new synthetic definition of that statement alone. */
  lemma GroupedStart(keys: seq<Key>, runs: seq<(nat, nat)>, runSyn: seq<nat>, syn: seq<SyntheticRec>, x: Key, id: nat)
    requires GroupedInto(keys, runs, runSyn, syn)
    ensures GroupedInto(keys + [x], runs + [(|keys|, |keys| + 1)], runSyn + [|syn|], syn + [SyntheticRec(id, x, [x])])
  {
    var keys2, runs2, runSyn2, syn2 := keys + [x], runs + [(|keys|, |keys| + 1)], runSyn + [|syn|], syn + [SyntheticRec(id, x, [x])];
    forall k | 0 <= k < |runs2|
      ensures syn2[runSyn2[k]].key == keys2[runs2[k].0] && syn2[runSyn2[k]].nodes == keys2[runs2[k].0..runs2[k].1]
    {
      if k < |runs| {
        assert keys2[runs[k].0..runs[k].1] == keys[runs[k].0..runs[k].1];
        assert syn2[runSyn[k]] == syn[runSyn[k]];
      } else {
        assert keys2[|keys|..|keys| + 1] == [x];
      }
    }
  }

  /** A statement without calls after another one extends the current run
      and its synthetic definition. */
  lemma GroupedExtend(keys: seq<Key>, runs: seq<(nat, nat)>, runSyn: seq<nat>, syn: seq<SyntheticRec>, x: Key)
    requires GroupedInto(keys, runs, runSyn, syn)
    requires |runs| > 0 && runs[|runs| - 1].1 == |keys|
    ensures var last := |runs| - 1; var s := runSyn[last];
      GroupedInto(keys + [x], runs[..last] + [(runs[last].0, |keys| + 1)], runSyn,
                  syn[s := syn[s].(nodes := syn[s].nodes + [x])])
  {
    var last := |runs| - 1;
    var s := runSyn[last];
    var keys2, runs2, syn2 := keys + [x], runs[..last] + [(runs[last].0, |keys| + 1)], syn[s := syn[s].(nodes := syn[s].nodes + [x])];
    forall k | 0 <= k < |runs2|
      ensures syn2[runSyn[k]].key == keys2[runs2[k].0] && syn2[runSyn[k]].nodes == keys2[runs2[k].0..runs2[k].1]
    {
      if k < last {
        assert runSyn[k] < s;
        assert runs2[k] == runs[k];
        assert keys2[runs[k].0..runs[k].1] == keys[runs[k].0..runs[k].1];
      } else {
        assert keys2[runs[last].0..|keys| + 1] == keys[runs[last].0..|keys|] + [x];
      }
    }
  }

  /** The grouping state of the walk over a block's children `keys` whose
      flags are `flags`: the runs so far are held by `runSyn`, and `run` is
      the synthetic definition of the run still open at the end. */
  ghost predicate RunState(keys: seq<Key>, flags: seq<bool>, grouping: Option<nat>, run: Option<nat>,
                           runSyn: seq<nat>, synthetic: seq<SyntheticRec>) {
    && |keys| == |flags|
    && (grouping.None? ==> run.None?)
    && (grouping.Some? ==>
          && GroupedInto(keys, Runs(flags), runSyn, synthetic)
          && (run.Some? <==> |flags| > 0 && !flags[|flags| - 1]))
    && (run.Some? ==>
          && |runSyn| > 0 && run.value == runSyn[|runSyn| - 1] && run.value < |synthetic|
          && |Runs(flags)| > 0 && Runs(flags)[|Runs(flags)| - 1].1 == |flags|)
  }
}
