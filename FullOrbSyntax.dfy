/** The syntax the full-orb compiler walks, with the answers of the TypeScript
    type checker folded into it, and the pure helpers of
    `compilers/full-orb.ts` that read it.

    A node is identified by its key (`createNodeKey`): distinct nodes have
    distinct keys, so comparing keys is comparing nodes. */
module FullOrbSyntax {
  import opened Util
  import opened Modules

  type Key = nat

  /** An identifier and the declaration `getNodeDeclaration` finds for it. */
  datatype Ident = Ident(key: Key, declaration: Option<Decl>)

  /** The `expression` of a call: a bare identifier, a property access (its
      member name and its base expression, each present when it is an
      identifier), or anything else. */
  datatype Callee =
    | IdentifierCallee(ident: Ident)
    | PropertyAccessCallee(name: Option<Ident>, base: Option<Ident>)
    | OtherCallee

  /** The `namedBindings` of an import clause. */
  datatype NamedBindings = NoBindings | NamespaceImport | NamedImports(names: seq<string>)

  /** A function or arrow expression and the body block `getDefinitionBody`
      finds for it. */
  datatype FunctionChild = FunctionChild(key: Key, body: Option<Key>)

  /** What the compiler distinguishes about a node (its `kind`), with the
      details it reads from that kind of node. */
  datatype Kind =
    | SourceFileKind
    | CallExpression(callee: Callee, arguments: seq<Option<Decl>>)
    | FunctionDeclaration(body: Option<Key>)
    | FunctionExpression(body: Option<Key>)
    | ArrowFunction(body: Option<Key>)
    | MethodDeclaration(body: Option<Key>)
    | Block
    | ExportKeyword(parent: ExportKeywordParent)
    | VariableDeclaration(initializer: Option<FunctionChild>)
    | ImportSpecifier(name: string, specifier: ModuleSpecifier)
    | ImportClause(hasName: bool, bindings: NamedBindings, specifier: ModuleSpecifier)
    | OtherKind(body: Option<Key>)

  /** The kind of a parent node, as far as the search for a variable to
      store a function expression under cares. */
  datatype AncestorKind = SourceFileAncestor | CallAncestor | VariableAncestor | OtherAncestor

  datatype Ancestor = Ancestor(kind: AncestorKind, key: Key)

  /** A declaration: its key and kind, the name of its source file, and its
      parents from the nearest outwards. */
  datatype Decl = Decl(key: Key, kind: Kind, file: string, ancestors: seq<Ancestor>)

  datatype Node = Node(key: Key, kind: Kind, children: seq<Node>)

  /** The `exportClause` of an export declaration; a named clause lists each
      specifier's name and the declaration `getExportSpecifierLocalTargetSymbol`
      finds for it. */
  datatype ExportClause = NoExportClause | NamespaceExport | NamedExports(elements: seq<(string, Option<Decl>)>)

  /** The node an `export` keyword belongs to. */
  datatype Container =
    | ExportDeclaration(clause: ExportClause)
    | ExportAssignment(target: Option<Decl>)
    | ClassContainer
    | FunctionContainer(name: Option<string>, self: Decl)
    | VariableStatement(declarations: seq<Decl>)
    | OtherContainer

  /** The parent of an `export` keyword, and that parent's parent. */
  datatype ExportKeywordParent = ExportKeywordParent(parentIsSyntaxList: bool, parent: Container, grandparent: Container)

  function AncestorOf(n: Node): Ancestor {
    Ancestor(
      match n.kind
      case SourceFileKind => SourceFileAncestor
      case CallExpression(_, _) => CallAncestor
      case VariableDeclaration(_) => VariableAncestor
      case _ => OtherAncestor,
      n.key)
  }

  /** `getCallExpressionIdentifier` */
  function GetCallExpressionIdentifier(callee: Callee): (r: Option<Ident>)
    ensures callee.IdentifierCallee? ==> r == Some(callee.ident)
    ensures callee.PropertyAccessCallee? && callee.name.Some? ==> r == callee.name
    ensures callee.PropertyAccessCallee? && callee.name.None? ==> r == callee.base
    ensures callee.OtherCallee? ==> r.None?
  {
    match callee
    case IdentifierCallee(i) => Some(i)
    case PropertyAccessCallee(name, base) => if name.Some? then name else base
    case OtherCallee => None
  }

  predicate IsImport(k: Kind) {
    k.ImportSpecifier? || k.ImportClause?
  }

  /** `parseImportNode`: the module specifier of the import and the name it
      imports; a clause that is neither a default nor a namespace import and
      has no first named binding fails on the missing element. */
  function ParseImportNode(k: Kind): (r: Result<(ModuleSpecifier, string), Thrown>)
    requires IsImport(k)
    ensures r.Ok? ==> r.value.0 == k.specifier
    ensures k.ImportSpecifier? ==> r == Ok((k.specifier, k.name))
    ensures k.ImportClause? && (k.hasName || k.bindings.NamespaceImport?) ==> r == Ok((k.specifier, "default"))
    ensures k.ImportClause? && !k.hasName && k.bindings.NamedImports? && |k.bindings.names| > 0 ==>
      r == Ok((k.specifier, k.bindings.names[0]))
    ensures r.Err? <==> (k.ImportClause? && !k.hasName &&
      (k.bindings.NoBindings? || (k.bindings.NamedImports? && k.bindings.names == [])))
  {
    match k
    case ImportSpecifier(name, spec) => Ok((spec, name))
    case ImportClause(hasName, bindings, spec) =>
      if hasName || bindings.NamespaceImport? then Ok((spec, "default"))
      else match bindings
        case NamedImports(names) =>
          if |names| > 0 then Ok((spec, names[0]))
          else Err(TypeError("Cannot read properties of undefined (reading 'name')"))
        case NoBindings => Err(TypeError("Cannot read properties of undefined (reading 'elements')"))
  }

  /** `getExportKeywordContainer`: modifiers held in a syntax list belong to
      that list's parent. */
  function GetExportKeywordContainer(p: ExportKeywordParent): Container {
    if p.parentIsSyntaxList then p.grandparent else p.parent
  }

  /** `isFunctionExpression` */
  predicate IsFunctionExpression(k: Kind) {
    k.FunctionExpression? || k.ArrowFunction?
  }

  /** The kinds `resolveCallExpressionCallbacks` tries to resolve. */
  predicate IsCallbackKind(k: Kind) {
    k.VariableDeclaration? || k.FunctionDeclaration? || k.FunctionExpression? ||
    k.ArrowFunction? || k.MethodDeclaration?
  }

  /** The function node a declaration defines and its body: the function
      expression child of a variable, and the declaration itself otherwise.
      The body of a declaration is the one `getDefinitionBody` finds, its own
      or that of another declaration of its symbol (an accessor or an
      implementation signature, say); the kinds that are never declarations
      (a call, a block, a keyword, an import, a file) have none. */
  function Definition(d: Decl): (r: Option<FunctionChild>)
    ensures d.kind.VariableDeclaration? ==> r == d.kind.initializer
    ensures !d.kind.VariableDeclaration? ==> r.Some? && r.value.key == d.key
    ensures (d.kind.FunctionDeclaration? || d.kind.FunctionExpression? || d.kind.ArrowFunction? ||
             d.kind.MethodDeclaration? || d.kind.OtherKind?) ==> r == Some(FunctionChild(d.key, d.kind.body))
    ensures (d.kind.SourceFileKind? || d.kind.CallExpression? || d.kind.Block? || d.kind.ExportKeyword? ||
             IsImport(d.kind)) ==> r == Some(FunctionChild(d.key, None))
  {
    match d.kind
    case VariableDeclaration(f) => f
    case FunctionDeclaration(b) => Some(FunctionChild(d.key, b))
    case FunctionExpression(b) => Some(FunctionChild(d.key, b))
    case ArrowFunction(b) => Some(FunctionChild(d.key, b))
    case MethodDeclaration(b) => Some(FunctionChild(d.key, b))
    case OtherKind(b) => Some(FunctionChild(d.key, b))
    case _ => Some(FunctionChild(d.key, None))
  }

  // ---------------------------------------------------------------------
  // The node a function expression is stored under

  predicate StopsSearch(a: Ancestor) {
    a.kind.SourceFileAncestor? || a.kind.CallAncestor?
  }

  /** The key of the first variable declaration on `chain` met before any
      call expression or the source file. */
  function AnchorIn(chain: seq<Ancestor>): (r: Option<Key>)
    ensures r.Some? ==> exists i :: (0 <= i < |chain| && chain[i] == Ancestor(VariableAncestor, r.value) &&
      forall j :: 0 <= j < i ==> !StopsSearch(chain[j]) && !chain[j].kind.VariableAncestor?)
    ensures r.None? ==> forall i :: 0 <= i < |chain| && chain[i].kind.VariableAncestor? ==>
      exists j :: 0 <= j < i && StopsSearch(chain[j])
  {
    if |chain| == 0 || StopsSearch(chain[0]) then None
    else if chain[0].kind.VariableAncestor? then Some(chain[0].key)
    else
      var r := AnchorIn(chain[1..]);
      if r.Some? then
        var i :| 0 <= i < |chain[1..]| && chain[1..][i] == Ancestor(VariableAncestor, r.value) &&
          forall j :: 0 <= j < i ==> !StopsSearch(chain[1..][j]) && !chain[1..][j].kind.VariableAncestor?;
        assert chain[i + 1] == chain[1..][i];
        r
      else
        assert forall i :: 1 <= i < |chain| ==> chain[i] == chain[1..][i - 1];
        r
  }

  /** The key `resolveDeclaration` stores a new definition under: a function
      or arrow expression is stored under the variable it is assigned to,
      unless a call expression encloses it first; anything else under its
      own key. */
  function StorageKey(d: Decl): Key {
    if IsFunctionExpression(d.kind) then AnchorIn(d.ancestors).GetOr(d.key) else d.key
  }

  /** The search loop of `resolveDeclaration` (lines 340-352), which starts
      at the declaration itself and climbs through its parents. */
  method ReanchorKey(d: Decl) returns (key: Key)
    ensures key == StorageKey(d)
  {
    key := d.key;
    if IsFunctionExpression(d.kind) {
      var i := 0;
      while i < |d.ancestors|
        invariant 0 <= i <= |d.ancestors|
        invariant AnchorIn(d.ancestors) == AnchorIn(d.ancestors[i..])
        decreases |d.ancestors| - i
      {
        var a := d.ancestors[i];
        if a.kind.SourceFileAncestor? || a.kind.CallAncestor? {
          return;
        }
        if a.kind.VariableAncestor? {
          key := a.key;
          return;
        }
        assert d.ancestors[i..][1..] == d.ancestors[i + 1..];
        i := i + 1;
      }
    }
  }

  /** Every variable-declaration name is an object, so as a property key each
      becomes this string. */
  const ObjectKey := "[object Object]"

  /** The named exports whose local declaration was found. */
  function FoundExports(els: seq<(string, Option<Decl>)>): (r: seq<(string, Decl)>)
    ensures forall i :: 0 <= i < |r| ==> (r[i].0, Some(r[i].1)) in els
    ensures forall j :: 0 <= j < |els| && els[j].1.Some? ==> (els[j].0, els[j].1.value) in r
    decreases |els|
  {
    if |els| == 0 then []
    else
      var rest := FoundExports(els[1..]);
      assert forall j :: 1 <= j < |els| ==> els[j] == els[1..][j - 1];
      if els[0].1.Some? then [(els[0].0, els[0].1.value)] + rest else rest
  }

  /** `getExportKeywordDeclarations`: the declarations an `export` keyword
      exports, by exported name, in `Object.entries` order. A function
      declaration without a name, and a container the switch does not list
      (its result is `undefined`), fail. */
  function ExportKeywordDeclarations(c: Container): (r: Result<seq<(string, Decl)>, Thrown>)
    ensures r.Ok? ==> DistinctKeys(r.value)
    ensures r.Err? <==> c.OtherContainer? || (c.FunctionContainer? && c.name.None?)
    ensures c.ExportAssignment? ==> r == Ok(if c.target.Some? then [("default", c.target.value)] else [])
    ensures c.FunctionContainer? && c.name.Some? ==> r == Ok([(c.name.value, c.self)])
    ensures (c.ClassContainer? || (c.ExportDeclaration? && !c.clause.NamedExports?)) ==> r == Ok([])
  {
    match c
    case ExportDeclaration(clause) =>
      if clause.NamedExports? then Ok(FromEntries(FoundExports(clause.elements))) else Ok([])
    case ExportAssignment(target) => Ok(if target.Some? then [("default", target.value)] else [])
    case ClassContainer => Ok([])
    case FunctionContainer(name, self) =>
      if name.Some? then Ok([(name.value, self)])
      else Err(TypeError("Cannot read properties of undefined (reading 'getText')"))
    case VariableStatement(ds) => Ok(FromEntries(seq(|ds|, i requires 0 <= i < |ds| => (ObjectKey, ds[i]))))
    case OtherContainer => Err(TypeError("Cannot convert undefined or null to object"))
  }

  /** A named export clause exports exactly the names whose local declaration
      was found, each with the last such declaration. */
  lemma NamedExportsFound(els: seq<(string, Option<Decl>)>, k: string)
    ensures var r := ExportKeywordDeclarations(ExportDeclaration(NamedExports(els))).value;
      KeyIn(r, k) <==> exists j :: 0 <= j < |els| && els[j].0 == k && els[j].1.Some?
  {
    FromEntriesSameKeys(FoundExports(els), k);
    FoundExportsKeys(els, k);
  }

  /** The names found are those of the elements with a declaration. */
  lemma FoundExportsKeys(els: seq<(string, Option<Decl>)>, k: string)
    ensures KeyIn(FoundExports(els), k) <==> exists j :: 0 <= j < |els| && els[j].0 == k && els[j].1.Some?
  {
    var found := FoundExports(els);
    if KeyIn(found, k) {
      var i :| 0 <= i < |found| && found[i].0 == k;
      var x := (found[i].0, Some(found[i].1));
      assert x in els;
      var j :| 0 <= j < |els| && els[j] == x;
    }
    if exists j :: 0 <= j < |els| && els[j].0 == k && els[j].1.Some? {
      var j :| 0 <= j < |els| && els[j].0 == k && els[j].1.Some?;
      var x := (k, els[j].1.value);
      assert x in found;
      var i :| 0 <= i < |found| && found[i] == x;
    }
  }

  /** Every variable of an exported variable statement is keyed by the same
      string, so only the last one is exported. */
  lemma VariableStatementExportsLast(ds: seq<Decl>)
    requires |ds| > 0
    ensures ExportKeywordDeclarations(VariableStatement(ds)) == Ok([(ObjectKey, ds[|ds| - 1])])
  {
    var es := seq(|ds|, i requires 0 <= i < |ds| => (ObjectKey, ds[i]));
    SingleKeyEntries(es, ObjectKey);
  }

  /** Entries that all share one key collapse to the last of them. */
  lemma {:induction false} SingleKeyEntries<V>(es: seq<(string, V)>, k: string)
    requires |es| > 0 && forall i :: 0 <= i < |es| ==> es[i].0 == k
    ensures FromEntries(es) == [es[|es| - 1]]
    decreases |es|
  {
    var init := es[..|es| - 1];
    if |init| > 0 {
      SingleKeyEntries(init, k);
      assert FromEntries(init)[0].0 == k;
    }
  }

  /** The declarations `resolveExportKeyword` keeps: functions, methods, and
      variables holding a function expression. */
  predicate ExportsFunction(d: Decl) {
    match d.kind
    case FunctionDeclaration(_) => true
    case MethodDeclaration(_) => true
    case VariableDeclaration(f) => f.Some?
    case _ => false
  }
}
