/** The path-alias trie of `lib/tsc-alias/trie-node.ts`: a prefix tree keyed one
    character at a time, holding an optional datum per node.

    `Tree` is the value a trie holds; `TreeAdd` and `TreeSearch` say what the
    class's `Add` and `Search` do to and with that value, and the lemmas below
    state the lookup contract on it. */
module TrieNodes {
  import opened Util

  datatype Tree<T> = Tree(data: Option<T>, kids: map<char, Tree<T>>)

  function EmptyTree<T>(): Tree<T> {
    Tree(None, map[])
  }

  /** The subtree under character `c`, or a fresh empty node when there is none
      (what `add` creates). */
  function Child<T>(t: Tree<T>, c: char): Tree<T> {
    if c in t.kids then t.kids[c] else EmptyTree()
  }

  /** The tree after `add(name, d)`. */
  function TreeAdd<T>(t: Tree<T>, name: string, d: Option<T>): Tree<T>
    decreases |name|
  {
    if |name| == 0 then t
    else
      var child := Child(t, name[0]);
      var child' := if |name| == 1 then child.(data := d) else TreeAdd(child, name[1..], d);
      t.(kids := t.kids[name[0] := child'])
  }

  /** What `search(name)` returns. */
  function TreeSearch<T>(t: Tree<T>, name: string): Option<T>
    decreases |name|
  {
    if |name| == 0 then None
    else if name[0] !in t.kids then t.data
    else
      var node := t.kids[name[0]];
      if |name| == 1 then node.data
      else
        var r := TreeSearch(node, name[1..]);
        if r.Some? then r else node.data
  }

  /** The node reached by following `p` from the root, if every step exists. */
  function NodeAt<T>(t: Tree<T>, p: string): Option<Tree<T>>
    decreases |p|
  {
    if |p| == 0 then Some(t)
    else if p[0] in t.kids then NodeAt(t.kids[p[0]], p[1..])
    else None
  }

  /** Whether a node exists at `p`, and if so its datum. */
  function DataAt<T>(t: Tree<T>, p: string): Option<Option<T>> {
    match NodeAt(t, p)
    case None => None
    case Some(n) => Some(n.data)
  }

  /** The data of the nodes along the longest prefix of `s` the trie matches,
      from the first character on (the root's own datum is not included). */
  function PathData<T>(t: Tree<T>, s: string): (r: seq<Option<T>>)
    ensures |r| <= |s|
    decreases |s|
  {
    if |s| == 0 || s[0] !in t.kids then []
    else [t.kids[s[0]].data] + PathData(t.kids[s[0]], s[1..])
  }

  /** The last datum in `l` that is present; `None` when all are absent. */
  ghost function LastPresent<T>(l: seq<Option<T>>): (r: Option<T>)
    ensures r.Some? ==> exists i :: 0 <= i < |l| && l[i] == r && forall j :: i < j < |l| ==> l[j].None?
    ensures r.None? ==> forall j :: 0 <= j < |l| ==> l[j].None?
  {
    if |l| == 0 then None
    else
      var rest := LastPresent(l[1..]);
      if rest.Some? then
        var i :| 0 <= i < |l[1..]| && l[1..][i] == rest && forall j :: i < j < |l[1..]| ==> l[1..][j].None?;
        assert l[i + 1] == rest;
        rest
      else l[0]
  }

  /** `PathData` lists exactly the nodes along the matched prefix of `s`. */
  lemma {:induction false} PathDataAt<T>(t: Tree<T>, s: string, i: nat)
    requires i < |PathData(t, s)|
    ensures DataAt(t, s[..i + 1]) == Some(PathData(t, s)[i])
    decreases |s|
  {
    var c := s[0];
    if i > 0 {
      PathDataAt(t.kids[c], s[1..], i - 1);
      assert s[..i + 1][1..] == s[1..][..i];
    } else {
      assert s[..1][0] == c && s[..1][1..] == [];
      assert NodeAt(t, s[..1]) == NodeAt(t.kids[c], []);
    }
  }

  /** `search` returns the datum of the deepest node on the matched prefix that
      has one, or nothing if none has; only when not even the first character
      matches does it return the datum of the node it was asked at. */
  lemma {:induction false} SearchIsDeepestPresent<T>(t: Tree<T>, s: string)
    requires |s| > 0
    ensures TreeSearch(t, s) == if PathData(t, s) == [] then t.data else LastPresent(PathData(t, s))
    decreases |s|
  {
    if s[0] in t.kids {
      var node := t.kids[s[0]];
      if |s| == 1 {
        assert PathData(t, s) == [node.data] + PathData(node, s[1..]);
        assert PathData(node, s[1..]) == [];
        assert [node.data][1..] == [];
      } else {
        SearchIsDeepestPresent(node, s[1..]);
        var rest := PathData(node, s[1..]);
        assert PathData(t, s) == [node.data] + rest;
        assert ([node.data] + rest)[1..] == rest;
        if rest == [] {
          assert ([node.data] + rest) == [node.data];
          assert [node.data][1..] == [];
        }
      }
    }
  }

  /** `search("")` finds nothing. */
  lemma SearchEmpty<T>(t: Tree<T>)
    ensures TreeSearch(t, "") == None
  {
  }

  /** After `add(name, d)` with a non-empty name and a present datum,
      `search(name)` returns that datum. */
  lemma {:induction false} SearchAfterAdd<T>(t: Tree<T>, name: string, d: Option<T>)
    requires |name| > 0 && d.Some?
    ensures TreeSearch(TreeAdd(t, name, d), name) == d
    decreases |name|
  {
    if |name| > 1 {
      SearchAfterAdd(Child(t, name[0]), name[1..], d);
    }
  }

  /** Adding the same name twice keeps only the last datum. */
  lemma {:induction false} AddTwice<T>(t: Tree<T>, name: string, d1: Option<T>, d2: Option<T>)
    ensures TreeAdd(TreeAdd(t, name, d1), name, d2) == TreeAdd(t, name, d2)
    decreases |name|
  {
    if |name| > 1 {
      AddTwice(Child(t, name[0]), name[1..], d1, d2);
    }
  }

  /** Is `p` a non-empty proper prefix of `n`? */
  predicate ProperPrefix(p: string, n: string) {
    0 < |p| < |n| && n[..|p|] == p
  }

  lemma NodeAtEmpty<T>(p: string)
    requires |p| > 0
    ensures NodeAt(EmptyTree<T>(), p) == None
  {
  }

  /** `add(name, d)` touches only the nodes along `name`: the node for `name`
      now exists and holds `d`, the nodes for its proper prefixes exist (new ones
      without a datum), and every other node is as it was. */
  lemma {:induction false} AddOnlyTouchesPath<T>(t: Tree<T>, name: string, d: Option<T>, p: string)
    requires |name| > 0
    ensures p == name ==> DataAt(TreeAdd(t, name, d), p) == Some(d)
    ensures p != name ==> (DataAt(TreeAdd(t, name, d), p) ==
      if DataAt(t, p).None? && ProperPrefix(p, name) then Some(None) else DataAt(t, p))
    decreases |name|
  {
    var c := name[0];
    var child := Child(t, c);
    var child' := if |name| == 1 then child.(data := d) else TreeAdd(child, name[1..], d);
    var t' := TreeAdd(t, name, d);
    assert t' == t.(kids := t.kids[c := child']);
    if |p| == 0 {
      assert DataAt(t', p) == Some(t.data);
    } else if p[0] != c {
      assert NodeAt(t', p) == NodeAt(t, p);
      assert !ProperPrefix(p, name);
    } else {
      assert NodeAt(t', p) == NodeAt(child', p[1..]);
      assert p == name <==> p[1..] == name[1..] by {
        if p[1..] == name[1..] { assert p == [c] + p[1..] && name == [c] + name[1..]; }
      }
      assert ProperPrefix(p, name) <==> (|p[1..]| == 0 && |name| > 1) || ProperPrefix(p[1..], name[1..]) by {
        if |p| > 1 && |p| < |name| {
          assert name[..|p|] == [c] + name[1..][..|p| - 1];
          assert p == [c] + p[1..];
        }
      }
      if c in t.kids {
        assert NodeAt(t, p) == NodeAt(child, p[1..]);
      } else {
        assert NodeAt(t, p) == None;
        if |p| > 1 { NodeAtEmpty<T>(p[1..]); }
      }
      if |name| == 1 {
        if |p| > 1 {
          assert NodeAt(child', p[1..]) == NodeAt(child, p[1..]);
        }
      } else {
        AddOnlyTouchesPath(child, name[1..], d, p[1..]);
      }
    }
  }

  /** `add` never sets the datum of the node it is called on. */
  lemma {:induction false} AddKeepsRootData<T>(t: Tree<T>, name: string, d: Option<T>)
    ensures TreeAdd(t, name, d).data == t.data
  {
  }

  lemma MapUpdateTwice<K, V>(m: map<K, V>, k: K, a: V, b: V)
    ensures m[k := a][k := b] == m[k := b]
  {
  }

  /** A trie node. `model` is the value of the subtree rooted here and `Repr` the
      nodes it is built from; `Valid` ties the two to the fields. */
  class TrieNode<T> {
    var children: map<char, TrieNode<T>>
    var data: Option<T>
    ghost var model: Tree<T>
    ghost var Repr: set<object>

    ghost predicate Valid()
      reads this, Repr
      ensures Valid() ==> this in Repr && data == model.data
      decreases Repr
    {
      && this in Repr
      && data == model.data
      && children.Keys == model.kids.Keys
      && (forall c :: c in children ==>
            && children[c] in Repr
            && children[c].Repr <= Repr
            && this !in children[c].Repr
            && children[c].model == model.kids[c]
            && children[c].Valid())
      && (forall c, c' :: c in children && c' in children && c != c' ==>
            children[c].Repr !! children[c'].Repr)
    }

    constructor ()
      ensures Valid() && fresh(Repr) && Repr == {this}
      ensures model == EmptyTree()
    {
      children := map[];
      data := None;
      model := EmptyTree();
      Repr := {this};
    }

    /** `add(name, data)`: walk down `name`, reusing or creating the node for
        each character, and set the datum of the node for the last one. */
    method Add(name: string, d: Option<T>)
      requires Valid()
      modifies Repr
      ensures Valid() && fresh(Repr - old(Repr))
      ensures model == TreeAdd(old(model), name, d)
      ensures |name| == 0 ==> model == old(model) && Repr == old(Repr)
      decreases |name|
    {
      if |name| == 0 {
        return;
      }
      var c := name[0];
      var node := ChildFor(c);
      label L:
      if |name| == 1 {
        node.SetData(d);
      } else {
        node.Add(name[1..], d);
      }
      forall c' | c' in children && c' != c
        ensures children[c'].Valid() && children[c'].Repr == old@L(children[c'].Repr) && children[c'].model == old@L(children[c'].model)
      {
        ValidFrame@L(children[c']);
      }
      ghost var m0 := old(model);
      ghost var child' := if |name| == 1 then Child(m0, c).(data := d) else TreeAdd(Child(m0, c), name[1..], d);
      assert node.model == child';
      Reattach(c, node);
      MapUpdateTwice(m0.kids, c, Child(m0, c), child');
    }

    /** The child for `c`, created empty if there was none. */
    method ChildFor(c: char) returns (node: TrieNode<T>)
      requires Valid()
      modifies this
      ensures Valid() && fresh(Repr - old(Repr))
      ensures c in children && node == children[c] && children == old(children)[c := node]
      ensures node.model == Child(old(model), c) && model == old(model).(kids := old(model).kids[c := node.model])
      ensures this !in node.Repr && node.Repr <= Repr
      ensures forall c' :: c' in children && c' != c ==> children[c'].Repr !! node.Repr
    {
      if c in children {
        node := children[c];
        assert children == old(children)[c := node];
        assert model == old(model).(kids := old(model).kids[c := node.model]);
      } else {
        node := NewChild(c);
      }
    }

    /** `ChildFor` when there is no child for `c` yet. */
    method NewChild(c: char) returns (node: TrieNode<T>)
      requires Valid() && c !in children
      modifies this
      ensures Valid() && fresh(Repr - old(Repr))
      ensures c in children && node == children[c] && children == old(children)[c := node]
      ensures node.model == Child(old(model), c) && model == old(model).(kids := old(model).kids[c := node.model])
      ensures this !in node.Repr && node.Repr <= Repr
      ensures forall c' :: c' in children && c' != c ==> children[c'].Repr !! node.Repr
    {
      node := new TrieNode();
      assert node.Valid() && node.Repr == {node};
      children := children[c := node];
      model := model.(kids := model.kids[c := node.model]);
      Repr := Repr + {node};
      forall c' | c' in children && c' != c
        ensures children[c'].Valid() && children[c'].Repr !! {node}
      {
        ValidFrame(children[c']);
      }
    }

    /** Record in this node what became of its child at `c`. */
    method Reattach(c: char, node: TrieNode<T>)
      requires c in children && children[c] == node
      requires this in Repr && data == model.data && children.Keys == model.kids.Keys
      requires node.Valid() && this !in node.Repr
      requires forall c' :: c' in children && c' != c ==>
        && children[c'] in Repr
        && children[c'].Repr <= Repr
        && this !in children[c'].Repr
        && children[c'].model == model.kids[c']
        && children[c'].Valid()
        && children[c'].Repr !! node.Repr
      requires forall c1, c2 :: c1 in children && c2 in children && c1 != c && c2 != c && c1 != c2 ==>
        children[c1].Repr !! children[c2].Repr
      modifies this
      ensures Valid() && Repr == old(Repr) + node.Repr && children == old(children)
      ensures model == old(model).(kids := old(model).kids[c := node.model])
    {
      model := model.(kids := model.kids[c := node.model]);
      Repr := Repr + node.Repr;
      forall c' | c' in children
        ensures children[c'].Valid() && children[c'].model == model.kids[c']
      {
        ValidFrame(children[c']);
      }
    }

    /** The last step of `add`: set the datum of the node reached. */
    method SetData(d: Option<T>)
      requires Valid()
      modifies this
      ensures Valid() && Repr == old(Repr)
      ensures model == old(model).(data := d)
    {
      data := d;
      model := model.(data := d);
    }

    /** A node whose footprint is untouched is still valid and unchanged. */
    twostate lemma ValidFrame(n: TrieNode<T>)
      requires old(n.Valid())
      requires unchanged(old(n.Repr))
      ensures n.Valid() && n.Repr == old(n.Repr) && n.model == old(n.model)
    {
    }
    /** `search(name)`. */
    function Search(name: string): (r: Option<T>)
      requires Valid()
      reads Repr
      ensures r == TreeSearch(model, name)
      ensures |name| == 0 ==> r == None
      decreases |name|
    {
      if |name| == 0 then None
      else if name[0] !in children then data
      else
        var node := children[name[0]];
        if |name| == 1 then node.data
        else
          var r := node.Search(name[1..]);
          if r.Some? then r else node.data
    }
  }

  /** The entry `buildAliasTrie` derives from one `paths` key and its targets:
      a trailing `*` on the alias turns on wildcard prefix matching and is
      stripped from the prefix, and each target loses one trailing `*`. */
  datatype AliasEntry = AliasEntry(shouldPrefixMatchWildly: bool, prefix: string, paths: seq<string>)

  /** `s.replace(/\*$/, '')` */
  function StripTrailingStar(s: string): (r: string)
    ensures EndsWith(s, "*") ==> r + "*" == s
    ensures !EndsWith(s, "*") ==> r == s
  {
    if EndsWith(s, "*") then s[..|s| - 1] else s
  }

  function MakeAliasEntry(alias: string, targets: seq<string>): (e: AliasEntry)
    ensures e.shouldPrefixMatchWildly <==> EndsWith(alias, "*")
    ensures (if e.shouldPrefixMatchWildly then e.prefix + "*" else e.prefix) == alias
    ensures |e.paths| == |targets|
    ensures forall i :: 0 <= i < |targets| ==>
      (if EndsWith(targets[i], "*") then e.paths[i] + "*" else e.paths[i]) == targets[i]
  {
    AliasEntry(EndsWith(alias, "*"), StripTrailingStar(alias),
      seq(|targets|, i requires 0 <= i < |targets| => StripTrailingStar(targets[i])))
  }

  /** The tree `buildAliasTrie` builds from the `paths` option, taken in key
      order: each alias with a non-empty prefix is added under that prefix. */
  function AliasTree(aliases: seq<(string, seq<string>)>): Tree<AliasEntry>
    decreases |aliases|
  {
    if |aliases| == 0 then EmptyTree()
    else
      var last := aliases[|aliases| - 1];
      var e := MakeAliasEntry(last.0, last.1);
      var t := AliasTree(aliases[..|aliases| - 1]);
      if e.prefix != "" then TreeAdd(t, e.prefix, Some(e)) else t
  }

  /** The entry of the last alias added is found under its own prefix, and an
      alias whose prefix is empty (`""` or `"*"`) is never inserted. */
  lemma LastAliasFound(aliases: seq<(string, seq<string>)>, alias: string, targets: seq<string>)
    ensures var e := MakeAliasEntry(alias, targets);
      if e.prefix != "" then TreeSearch(AliasTree(aliases + [(alias, targets)]), e.prefix) == Some(e)
      else AliasTree(aliases + [(alias, targets)]) == AliasTree(aliases)
  {
    var all := aliases + [(alias, targets)];
    assert all[..|all| - 1] == aliases;
    var e := MakeAliasEntry(alias, targets);
    if e.prefix != "" {
      SearchAfterAdd(AliasTree(aliases), e.prefix, Some(e));
    }
  }

  /** The root of an alias trie never holds an entry, so a search that matches
      no first character finds nothing. */
  lemma {:induction false} AliasTreeRootEmpty(aliases: seq<(string, seq<string>)>)
    ensures AliasTree(aliases).data == None
    decreases |aliases|
  {
    if |aliases| > 0 {
      AliasTreeRootEmpty(aliases[..|aliases| - 1]);
    }
  }

  /** `buildAliasTrie` restricted to the prefix and wildcard derivation: insert
      every alias whose prefix is non-empty, in key order. */
  method BuildAliasTrie(aliases: seq<(string, seq<string>)>) returns (trie: TrieNode<AliasEntry>)
    ensures trie.Valid() && fresh(trie.Repr)
    ensures trie.model == AliasTree(aliases)
  {
    trie := new TrieNode();
    var i := 0;
    while i < |aliases|
      invariant 0 <= i <= |aliases|
      invariant trie.Valid() && fresh(trie.Repr)
      invariant trie.model == AliasTree(aliases[..i])
    {
      AddAlias(trie, aliases, i);
      i := i + 1;
    }
    assert aliases[..i] == aliases;
  }

  /** One iteration of `buildAliasTrie`: insert the entry of `aliases[i]`. */
  method AddAlias(trie: TrieNode<AliasEntry>, aliases: seq<(string, seq<string>)>, i: nat)
    requires i < |aliases| && trie.Valid() && trie.model == AliasTree(aliases[..i])
    modifies trie.Repr
    ensures trie.Valid() && fresh(trie.Repr - old(trie.Repr))
    ensures trie.model == AliasTree(aliases[..i + 1])
  {
    var e := MakeAliasEntry(aliases[i].0, aliases[i].1);
    AliasTreeSnoc(aliases, i);
    if e.prefix != "" {
      trie.Add(e.prefix, Some(e));
    }
  }

  /** `AliasTree` over one more alias. */
  lemma AliasTreeSnoc(aliases: seq<(string, seq<string>)>, i: nat)
    requires i < |aliases|
    ensures var e := MakeAliasEntry(aliases[i].0, aliases[i].1);
      AliasTree(aliases[..i + 1]) ==
        if e.prefix != "" then TreeAdd(AliasTree(aliases[..i]), e.prefix, Some(e)) else AliasTree(aliases[..i])
  {
    assert aliases[..i + 1][..i] == aliases[..i];
    assert aliases[..i + 1][i] == aliases[i];
  }
}
