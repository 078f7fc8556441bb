/** Module-specifier resolution of `lib/module.ts`: the alias, relative and
    extensionless candidate stages, the quoted-name extraction, and the
    first-match lookup of a module among the program's source files.

    Node's `path` functions, `normalize-path` and the absolute-path helper are
    not modelled; they are the fields of `PathOps`, about which nothing is
    assumed. */
module Modules {
  import opened Util
  import opened TrieNodes

  datatype PathOps = PathOps(
    relative: (string, string) -> string,  // path.relative(from, to)
    resolve: (string, string) -> string,   // path.resolve(dir, p)
    dirname: string -> string,             // path.dirname(p)
    normalize: string -> string,           // normalizePath(p)
    absolute: string -> string)            // getAbsolutePath, from a file name

  datatype SourceFile = SourceFile(fileName: string)

  function AbsolutePath(ops: PathOps, f: SourceFile): string {
    ops.absolute(f.fileName)
  }

  /** `isAlias`: whether the entry found for `name` applies to it. */
  predicate AliasApplies(e: AliasEntry, name: string) {
    if e.shouldPrefixMatchWildly then StartsWith(name, e.prefix) && name != e.prefix
    else name == e.prefix || StartsWith(name, e.prefix + "/")
  }

  /** The target path made relative to the importing file's directory and
      forced to start with `.`. */
  function DotRelative(ops: PathOps, file: SourceFile, target: string): (r: string)
    ensures StartsWith(r, ".")
  {
    var rel := ops.relative(ops.dirname(file.fileName), target);
    if StartsWith(rel, ".") then rel else "./" + rel
  }

  /** One candidate of the alias stage, as the mapped callback computes it. */
  function AliasCandidate(ops: PathOps, file: SourceFile, e: AliasEntry, name: string, target: string): string {
    var index := IndexOf(name, e.prefix);
    ops.normalize(Substring(name, 0, index) + DotRelative(ops, file, target) + "/"
      + Substring(name, index + |e.prefix|, |name|))
  }

  /** `ModuleParsers.alias` over the entries of the alias trie. */
  function Alias(ops: PathOps, name: string, file: SourceFile, trie: Tree<AliasEntry>): (r: seq<string>)
    ensures TreeSearch(trie, name).None? ==> r == [name]
    ensures TreeSearch(trie, name).Some? && !AliasApplies(TreeSearch(trie, name).value, name) ==> r == [name]
    ensures TreeSearch(trie, name).Some? && AliasApplies(TreeSearch(trie, name).value, name) ==>
      var e := TreeSearch(trie, name).value;
      && |r| == |e.paths|
      && forall i :: 0 <= i < |r| ==>
           r[i] == ops.normalize(DotRelative(ops, file, e.paths[i]) + "/" + name[|e.prefix|..])
  {
    match TreeSearch(trie, name)
    case None => [name]
    case Some(e) =>
      if !AliasApplies(e, name) then [name]
      else
        AppliedPrefixAtStart(e, name);
        seq(|e.paths|, i requires 0 <= i < |e.paths| => AliasCandidate(ops, file, e, name, e.paths[i]))
  }

  /** An entry that applies is a prefix of the name, so `indexOf` finds it at 0
      and the candidate is the dotted target, `/`, and the rest of the name. */
  lemma AppliedPrefixAtStart(e: AliasEntry, name: string)
    requires AliasApplies(e, name)
    ensures StartsWith(name, e.prefix) && IndexOf(name, e.prefix) == 0
    ensures forall ops: PathOps, file: SourceFile, target: string ::
      AliasCandidate(ops, file, e, name, target)
        == ops.normalize(DotRelative(ops, file, target) + "/" + name[|e.prefix|..])
  {
    if !e.shouldPrefixMatchWildly && name != e.prefix {
      assert name[..|e.prefix|] == (e.prefix + "/")[..|e.prefix|];
    }
    IndexOfPrefix(name, e.prefix);
    forall ops: PathOps, file: SourceFile, target: string
      ensures AliasCandidate(ops, file, e, name, target)
        == ops.normalize(DotRelative(ops, file, target) + "/" + name[|e.prefix|..])
    {
      var index := IndexOf(name, e.prefix);
      assert index == 0;
      assert Substring(name, 0, index) == [];
      assert Substring(name, index + |e.prefix|, |name|) == name[|e.prefix|..];
      assert [] + DotRelative(ops, file, target) == DotRelative(ops, file, target);
    }
  }

  /** The alias stage consults only the single deepest entry: when it does not
      apply, a shorter alias that would have applied is not tried. With the
      aliases `a*` and `ab`, the name `abc` finds `ab`, which does not apply, and
      passes through unchanged although `a*` covers it. */
  lemma NoShorterPrefixRetried(ops: PathOps, file: SourceFile)
    ensures var t := AliasTree([("a*", ["x"]), ("ab", ["y"])]);
      && TreeSearch(t, "abc") == Some(MakeAliasEntry("ab", ["y"]))
      && AliasApplies(MakeAliasEntry("a*", ["x"]), "abc")
      && Alias(ops, "abc", file, t) == ["abc"]
  {
    var e1, e2 := AliasEntry(true, "a", ["x"]), AliasEntry(false, "ab", ["y"]);
    WildEntry();
    ExactEntry();
    var t := ExampleTree(e1, e2);
    ExampleSearch(e1, e2);
    assert AliasApplies(e1, "abc") by {
      assert "abc"[..1] == "a";
    }
    assert !AliasApplies(e2, "abc") by {
      assert "abc"[..3] == "abc" != "ab/";
    }
  }

  lemma WildEntry()
    ensures MakeAliasEntry("a*", ["x"]) == AliasEntry(true, "a", ["x"])
  {
    assert "a*"[1..] == "*" && "a*"[..1] == "a";
    assert !EndsWith("x", "*") by {
      assert "x"[0..] == "x";
    }
    assert StripTrailingStar("x") == "x";
    assert MakeAliasEntry("a*", ["x"]).paths[0] == "x";
  }

  lemma ExactEntry()
    ensures MakeAliasEntry("ab", ["y"]) == AliasEntry(false, "ab", ["y"])
  {
    assert "ab"[1..] == "b";
    assert !EndsWith("ab", "*");
    assert "y"[0..] == "y";
    assert !EndsWith("y", "*");
    var e := MakeAliasEntry("ab", ["y"]);
    assert e.paths == ["y"];
  }

  /** The trie built from `a*` then `ab`: `a` holds the first entry and `ab`
      the second. */
  lemma ExampleTree(e1: AliasEntry, e2: AliasEntry) returns (t: Tree<AliasEntry>)
    requires MakeAliasEntry("a*", ["x"]) == e1 == AliasEntry(true, "a", ["x"])
    requires MakeAliasEntry("ab", ["y"]) == e2 == AliasEntry(false, "ab", ["y"])
    ensures t == AliasTree([("a*", ["x"]), ("ab", ["y"])])
    ensures t == Tree(None, map['a' := Tree(Some(e1), map['b' := Tree(Some(e2), map[])])])
  {
    var aliases := [("a*", ["x"]), ("ab", ["y"])];
    assert aliases[..1] == [("a*", ["x"])] && aliases[..1][..0] == [];
    var t1 := Tree(None, map['a' := Tree(Some(e1), map[])]);
    assert TreeAdd(EmptyTree(), "a", Some(e1)) == t1;
    assert AliasTree(aliases[..1]) == t1;
    assert "ab"[1..] == "b";
    t := Tree(None, map['a' := Tree(Some(e1), map['b' := Tree(Some(e2), map[])])]);
    assert TreeAdd(t1, "ab", Some(e2)) == t;
  }

  lemma ExampleSearch(e1: AliasEntry, e2: AliasEntry)
    ensures TreeSearch(Tree(None, map['a' := Tree(Some(e1), map['b' := Tree(Some(e2), map[])])]), "abc") == Some(e2)
  {
    assert "abc"[1..] == "bc" && "bc"[1..] == "c";
    var n2 := Tree(Some(e2), map[]);
    assert TreeSearch(n2, "c") == Some(e2);
    var n1 := Tree(Some(e1), map['b' := n2]);
    assert TreeSearch(n1, "bc") == Some(e2);
  }

  /** `ModuleParsers.relative`: always one candidate. */
  function Relative(ops: PathOps, name: string, file: SourceFile): (r: seq<string>)
    ensures |r| == 1
    ensures StartsWith(name, ".") ==> r[0] == ops.resolve(ops.dirname(AbsolutePath(ops, file)), name)
    ensures !StartsWith(name, ".") ==> r[0] == name
  {
    if StartsWith(name, ".") then [ops.resolve(ops.dirname(AbsolutePath(ops, file)), name)] else [name]
  }

  /** The twelve endings the extensionless stage tries, in order. */
  const ExtensionSuffixes: seq<string> :=
    [".ts", ".js", ".tsx", ".jsx", ".cts", ".cjs", ".ctsx", ".cjsx", ".mts", ".mjs", ".mtsx", ".mjsx"]

  /** `ModuleParsers.extensionless`: the name itself, then one candidate per
      prefix (`''`, `c`, `m`), suffix (`''`, `x`) and base (`ts`, `js`), the
      prefix varying slowest and the base fastest. */
  function Extensionless(name: string): (r: seq<string>)
    ensures |r| == 13 && r[0] == name
    ensures forall i :: 0 <= i < 12 ==> r[i + 1] == name + ExtensionSuffixes[i]
  {
    var groups := seq(3, p requires 0 <= p < 3 => Flatten(PrefixGroup(name, p)));
    ExtensionlessLayout(name, groups);
    [name] + Flatten(groups)
  }

  /** The candidate for prefix `p`, suffix `s` and base `b`. */
  function Suffixed(name: string, p: nat, s: nat, b: nat): string
    requires p < 3 && s < 2 && b < 2
  {
    name + "." + ["", "c", "m"][p] + ["ts", "js"][b] + ["", "x"][s]
  }

  /** The candidates of prefix `p`, one group per suffix. */
  function PrefixGroup(name: string, p: nat): seq<seq<string>>
    requires p < 3
  {
    seq(2, s requires 0 <= s < 2 => seq(2, b requires 0 <= b < 2 => Suffixed(name, p, s, b)))
  }

  lemma ExtensionlessLayout(name: string, groups: seq<seq<string>>)
    requires |groups| == 3 && forall p :: 0 <= p < 3 ==> groups[p] == Flatten(PrefixGroup(name, p))
    ensures |Flatten(groups)| == 12
    ensures forall i :: 0 <= i < 12 ==> Flatten(groups)[i] == name + ExtensionSuffixes[i]
  {
    forall p | 0 <= p < 3
      ensures |groups[p]| == 4
      ensures forall q :: 0 <= q < 4 ==> groups[p][q] == name + ExtensionSuffixes[4 * p + q]
    {
      PrefixGroupFlat(name, p);
    }
    FlattenLength(groups, 4);
    forall i | 0 <= i < 12
      ensures Flatten(groups)[i] == name + ExtensionSuffixes[i]
    {
      FlattenAt(groups, 4, i / 4, i % 4);
    }
  }

  /** Prefix `p` contributes suffixes `4 * p` to `4 * p + 3`, in order. */
  lemma PrefixGroupFlat(name: string, p: nat)
    requires p < 3
    ensures |Flatten(PrefixGroup(name, p))| == 4
    ensures forall q :: 0 <= q < 4 ==> Flatten(PrefixGroup(name, p))[q] == name + ExtensionSuffixes[4 * p + q]
  {
    var g := PrefixGroup(name, p);
    assert g[1..][1..] == [] && g[1..][0] == g[1];
    assert Flatten(g[1..]) == g[1] + Flatten(g[1..][1..]);
    assert Flatten(g) == g[0] + g[1];
    forall q | 0 <= q < 4
      ensures Flatten(g)[q] == name + ExtensionSuffixes[4 * p + q]
    {
      SuffixedIs(name, p, q / 2, q % 2);
    }
  }

  lemma SuffixedIs(name: string, p: nat, s: nat, b: nat)
    requires p < 3 && s < 2 && b < 2
    ensures Suffixed(name, p, s, b) == name + ExtensionSuffixes[4 * p + 2 * s + b]
  {
    var pre, base, suf := ["", "c", "m"][p], ["ts", "js"][b], ["", "x"][s];
    assert Suffixed(name, p, s, b) == name + ("." + pre + base + suf);
    assert "." + pre + base + suf == ExtensionSuffixes[4 * p + 2 * s + b];
  }

  /** A character the path group of the specifier pattern accepts. */
  predicate PathChar(c: char) {
    c != '"' && c != '\'' && c != '\r' && c != '\n'
  }

  predicate Quote(c: char) {
    c == '"' || c == '\''
  }

  /** `text` has a quote at `i`, then `p` (non-empty, no quotes or line breaks),
      then a quote: the pattern `["'](?<path>[^"'\r\n]+)["']` matching at `i`. */
  ghost predicate QuotedAt(text: string, i: nat, p: string) {
    && i + |p| + 1 < |text|
    && |p| > 0
    && Quote(text[i])
    && text[i + 1..i + 1 + |p|] == p
    && (forall k :: 0 <= k < |p| ==> PathChar(p[k]))
    && Quote(text[i + 1 + |p|])
  }

  /** At most one path matches at a given position. */
  lemma QuotedAtUnique(text: string, i: nat, p: string, q: string)
    requires QuotedAt(text, i, p) && QuotedAt(text, i, q)
    ensures p == q
  {
    RunEndAt(text, i + 1, |p|);
    RunEndAt(text, i + 1, |q|);
  }

  /** The end of the run of path characters starting at `j`. */
  function RunEnd(text: string, j: nat): (e: nat)
    requires j <= |text|
    ensures j <= e <= |text|
    ensures forall k :: j <= k < e ==> PathChar(text[k])
    ensures e < |text| ==> !PathChar(text[e])
    decreases |text| - j
  {
    if j == |text| || !PathChar(text[j]) then j else RunEnd(text, j + 1)
  }

  /** No match of the specifier pattern starts in `[from, to)`. */
  ghost predicate NoQuotedIn(text: string, from: nat, to: nat) {
    forall i, p :: from <= i < to ==> !QuotedAt(text, i, p)
  }

  /** The first match of the specifier pattern at or after `from`. */
  function FindQuoted(text: string, from: nat): (r: Option<string>)
    requires from <= |text|
    ensures r.Some? ==> exists i :: from <= i && QuotedAt(text, i, r.value) && NoQuotedIn(text, from, i)
    ensures r.None? ==> NoQuotedIn(text, from, |text|)
    decreases |text| - from
  {
    if from == |text| then None
    else
      var e := RunEnd(text, from + 1);
      if Quote(text[from]) && e > from + 1 && e < |text| && Quote(text[e]) then
        var p := text[from + 1..e];
        assert QuotedAt(text, from, p);
        Some(p)
      else
        var r := FindQuoted(text, from + 1);
        NoMatchAt(text, from);
        FindQuotedStep(text, from, r);
        r
  }

  /** A search that finds nothing at `from` answers as the search from the
      next position. */
  lemma FindQuotedStep(text: string, from: nat, r: Option<string>)
    requires from < |text| && forall p :: !QuotedAt(text, from, p)
    requires r.Some? ==> exists i :: from + 1 <= i && QuotedAt(text, i, r.value) && NoQuotedIn(text, from + 1, i)
    requires r.None? ==> NoQuotedIn(text, from + 1, |text|)
    ensures r.Some? ==> exists i :: from <= i && QuotedAt(text, i, r.value) && NoQuotedIn(text, from, i)
    ensures r.None? ==> NoQuotedIn(text, from, |text|)
  {
    if r.Some? {
      var i :| from + 1 <= i && QuotedAt(text, i, r.value) && NoQuotedIn(text, from + 1, i);
      assert NoQuotedIn(text, from, i);
    }
  }

  lemma NoMatchAt(text: string, i: nat)
    requires i < |text|
    requires var e := RunEnd(text, i + 1); !(Quote(text[i]) && e > i + 1 && e < |text| && Quote(text[e]))
    ensures forall p :: !QuotedAt(text, i, p)
  {
    forall p | QuotedAt(text, i, p)
      ensures false
    {
      assert false;
    }
  }

  /** A run of `n` path characters followed by a non-path character ends exactly there. */
  lemma {:induction false} RunEndAt(text: string, j: nat, n: nat)
    requires j + n < |text| && !PathChar(text[j + n])
    requires forall k :: j <= k < j + n ==> PathChar(text[k])
    ensures RunEnd(text, j) == j + n
    decreases n
  {
    if n > 0 {
      RunEndAt(text, j + 1, n - 1);
    }
  }

  /** A module specifier: whether it is a string literal, its source text,
      and the file it appears in. */
  datatype ModuleSpecifier = ModuleSpecifier(isStringLiteral: bool, text: string, file: SourceFile)

  /** `getModuleSpecifierName`. */
  function GetModuleSpecifierName(spec: ModuleSpecifier): (r: Result<string, Thrown>)
    ensures !spec.isStringLiteral ==> r == Err(SyntaxError("Module specifier must be a string"))
    ensures spec.isStringLiteral && r.Ok? ==> exists i :: QuotedAt(spec.text, i, r.value) && NoQuotedIn(spec.text, 0, i)
    ensures spec.isStringLiteral && r.Err? ==> r.error.PlainError? && NoQuotedIn(spec.text, 0, |spec.text|)
  {
    if !spec.isStringLiteral then Err(SyntaxError("Module specifier must be a string"))
    else
      match FindQuoted(spec.text, 0)
      case None => Err(PlainError("Unable to parse module name from specifier: " + spec.text))
      case Some(p) => Ok(p)
  }

  /** The candidate names, in alias, relative, extensionless order. */
  function Candidates(ops: PathOps, name: string, file: SourceFile, trie: Tree<AliasEntry>): seq<string> {
    var aliased := Alias(ops, name, file, trie);
    Flatten(seq(|aliased|, i requires 0 <= i < |aliased| =>
      var relative := Relative(ops, aliased[i], file);
      Flatten(seq(|relative|, j requires 0 <= j < |relative| => Extensionless(relative[j])))))
  }

  /** Candidate `13 * i + j` is the `j`-th extensionless form of the relative
      form of the `i`-th alias candidate. */
  lemma CandidatesLayout(ops: PathOps, name: string, file: SourceFile, trie: Tree<AliasEntry>, i: nat, j: nat)
    requires i < |Alias(ops, name, file, trie)| && j < 13
    ensures |Candidates(ops, name, file, trie)| == 13 * |Alias(ops, name, file, trie)|
    ensures Candidates(ops, name, file, trie)[13 * i + j]
      == Extensionless(Relative(ops, Alias(ops, name, file, trie)[i], file)[0])[j]
  {
    var aliased := Alias(ops, name, file, trie);
    var groups := seq(|aliased|, i requires 0 <= i < |aliased| =>
      var relative := Relative(ops, aliased[i], file);
      Flatten(seq(|relative|, j requires 0 <= j < |relative| => Extensionless(relative[j]))));
    forall g | 0 <= g < |groups|
      ensures groups[g] == Extensionless(Relative(ops, aliased[g], file)[0])
    {
      var relative := Relative(ops, aliased[g], file);
      var one := seq(|relative|, j requires 0 <= j < |relative| => Extensionless(relative[j]));
      assert one == [Extensionless(relative[0])];
      assert Flatten(one) == one[0] + Flatten(one[1..]);
    }
    FlattenLength(groups, 13);
    FlattenAt(groups, 13, i, j);
    assert i * 13 == 13 * i;
  }

  /** `filesByName`: each file under its absolute path, a later file with the
      same path replacing an earlier one. */
  function FilesByName(ops: PathOps, files: seq<SourceFile>): (m: map<string, SourceFile>)
    ensures IndexedByPath(ops, files, m)
    decreases |files|
  {
    if |files| == 0 then map[]
    else
      var init := files[..|files| - 1];
      var m := FilesByName(ops, init)[AbsolutePath(ops, files[|files| - 1]) := files[|files| - 1]];
      IndexedByPathSnoc(ops, init, files, FilesByName(ops, init));
      m
  }

  /** Every file's absolute path is a key of `m`, and each key maps to the
      last file with that path. */
  ghost predicate IndexedByPath(ops: PathOps, files: seq<SourceFile>, m: map<string, SourceFile>) {
    && (forall i :: 0 <= i < |files| ==> AbsolutePath(ops, files[i]) in m)
    && (forall k :: k in m ==> exists i :: (0 <= i < |files| && AbsolutePath(ops, files[i]) == k
          && m[k] == files[i] && forall j :: i < j < |files| ==> AbsolutePath(ops, files[j]) != k))
  }

  lemma IndexedByPathSnoc(ops: PathOps, init: seq<SourceFile>, files: seq<SourceFile>, m: map<string, SourceFile>)
    requires |files| > 0 && init == files[..|files| - 1] && IndexedByPath(ops, init, m)
    ensures IndexedByPath(ops, files, m[AbsolutePath(ops, files[|files| - 1]) := files[|files| - 1]])
  {
    var n := |files| - 1;
    var k0 := AbsolutePath(ops, files[n]);
    var m' := m[k0 := files[n]];
    assert forall i :: 0 <= i < n ==> init[i] == files[i];
    forall k | k in m'
      ensures exists i :: (0 <= i < |files| && AbsolutePath(ops, files[i]) == k
          && m'[k] == files[i] && forall j :: i < j < |files| ==> AbsolutePath(ops, files[j]) != k)
    {
      if k == k0 {
        assert AbsolutePath(ops, files[n]) == k && m'[k] == files[n];
      } else {
        var i :| 0 <= i < |init| && AbsolutePath(ops, init[i]) == k
          && m[k] == init[i] && forall j :: i < j < |init| ==> AbsolutePath(ops, init[j]) != k;
        assert AbsolutePath(ops, files[i]) == k && m'[k] == files[i];
      }
    }
  }

  /** The first name of `names` that is a key of `m`. */
  function FirstKnown(names: seq<string>, m: map<string, SourceFile>): (r: Option<nat>)
    ensures r.Some? ==> (r.value < |names| && names[r.value] in m
      && forall j :: 0 <= j < r.value ==> names[j] !in m)
    ensures r.None? ==> forall j :: 0 <= j < |names| ==> names[j] !in m
    decreases |names|
  {
    if |names| == 0 then None
    else if names[0] in m then Some(0)
    else match FirstKnown(names[1..], m)
      case None => None
      case Some(k) => Some(k + 1)
  }

  /** `mapModuleToSourceFile`: the file whose absolute path is the first
      candidate that names one; nothing when no candidate does or when that
      candidate is the empty string (which JavaScript treats as false). */
  function MapModuleToSourceFile(ops: PathOps, trie: Tree<AliasEntry>, spec: ModuleSpecifier,
                                 candidates: seq<SourceFile>): (r: Result<Option<SourceFile>, Thrown>)
    ensures GetModuleSpecifierName(spec).Err? <==> r.Err?
    ensures r.Ok? && r.value.Some? ==> r.value.value in candidates
    ensures r.Ok? ==> var names := Candidates(ops, GetModuleSpecifierName(spec).value, spec.file, trie);
      var byName := FilesByName(ops, candidates);
      match FirstKnown(names, byName)
      case None => r.value.None?
      case Some(k) => if names[k] == "" then r.value.None? else
        r.value.Some? && AbsolutePath(ops, r.value.value) == names[k]
        && names[k] in byName && r.value.value == byName[names[k]]
        && forall j :: 0 <= j < k ==> forall f :: f in candidates ==> AbsolutePath(ops, f) != names[j]
  {
    var name :- GetModuleSpecifierName(spec);
    var names := Candidates(ops, name, spec.file, trie);
    var byName := FilesByName(ops, candidates);
    match FirstKnown(names, byName)
    case None => Ok(None)
    case Some(k) =>
      if names[k] == "" then Ok(None)
      else
        forall j, f | 0 <= j < k && f in candidates ensures AbsolutePath(ops, f) != names[j] {
          var i :| 0 <= i < |candidates| && candidates[i] == f;
        }
        Ok(Some(byName[names[k]]))
  }
}
