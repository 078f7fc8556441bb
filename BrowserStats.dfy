/** The browser-share helpers of the iwanttouse app
    (packages/iwanttouse/src/app/browser-stats.ts): the intersection of
    version lists, grouping, version keys, and the `Browsers` table that
    answers "which browser versions support these features". */
module BrowserStats {
  import opened Util

  // ---------------------------------------------------------------------
  // intersectionOf (browser-stats.ts:1-20)

  /** What `intersectionOf` throws for an empty list of arrays. */
  const NotEnoughInputs: string := "not enough inputs"

  /** `x` occurs in every one of `arrays`. */
  predicate InEach(x: string, arrays: seq<seq<string>>) {
    forall k :: 0 <= k < |arrays| ==> x in arrays[k]
  }

  /** The elements of `d` that occur in every one of `arrays`, in order. */
  function Common(d: seq<string>, arrays: seq<seq<string>>): seq<string>
    decreases |d|
  {
    if |d| == 0 then []
    else Common(d[..|d| - 1], arrays) + if InEach(d[|d| - 1], arrays) then [d[|d| - 1]] else []
  }

  /** The elements of `d` that occur in `a`, in order: what is left of the
      Set once the values `a` lacks are deleted. */
  function KeepIn(d: seq<string>, a: seq<string>): seq<string>
    decreases |d|
  {
    if |d| == 0 then [] else KeepIn(d[..|d| - 1], a) + if d[|d| - 1] in a then [d[|d| - 1]] else []
  }

  /** The position of the first of the shortest arrays. */
  function FirstShortest(s: seq<seq<string>>): (k: nat)
    requires |s| > 0
    ensures k < |s| && forall j :: 0 <= j < |s| ==> |s[k]| <= |s[j]|
    ensures forall j :: 0 <= j < k ==> |s[j]| > |s[k]|
  {
    if |s| == 1 then 0
    else
      var k := FirstShortest(s[1..]);
      assert s[1..][k] == s[k + 1];
      if |s[0]| <= |s[k + 1]| then 0 else k + 1
  }

  /** What `intersectionOf(arrays)` returns: the distinct elements of the
      first shortest array that occur in every array, in that array's order;
      an empty list throws. */
  function Intersection(s: seq<seq<string>>): (r: Result<seq<string>, string>)
    ensures r.Err? <==> |s| == 0
  {
    if |s| == 0 then Err(NotEnoughInputs) else Ok(Common(Distinct(s[FirstShortest(s)]), s))
  }

  /** An element is in the intersection exactly when every array holds it,
      and it is there once. */
  lemma IntersectionHas(s: seq<seq<string>>, x: string)
    requires |s| > 0
    ensures x in Intersection(s).value <==> InEach(x, s)
    ensures NoDuplicates(Intersection(s).value)
  {
    var d := Distinct(s[FirstShortest(s)]);
    CommonHas(d, s, x);
    CommonDistinct(d, s);
    if InEach(x, s) {
      assert x in s[FirstShortest(s)];
      var i :| 0 <= i < |s[FirstShortest(s)]| && s[FirstShortest(s)][i] == x;
      assert x in d;
    }
  }

  /** `Common` keeps exactly the elements of `d` found in every array. */
  lemma {:induction false} CommonHas(d: seq<string>, arrays: seq<seq<string>>, x: string)
    ensures x in Common(d, arrays) <==> x in d && InEach(x, arrays)
    decreases |d|
  {
    if |d| > 0 {
      CommonHas(d[..|d| - 1], arrays, x);
      assert d == d[..|d| - 1] + [d[|d| - 1]];
    }
  }

  /** `Common` of a list without repetitions has none either. */
  lemma {:induction false} CommonDistinct(d: seq<string>, arrays: seq<seq<string>>)
    requires NoDuplicates(d)
    ensures NoDuplicates(Common(d, arrays))
    decreases |d|
  {
    if |d| > 0 {
      var init, last := d[..|d| - 1], d[|d| - 1];
      assert NoDuplicates(init);
      CommonDistinct(init, arrays);
      CommonHas(init, arrays, last);
      assert d == init + [last];
      assert last !in init;
      var c := Common(init, arrays);
      if InEach(last, arrays) {
        assert last !in c;
        assert forall i :: 0 <= i < |c| ==> (c + [last])[i] == c[i];
      }
    }
  }

  /** Adding an array to the list is deleting the values it lacks. */
  lemma {:induction false} CommonSnoc(d: seq<string>, arrays: seq<seq<string>>, a: seq<string>)
    ensures Common(d, arrays + [a]) == KeepIn(Common(d, arrays), a)
    decreases |d|
  {
    if |d| > 0 {
      var init, last := d[..|d| - 1], d[|d| - 1];
      CommonSnoc(init, arrays, a);
      assert InEach(last, arrays + [a]) <==> InEach(last, arrays) && last in a by {
        assert forall k :: 0 <= k < |arrays| ==> (arrays + [a])[k] == arrays[k];
        assert (arrays + [a])[|arrays|] == a;
      }
      var c := Common(init, arrays);
      if InEach(last, arrays) {
        assert (c + [last])[..|c|] == c;
      } else {
        assert c + [] == c;
      }
    }
  }

  /** Two lists of arrays that agree on the elements of `d` keep the same ones. */
  lemma {:induction false} CommonCongruent(d: seq<string>, a: seq<seq<string>>, b: seq<seq<string>>)
    requires forall x :: x in d ==> (InEach(x, a) <==> InEach(x, b))
    ensures Common(d, a) == Common(d, b)
    decreases |d|
  {
    if |d| > 0 {
      assert forall x :: x in d[..|d| - 1] ==> x in d;
      CommonCongruent(d[..|d| - 1], a, b);
      assert d[|d| - 1] in d;
    }
  }

  /** The arrays are the same whatever their order. */
  lemma InEachPermutation(x: string, s: seq<seq<string>>, t: seq<seq<string>>)
    requires multiset(s) == multiset(t) && InEach(x, s)
    ensures InEach(x, t)
  {
    forall k | 0 <= k < |t| ensures x in t[k] {
      assert t[k] in multiset(s);
      var j :| 0 <= j < |s| && s[j] == t[k];
    }
  }

  // --- arrays.sort by length

  /** Insert `x` before the first array at least as long as it. */
  function InsertByLength(x: seq<string>, t: seq<seq<string>>): (r: seq<seq<string>>)
    ensures |r| == |t| + 1
  {
    if |t| == 0 || |x| <= |t[0]| then [x] + t else [t[0]] + InsertByLength(x, t[1..])
  }

  /** `arrays.sort` with the comparator on lengths. The engine's sort is
      stable, so arrays of equal length keep their order. */
  function SortByLength(s: seq<seq<string>>): (r: seq<seq<string>>)
    ensures |r| == |s|
  {
    if |s| == 0 then [] else InsertByLength(s[0], SortByLength(s[1..]))
  }

  /** The insertion adds `x` and loses nothing. */
  lemma {:induction false} InsertPermutes(x: seq<string>, t: seq<seq<string>>)
    ensures multiset(InsertByLength(x, t)) == multiset(t) + multiset{x}
    decreases |t|
  {
    if |t| > 0 && |x| > |t[0]| {
      InsertPermutes(x, t[1..]);
      assert t == [t[0]] + t[1..];
    }
  }

  /** The sort is a permutation. */
  lemma {:induction false} SortPermutes(s: seq<seq<string>>)
    ensures multiset(SortByLength(s)) == multiset(s)
  {
    if |s| > 0 {
      SortPermutes(s[1..]);
      InsertPermutes(s[0], SortByLength(s[1..]));
      assert s == [s[0]] + s[1..];
    }
  }

  ghost predicate ShortestFirst(r: seq<seq<string>>) {
    forall i, j :: 0 <= i < j < |r| ==> |r[i]| <= |r[j]|
  }

  /** Inserting into a list sorted by length keeps it sorted. */
  lemma {:induction false} InsertSorted(x: seq<string>, t: seq<seq<string>>)
    requires ShortestFirst(t)
    ensures ShortestFirst(InsertByLength(x, t))
    ensures |t| > 0 ==> InsertByLength(x, t)[0] == if |x| <= |t[0]| then x else t[0]
    decreases |t|
  {
    if |t| > 0 && |x| > |t[0]| {
      InsertSorted(x, t[1..]);
      InsertPermutes(x, t[1..]);
      var rest := InsertByLength(x, t[1..]);
      assert forall k :: 0 <= k < |rest| ==> |t[0]| <= |rest[k]| by {
        forall k | 0 <= k < |rest| ensures |t[0]| <= |rest[k]| {
          assert rest[k] in multiset(t[1..]) + multiset{x};
          if rest[k] != x {
            var j :| 0 <= j < |t[1..]| && t[1..][j] == rest[k];
            assert t[j + 1] == rest[k];
          }
        }
      }
    }
  }

  /** The sorted list is ordered by length. */
  lemma {:induction false} SortSorted(s: seq<seq<string>>)
    ensures ShortestFirst(SortByLength(s))
  {
    if |s| > 0 {
      SortSorted(s[1..]);
      InsertSorted(s[0], SortByLength(s[1..]));
    }
  }

  /** The sort puts the FIRST of the shortest arrays in front. */
  lemma {:induction false} SortHead(s: seq<seq<string>>)
    requires |s| > 0
    ensures SortByLength(s)[0] == s[FirstShortest(s)]
  {
    if |s| > 1 {
      SortHead(s[1..]);
      SortSorted(s[1..]);
      InsertSorted(s[0], SortByLength(s[1..]));
      assert s[1..][FirstShortest(s[1..])] == s[FirstShortest(s[1..]) + 1];
    }
  }

  /** Where the insertion puts `x`: after the `m` shorter arrays in front,
      which keep their places, and before the rest, which move up by one. */
  lemma {:induction false} InsertAt(x: seq<string>, t: seq<seq<string>>, m: nat)
    requires m <= |t| && (forall k :: 0 <= k < m ==> |t[k]| < |x|) && (m == |t| || |x| <= |t[m]|)
    ensures var r := InsertByLength(x, t);
      r[m] == x && (forall k :: 0 <= k < m ==> r[k] == t[k]) && (forall k :: m < k <= |t| ==> r[k] == t[k - 1])
    decreases m
  {
    if m > 0 {
      var u := t[1..];
      assert forall k :: 0 <= k < m - 1 ==> u[k] == t[k + 1];
      assert m - 1 < |u| ==> u[m - 1] == t[m];
      InsertAt(x, u, m - 1);
      var r := InsertByLength(x, t);
      assert r == [t[0]] + InsertByLength(x, u);
      assert forall k :: 0 < k <= |t| ==> r[k] == InsertByLength(x, u)[k - 1];
    }
  }

  /** `arrays.sort((a, b) => …)` in place, as an insertion sort from the back. */
  method SortArraysByLength(a: array<seq<string>>)
    modifies a
    ensures a[..] == SortByLength(old(a[..]))
  {
    ghost var s := a[..];
    var i := a.Length;
    while i > 0
      invariant 0 <= i <= a.Length
      invariant a[..i] == s[..i] && a[i..] == SortByLength(s[i..])
    {
      i := i - 1;
      assert a[i] == s[i] by { assert a[..i + 1][i] == s[..i + 1][i]; }
      assert s[i..][0] == s[i] && s[i..][1..] == s[i + 1..];
      InsertBack(a, i);
      assert a[..i] == s[..i] by { assert a[..i] == a[..i + 1][..i]; }
    }
  }

  /** Put `a[i]` into the sorted run `a[i + 1..]`, shifting the shorter arrays
      one to the left. */
  method InsertBack(a: array<seq<string>>, i: nat)
    requires i < a.Length
    modifies a
    ensures a[..i + 1] == old(a[..i + 1])[..i] + [a[i]] && a[i..] == InsertByLength(old(a[i]), old(a[i + 1..]))
  {
    ghost var t := a[i + 1..];
    var x := a[i];
    var j := i;
    while j + 1 < a.Length && |a[j + 1]| < |x|
      invariant i <= j < a.Length
      invariant forall k :: 0 <= k < i || j < k < a.Length ==> a[k] == old(a[k])
      invariant forall k :: i <= k < j ==> a[k] == old(a[k + 1]) && |a[k]| < |x|
    {
      a[j] := a[j + 1];
      j := j + 1;
    }
    ghost var m := j - i;
    assert forall k :: 0 <= k < m ==> t[k] == a[i + k];
    InsertAt(x, t, m);
    a[j] := x;
    ghost var r := InsertByLength(x, t);
    assert forall k :: 0 <= k < |r| ==> a[i..][k] == r[k];
  }

  /** On two or more arrays the loop narrows the first array after the sort
      by the others, which is the same as by all of them. */
  lemma SortedIntersection(s: seq<seq<string>>)
    requires |s| >= 2
    ensures var t := SortByLength(s); Common(Distinct(t[0]), t[1..]) == Common(Distinct(s[FirstShortest(s)]), s)
  {
    var t := SortByLength(s);
    SortHead(s);
    SortPermutes(s);
    var d := Distinct(t[0]);
    forall x | x in d ensures InEach(x, t[1..]) <==> InEach(x, t) {
      var i :| 0 <= i < |d| && d[i] == x;
      InEachTail(x, t);
    }
    CommonCongruent(d, t[1..], t);
    forall x | x in d ensures InEach(x, t) <==> InEach(x, s) {
      if InEach(x, t) { InEachPermutation(x, t, s); }
      if InEach(x, s) { InEachPermutation(x, s, t); }
    }
    CommonCongruent(d, t, s);
  }

  /** An element of the first array is in all of them when it is in the rest. */
  lemma InEachTail(x: string, t: seq<seq<string>>)
    requires |t| > 0 && x in t[0]
    ensures InEach(x, t[1..]) <==> InEach(x, t)
  {
    if InEach(x, t[1..]) {
      forall k | 1 <= k < |t| ensures x in t[k] {
        assert t[1..][k - 1] == t[k];
      }
    }
    if InEach(x, t) {
      forall k | 0 <= k < |t| - 1 ensures x in t[1..][k] {
        assert t[1..][k] == t[k + 1];
      }
    }
  }

  /** `Common` over no arrays keeps everything. */
  lemma {:induction false} CommonNone(d: seq<string>)
    ensures Common(d, []) == d
    decreases |d|
  {
    if |d| > 0 {
      CommonNone(d[..|d| - 1]);
    }
  }

  /** The inner loop: every value of the Set that `a` lacks is deleted. */
  method DeleteMissing(output: seq<string>, a: seq<string>) returns (kept: seq<string>)
    ensures kept == KeepIn(output, a)
  {
    kept := [];
    var j := 0;
    while j < |output|
      invariant j <= |output| && kept == KeepIn(output[..j], a)
    {
      assert output[..j + 1][..j] == output[..j];
      if output[j] in a {
        kept := kept + [output[j]];
      }
      j := j + 1;
    }
    assert output[..|output|] == output;
  }

  /** A single array comes back without its duplicates. */
  lemma SingleIntersection(s: seq<seq<string>>)
    requires |s| == 1
    ensures Intersection(s) == Ok(Distinct(s[0]))
  {
    var d := Distinct(s[0]);
    forall x | x in d ensures InEach(x, s) <==> InEach(x, []) {
      var i :| 0 <= i < |d| && d[i] == x;
    }
    CommonCongruent(d, s, []);
    CommonNone(d);
  }

  /** `intersectionOf(arrays)`. A single array is returned without duplicates
      and unsorted; two or more are sorted in place by length first. */
  method IntersectionOf(arrays: array<seq<string>>) returns (r: Result<seq<string>, string>)
    modifies arrays
    ensures r == Intersection(old(arrays[..]))
    ensures arrays[..] == if arrays.Length < 2 then old(arrays[..]) else SortByLength(old(arrays[..]))
  {
    ghost var s := arrays[..];
    if arrays.Length == 1 {
      SingleIntersection(s);
      return Ok(Distinct(arrays[0]));
    }
    if arrays.Length < 2 {
      return Err(NotEnoughInputs);
    }
    SortArraysByLength(arrays);
    var output := Distinct(arrays[0]);
    ghost var d := output;
    CommonNone(d);
    assert arrays[1..1] == [];
    var i := 1;
    while i < arrays.Length
      invariant 1 <= i <= arrays.Length && arrays[..] == SortByLength(s)
      invariant output == Common(d, arrays[1..i])
    {
      CommonSnoc(d, arrays[1..i], arrays[i]);
      assert arrays[1..i + 1] == arrays[1..i] + [arrays[i]];
      output := DeleteMissing(output, arrays[i]);
      i := i + 1;
    }
    assert arrays[1..arrays.Length] == SortByLength(s)[1..];
    SortedIntersection(s);
    r := Ok(output);
  }

  // ---------------------------------------------------------------------
  // groupBy (browser-stats.ts:22-35)

  /** The items whose key is `k`, in input order. */
  function WithKey<T>(items: seq<T>, key: T -> string, k: string): seq<T>
    decreases |items|
  {
    if |items| == 0 then []
    else WithKey(items[..|items| - 1], key, k) + if key(items[|items| - 1]) == k then [items[|items| - 1]] else []
  }

  /** `item` joins the group of key `k`, which is added at the end when new. */
  function AddItem<T>(g: seq<(string, seq<T>)>, k: string, item: T): (r: seq<(string, seq<T>)>)
    requires DistinctKeys(g)
    ensures DistinctKeys(r)
    ensures |r| == if KeyIn(g, k) then |g| else |g| + 1
    ensures forall i :: 0 <= i < |g| ==> r[i] == if g[i].0 == k then (k, g[i].1 + [item]) else g[i]
    ensures !KeyIn(g, k) ==> r[|g|] == (k, [item])
  {
    if KeyIn(g, k) then
      var i := KeyIndex(g, k);
      g[i := (k, g[i].1 + [item])]
    else
      g + [(k, [item])]
  }

  /** The object `groupBy` builds, as its entries in key order: the first
      item with a new key adds the key at the end, later ones join its group. */
  function Groups<T>(items: seq<T>, key: T -> string): (g: seq<(string, seq<T>)>)
    ensures DistinctKeys(g)
    decreases |items|
  {
    if |items| == 0 then []
    else AddItem(Groups(items[..|items| - 1], key), key(items[|items| - 1]), items[|items| - 1])
  }

  /** Every group holds exactly the items with its key, in input order, and
      there is a group for every key some item has. */
  lemma GroupsAreFilters<T>(items: seq<T>, key: T -> string, k: string)
    ensures KeyIn(Groups(items, key), k) <==> WithKey(items, key, k) != []
    ensures forall i :: 0 <= i < |Groups(items, key)| && Groups(items, key)[i].0 == k ==>
      Groups(items, key)[i].1 == WithKey(items, key, k)
  {
    GroupKeys(items, key, k);
    forall i | 0 <= i < |Groups(items, key)| {
      GroupContents(items, key, i);
    }
  }

  /** There is a group for `k` exactly when some item has key `k`. */
  lemma {:induction false} GroupKeys<T>(items: seq<T>, key: T -> string, k: string)
    ensures KeyIn(Groups(items, key), k) <==> WithKey(items, key, k) != []
    decreases |items|
  {
    if |items| > 0 {
      var init, item := items[..|items| - 1], items[|items| - 1];
      GroupKeys(init, key, k);
      var g := Groups(init, key);
      var g' := Groups(items, key);
      assert g' == AddItem(g, key(item), item);
      if KeyIn(g, k) {
        var i :| 0 <= i < |g| && g[i].0 == k;
        assert g'[i].0 == k;
      }
      if key(item) == k {
        if !KeyIn(g, k) {
          assert g'[|g|].0 == k;
        }
      } else if KeyIn(g', k) {
        var i :| 0 <= i < |g'| && g'[i].0 == k;
        assert g[i].0 == k;
      }
    }
  }

  /** The group at `i` holds the items with its key, in input order. */
  lemma {:induction false} GroupContents<T>(items: seq<T>, key: T -> string, i: int)
    requires 0 <= i < |Groups(items, key)|
    ensures Groups(items, key)[i].1 == WithKey(items, key, Groups(items, key)[i].0)
    decreases |items|
  {
    var init, item := items[..|items| - 1], items[|items| - 1];
    var g := Groups(init, key);
    var g' := Groups(items, key);
    assert g' == AddItem(g, key(item), item);
    var k := g'[i].0;
    if i < |g| {
      GroupContents(init, key, i);
      assert g[i].0 == k;
    } else {
      GroupKeys(init, key, k);
    }
  }

  /** `groupBy(array, func)`. */
  method GroupBy<T>(items: seq<T>, key: T -> string) returns (output: seq<(string, seq<T>)>)
    ensures output == Groups(items, key)
  {
    output := [];
    for i := 0 to |items|
      invariant output == Groups(items[..i], key)
    {
      assert items[..i + 1][..i] == items[..i];
      var item := items[i];
      var k := key(item);
      ghost var was := output;
      ghost var isNew := !KeyIn(output, k);
      if !KeyIn(output, k) {
        output := output + [(k, [])];
        assert output[|was|].0 == k;
        assert KeyIndex(output, k) == |was| by {
          assert forall j :: 0 <= j < |was| ==> output[j] == was[j];
        }
      }
      var at := KeyIndex(output, k);
      output := output[at := (k, output[at].1 + [item])];
      if isNew {
        assert [] + [item] == [item];
        assert output == was + [(k, [item])];
      }
    }
    assert items[..|items|] == items;
  }

  // ---------------------------------------------------------------------
  // Browser (browser-stats.ts:37-88)

  /** One agent of the usage data: its name, its type, the entries of its
      `versions` object in order (`None` for `null`) and the usage share of
      each version. */
  datatype Agent = Agent(browser: string, agentType: string, versions: seq<(string, Option<string>)>, usageGlobal: map<string, real>)

  /** `new Browser(key, agent)` */
  datatype Browser = Browser(key: string, agent: Agent)

  /** A version JavaScript treats as true: a non-empty string. */
  predicate Truthy(v: Option<string>) {
    v.Some? && v.value != ""
  }

  /** `key + '+' + version` */
  function VersionKey(key: string, version: string): string {
    key + "+" + version
  }

  /** The version keys of the first entries `vs` of a `versions` object. */
  function KeysOf(key: string, vs: seq<(string, Option<string>)>): seq<string>
    decreases |vs|
  {
    if |vs| == 0 then []
    else
      var v := vs[|vs| - 1].1;
      KeysOf(key, vs[..|vs| - 1]) + if Truthy(v) then [VersionKey(key, v.value)] else []
  }

  /** A version key is listed exactly when a truthy version produced it. */
  lemma {:induction false} KeysOfHas(key: string, vs: seq<(string, Option<string>)>, k: string)
    ensures k in KeysOf(key, vs) <==> exists i :: 0 <= i < |vs| && Truthy(vs[i].1) && k == VersionKey(key, vs[i].1.value)
    decreases |vs|
  {
    if |vs| > 0 {
      var init := vs[..|vs| - 1];
      KeysOfHas(key, init, k);
      if exists i :: 0 <= i < |vs| && Truthy(vs[i].1) && k == VersionKey(key, vs[i].1.value) {
        var i :| 0 <= i < |vs| && Truthy(vs[i].1) && k == VersionKey(key, vs[i].1.value);
        if i < |vs| - 1 {
          assert init[i] == vs[i];
        }
      }
      if exists i :: 0 <= i < |init| && Truthy(init[i].1) && k == VersionKey(key, init[i].1.value) {
        var i :| 0 <= i < |init| && Truthy(init[i].1) && k == VersionKey(key, init[i].1.value);
        assert vs[i] == init[i];
      }
    }
  }

  /** The `versionKeys` getter. */
  method VersionKeys(b: Browser) returns (versions: seq<string>)
    ensures versions == KeysOf(b.key, b.agent.versions)
  {
    var vs := b.agent.versions;
    versions := [];
    for i := 0 to |vs|
      invariant versions == KeysOf(b.key, vs[..i])
    {
      assert vs[..i + 1][..i] == vs[..i];
      if Truthy(vs[i].1) {
        versions := versions + [b.key + "+" + vs[i].1.value];
      }
    }
    assert vs[..|vs|] == vs;
  }

  /** `getVersionShare(version)`: the usage of the version, 0 when it has none. */
  function VersionShare(agent: Agent, version: string): real {
    if version in agent.usageGlobal then agent.usageGlobal[version] else 0.0
  }

  /** Splitting a version key on '+' gives back the agent first, and then
      the version when it contains no '+' itself. */
  lemma SplitVersionKey(key: string, version: string)
    requires '+' !in key
    ensures Split(VersionKey(key, version), '+') == [key] + Split(version, '+')
    ensures '+' !in version ==> Split(VersionKey(key, version), '+') == [key, version]
  {
    var s := VersionKey(key, version);
    assert s[|key|] == '+';
    var i := FirstIndex(s, '+');
    assert forall j :: 0 <= j < |key| ==> s[j] == key[j];
    assert i == |key|;
    assert s[..i] == key;
    assert s[i + 1..] == version;
  }

  // ---------------------------------------------------------------------
  // Browsers (browser-stats.ts:90-192)

  /** A feature's support table: for each agent, in key order, the status of
      each of its versions; `None` once the agent has been filtered out. */
  datatype Feature = Feature(stats: seq<(string, Option<seq<(string, string)>>)>)

  /** What `getBrowser` returns for a version key. */
  datatype BrowserVersion = BrowserVersion(key: string, version: Option<string>, browserType: string, name: string, browserShare: real)

  const NoAgent: Thrown := TypeError("Cannot read properties of undefined (reading 'type')")
  const NoStats: Thrown := TypeError("Cannot read properties of undefined (reading 'stats')")

  /** A note (a space, then '#') starts at `i`. */
  predicate NoteAt(s: string, i: int) {
    0 <= i && i + 1 < |s| && s[i] == ' ' && s[i + 1] == '#'
  }

  predicate LineTerminator(c: char) {
    c == '\n' || c == '\r' || c == '\U{2028}' || c == '\U{2029}'
  }

  /** The first note at or after `from`, or -1. */
  function NoteFrom(s: string, from: nat): (i: int)
    ensures i == -1 || (from <= i && NoteAt(s, i))
    ensures forall j :: from <= j && (i == -1 || j < i) ==> !NoteAt(s, j)
    decreases |s| - from
  {
    if from + 1 >= |s| then -1 else if NoteAt(s, from) then from else NoteFrom(s, from + 1)
  }

  /** Where `.*` stops: the first line terminator at or after `from`. */
  function LineEnd(s: string, from: nat): (j: nat)
    requires from <= |s|
    ensures from <= j <= |s| && (j < |s| ==> LineTerminator(s[j]))
    ensures forall k :: from <= k < j ==> !LineTerminator(s[k])
    decreases |s| - from
  {
    if from == |s| || LineTerminator(s[from]) then from else LineEnd(s, from + 1)
  }

  /** The status without its note: the first space-and-'#' is cut out
      together with the rest of its line, as the `present.replace` call of
      `getByFeature` does. */
  function StripNote(s: string): (r: string)
    ensures (forall j :: 0 <= j < |s| ==> !NoteAt(s, j)) <==> r == s
    ensures exists a, b :: 0 <= a <= b <= |s| && r == s[..a] + s[b..] && forall j :: 0 <= j < a ==> !NoteAt(s, j)
  {
    var i := NoteFrom(s, 0);
    if i == -1 then
      assert s == s[..0] + s[0..];
      s
    else
      var b := LineEnd(s, i + 2);
      assert |s[..i] + s[b..]| < |s|;
      s[..i] + s[b..]
  }

  /** A one-line status loses its note and keeps what came before it. */
  lemma StripNoteCuts(s: string)
    requires forall k :: 0 <= k < |s| ==> !LineTerminator(s[k])
    ensures forall j :: !NoteAt(StripNote(s), j)
    ensures StripNote(s) == s[..|StripNote(s)|]
  {
    var i := NoteFrom(s, 0);
    if i != -1 {
      assert LineEnd(s, i + 2) == |s|;
      var r := StripNote(s);
      assert r == s[..i];
      forall j | NoteAt(r, j) ensures false {
        assert NoteAt(s, j);
      }
    }
  }

  /** The version keys of one agent's row of a feature whose status, without
      its note, is one of `states`. */
  function SupportedVersions(b: string, vs: seq<(string, string)>, states: seq<string>): seq<string>
    decreases |vs|
  {
    if |vs| == 0 then []
    else
      var e := vs[|vs| - 1];
      SupportedVersions(b, vs[..|vs| - 1], states) + if StripNote(e.1) in states then [VersionKey(b, e.0)] else []
  }

  /** The version keys of the first rows `stats` of a feature that support it. */
  function Supported(stats: seq<(string, Option<seq<(string, string)>>)>, states: seq<string>): seq<string>
    decreases |stats|
  {
    if |stats| == 0 then []
    else
      var e := stats[|stats| - 1];
      Supported(stats[..|stats| - 1], states) + RowKeys(e, states)
  }

  /** The values of an object, in key order. */
  function Values<V>(es: seq<(string, V)>): (vs: seq<V>)
    ensures |vs| == |es| && forall i :: 0 <= i < |es| ==> vs[i] == es[i].1
  {
    seq(|es|, i requires 0 <= i < |es| => es[i].1)
  }

  class Browsers {
    /** The keys of `_agents`, in insertion order. */
    var agentKeys: seq<string>
    /** `_agents` */
    var agents: map<string, Browser>
    /** `_features` */
    var features: map<string, Feature>

    ghost predicate Valid()
      reads this
    {
      NoDuplicates(agentKeys) && (forall a :: a in agentKeys <==> a in agents) &&
      forall a :: a in agents ==> agents[a].key == a
    }

    constructor()
      ensures Valid() && agentKeys == [] && agents == map[] && features == map[]
    {
      agentKeys, agents, features := [], map[], map[];
    }

    /** `addBrowser(a, agent)`: a new key goes last, an existing one keeps its place. */
    method AddBrowser(a: string, agent: Agent)
      requires Valid()
      modifies this
      ensures Valid()
      ensures agents == old(agents)[a := Browser(a, agent)] && features == old(features)
      ensures agentKeys == if a in old(agents) then old(agentKeys) else old(agentKeys) + [a]
    {
      if a !in agents {
        agentKeys := agentKeys + [a];
      }
      agents := agents[a := Browser(a, agent)];
    }

    /** `addFeature(feature, versions)` */
    method AddFeature(name: string, f: Feature)
      modifies this
      ensures features == old(features)[name := f] && agents == old(agents) && agentKeys == old(agentKeys)
    {
      features := features[name := f];
    }

    /** `getBrowser(key)`: the agent before the first '+', the version after it. */
    function GetBrowser(key: string): (r: Result<BrowserVersion, Thrown>)
      reads this
      ensures r.Err? <==> Split(key, '+')[0] !in agents
      ensures r.Err? ==> r.error == NoAgent
      ensures r.Ok? ==> r.value.key == key && r.value.browserType == agents[Split(key, '+')[0]].agent.agentType
    {
      var ua := Split(key, '+');
      if ua[0] !in agents then Err(NoAgent)
      else
        var agent := agents[ua[0]].agent;
        var version := if |ua| > 1 then Some(ua[1]) else None;
        // an absent version is looked up as the key "undefined"
        var share := VersionShare(agent, if version.Some? then version.value else "undefined");
        Ok(BrowserVersion(key, version, agent.agentType, agent.browser, share))
    }

    /** The version keys of the first `n` agents. */
    function AllVersionKeys(n: nat): seq<string>
      reads this
      requires n <= |agentKeys|
    {
      if n == 0 then []
      else
        var a := agentKeys[n - 1];
        AllVersionKeys(n - 1) + if a in agents then KeysOf(agents[a].key, agents[a].agent.versions) else []
    }

    /** The object of per-feature lists after the names `names`, starting
        from `acc`: a repeated name keeps its place and is filled again; an
        unknown name throws. */
    function FeatureLists(acc: seq<(string, seq<string>)>, names: seq<string>, states: seq<string>): (r: Result<seq<(string, seq<string>)>, Thrown>)
      reads this
      requires DistinctKeys(acc)
      ensures r.Ok? ==> DistinctKeys(r.value)
      decreases |names|
    {
      if |names| == 0 then Ok(acc)
      else if names[0] !in features then Err(NoStats)
      else FeatureLists(Put(acc, (names[0], Supported(features[names[0]].stats, states))), names[1..], states)
    }

    /** `getBrowser` over the first `n` keys, or the first error. */
    function BrowsersOf(keys: seq<string>, n: nat): Result<seq<BrowserVersion>, Thrown>
      reads this
      requires n <= |keys|
    {
      if n == 0 then Ok([])
      else
        var before := BrowsersOf(keys, n - 1);
        if before.Err? then before
        else
          var b := GetBrowser(keys[n - 1]);
          if b.Err? then Err(b.error) else Ok(before.value + [b.value])
    }

    /** What `getByFeature(features, states)` returns. */
    function ByFeature(names: Option<seq<string>>, states: seq<string>): Result<seq<BrowserVersion>, Thrown>
      reads this
    {
      var lists :=
        if names.None? || |names.value| == 0 then Ok([AllVersionKeys(|agentKeys|)])
        else
          var rec := FeatureLists([], names.value, states);
          if rec.Err? then Err(rec.error) else Ok(Values(rec.value));
      if lists.Err? then Err(lists.error)
      else
        var keys := Intersection(lists.value);
        if keys.Err? then Err(PlainError(keys.error)) else BrowsersOf(keys.value, |keys.value|)
    }
  
    /** The lookup of a version key built from a known agent and a version
        without '+' finds that agent and that version. */
    lemma GetVersionKey(a: string, v: string)
      requires Valid() && a in agents && '+' !in a && '+' !in v
      ensures GetBrowser(VersionKey(a, v)) ==
        Ok(BrowserVersion(VersionKey(a, v), Some(v), agents[a].agent.agentType, agents[a].agent.browser, VersionShare(agents[a].agent, v)))
    {
      SplitVersionKey(a, v);
    }

    /** Every agent's version keys are listed, and nothing else. */
    lemma {:induction false} AllVersionKeysHas(n: nat, x: string)
      requires n <= |agentKeys|
      ensures x in AllVersionKeys(n) <==>
        exists i :: 0 <= i < n && agentKeys[i] in agents && x in KeysOf(agents[agentKeys[i]].key, agents[agentKeys[i]].agent.versions)
    {
      if n > 0 {
        AllVersionKeysHas(n - 1, x);
      }
    }

    /** Once `getBrowser` has thrown, the remaining keys change nothing. */
    lemma {:induction false} BrowsersOfStaysFailed(keys: seq<string>, n: nat, m: nat)
      requires n <= m <= |keys| && BrowsersOf(keys, n).Err?
      ensures BrowsersOf(keys, m) == BrowsersOf(keys, n)
      decreases m - n
    {
      if n < m {
        BrowsersOfStaysFailed(keys, n, m - 1);
      }
    }

    /** `map(getBrowser)` succeeds exactly when every key's agent is known,
        and then gives the lookups in order. */
    lemma {:induction false} BrowsersOfHas(keys: seq<string>, n: nat)
      requires n <= |keys|
      ensures BrowsersOf(keys, n).Ok? <==> forall i :: 0 <= i < n ==> GetBrowser(keys[i]).Ok?
      ensures BrowsersOf(keys, n).Ok? ==>
        |BrowsersOf(keys, n).value| == n && forall i :: 0 <= i < n ==> BrowsersOf(keys, n).value[i] == GetBrowser(keys[i]).value
      ensures BrowsersOf(keys, n).Err? ==> BrowsersOf(keys, n).error == NoAgent
    {
      if n > 0 {
        BrowsersOfHas(keys, n - 1);
      }
    }

    /** Each entry of the built lists belongs to a named feature and holds
        its supported version keys, or is an entry of `acc` no name touched. */
    lemma {:induction false} FeatureListsEntry(acc: seq<(string, seq<string>)>, names: seq<string>, states: seq<string>, i: int)
      requires DistinctKeys(acc) && FeatureLists(acc, names, states).Ok?
      requires 0 <= i < |FeatureLists(acc, names, states).value|
      ensures var x := FeatureLists(acc, names, states).value[i];
        if x.0 in names then x.0 in features && x.1 == Supported(features[x.0].stats, states)
        else x in acc
      decreases |names|
    {
      if |names| > 0 {
        var e := (names[0], Supported(features[names[0]].stats, states));
        var next := Put(acc, e);
        assert FeatureLists(acc, names, states) == FeatureLists(next, names[1..], states);
        FeatureListsEntry(next, names[1..], states, i);
        var x := FeatureLists(acc, names, states).value[i];
        assert names == [names[0]] + names[1..];
        if x.0 !in names[1..] {
          PutEntry(acc, e, x);
        }
      }
    }

    /** Every named feature, and every key of `acc`, has an entry. */
    lemma {:induction false} FeatureListsKeys(acc: seq<(string, seq<string>)>, names: seq<string>, states: seq<string>, k: string)
      requires DistinctKeys(acc) && FeatureLists(acc, names, states).Ok?
      requires k in names || KeyIn(acc, k)
      ensures KeyIn(FeatureLists(acc, names, states).value, k)
      decreases |names|
    {
      if |names| > 0 {
        var e := (names[0], Supported(features[names[0]].stats, states));
        var next := Put(acc, e);
        assert FeatureLists(acc, names, states) == FeatureLists(next, names[1..], states);
        if k !in names[1..] && k != names[0] {
          PutKeeps(acc, e, k);
        }
        FeatureListsKeys(next, names[1..], states, k);
      }
    }

    /** The lists fail exactly when a named feature is unknown. */
    lemma {:induction false} FeatureListsFail(acc: seq<(string, seq<string>)>, names: seq<string>, states: seq<string>)
      requires DistinctKeys(acc)
      ensures FeatureLists(acc, names, states).Err? <==> exists n :: n in names && n !in features
      ensures FeatureLists(acc, names, states).Err? ==> FeatureLists(acc, names, states).error == NoStats
      decreases |names|
    {
      if |names| > 0 && names[0] in features {
        var e := (names[0], Supported(features[names[0]].stats, states));
        FeatureListsFail(Put(acc, e), names[1..], states);
        assert forall n :: n in names ==> n == names[0] || n in names[1..];
        assert forall n :: n in names[1..] ==> n in names;
      }
    }

    /** The version keys `getByFeature` selects: with no feature named, every
        version of every agent; otherwise those supported, in one of
        `states`, by every named feature. */
    ghost predicate Selected(names: Option<seq<string>>, states: seq<string>, x: string)
      reads this
    {
      if names.None? || |names.value| == 0 then x in AllVersionKeys(|agentKeys|)
      else forall n :: n in names.value ==> n in features && x in Supported(features[n].stats, states)
    }

    /** What `getByFeature` returns: an unknown feature throws, every other
        failure is an unknown agent, and a result holds one lookup for each
        selected version key and for nothing else. */
    lemma ByFeatureHas(names: Option<seq<string>>, states: seq<string>)
      ensures var r := ByFeature(names, states);
        (names.Some? && (exists n :: n in names.value && n !in features) ==> r == Err(NoStats)) &&
        (r.Err? && r != Err(NoStats) ==> r == Err(NoAgent)) &&
        (((names.Some? ==> forall n :: n in names.value ==> n in features) &&
          (forall x :: Selected(names, states, x) ==> Split(x, '+')[0] in agents)) ==> r.Ok?)
      ensures var r := ByFeature(names, states);
        r.Ok? ==>
          (forall i :: 0 <= i < |r.value| ==> Selected(names, states, r.value[i].key)) &&
          (forall x :: Selected(names, states, x) ==> exists i :: 0 <= i < |r.value| && r.value[i].key == x) &&
          (forall i, j :: 0 <= i < j < |r.value| ==> r.value[i].key != r.value[j].key)
    {
      var r := ByFeature(names, states);
      if names.None? || |names.value| == 0 {
        var lists := [AllVersionKeys(|agentKeys|)];
        ByFeatureKeys(names, states, lists);
      } else {
        FeatureListsFail([], names.value, states);
        var rec := FeatureLists([], names.value, states);
        if rec.Ok? {
          NamedSelection(names.value, states);
          ByFeatureKeys(names, states, Values(rec.value));
        }
      }
    }

    /** With features named, a version key is selected exactly when it is in
        every list built for them. */
    lemma NamedSelection(fs: seq<string>, states: seq<string>)
      requires |fs| > 0 && FeatureLists([], fs, states).Ok?
      ensures var lists := Values(FeatureLists([], fs, states).value);
        |lists| > 0 && forall x :: Selected(Some(fs), states, x) <==> InEach(x, lists)
    {
      var rec := FeatureLists([], fs, states).value;
      var lists := Values(rec);
      FeatureListsKeys([], fs, states, fs[0]);
      forall k | 0 <= k < |rec| ensures rec[k].0 in fs && rec[k].0 in features && rec[k].1 == Supported(features[rec[k].0].stats, states) {
        FeatureListsEntry([], fs, states, k);
      }
      forall n | n in fs ensures KeyIn(rec, n) {
        FeatureListsKeys([], fs, states, n);
      }
      forall x ensures Selected(Some(fs), states, x) <==> InEach(x, lists) {
        if InEach(x, lists) {
          forall n | n in fs ensures n in features && x in Supported(features[n].stats, states) {
            var k := KeyIndex(rec, n);
            assert x in lists[k];
          }
        }
      }
    }

    /** The step of `ByFeatureHas` after the lists are built. */
    lemma ByFeatureKeys(names: Option<seq<string>>, states: seq<string>, lists: seq<seq<string>>)
      requires |lists| > 0 && forall x :: Selected(names, states, x) <==> InEach(x, lists)
      ensures var keys := Intersection(lists).value;
        var r := BrowsersOf(keys, |keys|);
        (r.Err? ==> r == Err(NoAgent)) &&
        ((forall x :: Selected(names, states, x) ==> Split(x, '+')[0] in agents) ==> r.Ok?) &&
        (r.Ok? ==>
          (forall i :: 0 <= i < |r.value| ==> Selected(names, states, r.value[i].key)) &&
          (forall x :: Selected(names, states, x) ==> exists i :: 0 <= i < |r.value| && r.value[i].key == x) &&
          (forall i, j :: 0 <= i < j < |r.value| ==> r.value[i].key != r.value[j].key))
    {
      var keys := Intersection(lists).value;
      BrowsersOfHas(keys, |keys|);
      forall x ensures x in keys <==> InEach(x, lists) {
        IntersectionHas(lists, x);
      }
      IntersectionHas(lists, "");
      var r := BrowsersOf(keys, |keys|);
      if r.Ok? {
        forall x | Selected(names, states, x) ensures exists i :: 0 <= i < |r.value| && r.value[i].key == x {
          var i :| 0 <= i < |keys| && keys[i] == x;
          assert r.value[i].key == x;
        }
      }
    }
  
    /** Every row of a feature that still has versions belongs to a known agent. */
    ghost predicate StatsKnown()
      reads this
    {
      forall f, i :: f in features && 0 <= i < |features[f].stats| && features[f].stats[i].1.Some? ==>
        features[f].stats[i].0 in agents
    }

    /** A selected version key names a known agent before its first '+'. */
    lemma SelectedKnown(names: Option<seq<string>>, states: seq<string>, x: string)
      requires Valid() && StatsKnown() && forall a :: a in agents ==> '+' !in a
      requires Selected(names, states, x)
      ensures Split(x, '+')[0] in agents
    {
      if names.None? || |names.value| == 0 {
        AllVersionKeysHas(|agentKeys|, x);
        var i :| 0 <= i < |agentKeys| && agentKeys[i] in agents && x in KeysOf(agents[agentKeys[i]].key, agents[agentKeys[i]].agent.versions);
        var a := agentKeys[i];
        var vs := agents[a].agent.versions;
        KeysOfHas(a, vs, x);
        var j :| 0 <= j < |vs| && Truthy(vs[j].1) && x == VersionKey(a, vs[j].1.value);
        SplitVersionKey(a, vs[j].1.value);
      } else {
        var stats := features[names.value[0]].stats;
        var i := SupportedRow(stats, states, x);
        var vs := stats[i].1.value;
        SupportedVersionsHas(stats[i].0, vs, states, x);
        var j :| 0 <= j < |vs| && StripNote(vs[j].1) in states && x == VersionKey(stats[i].0, vs[j].0);
        SplitVersionKey(stats[i].0, vs[j].0);
      }
    }

    /** With every agent known and free of '+', `getByFeature` on known
        features never throws. */
    lemma ByFeatureSucceeds(names: Option<seq<string>>, states: seq<string>)
      requires Valid() && StatsKnown() && forall a :: a in agents ==> '+' !in a
      requires names.Some? ==> forall n :: n in names.value ==> n in features
      ensures ByFeature(names, states).Ok?
    {
      forall x | Selected(names, states, x) ensures Split(x, '+')[0] in agents {
        SelectedKnown(names, states, x);
      }
      ByFeatureHas(names, states);
    }

    /** `getByFeature(features, states)` */
    method GetByFeature(names: Option<seq<string>>, states: seq<string>) returns (r: Result<seq<BrowserVersion>, Thrown>)
      ensures r == ByFeature(names, states)
    {
      var lists: seq<seq<string>>;
      if names.None? || |names.value| == 0 {
        var all := EveryVersionKey();
        lists := [all];
      } else {
        var output := FeatureListsOf(names.value, states);
        if output.Err? {
          return Err(output.error);
        }
        lists := Values(output.value);
      }
      var arrays := new seq<string>[|lists|](k requires 0 <= k < |lists| => lists[k]);
      assert arrays[..] == lists;
      var keys := IntersectionOf(arrays);
      if keys.Err? {
        return Err(PlainError(keys.error));
      }
      r := LookUpAll(keys.value);
    }

    /** The loop of `getByFeature` over every agent. */
    method EveryVersionKey() returns (all: seq<string>)
      ensures all == AllVersionKeys(|agentKeys|)
    {
      all := [];
      for n := 0 to |agentKeys|
        invariant all == AllVersionKeys(n)
      {
        var a := agentKeys[n];
        if a in agents {
          var keys := VersionKeys(agents[a]);
          all := all + keys;
        }
      }
    }

    /** The loop of `getByFeature` over the named features. */
    method FeatureListsOf(fs: seq<string>, states: seq<string>) returns (r: Result<seq<(string, seq<string>)>, Thrown>)
      ensures r == FeatureLists([], fs, states)
    {
      var output: seq<(string, seq<string>)> := [];
      for n := 0 to |fs|
        invariant DistinctKeys(output)
        invariant FeatureLists(output, fs[n..], states) == FeatureLists([], fs, states)
      {
        var name := fs[n];
        if name !in features {
          return Err(NoStats);
        }
        var list := SupportedOf(features[name].stats, states);
        assert fs[n..][1..] == fs[n + 1..];
        output := Put(output, (name, list));
      }
      r := Ok(output);
    }

    /** `browser_vers.map(i => this.getBrowser(i))` */
    method LookUpAll(keys: seq<string>) returns (r: Result<seq<BrowserVersion>, Thrown>)
      ensures r == BrowsersOf(keys, |keys|)
    {
      var out: seq<BrowserVersion> := [];
      for n := 0 to |keys|
        invariant BrowsersOf(keys, n) == Ok(out)
      {
        var b := GetBrowser(keys[n]);
        if b.Err? {
          BrowsersOfStaysFailed(keys, n + 1, |keys|);
          return Err(b.error);
        }
        out := out + [b.value];
      }
      r := Ok(out);
    }
  }

  /** The inner loop of `getByFeature` over one agent's row. */
  method SupportedVersionsOf(b: string, vs: seq<(string, string)>, states: seq<string>) returns (list: seq<string>)
    ensures list == SupportedVersions(b, vs, states)
  {
    list := [];
    for j := 0 to |vs|
      invariant list == SupportedVersions(b, vs[..j], states)
    {
      assert vs[..j + 1][..j] == vs[..j];
      var present := StripNote(vs[j].1);
      if present in states {
        list := list + [b + "+" + vs[j].0];
      }
    }
    assert vs[..|vs|] == vs;
  }

  /** The loop of `getByFeature` over a feature's rows. */
  method SupportedOf(stats: seq<(string, Option<seq<(string, string)>>)>, states: seq<string>) returns (list: seq<string>)
    ensures list == Supported(stats, states)
  {
    list := [];
    for i := 0 to |stats|
      invariant list == Supported(stats[..i], states)
    {
      assert stats[..i + 1][..i] == stats[..i];
      if stats[i].1.Some? {
        var row := SupportedVersionsOf(stats[i].0, stats[i].1.value, states);
        list := list + row;
      }
    }
    assert stats[..|stats|] == stats;
  }

  /** The version keys of an agent's row that a status in `states` selects. */
  lemma {:induction false} SupportedVersionsHas(b: string, vs: seq<(string, string)>, states: seq<string>, x: string)
    ensures x in SupportedVersions(b, vs, states) <==>
      exists j :: 0 <= j < |vs| && StripNote(vs[j].1) in states && x == VersionKey(b, vs[j].0)
    decreases |vs|
  {
    if |vs| > 0 {
      var init := vs[..|vs| - 1];
      SupportedVersionsHas(b, init, states, x);
      assert forall j :: 0 <= j < |init| ==> init[j] == vs[j];
    }
  }

  /** The version keys one agent's row adds to a feature's list. */
  function RowKeys(e: (string, Option<seq<(string, string)>>), states: seq<string>): seq<string> {
    if e.1.None? then [] else SupportedVersions(e.0, e.1.value, states)
  }

  /** A feature supports a version key exactly when some agent's row that
      is still there selects it. */
  lemma SupportedHas(stats: seq<(string, Option<seq<(string, string)>>)>, states: seq<string>, x: string)
    ensures x in Supported(stats, states) <==> exists i :: 0 <= i < |stats| && x in RowKeys(stats[i], states)
  {
    if x in Supported(stats, states) {
      var i := SupportedRow(stats, states, x);
    }
    if exists i :: 0 <= i < |stats| && x in RowKeys(stats[i], states) {
      var i :| 0 <= i < |stats| && x in RowKeys(stats[i], states);
      SupportedFrom(stats, states, x, i);
    }
  }

  /** The row that put a version key in a feature's list. */
  lemma {:induction false} SupportedRow(stats: seq<(string, Option<seq<(string, string)>>)>, states: seq<string>, x: string) returns (i: nat)
    requires x in Supported(stats, states)
    ensures i < |stats| && x in RowKeys(stats[i], states)
    decreases |stats|
  {
    var init := stats[..|stats| - 1];
    assert Supported(stats, states) == Supported(init, states) + RowKeys(stats[|stats| - 1], states);
    if x in Supported(init, states) {
      i := SupportedRow(init, states, x);
      assert stats[i] == init[i];
    } else {
      i := |stats| - 1;
    }
  }

  /** A row's version keys are in its feature's list. */
  lemma {:induction false} SupportedFrom(stats: seq<(string, Option<seq<(string, string)>>)>, states: seq<string>, x: string, i: nat)
    requires i < |stats| && x in RowKeys(stats[i], states)
    ensures x in Supported(stats, states)
    decreases |stats|
  {
    var init := stats[..|stats| - 1];
    assert Supported(stats, states) == Supported(init, states) + RowKeys(stats[|stats| - 1], states);
    if i < |init| {
      assert init[i] == stats[i];
      SupportedFrom(init, states, x, i);
    }
  }

  // ---------------------------------------------------------------------
  // BrowserStats.load (browser-stats.ts:193-220)

  /** `type == 'all' || type == data.agents[a].type` */
  predicate Shown(kind: string, agent: Agent) {
    kind == "all" || kind == agent.agentType
  }

  /** `validAgents` after the first entries `agents`. */
  function ShownSet(kind: string, agents: seq<(string, Agent)>): set<string>
    decreases |agents|
  {
    if |agents| == 0 then {}
    else
      var e := agents[|agents| - 1];
      ShownSet(kind, agents[..|agents| - 1]) + if Shown(kind, e.1) then {e.0} else {}
  }

  /** The agent keys of the browsers `load` builds, in order. */
  function ShownKeys(kind: string, agents: seq<(string, Agent)>): seq<string>
    decreases |agents|
  {
    if |agents| == 0 then []
    else
      var e := agents[|agents| - 1];
      var keys := ShownKeys(kind, agents[..|agents| - 1]);
      if Shown(kind, e.1) && e.0 !in keys then keys + [e.0] else keys
  }

  /** The browsers `load` builds. */
  function ShownAgents(kind: string, agents: seq<(string, Agent)>): map<string, Browser>
    decreases |agents|
  {
    if |agents| == 0 then map[]
    else
      var e := agents[|agents| - 1];
      var m := ShownAgents(kind, agents[..|agents| - 1]);
      if Shown(kind, e.1) then m[e.0 := Browser(e.0, e.1)] else m
  }

  /** A feature's rows once the agents outside `valid` are set to `undefined`. */
  function FilterStats(stats: seq<(string, Option<seq<(string, string)>>)>, valid: set<string>): (r: seq<(string, Option<seq<(string, string)>>)>)
    ensures |r| == |stats|
    ensures forall i :: 0 <= i < |stats| ==> r[i].0 == stats[i].0 && r[i].1 == if stats[i].0 in valid then stats[i].1 else None
    decreases |stats|
  {
    if |stats| == 0 then []
    else
      var e := stats[|stats| - 1];
      FilterStats(stats[..|stats| - 1], valid) + [if e.0 in valid then e else (e.0, None)]
  }

  /** The features `load` adds after the first entries `data`. */
  function LoadedFeatures(data: seq<(string, Feature)>, valid: set<string>): map<string, Feature>
    decreases |data|
  {
    if |data| == 0 then map[]
    else
      var e := data[|data| - 1];
      LoadedFeatures(data[..|data| - 1], valid)[e.0 := Feature(FilterStats(e.1.stats, valid))]
  }

  /** An agent is kept exactly when one of its entries is of the shown kind,
      and then the browser holds the last such entry. */
  lemma {:induction false} ShownAgentsHas(kind: string, agents: seq<(string, Agent)>, a: string)
    ensures a in ShownSet(kind, agents) <==> exists i :: 0 <= i < |agents| && agents[i].0 == a && Shown(kind, agents[i].1)
    ensures a in ShownAgents(kind, agents) <==> a in ShownSet(kind, agents)
    ensures a in ShownKeys(kind, agents) <==> a in ShownSet(kind, agents)
    ensures a in ShownAgents(kind, agents) ==>
      exists i :: 0 <= i < |agents| && agents[i].0 == a && Shown(kind, agents[i].1) &&
        ShownAgents(kind, agents)[a] == Browser(a, agents[i].1) &&
        forall j :: i < j < |agents| && agents[j].0 == a ==> !Shown(kind, agents[j].1)
    decreases |agents|
  {
    if |agents| > 0 {
      var init := agents[..|agents| - 1];
      ShownAgentsHas(kind, init, a);
      assert forall i :: 0 <= i < |init| ==> init[i] == agents[i];
    }
  }

  /** The kept agent keys have no repeats. */
  lemma {:induction false} ShownKeysDistinct(kind: string, agents: seq<(string, Agent)>)
    ensures NoDuplicates(ShownKeys(kind, agents))
    decreases |agents|
  {
    if |agents| > 0 {
      var init := agents[..|agents| - 1];
      ShownKeysDistinct(kind, init);
    }
  }

  /** Every feature of the data is added, and nothing else. */
  lemma {:induction false} LoadedFeaturesHas(data: seq<(string, Feature)>, valid: set<string>, name: string)
    ensures name in LoadedFeatures(data, valid) <==> exists i :: 0 <= i < |data| && data[i].0 == name
    decreases |data|
  {
    if |data| > 0 {
      var init := data[..|data| - 1];
      LoadedFeaturesHas(init, valid, name);
      if exists i :: 0 <= i < |data| && data[i].0 == name {
        var i :| 0 <= i < |data| && data[i].0 == name;
        if i < |init| {
          assert init[i] == data[i];
        }
      }
      if exists i :: 0 <= i < |init| && init[i].0 == name {
        var i :| 0 <= i < |init| && init[i].0 == name;
        assert data[i] == init[i];
      }
    }
  }

  /** A feature holds the rows of its last entry in the data, with the
      hidden agents set to `undefined`. */
  lemma {:induction false} LoadedFeature(data: seq<(string, Feature)>, valid: set<string>, name: string) returns (i: nat)
    requires name in LoadedFeatures(data, valid)
    ensures i < |data| && data[i].0 == name && LoadedFeatures(data, valid)[name] == Feature(FilterStats(data[i].1.stats, valid))
    ensures forall j :: i < j < |data| ==> data[j].0 != name
    decreases |data|
  {
    var init := data[..|data| - 1];
    if data[|data| - 1].0 == name {
      i := |data| - 1;
    } else {
      i := LoadedFeature(init, valid, name);
      assert data[i] == init[i];
      assert forall j :: i < j < |init| ==> data[j] == init[j];
    }
  }

  /** After `load` no remaining row of any feature belongs to a hidden agent. */
  lemma LoadedRowsShown(data: seq<(string, Feature)>, valid: set<string>, name: string, i: int)
    requires name in LoadedFeatures(data, valid) && 0 <= i < |LoadedFeatures(data, valid)[name].stats|
    requires LoadedFeatures(data, valid)[name].stats[i].1.Some?
    ensures LoadedFeatures(data, valid)[name].stats[i].0 in valid
  {
    var k := LoadedFeature(data, valid, name);
  }

  /** `BrowserStats.load(type)` on the agents and features of the usage data. */
  method Load(kind: string, agents: seq<(string, Agent)>, data: seq<(string, Feature)>) returns (browsers: Browsers)
    ensures fresh(browsers) && browsers.Valid() && browsers.StatsKnown()
    ensures browsers.agentKeys == ShownKeys(kind, agents) && browsers.agents == ShownAgents(kind, agents)
    ensures browsers.features == LoadedFeatures(data, ShownSet(kind, agents))
  {
    browsers := new Browsers();
    var validAgents: set<string> := {};
    for n := 0 to |agents|
      invariant fresh(browsers) && browsers.Valid() && browsers.features == map[]
      invariant browsers.agentKeys == ShownKeys(kind, agents[..n]) && browsers.agents == ShownAgents(kind, agents[..n])
      invariant validAgents == ShownSet(kind, agents[..n])
    {
      assert agents[..n + 1][..n] == agents[..n];
      if kind == "all" || kind == agents[n].1.agentType {
        browsers.AddBrowser(agents[n].0, agents[n].1);
        validAgents := validAgents + {agents[n].0};
      }
    }
    assert agents[..|agents|] == agents;
    for n := 0 to |data|
      invariant fresh(browsers) && browsers.Valid()
      invariant browsers.agentKeys == ShownKeys(kind, agents) && browsers.agents == ShownAgents(kind, agents)
      invariant browsers.features == LoadedFeatures(data[..n], validAgents)
    {
      assert data[..n + 1][..n] == data[..n];
      var stats := FilterStatsOf(data[n].1.stats, validAgents);
      browsers.AddFeature(data[n].0, Feature(stats));
    }
    assert data[..|data|] == data;
    forall f, i | f in browsers.features && 0 <= i < |browsers.features[f].stats| && browsers.features[f].stats[i].1.Some?
      ensures browsers.features[f].stats[i].0 in browsers.agents
    {
      LoadedRowsShown(data, validAgents, f, i);
      ShownAgentsHas(kind, agents, browsers.features[f].stats[i].0);
    }
  }

  /** The inner loop of `load` over a feature's rows. */
  method FilterStatsOf(stats: seq<(string, Option<seq<(string, string)>>)>, valid: set<string>) returns (r: seq<(string, Option<seq<(string, string)>>)>)
    ensures r == FilterStats(stats, valid)
  {
    r := [];
    for i := 0 to |stats|
      invariant r == FilterStats(stats[..i], valid)
    {
      assert stats[..i + 1][..i] == stats[..i];
      if stats[i].0 !in valid {
        r := r + [(stats[i].0, None)];
      } else {
        r := r + [stats[i]];
      }
    }
    assert stats[..|stats|] == stats;
  }
}
