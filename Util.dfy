/** Small value helpers shared by the rest of the model: the optional and
    failing results the TypeScript code expresses with null/undefined and
    thrown errors, and the few string operations of JavaScript it relies on. */
module Util {

  datatype Option<+T> = None | Some(value: T) {
    function GetOr(default: T): T {
      match this
      case Some(v) => v
      case None => default
    }
  }

  datatype Result<+T, +E> = Ok(value: T) | Err(error: E) {
    predicate IsFailure() { Err? }
    function PropagateFailure<U>(): Result<U, E>
      requires Err?
    {
      Err(error)
    }
    function Extract(): T
      requires Ok?
    {
      value
    }
  }

  /** `s.length` in JavaScript: the number of UTF-16 code units, two for a
      character outside the Basic Multilingual Plane. */
  function Utf16Length(s: string): (n: nat)
    ensures |s| <= n <= 2 * |s|
    ensures n == |s| <==> forall i :: 0 <= i < |s| ==> s[i] as int <= 0xFFFF
    decreases |s|
  {
    if |s| == 0 then 0 else Utf16Length(s[..|s| - 1]) + (if s[|s| - 1] as int > 0xFFFF then 2 else 1)
  }

  /** The UTF-16 length of a concatenation is the sum of the lengths. */
  lemma {:induction false} Utf16LengthConcat(a: string, b: string)
    ensures Utf16Length(a + b) == Utf16Length(a) + Utf16Length(b)
    decreases |b|
  {
    if |b| > 0 {
      var b' := b[..|b| - 1];
      assert (a + b)[..|a + b| - 1] == a + b';
      Utf16LengthConcat(a, b');
    } else {
      assert a + b == a;
    }
  }

  /** `s.startsWith(p)` */
  predicate StartsWith(s: string, p: string) {
    |p| <= |s| && s[..|p|] == p
  }

  /** `s.endsWith(p)` */
  predicate EndsWith(s: string, p: string) {
    |p| <= |s| && s[|s| - |p|..] == p
  }

  /** Does `sub` occur in `s` at position `i`? */
  predicate OccursAt(s: string, sub: string, i: nat) {
    i + |sub| <= |s| && s[i..i + |sub|] == sub
  }

  /** `s.indexOf(sub)`: the first position where `sub` occurs, or -1. */
  function IndexOf(s: string, sub: string): (r: int)
    ensures -1 <= r <= |s|
    ensures r >= 0 ==> OccursAt(s, sub, r) && forall j :: 0 <= j < r ==> !OccursAt(s, sub, j)
    ensures r == -1 ==> forall j :: 0 <= j <= |s| ==> !OccursAt(s, sub, j)
  {
    IndexFrom(s, sub, 0)
  }

  function IndexFrom(s: string, sub: string, from: nat): (r: int)
    requires from <= |s| + 1
    ensures -1 <= r <= |s|
    ensures r >= 0 ==> from <= r && OccursAt(s, sub, r) && forall j :: from <= j < r ==> !OccursAt(s, sub, j)
    ensures r == -1 ==> forall j :: from <= j <= |s| ==> !OccursAt(s, sub, j)
    decreases |s| + 1 - from
  {
    if from > |s| then -1
    else if OccursAt(s, sub, from) then from
    else IndexFrom(s, sub, from + 1)
  }

  /** `s.includes(sub)`: `sub` occurs at some position of `s`. */
  predicate Contains(s: string, sub: string)
    decreases |s|
  {
    OccursAt(s, sub, 0) || (|s| > 0 && Contains(s[1..], sub))
  }

  /** A prefix always occurs at position 0, so `indexOf` finds it there. */
  lemma IndexOfPrefix(s: string, p: string)
    requires StartsWith(s, p)
    ensures IndexOf(s, p) == 0
  {
    assert OccursAt(s, p, 0);
  }

  /** JavaScript's `String(n)` for a non-negative integer. */
  function NatToString(n: nat): (r: string)
    ensures |r| >= 1
    ensures forall i :: 0 <= i < |r| ==> '0' <= r[i] <= '9'
    ensures n < 10 <==> |r| == 1
  {
    if n < 10 then [Digit(n)] else NatToString(n / 10) + [Digit(n % 10)]
  }

  function Digit(d: nat): (c: char)
    requires d < 10
    ensures '0' <= c <= '9'
  {
    "0123456789"[d]
  }

  /** Decimal strings are a faithful encoding: distinct numbers print differently. */
  lemma {:induction false} NatToStringInjective(a: nat, b: nat)
    requires NatToString(a) == NatToString(b)
    ensures a == b
  {
    if a < 10 {
      assert b < 10;
      DigitInjective(a, b);
    } else {
      var sa, sb := NatToString(a / 10), NatToString(b / 10);
      assert NatToString(a) == sa + [Digit(a % 10)];
      assert NatToString(b) == sb + [Digit(b % 10)];
      assert |sa| == |sb|;
      assert sa == NatToString(a)[..|sa|] == NatToString(b)[..|sb|] == sb;
      assert Digit(a % 10) == Digit(b % 10);
      DigitInjective(a % 10, b % 10);
      NatToStringInjective(a / 10, b / 10);
    }
  }

  lemma DigitInjective(a: nat, b: nat)
    requires a < 10 && b < 10 && Digit(a) == Digit(b)
    ensures a == b
  {
  }

  /** JavaScript's `String(i)` for an integer (an `indexOf` result may be -1). */
  function IntToString(i: int): (r: string)
    ensures i >= 0 ==> r == NatToString(i)
    ensures i < 0 ==> r == "-" + NatToString(-i)
  {
    if i >= 0 then NatToString(i) else "-" + NatToString(-i)
  }

  /** `s.split(sep)` for a one-character separator. */
  function Split(s: string, sep: char): (r: seq<string>)
    ensures |r| >= 1
    ensures forall k :: 0 <= k < |r| ==> sep !in r[k]
    decreases |s|
  {
    if sep !in s then [s]
    else
      var i := FirstIndex(s, sep);
      [s[..i]] + Split(s[i + 1..], sep)
  }

  function FirstIndex(s: string, c: char): (i: nat)
    requires c in s
    ensures i < |s| && s[i] == c && c !in s[..i]
  {
    if s[0] == c then 0 else 1 + FirstIndex(s[1..], c)
  }

  /** Joining the pieces of a split with the separator gives the string back. */
  lemma {:induction false} SplitJoin(s: string, sep: char)
    ensures Join(Split(s, sep), sep) == s
    decreases |s|
  {
    if sep in s {
      var i := FirstIndex(s, sep);
      var rest := s[i + 1..];
      var parts := [s[..i]] + Split(rest, sep);
      assert Split(s, sep) == parts;
      assert parts[1..] == Split(rest, sep);
      SplitJoin(rest, sep);
      assert Join(parts, sep) == s[..i] + [sep] + rest;
      assert s == s[..i] + [sep] + rest;
    }
  }

  function Join(parts: seq<string>, sep: char): string
    requires |parts| >= 1
  {
    if |parts| == 1 then parts[0] else parts[0] + [sep] + Join(parts[1..], sep)
  }

  /** The elements of `s`, each once, in order of first occurrence
      (`[...new Set(s)]`). */
  function Distinct<T(==)>(s: seq<T>): (r: seq<T>)
    ensures forall i :: 0 <= i < |r| ==> r[i] in s
    ensures forall i :: 0 <= i < |s| ==> s[i] in r
    ensures NoDuplicates(r)
    ensures |r| <= |s|
  {
    DistinctFrom(s, [])
  }

  function DistinctFrom<T(==)>(s: seq<T>, seen: seq<T>): (r: seq<T>)
    requires NoDuplicates(seen)
    ensures forall i :: 0 <= i < |r| ==> r[i] in seen || r[i] in s
    ensures forall i :: 0 <= i < |s| ==> s[i] in r
    ensures NoDuplicates(r)
    ensures |seen| <= |r| <= |seen| + |s| && r[..|seen|] == seen
  {
    if s == [] then seen
    else if s[0] in seen then
      var r := DistinctFrom(s[1..], seen);
      assert s[0] in r[..|seen|];
      r
    else
      var r := DistinctFrom(s[1..], seen + [s[0]]);
      assert r[|seen|] == s[0];
      r
  }

  ghost predicate NoDuplicates<T>(s: seq<T>) {
    forall i, j :: 0 <= i < j < |s| ==> s[i] != s[j]
  }

  /** What a JavaScript `throw` raises, by constructor and message. */
  datatype Thrown =
    | SyntaxError(message: string)
    | TypeError(message: string)
    | ReferenceError(message: string)
    | RangeError(message: string)
    | PlainError(message: string)

  function Clamp(i: int, n: nat): (r: nat)
    ensures r <= n
    ensures 0 <= i <= n ==> r == i
  {
    if i < 0 then 0 else if i > n then n else i
  }

  /** `s.substring(start, end)`: both ends clamped to the string, swapped when
      out of order. */
  function Substring(s: string, start: int, end: int): (r: string)
    ensures 0 <= start <= end <= |s| ==> r == s[start..end]
  {
    var a, b := Clamp(start, |s|), Clamp(end, |s|);
    if a <= b then s[a..b] else s[b..a]
  }

  /** `.flat()` one level deep. */
  function Flatten<T>(ss: seq<seq<T>>): seq<T>
    decreases |ss|
  {
    if |ss| == 0 then [] else ss[0] + Flatten(ss[1..])
  }

  /** Flattening one more group appends its elements. */
  lemma {:induction false} FlattenSnoc<T>(ss: seq<seq<T>>, s: seq<T>)
    ensures Flatten(ss + [s]) == Flatten(ss) + s
    decreases |ss|
  {
    if |ss| > 0 {
      assert (ss + [s])[1..] == ss[1..] + [s];
      FlattenSnoc(ss[1..], s);
    }
  }

  /** Flattening groups of equal size `k` gives `|ss| * k` elements. */
  lemma {:induction false} FlattenLength<T>(ss: seq<seq<T>>, k: nat)
    requires forall i :: 0 <= i < |ss| ==> |ss[i]| == k
    ensures |Flatten(ss)| == |ss| * k
    decreases |ss|
  {
    if |ss| > 0 {
      FlattenLength(ss[1..], k);
      MulPred(|ss|, k);
    }
  }

  /** ... and puts element `j` of group `i` at position `i * k + j`. */
  lemma {:induction false} FlattenAt<T>(ss: seq<seq<T>>, k: nat, i: nat, j: nat)
    requires forall g :: 0 <= g < |ss| ==> |ss[g]| == k
    requires i < |ss| && j < k
    ensures i * k + j < |Flatten(ss)| && Flatten(ss)[i * k + j] == ss[i][j]
    decreases i
  {
    FlattenLength(ss, k);
    if i > 0 {
      FlattenAt(ss[1..], k, i - 1, j);
      MulPred(i, k);
    }
  }

  lemma MulPred(i: nat, k: nat)
    requires i > 0
    ensures i * k == k + (i - 1) * k
  {
  }

  // ---------------------------------------------------------------------
  // `Object.fromEntries` over string keys

  predicate KeyIn<V>(es: seq<(string, V)>, k: string) {
    exists i :: 0 <= i < |es| && es[i].0 == k
  }

  ghost predicate DistinctKeys<V>(es: seq<(string, V)>) {
    forall i, j :: 0 <= i < j < |es| ==> es[i].0 != es[j].0
  }

  /** `es[i]` is the last entry of `es` with its key. */
  ghost predicate LastWithKey<V>(es: seq<(string, V)>, i: nat) {
    i < |es| && forall j :: i < j < |es| ==> es[j].0 != es[i].0
  }

  /** The position of key `k` among the entries `es`. */
  function KeyIndex<V>(es: seq<(string, V)>, k: string): (i: nat)
    requires KeyIn(es, k)
    ensures i < |es| && es[i].0 == k
  {
    if es[0].0 == k then 0
    else
      assert KeyIn(es[1..], k) by {
        var i :| 0 <= i < |es| && es[i].0 == k;
        assert es[1..][i - 1].0 == k;
      }
      1 + KeyIndex(es[1..], k)
  }

  /** Set key `e.0` of an object whose keys are `acc`: an existing key keeps
      its place and takes the new value, a new key goes last. */
  function Put<V>(acc: seq<(string, V)>, e: (string, V)): (r: seq<(string, V)>)
    requires DistinctKeys(acc)
    ensures DistinctKeys(r)
    ensures !KeyIn(acc, e.0) ==> r == acc + [e]
    ensures forall i :: 0 <= i < |r| ==> (if r[i].0 == e.0 then r[i] == e else r[i] in acc)
    ensures forall i :: 0 <= i < |acc| ==> acc[i].0 == e.0 || acc[i] in r
    ensures KeyIn(r, e.0)
  {
    if KeyIn(acc, e.0) then
      var i := KeyIndex(acc, e.0);
      var r := acc[i := e];
      assert r[i].0 == e.0;
      assert forall j :: 0 <= j < |acc| && j != i ==> r[j] == acc[j];
      r
    else
      var r := acc + [e];
      assert r[|acc|].0 == e.0;
      r
  }

  /** An entry after `Put` is the new entry or one that was there before. */
  lemma PutEntry<V>(acc: seq<(string, V)>, e: (string, V), x: (string, V))
    requires DistinctKeys(acc) && x in Put(acc, e)
    ensures if x.0 == e.0 then x == e else x in acc
  {
    var r := Put(acc, e);
    var k :| 0 <= k < |r| && r[k] == x;
  }

  /** `Put` loses no key. */
  lemma PutKeeps<V>(acc: seq<(string, V)>, e: (string, V), k: string)
    requires DistinctKeys(acc) && KeyIn(acc, k)
    ensures KeyIn(Put(acc, e), k)
  {
    var i :| 0 <= i < |acc| && acc[i].0 == k;
    if k != e.0 {
      var r := Put(acc, e);
      assert acc[i] in r;
      var j :| 0 <= j < |r| && r[j] == acc[i];
    }
  }

  /** `Object.fromEntries(es)`: one entry per distinct key, holding the value
      of the last entry with that key. */
  function FromEntries<V>(es: seq<(string, V)>): (r: seq<(string, V)>)
    ensures DistinctKeys(r)
    ensures forall i :: 0 <= i < |r| ==> r[i] in es
    decreases |es|
  {
    if |es| == 0 then []
    else
      var init := es[..|es| - 1];
      assert forall x :: x in init ==> x in es;
      Put(FromEntries(init), es[|es| - 1])
  }

  /** Each entry of `FromEntries(es)` is the last entry of `es` with its key. */
  lemma {:induction false} FromEntriesLastWins<V>(es: seq<(string, V)>)
    ensures forall i :: 0 <= i < |FromEntries(es)| ==>
      exists j :: 0 <= j < |es| && es[j] == FromEntries(es)[i] && LastWithKey(es, j)
    decreases |es|
  {
    if |es| == 0 {
      assert FromEntries(es) == [];
    } else {
      var init := es[..|es| - 1];
      var e := es[|es| - 1];
      var acc := FromEntries(init);
      var r := FromEntries(es);
      assert r == Put(acc, e);
      FromEntriesLastWins(init);
      forall i | 0 <= i < |r| ensures exists j :: 0 <= j < |es| && es[j] == r[i] && LastWithKey(es, j) {
        if r[i].0 == e.0 {
          assert es[|es| - 1] == r[i] && LastWithKey(es, |es| - 1);
        } else {
          LastWithKeyExtends(es, init, acc, r[i]);
        }
      }
    }
  }

  lemma LastWithKeyExtends<V>(es: seq<(string, V)>, init: seq<(string, V)>, acc: seq<(string, V)>, x: (string, V))
    requires |es| > 0 && init == es[..|es| - 1] && x in acc && x.0 != es[|es| - 1].0
    requires forall i :: 0 <= i < |acc| ==>
      exists j :: 0 <= j < |init| && init[j] == acc[i] && LastWithKey(init, j)
    ensures exists j :: 0 <= j < |es| && es[j] == x && LastWithKey(es, j)
  {
    var a :| 0 <= a < |acc| && acc[a] == x;
    var j :| 0 <= j < |init| && init[j] == acc[a] && LastWithKey(init, j);
    assert es[j] == init[j];
    forall j' | j < j' < |es| ensures es[j'].0 != es[j].0 {
      if j' < |es| - 1 {
        assert es[j'] == init[j'];
      }
    }
    assert LastWithKey(es, j);
  }

  /** Every key of `es` is a key of `FromEntries(es)`. */
  lemma {:induction false} FromEntriesKeepsKeys<V>(es: seq<(string, V)>)
    ensures forall j :: 0 <= j < |es| ==> KeyIn(FromEntries(es), es[j].0)
    decreases |es|
  {
    if |es| > 0 {
      var init := es[..|es| - 1];
      var e := es[|es| - 1];
      var acc := FromEntries(init);
      var r := FromEntries(es);
      assert r == Put(acc, e);
      FromEntriesKeepsKeys(init);
      forall j | 0 <= j < |es| ensures KeyIn(r, es[j].0) {
        if j < |es| - 1 && es[j].0 != e.0 {
          assert init[j] == es[j];
          var a :| 0 <= a < |acc| && acc[a].0 == es[j].0;
          assert acc[a] in r;
          var b :| 0 <= b < |r| && r[b] == acc[a];
        }
      }
    }
  }

  /** `Object.fromEntries` keeps exactly the keys of its entries. */
  lemma FromEntriesSameKeys<V>(es: seq<(string, V)>, k: string)
    ensures KeyIn(FromEntries(es), k) <==> KeyIn(es, k)
  {
    FromEntriesKeepsKeys(es);
    var r := FromEntries(es);
    if KeyIn(r, k) {
      var i :| 0 <= i < |r| && r[i].0 == k;
      assert r[i] in es;
      var j :| 0 <= j < |es| && es[j] == r[i];
    }
  }

  /** `{...a, ...es}` with `es` built by `Object.fromEntries`: a key of `es`
      holds the value of the last entry of `es` with that key, any other key
      the value of the last entry of `a` with it, and no key is lost. */
  lemma SpreadEntries<V>(a: seq<(string, V)>, es: seq<(string, V)>)
    ensures var r := FromEntries(a + FromEntries(es));
      && (forall i :: 0 <= i < |r| && KeyIn(es, r[i].0) ==>
            exists j :: 0 <= j < |es| && es[j] == r[i] && LastWithKey(es, j))
      && (forall i :: 0 <= i < |r| && !KeyIn(es, r[i].0) ==>
            exists j :: 0 <= j < |a| && a[j] == r[i] && LastWithKey(a, j))
      && (forall j :: 0 <= j < |es| ==> KeyIn(r, es[j].0))
      && (forall j :: 0 <= j < |a| ==> KeyIn(r, a[j].0))
  {
    var b := FromEntries(es);
    FromEntriesLastWins(es);
    FromEntriesKeepsKeys(es);
    SpreadLater(a, b, es);
    SpreadEarlier(a, b, es);
    SpreadKeys(a, b, es);
  }

  lemma SpreadLater<V>(a: seq<(string, V)>, b: seq<(string, V)>, es: seq<(string, V)>)
    requires forall i :: 0 <= i < |b| ==> exists j :: 0 <= j < |es| && es[j] == b[i] && LastWithKey(es, j)
    requires forall j :: 0 <= j < |es| ==> KeyIn(b, es[j].0)
    ensures var r := FromEntries(a + b);
      forall i :: 0 <= i < |r| && KeyIn(es, r[i].0) ==>
        exists j :: 0 <= j < |es| && es[j] == r[i] && LastWithKey(es, j)
  {
    var c := a + b;
    var r := FromEntries(c);
    FromEntriesLastWins(c);
    forall i | 0 <= i < |r| && KeyIn(es, r[i].0)
      ensures exists j :: 0 <= j < |es| && es[j] == r[i] && LastWithKey(es, j)
    {
      var j :| 0 <= j < |c| && c[j] == r[i] && LastWithKey(c, j);
      var n :| 0 <= n < |es| && es[n].0 == r[i].0;
      var m :| 0 <= m < |b| && b[m].0 == es[n].0;
      assert c[|a| + m].0 == r[i].0;
      assert b[j - |a|] == r[i];
    }
  }

  lemma SpreadEarlier<V>(a: seq<(string, V)>, b: seq<(string, V)>, es: seq<(string, V)>)
    requires forall i :: 0 <= i < |b| ==> b[i] in es
    ensures var r := FromEntries(a + b);
      forall i :: 0 <= i < |r| && !KeyIn(es, r[i].0) ==>
        exists j :: 0 <= j < |a| && a[j] == r[i] && LastWithKey(a, j)
  {
    var c := a + b;
    var r := FromEntries(c);
    FromEntriesLastWins(c);
    forall i | 0 <= i < |r| && !KeyIn(es, r[i].0)
      ensures exists j :: 0 <= j < |a| && a[j] == r[i] && LastWithKey(a, j)
    {
      var j :| 0 <= j < |c| && c[j] == r[i] && LastWithKey(c, j);
      assert forall m :: 0 <= m < |b| ==> b[m].0 != r[i].0;
      assert j < |a|;
      forall j' | j < j' < |a| ensures a[j'].0 != a[j].0 {
        assert c[j'] == a[j'];
      }
    }
  }

  lemma SpreadKeys<V>(a: seq<(string, V)>, b: seq<(string, V)>, es: seq<(string, V)>)
    requires forall j :: 0 <= j < |es| ==> KeyIn(b, es[j].0)
    ensures var r := FromEntries(a + b);
      && (forall j :: 0 <= j < |es| ==> KeyIn(r, es[j].0))
      && (forall j :: 0 <= j < |a| ==> KeyIn(r, a[j].0))
  {
    var c := a + b;
    FromEntriesKeepsKeys(c);
    forall j | 0 <= j < |es| ensures KeyIn(FromEntries(c), es[j].0) {
      var m :| 0 <= m < |b| && b[m].0 == es[j].0;
      assert c[|a| + m].0 == es[j].0;
    }
    forall j | 0 <= j < |a| ensures KeyIn(FromEntries(c), a[j].0) {
      assert c[j].0 == a[j].0;
    }
  }

  /** The elements of `Flatten(ss)` are exactly the elements of its groups. */
  lemma {:induction false} FlattenMember<T>(ss: seq<seq<T>>, x: T)
    ensures x in Flatten(ss) <==> exists i, j :: 0 <= i < |ss| && 0 <= j < |ss[i]| && ss[i][j] == x
    decreases |ss|
  {
    if |ss| > 0 {
      FlattenMember(ss[1..], x);
      if x in Flatten(ss) && x !in ss[0] {
        var i, j :| 0 <= i < |ss[1..]| && 0 <= j < |ss[1..][i]| && ss[1..][i][j] == x;
        assert ss[i + 1][j] == x;
      }
      if exists i, j :: 0 <= i < |ss| && 0 <= j < |ss[i]| && ss[i][j] == x {
        var i, j :| 0 <= i < |ss| && 0 <= j < |ss[i]| && ss[i][j] == x;
        if i > 0 {
          assert ss[1..][i - 1][j] == x;
        }
      }
    }
  }
}
