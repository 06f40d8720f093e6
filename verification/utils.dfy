/** The value reference table (`addValueToReferenceSet`) and the JSON-shape
    predicates (`isArrayOfObjects`, `isJson`) of src/utils.ts. */
module Utils {

  datatype Option<+T> = None | Some(value: T)

  /** A literal that can be bound to a placeholder. JavaScript numbers are
      modelled by their integer values only. */
  datatype Value = Int(i: int) | Str(s: string) | Bool(b: bool)

  /** JavaScript truthiness of a literal: `0`, `''` and `false` are falsy. */
  predicate Truthy(v: Value)
  {
    match v
    case Int(i) => i != 0
    case Str(s) => s != ""
    case Bool(b) => b
  }

  /** A JavaScript `Set` enumerates its members in insertion order without
      repetitions; a duplicate-free sequence stands for it. */
  predicate Distinct<T(==)>(s: seq<T>)
  {
    forall i, j :: 0 <= i < j < |s| ==> s[i] != s[j]
  }

  predicate IsPrefix<T(==)>(p: seq<T>, s: seq<T>)
  {
    |p| <= |s| && p == s[..|p|]
  }

  lemma PrefixTransitive<T>(a: seq<T>, b: seq<T>, c: seq<T>)
    requires IsPrefix(a, b) && IsPrefix(b, c)
    ensures IsPrefix(a, c)
  {
    assert c[..|b|][..|a|] == c[..|a|];
  }

  lemma AppendAssoc<T>(a: seq<T>, b: seq<T>, c: seq<T>)
    ensures a + (b + c) == (a + b) + c
  {
  }

  /** Dropping a prefix keeps a sequence duplicate-free. */
  lemma DistinctSuffix<T>(s: seq<T>, k: nat)
    requires Distinct(s) && k <= |s|
    ensures Distinct(s[k..])
  {
    forall i, j | 0 <= i < j < |s| - k
      ensures s[k..][i] != s[k..][j]
    {
      assert s[k..][i] == s[k + i] && s[k..][j] == s[k + j];
    }
  }

  /** In a duplicate-free sequence, the part after a prefix holds exactly the
      members that are not in the prefix. */
  lemma SuffixMembers<T>(p: seq<T>, s: seq<T>, x: T)
    requires Distinct(s) && IsPrefix(p, s)
    ensures x in s[|p|..] <==> x in s && x !in p
  {
    if x in s[|p|..] {
      var k :| 0 <= k < |s| - |p| && s[|p|..][k] == x;
      assert s[|p| + k] == x;
    }
    if x in s && x !in p {
      var k :| 0 <= k < |s| && s[k] == x;
      assert s[|p|..][k - |p|] == x;
    }
  }

  /** `set.add(x)`: appends `x` unless it is already a member. */
  function SetAdd<T(==)>(s: seq<T>, x: T): (r: seq<T>)
    ensures x in s ==> r == s
    ensures x !in s ==> r == s + [x]
    ensures Distinct(s) ==> Distinct(r)
  {
    if x in s then s else s + [x]
  }

  /** Adds every element of `xs` in order, as a `for … of` loop of `set.add`. */
  function SetAddAll<T(==,!new)>(s: seq<T>, xs: seq<T>): (r: seq<T>)
    ensures Distinct(s) ==> Distinct(r)
    ensures IsPrefix(s, r)
    ensures forall x :: x in r <==> x in s || x in xs
    decreases |xs|
  {
    if |xs| == 0 then s else SetAddAll(SetAdd(s, xs[0]), xs[1..])
  }

  /** Adding elements none of which is a member yet, and none twice, appends
      them all in order. */
  lemma {:induction false} SetAddAllFresh<T(!new)>(s: seq<T>, xs: seq<T>)
    requires Distinct(s + xs)
    ensures SetAddAll(s, xs) == s + xs
    decreases |xs|
  {
    if |xs| > 0 {
      var all := s + xs;
      assert forall k :: 0 <= k < |s| ==> s[k] == all[k];
      assert all[|s|] == xs[0];
      assert xs[0] !in s;
      assert SetAdd(s, xs[0]) == s + [xs[0]];
      assert s + [xs[0]] + xs[1..] == all;
      SetAddAllFresh(s + [xs[0]], xs[1..]);
    }
  }

  /** The loop adds the last element after all the others: the members come
      out in the order of their first occurrence, duplicates or not. */
  lemma {:induction false} SetAddAllSnoc<T(!new)>(s: seq<T>, xs: seq<T>, x: T)
    ensures SetAddAll(s, xs + [x]) == SetAdd(SetAddAll(s, xs), x)
    decreases |xs|
  {
    if |xs| == 0 {
      assert xs + [x] == [x] && [x][1..] == [];
    } else {
      assert (xs + [x])[0] == xs[0] && (xs + [x])[1..] == xs[1..] + [x];
      SetAddAllSnoc(SetAdd(s, xs[0]), xs[1..], x);
    }
  }

  /** `new Set(xs)` enumerates first occurrences in order: a last element is
      appended exactly when it did not occur before. */
  lemma DedupSnoc<T(!new)>(xs: seq<T>, x: T)
    ensures x in xs ==> Dedup(xs + [x]) == Dedup(xs)
    ensures x !in xs ==> Dedup(xs + [x]) == Dedup(xs) + [x]
  {
    SetAddAllSnoc([], xs, x);
  }

  /** `new Set(xs)` of a duplicate-free array enumerates it unchanged. */
  lemma DedupDistinct<T(!new)>(xs: seq<T>)
    requires Distinct(xs)
    ensures Dedup(xs) == xs
  {
    assert [] + xs == xs;
    SetAddAllFresh([], xs);
  }

  /** `new Set(xs)` enumerated back: first occurrences in order. */
  function Dedup<T(==,!new)>(xs: seq<T>): (r: seq<T>)
    ensures Distinct(r)
    ensures forall x :: x in r <==> x in xs
  {
    SetAddAll([], xs)
  }

  /** `[...set].indexOf(x)`: the position of the first occurrence of `x`. */
  function IndexOf<T(==)>(s: seq<T>, x: T): (i: nat)
    requires x in s
    ensures i < |s| && s[i] == x
    ensures x !in s[..i]
  {
    if s[0] == x then 0
    else
      assert x in s[1..];
      var i := IndexOf(s[1..], x) + 1;
      assert s[..i] == [s[0]] + s[1..][..i - 1];
      i
  }

  /** The result of an operation that threads the value reference table. */
  datatype WithTable<T> = WithTable(val: T, table: seq<Value>)

  /** `addValueToReferenceSet(value, referenceSet)`: the 1-based placeholder
      index of `value`, registering it at the end when it is new. */
  function AddValue(v: Value, t: seq<Value>): (r: WithTable<nat>)
    ensures 1 <= r.val <= |r.table| && r.table[r.val - 1] == v
    ensures IsPrefix(t, r.table)
  {
    var t' := SetAdd(t, v);
    if v in t then WithTable(IndexOf(t, v) + 1, t')
    else WithTable(|t'|, t')
  }

  /** Registration either finds the first occurrence of the value or appends
      it; either way no earlier entry equals it. */
  lemma AddValueCases(v: Value, t: seq<Value>)
    ensures var r := AddValue(v, t);
      && (v in t ==> r.table == t && r.val == IndexOf(t, v) + 1)
      && (v !in t ==> r.table == t + [v] && r.val == |r.table|)
      && forall j :: 0 <= j < r.val - 1 ==> r.table[j] != v
  {
  }

  /** Registration keeps a duplicate-free table duplicate-free. */
  lemma AddValueDistinct(v: Value, t: seq<Value>)
    requires Distinct(t)
    ensures Distinct(AddValue(v, t).table)
  {
  }

  /** The table after registration holds the old entries and the value. */
  lemma AddValueMembers(v: Value, t: seq<Value>)
    ensures forall x :: x in AddValue(v, t).table <==> x in t || x == v
  {
  }

  /** In a duplicate-free table the index of a value is its only position. */
  lemma IndexUnique(t: seq<Value>, n: nat, v: Value)
    requires Distinct(t)
    requires 1 <= n <= |t| && t[n - 1] == v
    ensures AddValue(v, t) == WithTable(n, t)
  {
  }

  /** Registering the same value twice yields the same index, and the second
      registration leaves the table as the first one left it. */
  lemma AddValueTwice(v: Value, t: seq<Value>)
    ensures AddValue(v, AddValue(v, t).table).val == AddValue(v, t).val
    ensures AddValue(v, AddValue(v, t).table).table == AddValue(v, t).table
  {
    var first := AddValue(v, t);
    if v !in t {
      assert first.table[..|t|] == t;
      assert v !in first.table[..|t|];
    }
  }

  /** Once a value is registered, registering it again in any extension of
      the table finds the same index and changes nothing: the index names the
      first occurrence, and an extension adds no earlier one. */
  lemma AddValueStable(v: Value, t: seq<Value>, t2: seq<Value>)
    requires IsPrefix(AddValue(v, t).table, t2)
    ensures AddValue(v, t2) == WithTable(AddValue(v, t).val, t2)
  {
    var a := AddValue(v, t);
    AddValueCases(v, t);
    assert t2[..|a.table|][a.val - 1] == v;
    assert t2[..a.val - 1] == a.table[..a.val - 1];
    assert v !in t2[..a.val - 1];
    FirstIndex(t2, a.val - 1, v);
  }

  /** A position holding `x` with no earlier occurrence is the first index. */
  lemma FirstIndex<T>(s: seq<T>, k: nat, x: T)
    requires k < |s| && s[k] == x && x !in s[..k]
    ensures IndexOf(s, x) == k
  {
  }

  /** Registering a value never disturbs earlier indices. */
  lemma AddValueKeepsIndices(v: Value, t: seq<Value>, n: nat)
    requires 1 <= n <= |t|
    ensures AddValue(v, t).table[n - 1] == t[n - 1]
  {
  }

  /** An argument of `isJson`: a number or string, an array, or a plain object. */
  datatype Arg = Scalar(v: Value) | Array(items: seq<Arg>) | Object

  /** `typeof arg === 'object'`: arrays and plain objects. */
  predicate IsObjectType(a: Arg)
  {
    a.Array? || a.Object?
  }

  /** `arg.some(entry => typeof entry === 'object')`. */
  function IsArrayOfObjects(items: seq<Arg>): (b: bool)
    ensures b <==> exists i :: 0 <= i < |items| && IsObjectType(items[i])
  {
    if |items| == 0 then false
    else if IsObjectType(items[0]) then
      assert IsObjectType(items[0]);
      true
    else
      var rest := IsArrayOfObjects(items[1..]);
      assert forall i :: 1 <= i < |items| ==> items[i] == items[1..][i - 1];
      rest
  }

  /** `isJson` as written: `Array.isArray(arg) && isArrayOfObjects(arg) ||
      typeof arg === 'object'`. */
  predicate IsJson(a: Arg)
  {
    (a.Array? && IsArrayOfObjects(a.items)) || IsObjectType(a)
  }

  /** The second disjunct subsumes the first, so `isJson` holds of every array
      and every object and of nothing else. */
  lemma IsJsonIsObjectType(a: Arg)
    ensures IsJson(a) <==> a.Array? || a.Object?
  {
  }

  /** An array of numbers is already reported as JSON-shaped. */
  lemma {:induction false} IsJsonNumberArray()
    ensures IsJson(Array([Scalar(Int(1)), Scalar(Int(2))]))
    ensures !IsArrayOfObjects([Scalar(Int(1)), Scalar(Int(2))])
  {
    var items := [Scalar(Int(1)), Scalar(Int(2))];
    assert !IsObjectType(items[0]) && !IsObjectType(items[1]);
  }

  /** The test the `isArrayOfObjects` conjunct of `isJson` points at: that
      conjunct only matters if arrays are not already caught by the `typeof`
      disjunct, so the evident intent is "a plain object, or an array holding
      at least one object". */
  predicate IsJsonIntended(a: Arg)
  {
    a.Object? || (a.Array? && IsArrayOfObjects(a.items))
  }

  /** The intended test separates arrays of scalars from arrays of objects. */
  lemma IsJsonIntendedShape(a: Arg)
    ensures IsJsonIntended(a) <==>
      a.Object? || (a.Array? && exists i :: 0 <= i < |a.items| && IsObjectType(a.items[i]))
    ensures a.Array? && (forall i :: 0 <= i < |a.items| ==> a.items[i].Scalar?) ==> !IsJsonIntended(a)
  {
  }
}
