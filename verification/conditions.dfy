/** Filter flattening of src/conditions.ts: `createCondition` and
    `createJsonCondition` turn a nested filter object into an ordered
    column-to-value map. Nothing is registered in a value table here: an array
    becomes an unapplied `In` operator. */
module Conditions {
  import opened Utils
  import opened Operators
  import Wrappers

  /** A property value of a filter object, by its JavaScript shape. */
  datatype FilterValue =
    | Lit(v: Value)               // a number, string or boolean
    | Undefined
    | Null                        // `typeof null === 'object'`
    | List(items: seq<Value>)     // `Array.isArray`
    | Nested(fields: seq<Field>)  // a plain object
    | Fn(op: Operator)            // `typeof value === 'function'`

  /** One own property of a filter object; a field list is in `for … in` order. */
  datatype Field = Field(name: string, value: FilterValue)

  /** A value of the condition map: a where-function, a literal, or `null`. */
  datatype Entry = Call(op: Operator) | Literal(v: Value) | NullValue

  datatype Binding = Binding(key: string, entry: Entry)

  /** A JavaScript `Map`: bindings in insertion order. */
  type CondMap = seq<Binding>

  function Keys(m: CondMap): (ks: seq<string>)
    ensures |ks| == |m|
    ensures forall i :: 0 <= i < |m| ==> ks[i] == m[i].key
  {
    seq(|m|, i requires 0 <= i < |m| => m[i].key)
  }

  /** `map.get(k)`. */
  function Get(m: CondMap, k: string): Option<Entry>
  {
    if k in Keys(m) then Some(m[IndexOf(Keys(m), k)].entry) else None
  }

  /** `map.set(k, e)`: a new key goes to the end; an existing key keeps its
      position and takes the new value. */
  function MapSet(m: CondMap, k: string, e: Entry): (r: CondMap)
    ensures k in Keys(m) ==> |r| == |m| && Keys(r) == Keys(m)
    ensures k !in Keys(m) ==> r == m + [Binding(k, e)]
    ensures Distinct(Keys(m)) ==> Distinct(Keys(r))
    ensures forall b :: b in r ==> b in m || b == Binding(k, e)
  {
    if k in Keys(m) then
      var i := IndexOf(Keys(m), k);
      var r := m[i := Binding(k, e)];
      assert Keys(r) == Keys(m);
      r
    else
      var r := m + [Binding(k, e)];
      assert Keys(r) == Keys(m) + [k];
      r
  }

  /** After `set`, the key reads back the new value and every other key reads
      what it read before. */
  lemma MapSetGet(m: CondMap, k: string, e: Entry, k': string)
    requires Distinct(Keys(m))
    ensures Get(MapSet(m, k, e), k) == Some(e)
    ensures k' != k ==> Get(MapSet(m, k, e), k') == Get(m, k')
  {
    var r := MapSet(m, k, e);
    if k in Keys(m) {
      var i := IndexOf(Keys(m), k);
      assert IndexOf(Keys(r), k) == i;
      if k' != k && k' in Keys(m) {
        var j := IndexOf(Keys(m), k');
        assert IndexOf(Keys(r), k') == j;
      }
    } else {
      assert Keys(r) == Keys(m) + [k];
      assert IndexOf(Keys(r), k) == |m|;
      if k' != k && k' in Keys(m) {
        var j := IndexOf(Keys(m), k');
        assert Keys(r)[j] == k';
        assert IndexOf(Keys(r), k') == j;
      }
    }
  }

  /** `${key}->>'${prop}'`: a JSON leaf accessed as text. */
  function LeafKey(key: string, prop: string): string
  {
    key + "->>'" + prop + "'"
  }

  /** `${key}->'${prop}'`: a JSON member accessed as JSON. */
  function PathKey(key: string, prop: string): string
  {
    key + "->'" + prop + "'"
  }

  /** The `In` closure an array field is stored as. */
  function InCall(items: seq<Value>): Entry
  {
    Call(Operator(In(items), None))
  }

  /** `createJsonCondition(key, object, conditionMap)`; a `null` object
      enumerates no properties. */
  function CreateJsonCondition(key: string, fs: seq<Field>, m: CondMap): (r: CondMap)
    ensures Distinct(Keys(m)) ==> Distinct(Keys(r))
    decreases fs
  {
    if |fs| == 0 then m
    else
      var f := fs[0];
      var m' :=
        match f.value
        case List(items) => MapSet(m, LeafKey(key, f.name), InCall(items))
        case Nested(inner) => CreateJsonCondition(PathKey(key, f.name), inner, m)
        case Null => m  // `for … in` over `null` enumerates nothing
        case Fn(op) => MapSet(m, LeafKey(key, f.name), Call(op))
        case Lit(v) => if Truthy(v) then MapSet(m, LeafKey(key, f.name), Literal(v)) else m
        case Undefined => m;
      CreateJsonCondition(key, fs[1..], m')
  }

  /** The body of the `for … in` loop of `createCondition`, for one property. */
  function AddTopField(m: CondMap, f: Field): (r: CondMap)
    ensures Distinct(Keys(m)) ==> Distinct(Keys(r))
  {
    match f.value
    case List(items) => MapSet(m, f.name, InCall(items))
    case Nested(inner) => CreateJsonCondition(Wrappers.Wrap(f.name), inner, m)
    case Null => CreateJsonCondition(Wrappers.Wrap(f.name), [], m)
    case Fn(op) => MapSet(m, f.name, Call(op))
    case Lit(v) => if Truthy(v) then MapSet(m, f.name, Literal(v)) else m
    case Undefined => m
  }

  function AddTopFields(m: CondMap, fields: seq<Field>): (r: CondMap)
    ensures Distinct(Keys(m)) ==> Distinct(Keys(r))
    decreases |fields|
  {
    if |fields| == 0 then m else AddTopFields(AddTopField(m, fields[0]), fields[1..])
  }

  /** `createCondition(object)`: a `Map`, so its keys are distinct. */
  function CreateCondition(fields: seq<Field>): (r: CondMap)
    ensures Distinct(Keys(r))
  {
    AddTopFields([], fields)
  }

  // Reference definition: the bindings a filter contributes, in depth-first
  // order of its properties, before they are merged into a map.

  function JsonLeaves(key: string, fs: seq<Field>): seq<Binding>
    decreases fs
  {
    if |fs| == 0 then []
    else
      var f := fs[0];
      var here :=
        match f.value
        case List(items) => [Binding(LeafKey(key, f.name), InCall(items))]
        case Nested(inner) => JsonLeaves(PathKey(key, f.name), inner)
        case Fn(op) => [Binding(LeafKey(key, f.name), Call(op))]
        case Lit(v) => if Truthy(v) then [Binding(LeafKey(key, f.name), Literal(v))] else []
        case _ => [];
      here + JsonLeaves(key, fs[1..])
  }

  function FieldLeaves(f: Field): seq<Binding>
  {
    match f.value
    case List(items) => [Binding(f.name, InCall(items))]
    case Nested(inner) => JsonLeaves(Wrappers.Wrap(f.name), inner)
    case Fn(op) => [Binding(f.name, Call(op))]
    case Lit(v) => if Truthy(v) then [Binding(f.name, Literal(v))] else []
    case _ => []
  }

  function Leaves(fields: seq<Field>): seq<Binding>
    decreases |fields|
  {
    if |fields| == 0 then [] else FieldLeaves(fields[0]) + Leaves(fields[1..])
  }

  /** Setting bindings one after another, as the flattening loops do. */
  function SetAll(m: CondMap, bs: seq<Binding>): (r: CondMap)
    ensures forall b :: b in r ==> b in m || b in bs
    ensures Distinct(Keys(m)) ==> Distinct(Keys(r))
    decreases |bs|
  {
    if |bs| == 0 then m
    else
      var r := SetAll(MapSet(m, bs[0].key, bs[0].entry), bs[1..]);
      assert forall b :: b in bs[1..] ==> b in bs;
      r
  }

  lemma {:induction false} SetAllAppend(m: CondMap, a: seq<Binding>, b: seq<Binding>)
    ensures SetAll(m, a + b) == SetAll(SetAll(m, a), b)
    decreases |a|
  {
    if |a| == 0 {
      assert a + b == b;
    } else {
      assert (a + b)[0] == a[0];
      assert (a + b)[1..] == a[1..] + b;
      SetAllAppend(MapSet(m, a[0].key, a[0].entry), a[1..], b);
    }
  }

  /** New distinct keys are simply appended, in order. */
  lemma {:induction false} SetAllFresh(m: CondMap, bs: seq<Binding>)
    requires Distinct(Keys(m + bs))
    ensures SetAll(m, bs) == m + bs
    decreases |bs|
  {
    if |bs| > 0 {
      var m' := m + [bs[0]];
      assert bs[0].key !in Keys(m) by {
        assert Keys(m + bs)[|m|] == bs[0].key;
        assert forall i :: 0 <= i < |m| ==> Keys(m + bs)[i] == Keys(m)[i];
      }
      assert MapSet(m, bs[0].key, bs[0].entry) == m';
      assert m' + bs[1..] == m + bs;
      SetAllFresh(m', bs[1..]);
    } else {
      assert m + bs == m;
    }
  }

  /** `createJsonCondition` sets exactly the depth-first leaves of the object. */
  lemma {:induction false} CreateJsonConditionIsSetAll(key: string, fs: seq<Field>, m: CondMap)
    ensures CreateJsonCondition(key, fs, m) == SetAll(m, JsonLeaves(key, fs))
    decreases fs
  {
    if |fs| > 0 {
      var f := fs[0];
      var here :=
        match f.value
        case List(items) => [Binding(LeafKey(key, f.name), InCall(items))]
        case Nested(inner) => JsonLeaves(PathKey(key, f.name), inner)
        case Fn(op) => [Binding(LeafKey(key, f.name), Call(op))]
        case Lit(v) => if Truthy(v) then [Binding(LeafKey(key, f.name), Literal(v))] else []
        case _ => [];
      assert JsonLeaves(key, fs) == here + JsonLeaves(key, fs[1..]);
      SetAllAppend(m, here, JsonLeaves(key, fs[1..]));
      var m' := SetAll(m, here);
      match f.value {
        case Nested(inner) =>
          CreateJsonConditionIsSetAll(PathKey(key, f.name), inner, m);
        case _ =>
      }
      assert CreateJsonCondition(key, fs, m) == CreateJsonCondition(key, fs[1..], m');
      CreateJsonConditionIsSetAll(key, fs[1..], m');
    }
  }

  /** `createCondition` merges the depth-first leaves of the filter, in order,
      into an empty map. */
  lemma {:induction false} CreateConditionIsSetAll(fields: seq<Field>)
    ensures CreateCondition(fields) == SetAll([], Leaves(fields))
  {
    AddTopFieldsIsSetAll([], fields);
  }

  lemma {:induction false} AddTopFieldsIsSetAll(m: CondMap, fields: seq<Field>)
    ensures AddTopFields(m, fields) == SetAll(m, Leaves(fields))
    decreases |fields|
  {
    if |fields| > 0 {
      var f := fields[0];
      SetAllAppend(m, FieldLeaves(f), Leaves(fields[1..]));
      match f.value {
        case Nested(inner) =>
          CreateJsonConditionIsSetAll(Wrappers.Wrap(f.name), inner, m);
        case Null =>
          CreateJsonConditionIsSetAll(Wrappers.Wrap(f.name), [], m);
        case _ =>
      }
      assert AddTopField(m, f) == SetAll(m, FieldLeaves(f));
      AddTopFieldsIsSetAll(AddTopField(m, f), fields[1..]);
    }
  }

  /** When no two leaves share a key, the condition map is the leaf list itself:
      entries appear in depth-first order of the filter's properties. */
  lemma CreateConditionDepthFirst(fields: seq<Field>)
    requires Distinct(Keys(Leaves(fields)))
    ensures CreateCondition(fields) == Leaves(fields)
  {
    CreateConditionIsSetAll(fields);
    assert [] + Leaves(fields) == Leaves(fields);
    SetAllFresh([], Leaves(fields));
  }

  /** Every key contributed by a nested object starts with the object's path
      and an `->` accessor. */
  lemma {:induction false} JsonLeavesKeys(key: string, fs: seq<Field>)
    ensures forall b :: b in JsonLeaves(key, fs) ==> IsPrefix(key + "->", b.key)
    ensures forall b :: b in JsonLeaves(key, fs) ==> !b.entry.NullValue?
    decreases fs
  {
    if |fs| > 0 {
      var f := fs[0];
      JsonLeavesKeys(key, fs[1..]);
      assert IsPrefix(key + "->", LeafKey(key, f.name)) by {
        assert LeafKey(key, f.name) == (key + "->") + (">'" + f.name + "'");
      }
      match f.value {
        case Nested(inner) =>
          var k := PathKey(key, f.name);
          JsonLeavesKeys(k, inner);
          assert k == (key + "->") + ("'" + f.name + "'");
          forall b | b in JsonLeaves(k, inner)
            ensures IsPrefix(key + "->", b.key)
          {
            assert IsPrefix(k + "->", b.key);
            PrefixTransitive(key + "->", k, b.key);
          }
        case _ =>
      }
    }
  }

  /** A string with `-` at position `i`. */
  lemma DashAt(s: string, i: nat)
    requires i < |s| && s[i] == '-'
    ensures Wrappers.Wrap(s) == s
  {
  }

  /** Every condition-map entry comes from a leaf: no entry is `null` (the
      `IS NULL` branch of the where builder is unreachable from here), and every
      key produced for a nested object contains `-`, so `wrap` leaves it as is. */
  lemma {:induction false} CreateConditionEntries(fields: seq<Field>)
    ensures forall b :: b in CreateCondition(fields) ==> b in Leaves(fields)
    ensures forall b :: b in CreateCondition(fields) ==> !b.entry.NullValue?
    ensures forall b :: b in CreateCondition(fields) ==>
      (exists f :: f in fields && f.name == b.key) || Wrappers.Wrap(b.key) == b.key
  {
    CreateConditionIsSetAll(fields);
    LeavesFacts(fields);
  }

  lemma {:induction false} LeavesFacts(fields: seq<Field>)
    ensures forall b :: b in Leaves(fields) ==> !b.entry.NullValue?
    ensures forall b :: b in Leaves(fields) ==>
      (exists f :: f in fields && f.name == b.key) || Wrappers.Wrap(b.key) == b.key
    decreases |fields|
  {
    if |fields| > 0 {
      var f := fields[0];
      LeavesFacts(fields[1..]);
      assert forall g :: g in fields[1..] ==> g in fields;
      assert f in fields;
      match f.value {
        case Nested(inner) =>
          var k := Wrappers.Wrap(f.name);
          JsonLeavesKeys(k, inner);
          forall b | b in JsonLeaves(k, inner)
            ensures Wrappers.Wrap(b.key) == b.key
          {
            assert b.key[|k|] == (k + "->")[|k|];
            DashAt(b.key, |k|);
          }
        case _ =>
      }
    }
  }

  lemma SingleField(f: Field)
    ensures CreateCondition([f]) == AddTopField([], f)
  {
    assert [f][1..] == [];
    assert AddTopFields([], [f]) == AddTopFields(AddTopField([], f), []);
  }

  /** A top-level array is stored, unapplied, as `In(array)` under the raw
      property name. */
  lemma TopLevelArray(p: string, xs: seq<Value>)
    ensures CreateCondition([Field(p, List(xs))]) == [Binding(p, Call(Operator(In(xs), None)))]
  {
    SingleField(Field(p, List(xs)));
  }

  /** A top-level scalar is kept under its raw name exactly when it is truthy. */
  lemma TopLevelScalar(p: string, v: Value)
    ensures Truthy(v) ==> CreateCondition([Field(p, Lit(v))]) == [Binding(p, Literal(v))]
    ensures !Truthy(v) ==> CreateCondition([Field(p, Lit(v))]) == []
    ensures CreateCondition([Field(p, Undefined)]) == []
  {
    SingleField(Field(p, Lit(v)));
    SingleField(Field(p, Undefined));
  }

  /** A function value is kept under its raw name. */
  lemma TopLevelFunction(p: string, op: Operator)
    ensures CreateCondition([Field(p, Fn(op))]) == [Binding(p, Call(op))]
  {
    SingleField(Field(p, Fn(op)));
  }

  /** `null` and `{}` contribute nothing. */
  lemma TopLevelNullOrEmpty(p: string)
    ensures CreateCondition([Field(p, Null)]) == []
    ensures CreateCondition([Field(p, Nested([]))]) == []
  {
    SingleField(Field(p, Null));
    SingleField(Field(p, Nested([])));
  }

  /** One level of nesting: a leaf under `p` gets the key `wrap(p)->>'q'`, and
      a second level extends the path with `->'q'`. */
  lemma NestedKeys(p: string, q: string, r: string, v: Value)
    requires Truthy(v)
    ensures CreateCondition([Field(p, Nested([Field(q, Lit(v))]))]) ==
      [Binding(Wrappers.Wrap(p) + "->>'" + q + "'", Literal(v))]
    ensures CreateCondition([Field(p, Nested([Field(q, Nested([Field(r, Lit(v))]))]))]) ==
      [Binding(Wrappers.Wrap(p) + "->'" + q + "'" + "->>'" + r + "'", Literal(v))]
  {
    var k := Wrappers.Wrap(p);
    var inner := [Field(r, Lit(v))];
    SingleField(Field(p, Nested([Field(q, Lit(v))])));
    assert [Field(q, Lit(v))][1..] == [];
    assert CreateJsonCondition(k, [Field(q, Lit(v))], []) == [Binding(LeafKey(k, q), Literal(v))];
    SingleField(Field(p, Nested([Field(q, Nested(inner))])));
    assert [Field(q, Nested(inner))][1..] == [];
    assert inner[1..] == [];
    assert CreateJsonCondition(PathKey(k, q), inner, []) == [Binding(LeafKey(PathKey(k, q), r), Literal(v))];
    assert CreateJsonCondition(k, [Field(q, Nested(inner))], []) == CreateJsonCondition(PathKey(k, q), inner, []);
  }
}
