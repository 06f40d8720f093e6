/** The where-functions of src/operators.ts. Each operator, applied to the
    value reference table, registers its literals and returns the SQL suffix
    that follows the column name. */
module Operators {
  import opened Utils
  import opened Fragments
  import Strings

  /** `In(args)`, `LeftContain(arg)`, `RightContain(arg)`. The containment
      operators receive `JSON.stringify(arg)` already computed. */
  datatype OpKind = In(args: seq<Value>) | LeftContain(serialized: string) | RightContain(serialized: string)

  /** A function value of a filter: the operator it renders, and the
      `nullableCondition` clause such a function may carry. */
  datatype Operator = Operator(kind: OpKind, nullableCondition: Option<string>)

  /** `args.map(arg => addValueToReferenceSet(arg, valueRefSet))`: the indices
      of the arguments, registered left to right. */
  function RegisterAll(args: seq<Value>, t: seq<Value>): (r: WithTable<seq<nat>>)
    ensures |r.val| == |args|
    ensures IsPrefix(t, r.table)
    decreases |args|
  {
    if |args| == 0 then WithTable([], t)
    else
      var first := AddValue(args[0], t);
      var rest := RegisterAll(args[1..], first.table);
      PrefixTransitive(t, first.table, rest.table);
      WithTable([first.val] + rest.val, rest.table)
  }

  /** `ns[i]` is the 1-based position of `args[i]` in `tbl`, for every `i`. */
  predicate Names(ns: seq<nat>, args: seq<Value>, tbl: seq<Value>)
  {
    |ns| == |args| && forall i :: 0 <= i < |args| ==> 1 <= ns[i] <= |tbl| && tbl[ns[i] - 1] == args[i]
  }

  /** Each argument's index names that argument in the final table. */
  lemma {:induction false} RegisterAllIndices(args: seq<Value>, t: seq<Value>)
    ensures Names(RegisterAll(args, t).val, args, RegisterAll(args, t).table)
    decreases |args|
  {
    if |args| > 0 {
      var first := AddValue(args[0], t);
      var rest := RegisterAll(args[1..], first.table);
      RegisterAllIndices(args[1..], first.table);
      var r := RegisterAll(args, t);
      assert r.val == [first.val] + rest.val && r.table == rest.table;
      IndicesStep(args, r.val, first.table, r.table);
    }
  }

  /** The inductive step of `RegisterAllIndices`: the head's index names it in
      the table `t1` the head's registration left, and the tail's indices name
      the tail in the final table `t2`, which extends `t1`. */
  lemma IndicesStep(args: seq<Value>, ns: seq<nat>, t1: seq<Value>, t2: seq<Value>)
    requires |args| > 0 && |ns| == |args|
    requires 1 <= ns[0] <= |t1| && t1[ns[0] - 1] == args[0]
    requires Names(ns[1..], args[1..], t2)
    requires IsPrefix(t1, t2)
    ensures Names(ns, args, t2)
  {
    assert t2[..|t1|][ns[0] - 1] == t1[ns[0] - 1];
    forall i | 1 <= i < |args|
      ensures ns[i] == ns[1..][i - 1] && args[i] == args[1..][i - 1]
    {
    }
  }

  /** Registration keeps a duplicate-free table duplicate-free. */
  lemma {:induction false} RegisterAllDistinct(args: seq<Value>, t: seq<Value>)
    requires Distinct(t)
    ensures Distinct(RegisterAll(args, t).table)
    decreases |args|
  {
    if |args| > 0 {
      RegisterAllDistinct(args[1..], AddValue(args[0], t).table);
    }
  }

  /** The final table holds the old entries and the arguments, nothing else. */
  lemma {:induction false} RegisterAllMembers(args: seq<Value>, t: seq<Value>)
    ensures forall x :: x in RegisterAll(args, t).table <==> x in t || x in args
    decreases |args|
  {
    if |args| > 0 {
      var first := AddValue(args[0], t);
      RegisterAllMembers(args[1..], first.table);
      assert forall x :: x in args <==> x == args[0] || x in args[1..];
    }
  }

  /** Registering `a + b` leaves the table that registering `a`, then `b`,
      leaves. */
  lemma {:induction false} RegisterAllAppend(a: seq<Value>, b: seq<Value>, t: seq<Value>)
    ensures RegisterAll(a + b, t).table == RegisterAll(b, RegisterAll(a, t).table).table
    decreases |a|
  {
    if |a| == 0 {
      assert a + b == b;
    } else {
      assert (a + b)[0] == a[0] && (a + b)[1..] == a[1..] + b;
      RegisterAllAppend(a[1..], b, AddValue(a[0], t).table);
    }
  }

  /** Registering one value through the list form is registering it alone. */
  lemma RegisterOne(v: Value, t: seq<Value>)
    ensures RegisterAll([v], t).table == AddValue(v, t).table
  {
    assert [v][1..] == [];
  }

  /** `ns[i]` is what registering `args[i]` again in `tbl` returns. */
  predicate Reregisters(ns: seq<nat>, args: seq<Value>, tbl: seq<Value>)
  {
    |ns| == |args| && forall i :: 0 <= i < |args| ==> ns[i] == AddValue(args[i], tbl).val
  }

  /** Each index handed out is the one the final table gives its argument, so
      equal arguments get equal indices whatever the table held before. */
  lemma {:induction false} RegisterAllReregisters(args: seq<Value>, t: seq<Value>)
    ensures Reregisters(RegisterAll(args, t).val, args, RegisterAll(args, t).table)
    decreases |args|
  {
    if |args| > 0 {
      var first := AddValue(args[0], t);
      var rest := RegisterAll(args[1..], first.table);
      RegisterAllReregisters(args[1..], first.table);
      AddValueStable(args[0], t, rest.table);
      var r := RegisterAll(args, t);
      assert r.val == [first.val] + rest.val && r.table == rest.table;
      ReregistersStep(args, r.val, r.table);
    }
  }

  lemma ReregistersStep(args: seq<Value>, ns: seq<nat>, tbl: seq<Value>)
    requires |args| > 0 && |ns| == |args|
    requires ns[0] == AddValue(args[0], tbl).val
    requires Reregisters(ns[1..], args[1..], tbl)
    ensures Reregisters(ns, args, tbl)
  {
    forall i | 1 <= i < |args|
      ensures ns[i] == ns[1..][i - 1] && args[i] == args[1..][i - 1]
    {
    }
  }

  /** One `$idx` fragment per argument. */
  function Placeholders(indices: seq<nat>, args: seq<Value>): (fs: seq<Fragment>)
    requires |indices| == |args|
    ensures |fs| == |args|
  {
    seq(|args|, i requires 0 <= i < |args| => [Param(indices[i], args[i])])
  }

  /** The suffix an operator renders and the table it leaves behind. */
  function Apply(op: OpKind, t: seq<Value>): (r: WithTable<Fragment>)
    ensures IsPrefix(t, r.table)
    ensures BoundIn(r.val, r.table)
  {
    match op
    case In(args) =>
      var reg := RegisterAll(args, t);
      RegisterAllIndices(args, t);
      var refs := Placeholders(reg.val, args);
      assert AllBoundIn(refs, reg.table);
      JoinBound(refs, ",", reg.table);
      WithTable([Text("IN (")] + JoinFragments(refs, ",") + [Text(")")], reg.table)
    case LeftContain(json) =>
      var a := AddValue(Str(json), t);
      WithTable([Text("@> "), Param(a.val, Str(json))], a.table)
    case RightContain(json) =>
      var a := AddValue(Str(json), t);
      WithTable([Text("<@ " + Strings.NatToString(a.val))], a.table)
  }

  /** The literals an operator registers, in order. */
  function OpArgs(op: OpKind): seq<Value>
  {
    match op
    case In(args) => args
    case LeftContain(json) => [Str(json)]
    case RightContain(json) => [Str(json)]
  }

  /** Every operator leaves the table that registering its literals leaves. */
  lemma ApplyRegisters(op: OpKind, t: seq<Value>)
    ensures Apply(op, t).table == RegisterAll(OpArgs(op), t).table
  {
    match op {
      case In(args) =>
      case LeftContain(json) => RegisterOne(Str(json), t);
      case RightContain(json) => RegisterOne(Str(json), t);
    }
  }

  /** Applying an operator keeps a duplicate-free table duplicate-free. */
  lemma ApplyDistinct(op: OpKind, t: seq<Value>)
    requires Distinct(t)
    ensures Distinct(Apply(op, t).table)
  {
    match op {
      case In(args) => RegisterAllDistinct(args, t);
      case LeftContain(json) => AddValueDistinct(Str(json), t);
      case RightContain(json) => AddValueDistinct(Str(json), t);
    }
  }

  lemma {:induction false} ParamsOfPlaceholders(indices: seq<nat>, args: seq<Value>)
    requires |indices| == |args|
    ensures ParamsAll(Placeholders(indices, args)) ==
      seq(|args|, i requires 0 <= i < |args| => Param(indices[i], args[i]))
  {
    if |args| > 0 {
      ParamsOfPlaceholders(indices[1..], args[1..]);
      assert Placeholders(indices, args)[1..] == Placeholders(indices[1..], args[1..]);
      assert Params([Param(indices[0], args[0])]) == [Param(indices[0], args[0])];
    }
  }

  /** The placeholders `In(args)` emits, one per argument, in order. */
  lemma InParams(args: seq<Value>, t: seq<Value>)
    ensures Params(Apply(In(args), t).val) ==
      seq(|args|, i requires 0 <= i < |args| => Param(RegisterAll(args, t).val[i], args[i]))
  {
    var reg := RegisterAll(args, t);
    var refs := Placeholders(reg.val, args);
    var f := JoinFragments(refs, ",");
    ParamsJoin(refs, ",");
    ParamsOfPlaceholders(reg.val, args);
    ParamsAppend([Text("IN (")], f);
    ParamsAppend([Text("IN (")] + f, [Text(")")]);
    assert Params([Text("IN (")]) == [];
    assert Params([Text(")")]) == [];
  }

  /** `In(args)` emits one placeholder per argument, in order, each naming its
      argument's position in the table; a repeated argument repeats its index. */
  lemma InPlaceholders(args: seq<Value>, t: seq<Value>)
    ensures var r := Apply(In(args), t);
      && |Params(r.val)| == |args|
      && forall i :: 0 <= i < |args| ==>
           Params(r.val)[i].value == args[i] && r.table[Params(r.val)[i].index - 1] == args[i]
    ensures forall i, j :: 0 <= i < |args| && 0 <= j < |args| && args[i] == args[j] ==>
      Params(Apply(In(args), t).val)[i].index == Params(Apply(In(args), t).val)[j].index
  {
    InParams(args, t);
    RegisterAllReregisters(args, t);
  }

  /** `In(args)` renders `IN (` + the `$idx` list joined by `,` + `)`. */
  lemma InRender(args: seq<Value>, t: seq<Value>)
    ensures var reg := RegisterAll(args, t);
      Render(Apply(In(args), t).val) ==
        "IN (" + Strings.Join(seq(|args|, i requires 0 <= i < |args| => "$" + Strings.NatToString(reg.val[i])), ",") + ")"
  {
    var reg := RegisterAll(args, t);
    var refs := Placeholders(reg.val, args);
    var f := JoinFragments(refs, ",");
    RenderJoin(refs, ",");
    RenderAppend([Text("IN (")], f);
    RenderAppend([Text("IN (")] + f, [Text(")")]);
    assert RenderAll(refs) == seq(|args|, i requires 0 <= i < |args| => "$" + Strings.NatToString(reg.val[i])) by {
      forall i | 0 <= i < |args|
        ensures Render(refs[i]) == "$" + Strings.NatToString(reg.val[i])
      {
        assert Render(refs[i]) == RenderPiece(Param(reg.val[i], args[i])) + Render([]);
      }
    }
  }

  /** `In([])` renders `IN ()` and registers nothing. */
  lemma InEmpty(t: seq<Value>)
    ensures Render(Apply(In([]), t).val) == "IN ()"
    ensures Apply(In([]), t).table == t
  {
    InRender([], t);
  }

  /** A duplicate-free sequence has as many distinct members as elements. */
  lemma {:induction false} DistinctCard(s: seq<Value>)
    requires Distinct(s)
    ensures |set x | x in s| == |s|
  {
    if |s| > 0 {
      DistinctCard(s[1..]);
      assert (set x | x in s) == {s[0]} + (set x | x in s[1..]);
    }
  }

  /** What a registration appends: the arguments not yet in the table, each once. */
  lemma AppendedByRegistration(args: seq<Value>, t: seq<Value>)
    requires Distinct(t)
    ensures var t' := RegisterAll(args, t).table;
      && Distinct(t'[|t|..])
      && (set x | x in t'[|t|..]) == (set x | x in args) - (set x | x in t)
  {
    var t' := RegisterAll(args, t).table;
    RegisterAllDistinct(args, t);
    RegisterAllMembers(args, t);
    DistinctSuffix(t', |t|);
    forall x
      ensures x in t'[|t|..] <==> x in args && x !in t
    {
      SuffixMembers(t, t', x);
    }
  }

  /** Starting from a duplicate-free table, `In(args)` grows it by exactly the
      number of distinct arguments not yet registered. */
  lemma InGrowth(args: seq<Value>, t: seq<Value>)
    requires Distinct(t)
    ensures |Apply(In(args), t).table| == |t| + |(set x | x in args) - (set x | x in t)|
  {
    var t' := RegisterAll(args, t).table;
    AppendedByRegistration(args, t);
    DistinctCard(t'[|t|..]);
  }

  /** `LeftContain` registers exactly its serialized argument and renders
      `@> $n` with `n` that argument's index. */
  lemma LeftContainShape(json: string, t: seq<Value>)
    ensures var r := Apply(LeftContain(json), t);
      && (r.table == t || r.table == t + [Str(json)])
      && Str(json) in r.table
      && exists n: nat :: 1 <= n <= |r.table| && Params(r.val) == [Param(n, Str(json))]
           && Render(r.val) == "@> $" + Strings.NatToString(n)
           && r.table[n - 1] == Str(json)
  {
    var a := AddValue(Str(json), t);
    var f := [Text("@> "), Param(a.val, Str(json))];
    var p := Param(a.val, Str(json));
    assert f[1..] == [p];
    assert [p][1..] == [];
    assert Params([p]) == [p] + Params([]);
    assert Params(f) == [] + Params([p]);
    assert Render([p]) == RenderPiece(p) + Render([]);
    assert Render(f) == "@> " + Render([p]);
  }

  /** `RightContain` registers its serialized argument exactly as `LeftContain`
      does, but renders `<@ n` without the `$`: the index appears as a bare
      number and the fragment holds no placeholder. */
  lemma RightContainShape(json: string, t: seq<Value>)
    ensures var r := Apply(RightContain(json), t);
      && r.table == Apply(LeftContain(json), t).table
      && Params(r.val) == []
      && '$' !in Render(r.val)
      && exists n: nat :: 1 <= n <= |r.table| && Render(r.val) == "<@ " + Strings.NatToString(n) && r.table[n - 1] == Str(json)
  {
    var a := AddValue(Str(json), t);
    var s := "<@ " + Strings.NatToString(a.val);
    assert Render([Text(s)]) == s + "";
    assert forall i :: 3 <= i < |s| ==> s[i] == Strings.NatToString(a.val)[i - 3];
  }

  /** Re-registering arguments already in any extension of the table finds
      the same indices and changes nothing. */
  lemma {:induction false} RegisterAllStable(args: seq<Value>, t: seq<Value>, t2: seq<Value>)
    requires IsPrefix(RegisterAll(args, t).table, t2)
    ensures RegisterAll(args, t2) == WithTable(RegisterAll(args, t).val, t2)
    decreases |args|
  {
    if |args| > 0 {
      var first := AddValue(args[0], t);
      var rest := RegisterAll(args[1..], first.table);
      PrefixTransitive(first.table, rest.table, t2);
      AddValueStable(args[0], t, t2);
      RegisterAllStable(args[1..], first.table, t2);
    }
  }

  /** Applying an operator again, once its values are registered, renders the
      same fragment and changes nothing. */
  lemma ApplyStable(op: OpKind, t: seq<Value>, t2: seq<Value>)
    requires IsPrefix(Apply(op, t).table, t2)
    ensures Apply(op, t2) == WithTable(Apply(op, t).val, t2)
  {
    match op {
      case In(args) => RegisterAllStable(args, t, t2);
      case LeftContain(json) => AddValueStable(Str(json), t, t2);
      case RightContain(json) => AddValueStable(Str(json), t, t2);
    }
  }
}
