/** The statement assembler of src/QueryConfig.ts. A `QueryConfig` instance is
    an immutable `Config` value; each builder method returns the next value.
    Its sets are duplicate-free sequences in insertion order, and the
    where-set compares fragments by their rendered text, as a `Set<string>`. */
module QueryConfig {
  import opened Utils
  import opened Fragments
  import opened Operators
  import opened Conditions
  import Wrappers
  import Strings

  /** `{ schema, table, columns = ['*'], limit, offset }`. */
  datatype QueryParams = QueryParams(
    schema: Option<string>,
    table: string,
    columns: Option<seq<string>>,
    limit: Option<int>,
    offset: Option<int>)

  datatype Config = Config(
    schema: Option<string>,
    table: string,
    columns: seq<string>,
    joins: seq<string>,
    wheres: seq<Fragment>,
    orders: seq<string>,
    limit: Option<int>,
    offset: Option<int>,
    values: seq<Value>)

  /** What every reachable configuration satisfies: each set is free of
      duplicates, and every placeholder in the where-set names, by index, the
      literal it was emitted for in the value table. */
  predicate Valid(c: Config)
  {
    && Distinct(c.columns)
    && Distinct(c.joins)
    && Distinct(RenderAll(c.wheres))
    && Distinct(c.orders)
    && Distinct(c.values)
    && AllBoundIn(c.wheres, c.values)
  }

  /** `new QueryConfig(params)`. */
  function New(p: QueryParams): (c: Config)
    ensures Valid(c)
    ensures c.schema == p.schema && c.table == p.table && c.limit == p.limit && c.offset == p.offset
    ensures c.values == [] && c.wheres == [] && c.joins == [] && c.orders == []
    ensures p.columns.None? ==> c.columns == ["*"]
    ensures p.columns.Some? ==> forall x :: x in c.columns <==> x in p.columns.value
    ensures p.columns.Some? && Distinct(p.columns.value) ==> c.columns == p.columns.value
  {
    var columns := match p.columns case Some(cs) => cs case None => ["*"];
    assert Distinct(columns) ==> Dedup(columns) == columns by {
      if Distinct(columns) {
        DedupDistinct(columns);
      }
    }
    Config(p.schema, p.table, Dedup(columns), [], [], [], p.limit, p.offset, [])
  }

  /** The argument of `select`: one column, an array of them, or a value that
      is neither a string nor an object (a number key), which is ignored. */
  datatype ColumnArg = One(name: string) | Many(names: seq<string>) | Ignored

  /** `select(column)`: replaces the column set. */
  function Select(c: Config, arg: ColumnArg): (r: Config)
    ensures Valid(c) ==> Valid(r)
    ensures arg.One? ==> r.columns == [arg.name]
    ensures arg.Many? ==> forall x :: x in r.columns <==> x in arg.names
    ensures arg.Many? && Distinct(arg.names) ==> r.columns == arg.names
    ensures arg.Ignored? ==> r == c
    ensures r == c.(columns := r.columns)
  {
    match arg
    case Ignored => c
    case One(name) => c.(columns := [name])
    case Many(names) =>
      assert Distinct(names) ==> Dedup(names) == names by {
        if Distinct(names) {
          DedupDistinct(names);
        }
      }
      c.(columns := Dedup(names))
  }

  datatype JoinKind = Inner | LeftOuter | RightOuter

  function JoinKeyword(kind: JoinKind): string
  {
    match kind
    case Inner => "JOIN"
    case LeftOuter => "LEFT JOIN"
    case RightOuter => "RIGHT JOIN"
  }

  /** `join`, `leftJoin`, `rightJoin`: adds `<KIND> <table> ON <condition>`
      to the join set; the condition is raw text and registers nothing. */
  function AddJoin(c: Config, kind: JoinKind, table: string, condition: string): (r: Config)
    ensures Valid(c) ==> Valid(r)
    ensures IsPrefix(c.joins, r.joins) && |r.joins| <= |c.joins| + 1
    ensures forall x :: x in r.joins <==> x in c.joins || x == JoinKeyword(kind) + " " + table + " ON " + condition
    ensures r == c.(joins := r.joins)
  {
    c.(joins := SetAdd(c.joins, JoinKeyword(kind) + " " + table + " ON " + condition))
  }

  /** Adding the same join twice stores it once. */
  lemma AddJoinTwice(c: Config, kind: JoinKind, table: string, condition: string)
    ensures AddJoin(AddJoin(c, kind, table, condition), kind, table, condition) == AddJoin(c, kind, table, condition)
  {
  }

  // ---- where ----

  /** The condition text of a function entry: `col <fn>`, or with a
      `nullableCondition` either `(col <fn> OR col <nc>)` or, when the
      function rendered nothing, `col <nc>`. It adds no placeholder. */
  function CallText(col: string, nullable: Option<string>, fn: Fragment): (r: Fragment)
    ensures forall p :: p in r && p.Param? ==> p in fn
  {
    match nullable
    case Some(nc) =>
      if Render(fn) != "" then [Text("(" + col + " ")] + fn + [Text(" OR " + col + " " + nc + ")")]
      else [Text(col + " " + nc)]
    case None => [Text(col + " ")] + fn
  }

  /** One iteration of the loop of `buildWhereConditions`, for the column
      `col` (already wrapped) and its condition-map value. */
  function BuildEntry(col: string, e: Entry, t: seq<Value>): (r: WithTable<Fragment>)
    ensures IsPrefix(t, r.table)
    ensures BoundIn(r.val, r.table)
  {
    match e
    case Call(op) =>
      var a := Apply(op.kind, t);
      WithTable(CallText(col, op.nullableCondition, a.val), a.table)
    case NullValue =>
      WithTable([Text(col + " IS NULL")], t)
    case Literal(v) =>
      var a := AddValue(v, t);
      WithTable([Text(col + " = "), Param(a.val, v)], a.table)
  }

  /** An entry keeps a duplicate-free table duplicate-free. */
  lemma EntryDistinct(col: string, e: Entry, t: seq<Value>)
    requires Distinct(t)
    ensures Distinct(BuildEntry(col, e, t).table)
  {
    match e {
      case Call(op) => ApplyDistinct(op.kind, t);
      case NullValue =>
      case Literal(v) => AddValueDistinct(v, t);
    }
  }

  /** The loop of `buildWhereConditions` over the condition map, threading the
      value table. */
  function BuildEntries(m: CondMap, t: seq<Value>): (r: WithTable<seq<Fragment>>)
    ensures |r.val| == |m|
    ensures IsPrefix(t, r.table)
    ensures AllBoundIn(r.val, r.table)
    decreases |m|
  {
    if |m| == 0 then WithTable([], t)
    else
      var first := BuildEntry(Wrappers.Wrap(m[0].key), m[0].entry, t);
      var rest := BuildEntries(m[1..], first.table);
      BoundGrow(first.val, first.table, rest.table);
      PrefixTransitive(t, first.table, rest.table);
      WithTable([first.val] + rest.val, rest.table)
  }

  /** The loop keeps a duplicate-free table duplicate-free. */
  lemma {:induction false} EntriesDistinct(m: CondMap, t: seq<Value>)
    requires Distinct(t)
    ensures Distinct(BuildEntries(m, t).table)
    decreases |m|
  {
    if |m| > 0 {
      var first := BuildEntry(Wrappers.Wrap(m[0].key), m[0].entry, t);
      EntryDistinct(Wrappers.Wrap(m[0].key), m[0].entry, t);
      EntriesDistinct(m[1..], first.table);
    }
  }

  /** Condition `i` of the loop is entry `i` built on the table the entries
      before it left, and that table's extension by entry `i` is a prefix of
      the final table. */
  lemma {:induction false} EntriesAt(m: CondMap, t: seq<Value>, i: nat)
    requires i < |m|
    ensures var ti := BuildEntries(m[..i], t).table;
      var e := BuildEntry(Wrappers.Wrap(m[i].key), m[i].entry, ti);
      && BuildEntries(m, t).val[i] == e.val
      && IsPrefix(e.table, BuildEntries(m, t).table)
    decreases i
  {
    var first := BuildEntry(Wrappers.Wrap(m[0].key), m[0].entry, t);
    var rest := BuildEntries(m[1..], first.table);
    assert BuildEntries(m, t) == WithTable([first.val] + rest.val, rest.table);
    if i == 0 {
      assert m[..0] == [];
    } else {
      EntriesAt(m[1..], first.table, i - 1);
      var p := m[..i];
      assert p[0] == m[0] && p[1..] == m[1..][..i - 1];
      assert BuildEntries(p, t).table == BuildEntries(m[1..][..i - 1], first.table).table;
      assert m[1..][i - 1] == m[i];
      assert BuildEntries(m, t).val[i] == rest.val[i - 1];
    }
  }

  /** A literal entry anywhere in the map renders `wrap(key) = $n`, with `n`
      the index the final table gives the literal. */
  lemma EntriesLiteralAt(m: CondMap, t: seq<Value>, i: nat)
    requires i < |m| && m[i].entry.Literal?
    ensures var r := BuildEntries(m, t);
      Render(r.val[i]) == Wrappers.Wrap(m[i].key) + " = $" + Strings.NatToString(AddValue(m[i].entry.v, r.table).val)
  {
    var ti := BuildEntries(m[..i], t).table;
    var col := Wrappers.Wrap(m[i].key);
    var v := m[i].entry.v;
    EntriesAt(m, t, i);
    LiteralEntry(col, v, ti);
    AddValueStable(v, ti, BuildEntries(m, t).table);
  }

  /** A function entry without a null clause anywhere in the map renders
      `wrap(key) <fn>`, with `fn` what the operator renders on the final table. */
  lemma EntriesCallAt(m: CondMap, t: seq<Value>, i: nat)
    requires i < |m| && m[i].entry.Call? && m[i].entry.op.nullableCondition.None?
    ensures var r := BuildEntries(m, t);
      Render(r.val[i]) == Wrappers.Wrap(m[i].key) + " " + Render(Apply(m[i].entry.op.kind, r.table).val)
  {
    var ti := BuildEntries(m[..i], t).table;
    var col := Wrappers.Wrap(m[i].key);
    var op := m[i].entry.op;
    EntriesAt(m, t, i);
    CallEntry(col, op, ti);
    ApplyStable(op.kind, ti, BuildEntries(m, t).table);
  }

  /** A `null` entry anywhere in the map renders `wrap(key) IS NULL`. */
  lemma EntriesNullAt(m: CondMap, t: seq<Value>, i: nat)
    requires i < |m| && m[i].entry.NullValue?
    ensures Render(BuildEntries(m, t).val[i]) == Wrappers.Wrap(m[i].key) + " IS NULL"
  {
    EntriesAt(m, t, i);
    NullEntry(Wrappers.Wrap(m[i].key), BuildEntries(m[..i], t).table);
  }

  /** The literals a condition-map entry registers, in order. */
  function EntryArgs(e: Entry): seq<Value>
  {
    match e
    case Call(op) => OpArgs(op.kind)
    case Literal(v) => [v]
    case NullValue => []
  }

  /** The literals of a whole condition map, entry after entry. */
  function MapArgs(m: CondMap): seq<Value>
    decreases |m|
  {
    if |m| == 0 then [] else EntryArgs(m[0].entry) + MapArgs(m[1..])
  }

  /** An entry leaves the table that registering its literals leaves. */
  lemma EntryRegisters(col: string, e: Entry, t: seq<Value>)
    ensures BuildEntry(col, e, t).table == RegisterAll(EntryArgs(e), t).table
  {
    match e {
      case Call(op) => ApplyRegisters(op.kind, t);
      case Literal(v) => RegisterOne(v, t);
      case NullValue =>
    }
  }

  /** The loop leaves the table that registering all the map's literals, in
      order, leaves. */
  lemma {:induction false} EntriesRegister(m: CondMap, t: seq<Value>)
    ensures BuildEntries(m, t).table == RegisterAll(MapArgs(m), t).table
    decreases |m|
  {
    if |m| > 0 {
      var first := BuildEntry(Wrappers.Wrap(m[0].key), m[0].entry, t);
      EntryRegisters(Wrappers.Wrap(m[0].key), m[0].entry, t);
      EntriesRegister(m[1..], first.table);
      RegisterAllAppend(EntryArgs(m[0].entry), MapArgs(m[1..]), t);
    }
  }

  /** What the loop appends to a duplicate-free table: each of the map's
      literals that was not registered yet, once, and nothing else. */
  lemma AppendedByEntries(m: CondMap, t: seq<Value>)
    requires Distinct(t)
    ensures var t' := BuildEntries(m, t).table;
      && Distinct(t'[|t|..])
      && (set x | x in t'[|t|..]) == (set x | x in MapArgs(m)) - (set x | x in t)
  {
    EntriesRegister(m, t);
    AppendedByRegistration(MapArgs(m), t);
  }

  /** `buildWhereConditions(whereCondition)`. */
  function BuildWhereConditions(spec: seq<Field>, t: seq<Value>): (r: WithTable<seq<Fragment>>)
    ensures |r.val| == |CreateCondition(spec)|
    ensures IsPrefix(t, r.table)
    ensures AllBoundIn(r.val, r.table)
  {
    BuildEntries(CreateCondition(spec), t)
  }

  /** `whereSet.add(fragment)`: skipped when the same text is already there. */
  function AddWhere(ws: seq<Fragment>, f: Fragment): (r: seq<Fragment>)
    ensures Render(f) in RenderAll(ws) ==> r == ws
    ensures Render(f) !in RenderAll(ws) ==> r == ws + [f]
    ensures Distinct(RenderAll(ws)) ==> Distinct(RenderAll(r))
  {
    if Render(f) in RenderAll(ws) then ws
    else
      assert RenderAll(ws + [f]) == RenderAll(ws) + [Render(f)];
      ws + [f]
  }

  /** Adds fragments one after another. */
  function AddWheres(ws: seq<Fragment>, fs: seq<Fragment>): (r: seq<Fragment>)
    ensures Distinct(RenderAll(ws)) ==> Distinct(RenderAll(r))
    ensures IsPrefix(ws, r)
    ensures forall f :: f in r ==> f in ws || f in fs
    decreases |fs|
  {
    if |fs| == 0 then ws
    else
      var ws' := AddWhere(ws, fs[0]);
      var r := AddWheres(ws', fs[1..]);
      assert IsPrefix(ws, ws');
      PrefixTransitive(ws, ws', r);
      assert forall f :: f in fs[1..] ==> f in fs;
      r
  }

  /** The text of every fragment of `fs` is the text of some member of `ws`. */
  predicate Covers(ws: seq<Fragment>, fs: seq<Fragment>)
  {
    forall i :: 0 <= i < |fs| ==> Render(fs[i]) in RenderAll(ws)
  }

  /** After the additions, the text of every added fragment is in the set. */
  lemma {:induction false} AddWheresRendered(ws: seq<Fragment>, fs: seq<Fragment>)
    ensures Covers(AddWheres(ws, fs), fs)
    decreases |fs|
  {
    if |fs| > 0 {
      var ws' := AddWhere(ws, fs[0]);
      AddWheresRendered(ws', fs[1..]);
      assert Render(fs[0]) in RenderAll(ws') by {
        if Render(fs[0]) !in RenderAll(ws) {
          assert RenderAll(ws')[|ws|] == Render(fs[0]);
        }
      }
      CoversStep(fs, ws', AddWheres(ws', fs[1..]));
    }
  }

  lemma CoversStep(fs: seq<Fragment>, ws: seq<Fragment>, r: seq<Fragment>)
    requires |fs| > 0 && Render(fs[0]) in RenderAll(ws)
    requires IsPrefix(ws, r) && Covers(r, fs[1..])
    ensures Covers(r, fs)
  {
    assert RenderAll(ws) == RenderAll(r)[..|ws|] by {
      assert ws == r[..|ws|];
    }
    assert forall i :: 1 <= i < |fs| ==> fs[i] == fs[1..][i - 1];
  }

  /** Fragments whose texts are new and distinct are appended in the order
      given. */
  lemma {:induction false} AddWheresFresh(ws: seq<Fragment>, fs: seq<Fragment>)
    requires Distinct(RenderAll(ws + fs))
    ensures AddWheres(ws, fs) == ws + fs
    decreases |fs|
  {
    if |fs| > 0 {
      var all := ws + fs;
      var ws' := ws + [fs[0]];
      assert Render(fs[0]) !in RenderAll(ws) by {
        forall k | 0 <= k < |ws|
          ensures RenderAll(ws)[k] != Render(fs[0])
        {
          assert all[k] == ws[k] && all[|ws|] == fs[0];
          assert RenderAll(all)[k] != RenderAll(all)[|ws|];
        }
      }
      assert AddWhere(ws, fs[0]) == ws';
      assert ws' + fs[1..] == all;
      AddWheresFresh(ws', fs[1..]);
    }
  }

  /** The loop adds the last fragment after all the others, so the set lists
      texts in the order of their first occurrence. */
  lemma {:induction false} AddWheresSnoc(ws: seq<Fragment>, fs: seq<Fragment>, f: Fragment)
    ensures AddWheres(ws, fs + [f]) == AddWhere(AddWheres(ws, fs), f)
    decreases |fs|
  {
    if |fs| == 0 {
      assert fs + [f] == [f] && [f][1..] == [];
    } else {
      assert (fs + [f])[0] == fs[0] && (fs + [f])[1..] == fs[1..] + [f];
      AddWheresSnoc(AddWhere(ws, fs[0]), fs[1..], f);
    }
  }

  /** `where(whereCondition)`. */
  function Where(c: Config, spec: seq<Field>): (r: Config)
    ensures Valid(c) ==> Valid(r)
    ensures IsPrefix(c.wheres, r.wheres)
    ensures r.values == BuildWhereConditions(spec, c.values).table
    ensures var built := BuildWhereConditions(spec, c.values).val;
      && (forall f :: f in r.wheres ==> f in c.wheres || f in built)
      && (forall i :: 0 <= i < |built| ==> Render(built[i]) in RenderAll(r.wheres))
    ensures var built := BuildWhereConditions(spec, c.values).val;
      Distinct(RenderAll(c.wheres + built)) ==> r.wheres == c.wheres + built
    ensures r == c.(wheres := r.wheres, values := r.values)
  {
    var built := BuildWhereConditions(spec, c.values);
    var ws := AddWheres(c.wheres, built.val);
    AddWheresRendered(c.wheres, built.val);
    assert Distinct(RenderAll(c.wheres + built.val)) ==> ws == c.wheres + built.val by {
      if Distinct(RenderAll(c.wheres + built.val)) {
        AddWheresFresh(c.wheres, built.val);
      }
    }
    assert Valid(c) ==> AllBoundIn(c.wheres, built.table) && Distinct(built.table) by {
      if Valid(c) {
        AllBoundGrow(c.wheres, c.values, built.table);
        EntriesDistinct(CreateCondition(spec), c.values);
      }
    }
    c.(wheres := ws, values := built.table)
  }

  /** `new Set(fragments)`. */
  function DedupFragments(fs: seq<Fragment>): (r: seq<Fragment>)
    ensures Distinct(RenderAll(r))
    ensures forall f :: f in r ==> f in fs
    ensures forall i :: 0 <= i < |fs| ==> Render(fs[i]) in RenderAll(r)
    ensures Distinct(RenderAll(fs)) ==> r == fs
  {
    AddWheresRendered([], fs);
    assert Distinct(RenderAll(fs)) ==> AddWheres([], fs) == fs by {
      if Distinct(RenderAll(fs)) {
        assert [] + fs == fs;
        AddWheresFresh([], fs);
      }
    }
    AddWheres([], fs)
  }

  /** `new Set(fragments)` lists texts in the order of their first occurrence:
      a last fragment is added after all the others, or skipped. */
  lemma DedupFragmentsSnoc(fs: seq<Fragment>, f: Fragment)
    ensures DedupFragments(fs + [f]) == AddWhere(DedupFragments(fs), f)
  {
    AddWheresSnoc([], fs, f);
  }

  /** The groups of `orWhere`, each its own where-conditions, deduplicated and
      joined with ` AND `, built one after another on the shared table. */
  function OrGroups(specs: seq<seq<Field>>, t: seq<Value>): (r: WithTable<seq<Fragment>>)
    ensures |r.val| == |specs|
    ensures IsPrefix(t, r.table)
    ensures AllBoundIn(r.val, r.table)
    decreases |specs|
  {
    if |specs| == 0 then WithTable([], t)
    else
      var built := BuildWhereConditions(specs[0], t);
      var group := JoinFragments(DedupFragments(built.val), " AND ");
      JoinBound(DedupFragments(built.val), " AND ", built.table);
      var rest := OrGroups(specs[1..], built.table);
      BoundGrow(group, built.table, rest.table);
      PrefixTransitive(t, built.table, rest.table);
      WithTable([group] + rest.val, rest.table)
  }

  /** The first group is the first filter's conditions, deduplicated by text
      and joined with ` AND `; the other groups are built, in order, on the
      table the first one left. No filter gives no group. */
  lemma OrGroupsHead(specs: seq<seq<Field>>, t: seq<Value>)
    ensures |specs| == 0 ==> OrGroups(specs, t) == WithTable([], t)
    ensures |specs| > 0 ==>
      var b := BuildWhereConditions(specs[0], t);
      var rest := OrGroups(specs[1..], b.table);
      var r := OrGroups(specs, t);
      && Render(r.val[0]) == Strings.Join(RenderAll(DedupFragments(b.val)), " AND ")
      && r.val[1..] == rest.val
      && r.table == rest.table
  {
    if |specs| > 0 {
      var b := BuildWhereConditions(specs[0], t);
      RenderJoin(DedupFragments(b.val), " AND ");
    }
  }

  /** The groups keep a duplicate-free table duplicate-free. */
  lemma {:induction false} OrGroupsDistinct(specs: seq<seq<Field>>, t: seq<Value>)
    requires Distinct(t)
    ensures Distinct(OrGroups(specs, t).table)
    decreases |specs|
  {
    if |specs| > 0 {
      EntriesDistinct(CreateCondition(specs[0]), t);
      OrGroupsDistinct(specs[1..], BuildWhereConditions(specs[0], t).table);
    }
  }

  /** The one fragment `orWhere` adds: `(` + the groups joined by ` OR ` + `)`. */
  function OrFragment(groups: seq<Fragment>): Fragment
  {
    [Text("(")] + JoinFragments(groups, " OR ") + [Text(")")]
  }

  /** `orWhere(whereConditions)`. */
  function OrWhere(c: Config, specs: seq<seq<Field>>): (r: Config)
    ensures Valid(c) ==> Valid(r)
    ensures r.values == OrGroups(specs, c.values).table
    ensures var f := OrFragment(OrGroups(specs, c.values).val);
      && (Render(f) in RenderAll(c.wheres) ==> r.wheres == c.wheres)
      && (Render(f) !in RenderAll(c.wheres) ==> r.wheres == c.wheres + [f])
    ensures r == c.(wheres := r.wheres, values := r.values)
  {
    var groups := OrGroups(specs, c.values);
    var f := OrFragment(groups.val);
    JoinBound(groups.val, " OR ", groups.table);
    assert Valid(c) ==> AllBoundIn(c.wheres, groups.table) && Distinct(groups.table) by {
      if Valid(c) {
        AllBoundGrow(c.wheres, c.values, groups.table);
        OrGroupsDistinct(specs, c.values);
      }
    }
    c.(wheres := AddWhere(c.wheres, f), values := groups.table)
  }

  // ---- order ----

  datatype Direction = Asc | Desc

  function DirectionText(d: Direction): string
  {
    match d
    case Asc => "ASC"
    case Desc => "DESC"
  }

  /** A value of an order specification: a direction, `undefined` (an
      optional property that is present but unset), or an object. `null` is an
      object to `typeof` and enumerates nothing, so it is an empty `NestedOrder`. */
  datatype OrderValue = Dir(d: Direction) | UndefinedOrder | NestedOrder(fields: seq<OrderField>)

  /** `${value}` of a non-object order value. */
  function OrderValueText(v: OrderValue): string
    requires !v.NestedOrder?
  {
    match v
    case Dir(d) => DirectionText(d)
    case UndefinedOrder => "undefined"
  }

  datatype OrderField = OrderField(column: string, value: OrderValue)

  /** `buildOrderConditions(orderCondition)`. The recursive call on a nested
      object returns a list that is thrown away, so nested objects add nothing. */
  function BuildOrderConditions(spec: seq<OrderField>): (r: seq<string>)
    ensures |r| <= |spec|
    ensures forall x :: x in r ==>
      exists f :: f in spec && !f.value.NestedOrder? && x == Wrappers.Wrap(f.column) + " " + OrderValueText(f.value)
    decreases |spec|
  {
    if |spec| == 0 then []
    else
      var rest := BuildOrderConditions(spec[1..]);
      assert forall f :: f in spec[1..] ==> f in spec;
      var here :=
        match spec[0].value
        case NestedOrder(_) => []
        case _ => [Wrappers.Wrap(spec[0].column) + " " + OrderValueText(spec[0].value)];
      here + rest
  }

  /** The entries of an order specification that are not objects, in order. */
  function OrderLeaves(spec: seq<OrderField>): (r: seq<OrderField>)
    ensures forall f :: f in r <==> f in spec && !f.value.NestedOrder?
    decreases |spec|
  {
    if |spec| == 0 then []
    else
      var rest := OrderLeaves(spec[1..]);
      assert forall f :: f in spec <==> f == spec[0] || f in spec[1..];
      (if !spec[0].value.NestedOrder? then [spec[0]] else []) + rest
  }

  /** Each entry that is not an object, and nothing else, emits
      `wrap(column) <value>` (`ASC`, `DESC` or `undefined`), in the order of
      the specification. */
  lemma {:induction false} OrderFragments(spec: seq<OrderField>)
    ensures var ds := OrderLeaves(spec);
      && |BuildOrderConditions(spec)| == |ds|
      && forall i :: 0 <= i < |ds| ==>
           BuildOrderConditions(spec)[i] == Wrappers.Wrap(ds[i].column) + " " + OrderValueText(ds[i].value)
    decreases |spec|
  {
    if |spec| > 0 {
      OrderFragments(spec[1..]);
      var r, rest := BuildOrderConditions(spec), BuildOrderConditions(spec[1..]);
      var ds, dr := OrderLeaves(spec), OrderLeaves(spec[1..]);
      if spec[0].value.NestedOrder? {
        assert r == rest && ds == dr;
      } else {
        var x := Wrappers.Wrap(spec[0].column) + " " + OrderValueText(spec[0].value);
        assert r == [x] + rest && ds == [spec[0]] + dr;
        OrderFragmentsStep(spec[0], rest, dr);
      }
    }
  }

  lemma OrderFragmentsStep(d: OrderField, rest: seq<string>, dr: seq<OrderField>)
    requires !d.value.NestedOrder?
    requires |rest| == |dr| && forall i :: 0 <= i < |dr| ==> !dr[i].value.NestedOrder?
    requires forall i :: 0 <= i < |dr| ==> rest[i] == Wrappers.Wrap(dr[i].column) + " " + OrderValueText(dr[i].value)
    ensures var r, ds := [Wrappers.Wrap(d.column) + " " + OrderValueText(d.value)] + rest, [d] + dr;
      forall i :: 0 <= i < |ds| ==> r[i] == Wrappers.Wrap(ds[i].column) + " " + OrderValueText(ds[i].value)
  {
    var r, ds := [Wrappers.Wrap(d.column) + " " + OrderValueText(d.value)] + rest, [d] + dr;
    forall i | 1 <= i < |ds|
      ensures r[i] == rest[i - 1] && ds[i] == dr[i - 1]
    {
    }
  }

  /** `order({ col: undefined })`: the property is enumerated, is not an
      object, and emits `wrap(col) undefined`. */
  lemma OrderUndefined(col: string)
    ensures BuildOrderConditions([OrderField(col, UndefinedOrder)]) == [Wrappers.Wrap(col) + " undefined"]
  {
    var spec := [OrderField(col, UndefinedOrder)];
    assert spec[1..] == [];
    var w := Wrappers.Wrap(col);
    assert OrderValueText(UndefinedOrder) == "undefined";
    assert w + " " + "undefined" == w + " undefined" by {
      assert " " + "undefined" == " undefined";
      AppendAssoc(w, " ", "undefined");
    }
    assert BuildOrderConditions(spec) == [w + " " + "undefined"] + BuildOrderConditions([]);
  }

  /** A nested object anywhere in an order specification changes nothing. */
  lemma {:induction false} OrderNestedDiscarded(a: seq<OrderField>, column: string, nested: seq<OrderField>, b: seq<OrderField>)
    ensures BuildOrderConditions(a + [OrderField(column, NestedOrder(nested))] + b) == BuildOrderConditions(a + b)
    decreases |a|
  {
    var n := [OrderField(column, NestedOrder(nested))];
    if |a| == 0 {
      assert a + n + b == n + b;
      assert (n + b)[1..] == b;
      assert a + b == b;
    } else {
      OrderNestedDiscarded(a[1..], column, nested, b);
      assert (a + n + b)[1..] == a[1..] + n + b;
      assert (a + b)[1..] == a[1..] + b;
      assert (a + n + b)[0] == a[0] && (a + b)[0] == a[0];
    }
  }

  /** `order(orderCondition)`. */
  function Order(c: Config, spec: seq<OrderField>): (r: Config)
    ensures Valid(c) ==> Valid(r)
    ensures IsPrefix(c.orders, r.orders)
    ensures forall x :: x in r.orders <==> x in c.orders || x in BuildOrderConditions(spec)
    ensures Distinct(c.orders + BuildOrderConditions(spec)) ==> r.orders == c.orders + BuildOrderConditions(spec)
    ensures r == c.(orders := r.orders)
  {
    var built := BuildOrderConditions(spec);
    assert Distinct(c.orders + built) ==> SetAddAll(c.orders, built) == c.orders + built by {
      if Distinct(c.orders + built) {
        SetAddAllFresh(c.orders, built);
      }
    }
    c.(orders := SetAddAll(c.orders, built))
  }

  // ---- text ----

  /** `this.schema ? … : …`: a schema counts when present and not empty. */
  function SqlFrom(c: Config): string
  {
    match c.schema
    case Some(s) => if s != "" then "FROM " + s + "." + c.table else "FROM " + c.table
    case None => "FROM " + c.table
  }

  function SqlColumns(c: Config): string
  {
    Strings.Join(seq(|c.columns|, i requires 0 <= i < |c.columns| => Wrappers.Wrap(c.columns[i])), ",")
  }

  function SqlJoin(c: Config): string
  {
    if |c.joins| > 0 then Strings.Join(c.joins, " ") else ""
  }

  function SqlWhere(c: Config): Fragment
  {
    if |c.wheres| > 0 then [Text("WHERE ")] + JoinFragments(c.wheres, " AND ") else []
  }

  function SqlOrder(c: Config): string
  {
    if |c.orders| > 0 then "ORDER BY " + Strings.Join(c.orders, ",") else ""
  }

  /** `LIMIT n` / `OFFSET n` when the number is truthy, that is present and not 0. */
  function SqlNumber(keyword: string, n: Option<int>): string
  {
    match n
    case Some(k) => if k != 0 then keyword + " " + Strings.IntToString(k) else ""
    case None => ""
  }

  /** The clauses `text` lists, in order; absent clauses render empty. */
  function Clauses(c: Config): (cs: seq<Fragment>)
    ensures |cs| == 8
  {
    [ [Text("SELECT")],
      [Text(SqlColumns(c))],
      [Text(SqlFrom(c))],
      [Text(SqlJoin(c))],
      SqlWhere(c),
      [Text(SqlOrder(c))],
      [Text(SqlNumber("LIMIT", c.limit))],
      [Text(SqlNumber("OFFSET", c.offset))] ]
  }

  /** `.filter((sql) => sql)`: drops the clauses that render empty. */
  function NonEmpty(fs: seq<Fragment>): (r: seq<Fragment>)
    decreases |fs|
  {
    if |fs| == 0 then []
    else (if Render(fs[0]) != "" then [fs[0]] else []) + NonEmpty(fs[1..])
  }

  /** The filter keeps only clauses of the input, and only non-empty ones. */
  lemma {:induction false} NonEmptyMembers(fs: seq<Fragment>)
    ensures forall f :: f in NonEmpty(fs) ==> f in fs && Render(f) != ""
    decreases |fs|
  {
    if |fs| > 0 {
      NonEmptyMembers(fs[1..]);
      assert forall f :: f in fs[1..] ==> f in fs;
    }
  }

  /** `.filter((sql) => sql)` on clause texts: keeps the non-empty ones, in order. */
  function KeepStrings(ss: seq<string>): (r: seq<string>)
    ensures forall x :: x in r <==> x in ss && x != ""
    ensures |r| <= |ss|
    decreases |ss|
  {
    if |ss| == 0 then []
    else
      var rest := KeepStrings(ss[1..]);
      assert forall x :: x in ss <==> x == ss[0] || x in ss[1..];
      (if ss[0] != "" then [ss[0]] else []) + rest
  }

  /** Filtering clauses and then rendering them is rendering them and then
      filtering the texts. */
  lemma {:induction false} RenderAllNonEmpty(fs: seq<Fragment>)
    ensures RenderAll(NonEmpty(fs)) == KeepStrings(RenderAll(fs))
    decreases |fs|
  {
    if |fs| > 0 {
      var ss := RenderAll(fs);
      var rest := NonEmpty(fs[1..]);
      RenderAllNonEmpty(fs[1..]);
      assert ss[0] == Render(fs[0]) && ss[1..] == RenderAll(fs[1..]);
      if Render(fs[0]) != "" {
        assert NonEmpty(fs) == [fs[0]] + rest;
        assert RenderAll([fs[0]] + rest) == [Render(fs[0])] + RenderAll(rest);
      } else {
        assert NonEmpty(fs) == rest;
      }
    }
  }

  /** The texts of the eight clauses, in the order `text` lists them. */
  lemma ClauseTexts(c: Config)
    ensures RenderAll(Clauses(c)) == ["SELECT", SqlColumns(c), SqlFrom(c), SqlJoin(c),
      Render(SqlWhere(c)), SqlOrder(c), SqlNumber("LIMIT", c.limit), SqlNumber("OFFSET", c.offset)]
  {
    EightTexts("SELECT", SqlColumns(c), SqlFrom(c), SqlJoin(c), SqlWhere(c),
      SqlOrder(c), SqlNumber("LIMIT", c.limit), SqlNumber("OFFSET", c.offset));
  }

  /** The statement is the non-empty clause texts joined by a space: command,
      columns, `FROM`, joins, `WHERE`, `ORDER BY`, `LIMIT`, `OFFSET`. */
  lemma TextComposition(c: Config)
    ensures Render(TextFragment(c)) == Strings.Join(KeepStrings(["SELECT", SqlColumns(c), SqlFrom(c), SqlJoin(c),
      Render(SqlWhere(c)), SqlOrder(c), SqlNumber("LIMIT", c.limit), SqlNumber("OFFSET", c.offset)]), " ")
  {
    RenderJoin(NonEmpty(Clauses(c)), " ");
    RenderAllNonEmpty(Clauses(c));
    ClauseTexts(c);
  }

  /** The statement as pieces. */
  function TextFragment(c: Config): Fragment
  {
    JoinFragments(NonEmpty(Clauses(c)), " ")
  }

  /** The `text` getter. The statement always begins with `SELECT`. */
  function SqlText(c: Config): (r: string)
    ensures |r| >= 6 && r[..6] == "SELECT"
    ensures r == Strings.Join(KeepStrings(["SELECT", SqlColumns(c), SqlFrom(c), SqlJoin(c),
      Render(SqlWhere(c)), SqlOrder(c), SqlNumber("LIMIT", c.limit), SqlNumber("OFFSET", c.offset)]), " ")
  {
    TextStartsWithSelect(c);
    TextComposition(c);
    Render(TextFragment(c))
  }

  /** The `values` getter. On a valid configuration it lists each literal
      once, and every placeholder of the where-set indexes into it. */
  function Values(c: Config): (r: seq<Value>)
    ensures Valid(c) ==> Distinct(r) && AllBoundIn(c.wheres, r)
  {
    c.values
  }

  /** The placeholders of the final statement are bound to `values`: for
      every `$n` emitted, `values[n-1]` is the literal it was emitted for. */
  lemma TextPlaceholdersBound(c: Config)
    requires Valid(c)
    ensures BoundIn(TextFragment(c), Values(c))
    ensures Distinct(Values(c))
  {
    var cs := Clauses(c);
    JoinBound(c.wheres, " AND ", c.values);
    assert BoundIn(SqlWhere(c), c.values);
    assert AllBoundIn(cs, c.values);
    NonEmptyMembers(cs);
    assert AllBoundIn(NonEmpty(cs), c.values);
    JoinBound(NonEmpty(cs), " ", c.values);
  }

  // ---- properties of single entries ----

  /** A literal entry renders `col = $n`, with `n` the index the value table
      gives the literal, and that index is the literal's position. */
  lemma LiteralEntry(col: string, v: Value, t: seq<Value>)
    ensures var r := BuildEntry(col, Literal(v), t);
      var n := AddValue(v, t).val;
      && Render(r.val) == col + " = $" + Strings.NatToString(n)
      && Params(r.val) == [Param(n, v)]
      && r.table[n - 1] == v
      && (v in t ==> r.table == t)
  {
    var n := AddValue(v, t).val;
    var f := [Text(col + " = "), Param(n, v)];
    assert f[1..] == [Param(n, v)];
    assert [Param(n, v)][1..] == [];
    assert Render([Param(n, v)]) == RenderPiece(Param(n, v)) + Render([]);
    assert Params([Param(n, v)]) == [Param(n, v)] + Params([]);
  }

  /** A function entry renders `col <fn>`, where `fn` is what the function
      returns for the current table. */
  lemma CallEntry(col: string, op: Operator, t: seq<Value>)
    requires op.nullableCondition.None?
    ensures var r := BuildEntry(col, Call(op), t);
      && r.table == Apply(op.kind, t).table
      && Render(r.val) == col + " " + Render(Apply(op.kind, t).val)
  {
    var fn := Apply(op.kind, t).val;
    assert BuildEntry(col, Call(op), t).val == [Text(col + " ")] + fn;
    RenderAppend([Text(col + " ")], fn);
    assert Render([Text(col + " ")]) == col + " " + "";
  }

  /** A function carrying a null clause renders `(col <fn> OR col <clause>)`,
      or only `col <clause>` when `fn` is empty. */
  lemma NullableCallEntry(col: string, op: Operator, t: seq<Value>)
    requires op.nullableCondition.Some?
    ensures var r := BuildEntry(col, Call(op), t);
      var fn := Apply(op.kind, t).val;
      var nc := op.nullableCondition.value;
      && r.table == Apply(op.kind, t).table
      && (Render(fn) != "" ==> Render(r.val) == ("(" + col + " ") + Render(fn) + (" OR " + col + " " + nc + ")"))
      && (Render(fn) == "" ==> Render(r.val) == col + " " + nc)
  {
    var a := Apply(op.kind, t);
    var nc := op.nullableCondition.value;
    if Render(a.val) != "" {
      var open, close := "(" + col + " ", " OR " + col + " " + nc + ")";
      assert BuildEntry(col, Call(op), t) == WithTable([Text(open)] + a.val + [Text(close)], a.table);
      RenderWrapped(open, a.val, close);
    } else {
      assert BuildEntry(col, Call(op), t) == WithTable([Text(col + " " + nc)], a.table);
      assert Render([Text(col + " " + nc)]) == col + " " + nc + "";
    }
  }

  /** A `null` entry renders `col IS NULL` and registers nothing. */
  lemma NullEntry(col: string, t: seq<Value>)
    ensures Render(BuildEntry(col, NullValue, t).val) == col + " IS NULL"
    ensures BuildEntry(col, NullValue, t).table == t
  {
    assert Render([Text(col + " IS NULL")]) == col + " IS NULL" + "";
  }

  // ---- repeating a where ----

  lemma EntryStable(col: string, e: Entry, t: seq<Value>, t2: seq<Value>)
    requires IsPrefix(BuildEntry(col, e, t).table, t2)
    ensures BuildEntry(col, e, t2) == WithTable(BuildEntry(col, e, t).val, t2)
  {
    match e {
      case Call(op) => ApplyStable(op.kind, t, t2);
      case Literal(v) => AddValueStable(v, t, t2);
      case NullValue =>
    }
  }

  lemma {:induction false} EntriesStable(m: CondMap, t: seq<Value>, t2: seq<Value>)
    requires IsPrefix(BuildEntries(m, t).table, t2)
    ensures BuildEntries(m, t2) == WithTable(BuildEntries(m, t).val, t2)
    decreases |m|
  {
    if |m| > 0 {
      var first := BuildEntry(Wrappers.Wrap(m[0].key), m[0].entry, t);
      var rest := BuildEntries(m[1..], first.table);
      PrefixTransitive(first.table, rest.table, t2);
      EntryStable(Wrappers.Wrap(m[0].key), m[0].entry, t, t2);
      EntriesStable(m[1..], first.table, t2);
    }
  }

  /** Adding fragments whose texts are all present already changes nothing. */
  lemma {:induction false} AddWheresPresent(ws: seq<Fragment>, fs: seq<Fragment>)
    requires forall i :: 0 <= i < |fs| ==> Render(fs[i]) in RenderAll(ws)
    ensures AddWheres(ws, fs) == ws
    decreases |fs|
  {
    if |fs| > 0 {
      AddWheresPresent(ws, fs[1..]);
    }
  }

  /** Adding the same fragment twice stores it once. */
  lemma AddWhereTwice(ws: seq<Fragment>, f: Fragment)
    ensures AddWhere(AddWhere(ws, f), f) == AddWhere(ws, f)
  {
    if Render(f) !in RenderAll(ws) {
      assert RenderAll(ws + [f])[|ws|] == Render(f);
    }
  }

  /** Repeating a `where` with the same filter changes nothing: its literals
      get the indices they already have, so its fragments render the same
      text and the where-set already holds them. */
  lemma WhereTwice(c: Config, spec: seq<Field>)
    requires Valid(c)
    ensures Where(Where(c, spec), spec) == Where(c, spec)
  {
    var built := BuildWhereConditions(spec, c.values);
    var c1 := Where(c, spec);
    EntriesStable(CreateCondition(spec), c.values, built.table);
    assert BuildWhereConditions(spec, c1.values) == built;
    AddWheresPresent(c1.wheres, built.val);
  }

  /** `where` appends to `values` exactly the filter's literals that were not
      registered yet, each once. */
  lemma WhereAppends(c: Config, spec: seq<Field>)
    requires Distinct(c.values)
    ensures var v := Where(c, spec).values;
      && IsPrefix(c.values, v)
      && Distinct(v[|c.values|..])
      && (set x | x in v[|c.values|..]) == (set x | x in MapArgs(CreateCondition(spec))) - (set x | x in c.values)
  {
    AppendedByEntries(CreateCondition(spec), c.values);
  }

  /** The literals of the `orWhere` filters, filter after filter. */
  function GroupsArgs(specs: seq<seq<Field>>): seq<Value>
    decreases |specs|
  {
    if |specs| == 0 then [] else MapArgs(CreateCondition(specs[0])) + GroupsArgs(specs[1..])
  }

  /** The groups leave the table that registering all the filters' literals,
      in order, leaves. */
  lemma {:induction false} OrGroupsRegister(specs: seq<seq<Field>>, t: seq<Value>)
    ensures OrGroups(specs, t).table == RegisterAll(GroupsArgs(specs), t).table
    decreases |specs|
  {
    if |specs| > 0 {
      var b := BuildWhereConditions(specs[0], t);
      EntriesRegister(CreateCondition(specs[0]), t);
      OrGroupsRegister(specs[1..], b.table);
      RegisterAllAppend(MapArgs(CreateCondition(specs[0])), GroupsArgs(specs[1..]), t);
    }
  }

  /** `orWhere` appends to `values` exactly the filters' literals that were not
      registered yet, each once. */
  lemma OrWhereAppends(c: Config, specs: seq<seq<Field>>)
    requires Distinct(c.values)
    ensures var v := OrWhere(c, specs).values;
      && IsPrefix(c.values, v)
      && Distinct(v[|c.values|..])
      && (set x | x in v[|c.values|..]) == (set x | x in GroupsArgs(specs)) - (set x | x in c.values)
  {
    OrGroupsRegister(specs, c.values);
    AppendedByRegistration(GroupsArgs(specs), c.values);
  }

  // ---- properties of the statement text ----

  /** The `orWhere` fragment renders `(` + the groups joined by ` OR ` + `)`. */
  lemma OrFragmentRender(groups: seq<Fragment>)
    ensures Render(OrFragment(groups)) == "(" + Strings.Join(RenderAll(groups), " OR ") + ")"
  {
    var j := JoinFragments(groups, " OR ");
    RenderJoin(groups, " OR ");
    RenderAppend([Text("(")], j);
    RenderAppend([Text("(")] + j, [Text(")")]);
    assert Render([Text("(")]) == "(";
    assert Render([Text(")")]) == ")";
  }

  /** The where clause is absent without conditions, and otherwise renders
      `WHERE ` + the conditions joined by ` AND `, in insertion order. */
  lemma WhereClauseRender(c: Config)
    ensures |c.wheres| == 0 ==> Render(SqlWhere(c)) == ""
    ensures |c.wheres| > 0 ==> Render(SqlWhere(c)) == "WHERE " + Strings.Join(RenderAll(c.wheres), " AND ")
  {
    if |c.wheres| > 0 {
      RenderJoin(c.wheres, " AND ");
      RenderAppend([Text("WHERE ")], JoinFragments(c.wheres, " AND "));
      assert Render([Text("WHERE ")]) == "WHERE ";
    }
  }

  /** The rendered clauses that survive the filter, in order. */
  lemma RenderNonEmpty(fs: seq<Fragment>)
    ensures forall i :: 0 <= i < |NonEmpty(fs)| ==> RenderAll(NonEmpty(fs))[i] != ""
    ensures |fs| > 0 && Render(fs[0]) != "" ==> |NonEmpty(fs)| > 0 && NonEmpty(fs)[0] == fs[0]
  {
    NonEmptyMembers(fs);
  }

  /** The statement always begins with `SELECT`. */
  lemma TextStartsWithSelect(c: Config)
    ensures |Render(TextFragment(c))| >= 6 && Render(TextFragment(c))[..6] == "SELECT"
  {
    var cs := Clauses(c);
    var ne := NonEmpty(cs);
    assert Render([Text("SELECT")]) == "SELECT";
    RenderNonEmpty(cs);
    RenderJoin(ne, " ");
    assert ne[0] == [Text("SELECT")];
    JoinHead(RenderAll(ne), " ");
  }

  /** A join begins with its first part. */
  lemma JoinHead(parts: seq<string>, sep: string)
    requires |parts| > 0
    ensures |Strings.Join(parts, sep)| >= |parts[0]|
    ensures Strings.Join(parts, sep)[..|parts[0]|] == parts[0]
  {
    if |parts| > 1 {
      assert Strings.Join(parts, sep) == parts[0] + sep + Strings.Join(parts[1..], sep);
      assert (parts[0] + sep + Strings.Join(parts[1..], sep))[..|parts[0]|] == parts[0];
    }
  }

  /** A limit or offset of 0 is falsy and leaves the statement as if none
      was given; any other number adds its clause. */
  lemma LimitOffsetZeroOmitted(c: Config)
    ensures SqlText(c.(limit := Some(0))) == SqlText(c.(limit := None))
    ensures SqlText(c.(offset := Some(0))) == SqlText(c.(offset := None))
    ensures forall k :: k != 0 ==> SqlNumber("LIMIT", Some(k)) == "LIMIT " + Strings.IntToString(k)
  {
    assert Clauses(c.(limit := Some(0))) == Clauses(c.(limit := None));
    assert Clauses(c.(offset := Some(0))) == Clauses(c.(offset := None));
  }

  // ---- examples ----

  /** `new QueryConfig({ table }).text` is `SELECT * FROM <table>`. */
  lemma DefaultSelect(p: QueryParams)
    requires p.schema.None? && p.columns.None? && p.limit.None? && p.offset.None?
    ensures SqlText(New(p)) == "SELECT * FROM " + p.table
  {
    var c := New(p);
    StarColumns(c);
    PlainText(c);
    SelectStarFrom(p.table);
  }

  /** The default column list `['*']` renders `*`. */
  lemma StarColumns(c: Config)
    requires c.columns == ["*"]
    ensures SqlColumns(c) == "*"
  {
    assert !Wrappers.HasUpperCase("*") by {
      assert !Wrappers.IsUpper("*"[0]);
      assert "*"[1..] == "";
    }
    Wrappers.WrapUnchanged("*");
    var wrapped := seq(1, i requires 0 <= i < 1 => Wrappers.Wrap(c.columns[i]));
    assert wrapped == ["*"];
    assert Strings.Join(["*"], ",") == "*";
  }

  /** Without joins, conditions, orders, limit or offset, the statement is
      `SELECT <columns> FROM <table>`, or `… FROM <schema>.<table>` when the
      schema is a non-empty string. Schema and table are inserted as given,
      never through `wrap`. */
  lemma PlainText(c: Config)
    requires c.joins == [] && c.wheres == [] && c.orders == []
    requires c.limit.None? && c.offset.None?
    requires SqlColumns(c) != ""
    ensures (c.schema.None? || c.schema.value == "") ==>
      SqlText(c) == "SELECT " + SqlColumns(c) + " FROM " + c.table
    ensures c.schema.Some? && c.schema.value != "" ==>
      SqlText(c) == "SELECT " + SqlColumns(c) + " FROM " + c.schema.value + "." + c.table
  {
    var cols, from := SqlColumns(c), SqlFrom(c);
    var rest := if c.schema.Some? && c.schema.value != "" then c.schema.value + "." + c.table else c.table;
    assert from == "FROM " + rest;
    PlainClauses(c);
    ThreeClauseText(c, cols, from);
    FromConcat(cols, rest);
  }

  /** With a schema, a single column with an upper-case letter is quoted by
      `wrap`, while the schema and the table, upper-case or not, are not. */
  lemma FromNotWrapped(c: Config, col: string, k: nat)
    requires c.columns == [col] && k < |col| && Wrappers.IsUpper(col[k])
    requires '-' !in col && '.' !in col
    requires c.schema.Some? && c.schema.value != ""
    requires c.joins == [] && c.wheres == [] && c.orders == []
    requires c.limit.None? && c.offset.None?
    ensures SqlText(c) == "SELECT " + Wrappers.Quote(col) + " FROM " + c.schema.value + "." + c.table
  {
    Wrappers.WrapSingle(col, k);
    var wrapped := seq(1, i requires 0 <= i < 1 => Wrappers.Wrap(c.columns[i]));
    assert wrapped == [Wrappers.Quote(col)];
    assert Strings.Join([Wrappers.Quote(col)], ",") == Wrappers.Quote(col);
    PlainText(c);
  }

  /** `new QueryConfig({ schema: 'Sales', table: 'Orders', columns: ['Total'] })`
      renders `SELECT "Total" FROM Sales.Orders`: the column is quoted, the
      upper-case schema and table are not. */
  lemma SalesOrdersExample()
    ensures SqlText(New(QueryParams(Some("Sales"), "Orders", Some(["Total"]), None, None)))
      == "SELECT \"Total\" FROM Sales.Orders"
  {
    var p := QueryParams(Some("Sales"), "Orders", Some(["Total"]), None, None);
    var c := New(p);
    assert Distinct(p.columns.value);
    TotalFacts();
    FromNotWrapped(c, "Total", 0);
    SalesOrdersText();
  }

  /** Filtering keeps every non-empty clause and drops every empty one. */
  lemma NonEmptySplit(keep: seq<Fragment>, dropped: seq<Fragment>)
    requires forall i :: 0 <= i < |keep| ==> Render(keep[i]) != ""
    requires forall i :: 0 <= i < |dropped| ==> Render(dropped[i]) == ""
    ensures NonEmpty(keep + dropped) == keep
  {
    NonEmptyKeeps(keep, dropped);
    NonEmptyDrops(dropped);
    assert keep + [] == keep;
  }

  predicate AllNonEmpty(fs: seq<Fragment>)
  {
    forall i :: 0 <= i < |fs| ==> Render(fs[i]) != ""
  }

  /** Non-empty clauses in front all survive the filter, in order. */
  lemma {:induction false} NonEmptyKeeps(keep: seq<Fragment>, rest: seq<Fragment>)
    requires AllNonEmpty(keep)
    ensures NonEmpty(keep + rest) == keep + NonEmpty(rest)
    decreases |keep|
  {
    if |keep| > 0 {
      var x := keep + rest;
      assert x[0] == keep[0] && x[1..] == keep[1..] + rest;
      NonEmptyCons(x);
      assert AllNonEmpty(keep[1..]) by {
        assert forall i :: 0 <= i < |keep[1..]| ==> keep[1..][i] == keep[i + 1];
      }
      NonEmptyKeeps(keep[1..], rest);
      var n := NonEmpty(rest);
      assert keep == [keep[0]] + keep[1..];
      AppendAssoc([keep[0]], keep[1..], n);
    } else {
      assert keep + rest == rest;
    }
  }

  lemma NonEmptyCons(x: seq<Fragment>)
    requires |x| > 0 && Render(x[0]) != ""
    ensures NonEmpty(x) == [x[0]] + NonEmpty(x[1..])
  {
  }

  /** Empty clauses all fall to the filter. */
  lemma {:induction false} NonEmptyDrops(dropped: seq<Fragment>)
    requires forall i :: 0 <= i < |dropped| ==> Render(dropped[i]) == ""
    ensures NonEmpty(dropped) == []
    decreases |dropped|
  {
    if |dropped| > 0 {
      assert forall i :: 0 <= i < |dropped[1..]| ==> dropped[1..][i] == dropped[i + 1];
      NonEmptyDrops(dropped[1..]);
    }
  }

  /** `where({ [col]: v, [other]: null })` on a fresh configuration, with `v`
      truthy: the `null` property adds nothing, `v` becomes `$1`, and the
      statement's values are `[v]`. */
  lemma WhereLiteralExample(c: Config, col: string, other: string, v: Value)
    requires c.wheres == [] && c.values == [] && Truthy(v)
    ensures var r := Where(c, [Field(col, Lit(v)), Field(other, Null)]);
      && r.values == [v]
      && RenderAll(r.wheres) == [Wrappers.Wrap(col) + " = $1"]
  {
    var spec := [Field(col, Lit(v)), Field(other, Null)];
    var f := [Text(Wrappers.Wrap(col) + " = "), Param(1, v)];
    LiteralThenNull(col, other, v);
    FirstLiteralBuilt(col, v);
    WhereOne(c, spec, f, [v]);
    FirstLiteralRender(Wrappers.Wrap(col), v);
    RenderAllOne(f);
  }

  /** On a configuration without conditions, a map that builds a single
      condition stores exactly that condition. */
  lemma WhereOne(c: Config, spec: seq<Field>, f: Fragment, t: seq<Value>)
    requires c.wheres == [] && BuildWhereConditions(spec, c.values) == WithTable([f], t)
    ensures Where(c, spec).wheres == [f] && Where(c, spec).values == t
  {
    var fs: seq<Fragment> := [f];
    assert fs[1..] == [];
    assert AddWheres([], fs) == fs;
  }

  lemma LiteralThenNull(col: string, other: string, v: Value)
    requires Truthy(v)
    ensures CreateCondition([Field(col, Lit(v)), Field(other, Null)]) == [Binding(col, Literal(v))]
  {
    var spec := [Field(col, Lit(v)), Field(other, Null)];
    var b := Binding(col, Literal(v));
    assert AddTopField([], spec[0]) == [b] by {
      assert MapSet([], col, Literal(v)) == [] + [b];
    }
    assert AddTopField([b], spec[1]) == [b];
    var rest := spec[1..];
    assert rest == [spec[1]] && rest[1..] == [];
    assert AddTopFields([], spec) == AddTopFields([b], rest);
    assert AddTopFields([b], rest) == AddTopFields([b], []);
  }

  lemma FirstLiteralBuilt(col: string, v: Value)
    ensures BuildEntries([Binding(col, Literal(v))], [])
      == WithTable([[Text(Wrappers.Wrap(col) + " = "), Param(1, v)]], [v])
  {
    SingleEntry(Binding(col, Literal(v)), []);
    assert BuildEntry(Wrappers.Wrap(col), Literal(v), []) == WithTable([Text(Wrappers.Wrap(col) + " = "), Param(1, v)], [v]) by {
      AddValueCases(v, []);
    }
  }

  /** `new QueryConfig({ table: 't', limit: 5 }).join('u', 'x').where({ a: v })
      .order({ b: 'ASC' })` lists its clauses in the getter's order, separated
      by spaces: `SELECT * FROM t JOIN u ON x WHERE a = $1 ORDER BY b ASC LIMIT 5`. */
  lemma FullExample(v: Value)
    requires Truthy(v)
    ensures var c := Order(Where(AddJoin(New(QueryParams(None, "t", None, Some(5), None)), Inner, "u", "x"),
        [Field("a", Lit(v))]), [OrderField("b", Dir(Asc))]);
      && SqlText(c) == Strings.Join(["SELECT", "*", "FROM t", "JOIN u ON x", "WHERE a = $1", "ORDER BY b ASC", "LIMIT 5"], " ")
      && Values(c) == [v]
  {
    ExampleConfig(v);
    ExampleResultText(v);
  }

  // ---- proof steps ----
  // Single steps of the lemmas above, each about a fixed clause list or a
  // literal string. They are kept apart so that each is checked in a small
  // context; they state nothing about the library of their own.

  lemma EightTexts(s0: string, s1: string, s2: string, s3: string, w: Fragment, s5: string, s6: string, s7: string)
    ensures RenderAll([[Text(s0)], [Text(s1)], [Text(s2)], [Text(s3)], w, [Text(s5)], [Text(s6)], [Text(s7)]])
      == [s0, s1, s2, s3, Render(w), s5, s6, s7]
  {
    RenderText(s0);
    RenderText(s1);
    RenderText(s2);
    RenderText(s3);
    RenderText(s5);
    RenderText(s6);
    RenderText(s7);
  }

  lemma PlainClauses(c: Config)
    requires c.joins == [] && c.wheres == [] && c.orders == []
    requires c.limit.None? && c.offset.None?
    requires SqlColumns(c) != ""
    ensures TextFragment(c) == JoinFragments([[Text("SELECT")], [Text(SqlColumns(c))], [Text(SqlFrom(c))]], " ")
  {
    var keep := [[Text("SELECT")], [Text(SqlColumns(c))], [Text(SqlFrom(c))]];
    var dropped: seq<Fragment> := [[Text("")], [], [Text("")], [Text("")], [Text("")]];
    assert Clauses(c) == keep + dropped;
    KeepThree(SqlColumns(c), SqlFrom(c));
  }

  lemma ThreeClauseText(c: Config, cols: string, from: string)
    requires TextFragment(c) == JoinFragments([[Text("SELECT")], [Text(cols)], [Text(from)]], " ")
    ensures SqlText(c) == "SELECT" + " " + cols + " " + from
  {
    RenderThree(cols, from);
    assert Strings.Join(["SELECT", cols, from], " ") == "SELECT" + " " + cols + " " + from by {
      assert ["SELECT", cols, from][1..] == [cols, from];
      assert [cols, from][1..] == [from];
      assert Strings.Join([from], " ") == from;
      assert Strings.Join([cols, from], " ") == cols + " " + from;
    }
  }

  /** Of the eight clauses, the filter keeps the three non-empty ones. */
  lemma KeepThree(a: string, b: string)
    requires a != "" && b != ""
    ensures NonEmpty([[Text("SELECT")], [Text(a)], [Text(b)]] + [[Text("")], [], [Text("")], [Text("")], [Text("")]])
      == [[Text("SELECT")], [Text(a)], [Text(b)]]
  {
    var keep := [[Text("SELECT")], [Text(a)], [Text(b)]];
    var dropped: seq<Fragment> := [[Text("")], [], [Text("")], [Text("")], [Text("")]];
    assert Render([Text("")]) == "" && Render([]) == "";
    forall i | 0 <= i < |keep|
      ensures Render(keep[i]) != ""
    {
      assert Render(keep[i]) == keep[i][0].s + Render([]);
    }
    NonEmptySplit(keep, dropped);
  }

  lemma RenderThree(a: string, b: string)
    ensures Render(JoinFragments([[Text("SELECT")], [Text(a)], [Text(b)]], " ")) == Strings.Join(["SELECT", a, b], " ")
  {
    var keep := [[Text("SELECT")], [Text(a)], [Text(b)]];
    RenderJoin(keep, " ");
    assert RenderAll(keep) == ["SELECT", a, b] by {
      assert Render([Text("SELECT")]) == "SELECT" + "";
      assert Render([Text(a)]) == a + "";
      assert Render([Text(b)]) == b + "";
      assert RenderAll(keep)[0] == "SELECT";
      assert RenderAll(keep)[1] == a;
      assert RenderAll(keep)[2] == b;
    }
  }

  lemma FromConcat(cols: string, rest: string)
    ensures "SELECT" + " " + cols + " " + ("FROM " + rest) == "SELECT " + cols + " FROM " + rest
  {
  }

  lemma SelectStarFrom(table: string)
    ensures "SELECT " + "*" + " FROM " + table == "SELECT * FROM " + table
  {
    assert "SELECT " + "*" + " FROM " == "SELECT * FROM ";
  }

  lemma TotalFacts()
    ensures Wrappers.IsUpper("Total"[0]) && '-' !in "Total" && '.' !in "Total"
  {
  }

  lemma SalesOrdersText()
    ensures "SELECT " + Wrappers.Quote("Total") + " FROM " + "Sales" + "." + "Orders"
      == "SELECT \"Total\" FROM Sales.Orders"
  {
  }

  /** A map of one entry builds that entry's condition alone. */
  lemma SingleEntry(b: Binding, t: seq<Value>)
    ensures var e := BuildEntry(Wrappers.Wrap(b.key), b.entry, t);
      BuildEntries([b], t) == WithTable([e.val], e.table)
  {
    var e := BuildEntry(Wrappers.Wrap(b.key), b.entry, t);
    var bs := [b];
    assert bs[1..] == [];
    assert BuildEntries([], e.table) == WithTable([], e.table);
    assert [e.val] + [] == [e.val];
  }

  lemma FirstLiteralRender(col: string, v: Value)
    ensures Render([Text(col + " = "), Param(1, v)]) == col + " = $1"
  {
    var f := [Text(col + " = "), Param(1, v)];
    assert Strings.NatToString(1) == "1";
    assert f[1..] == [Param(1, v)] && [Param(1, v)][1..] == [];
    assert Render([Param(1, v)]) == "$" + "1" + "";
    assert Render(f) == col + " = " + Render([Param(1, v)]);
  }

  function ExampleResult(v: Value): Config
  {
    Config(None, "t", ["*"], ["JOIN u ON x"], [[Text("a = "), Param(1, v)]], ["b ASC"], Some(5), None, [v])
  }

  lemma ExampleResultText(v: Value)
    ensures SqlText(ExampleResult(v)) == Strings.Join(["SELECT", "*", "FROM t", "JOIN u ON x", "WHERE a = $1", "ORDER BY b ASC", "LIMIT 5"], " ")
    ensures Values(ExampleResult(v)) == [v]
  {
    var f := [Text("a = "), Param(1, v)];
    FirstLiteralRender("a", v);
    assert "a" + " = " == "a = ";
    ExampleClauses(ExampleResult(v), f);
  }

  lemma ExampleConfig(v: Value)
    requires Truthy(v)
    ensures Order(Where(AddJoin(New(QueryParams(None, "t", None, Some(5), None)), Inner, "u", "x"),
        [Field("a", Lit(v))]), [OrderField("b", Dir(Asc))]) == ExampleResult(v)
  {
    var c0 := New(QueryParams(None, "t", None, Some(5), None));
    var c1 := AddJoin(c0, Inner, "u", "x");
    ExampleJoin(c0);
    var c2 := Where(c1, [Field("a", Lit(v))]);
    ExampleWhere(c1, v);
    ExampleOrder(c2);
  }

  lemma ExampleJoin(c: Config)
    requires c.joins == []
    ensures AddJoin(c, Inner, "u", "x") == c.(joins := ["JOIN u ON x"])
  {
    assert JoinKeyword(Inner) + " " + "u" + " ON " + "x" == "JOIN u ON x";
  }

  lemma ExampleWhere(c: Config, v: Value)
    requires Truthy(v) && c.wheres == [] && c.values == []
    ensures Where(c, [Field("a", Lit(v))]) == c.(wheres := [[Text("a = "), Param(1, v)]], values := [v])
  {
    var spec := [Field("a", Lit(v))];
    TopLevelScalar("a", v);
    FirstLiteralBuilt("a", v);
    LowerUnchanged("a");
    assert "a" + " = " == "a = ";
    assert BuildWhereConditions(spec, c.values) == WithTable([[Text("a = "), Param(1, v)]], [v]);
    WhereOne(c, spec, [Text("a = "), Param(1, v)], [v]);
  }

  lemma ExampleOrder(c: Config)
    requires c.orders == []
    ensures Order(c, [OrderField("b", Dir(Asc))]) == c.(orders := ["b ASC"])
  {
    var spec := [OrderField("b", Dir(Asc))];
    LowerUnchanged("b");
    assert spec[1..] == [];
    assert BuildOrderConditions(spec) == [Wrappers.Wrap("b") + " " + "ASC"] + BuildOrderConditions([]);
    assert "b" + " " + "ASC" == "b ASC";
    var built: seq<string> := ["b ASC"];
    assert built[1..] == [];
  }

  /** A one-letter lower-case identifier is left alone by `wrap`. */
  lemma LowerUnchanged(s: string)
    requires |s| == 1 && 'a' <= s[0] <= 'z'
    ensures Wrappers.Wrap(s) == s
  {
    assert !Wrappers.HasUpperCase(s) by {
      assert !Wrappers.IsUpper(s[0]);
      assert s[1..] == "";
    }
    Wrappers.WrapUnchanged(s);
  }

  lemma ExampleClauses(c: Config, f: Fragment)
    requires c.schema.None? && c.table == "t" && c.columns == ["*"] && c.joins == ["JOIN u ON x"]
    requires c.wheres == [f] && Render(f) == "a = $1" && c.orders == ["b ASC"]
    requires c.limit == Some(5) && c.offset.None?
    ensures SqlText(c) == Strings.Join(["SELECT", "*", "FROM t", "JOIN u ON x", "WHERE a = $1",
      "ORDER BY b ASC", "LIMIT 5"], " ")
  {
    StarColumns(c);
    ExampleClauseTexts(c, f);
    KeepSeven("SELECT", "*", "FROM t", "JOIN u ON x", "WHERE a = $1", "ORDER BY b ASC", "LIMIT 5");
  }

  lemma ExampleClauseTexts(c: Config, f: Fragment)
    requires c.schema.None? && c.table == "t" && c.joins == ["JOIN u ON x"]
    requires c.wheres == [f] && Render(f) == "a = $1" && c.orders == ["b ASC"]
    requires c.limit == Some(5) && c.offset.None?
    ensures SqlFrom(c) == "FROM t" && SqlJoin(c) == "JOIN u ON x"
    ensures Render(SqlWhere(c)) == "WHERE a = $1" && SqlOrder(c) == "ORDER BY b ASC"
    ensures SqlNumber("LIMIT", c.limit) == "LIMIT 5" && SqlNumber("OFFSET", c.offset) == ""
  {
    WhereClauseRender(c);
    RenderAllOne(f);
    assert Strings.Join(["a = $1"], " AND ") == "a = $1";
    assert Strings.Join(["b ASC"], ",") == "b ASC";
    assert Strings.Join(["JOIN u ON x"], " ") == "JOIN u ON x";
    assert Strings.IntToString(5) == "5";
  }

  lemma KeepSeven(s0: string, s1: string, s2: string, s3: string, s4: string, s5: string, s6: string)
    requires s0 != "" && s1 != "" && s2 != "" && s3 != "" && s4 != "" && s5 != "" && s6 != ""
    ensures KeepStrings([s0, s1, s2, s3, s4, s5, s6, ""]) == [s0, s1, s2, s3, s4, s5, s6]
  {
    KeepCons(s6, [""]);
    KeepCons(s5, [s6, ""]);
    KeepCons(s4, [s5, s6, ""]);
    KeepCons(s3, [s4, s5, s6, ""]);
    KeepCons(s2, [s3, s4, s5, s6, ""]);
    KeepCons(s1, [s2, s3, s4, s5, s6, ""]);
    KeepCons(s0, [s1, s2, s3, s4, s5, s6, ""]);
    assert [""][1..] == [];
  }

  lemma KeepCons(x: string, rest: seq<string>)
    requires x != ""
    ensures KeepStrings([x] + rest) == [x] + KeepStrings(rest)
  {
    assert ([x] + rest)[1..] == rest;
  }

}
