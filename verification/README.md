# pg-query-config, modelled in Dafny

pg-query-config builds parameterised PostgreSQL `SELECT` statements. A
`QueryConfig` collects columns, joins, where-fragments, order fragments,
limit and offset. Its `text` getter joins them into one statement, and its
`values` getter returns the literals bound to the `$n` placeholders of that
statement.

This project models the runtime of the library as pure functions over
immutable values:

- `Utils` (`utils.dfy`): the value reference table `addValueToReferenceSet`.
  It is a duplicate-free `seq<Value>` that hands out 1-based indices and is
  threaded through every operation as `WithTable(val, table)`. The module also
  holds the shape tests `isArrayOfObjects` and `isJson`, and the `Set`
  helpers: a JavaScript `Set` is a duplicate-free sequence in insertion order.
- `Strings` (`strings.dfy`): `Array.prototype.join`, `String.prototype.split`
  on one character, and the decimal rendering of numbers inside template
  literals.
- `Wrappers` (`wrappers.dfy`): identifier quoting, `wrap`.
- `Fragments` (`fragments.dfy`): SQL text kept as pieces, `Text(s)` or
  `Param(n, v)`. `Render` gives the string the library builds. The pieces only
  record which `$n` is a placeholder and which literal it was emitted for.
  That is what lets the model state the library's central promise: every
  placeholder the builder emits names, as `$n`, the literal `values[n-1]`.
- `Operators` (`operators.dfy`): `In`, `LeftContain` and `RightContain`, each
  applied to the table.
- `Conditions` (`conditions.dfy`): `createCondition` and `createJsonCondition`.
  They flatten a nested filter object into an ordered map from column or
  JSON path to a literal or operator.
- `QueryConfig` (`query_config.dfy`): the statement assembler. It covers the
  constructor, `select`, the three joins, `where`, `orWhere`, `order`, and the
  `text` and `values` getters with their clause helpers.

A filter object is a list of `Field(name, value)` in `for … in` order. The
value is classified by its JavaScript shape: literal, `undefined`, `null`,
array, plain object, or function. A where-function is an `Operator`: the
operator it renders, plus the optional `nullableCondition` clause that
`buildWhereConditions` reads from it.

Behaviour of the code that a reader might not expect, and that the model
keeps:

- A `null` field adds no condition. `typeof null` is `'object'`, so
  `createCondition` passes `null` to `createJsonCondition`, whose `for … in`
  over it finds nothing. So `where({ age: 5, name: null })` gives only
  `age = $1` (`QueryConfig.WhereLiteralExample`), and the `IS NULL` branch of
  `buildWhereConditions` is never reached from `where`
  (`Conditions.CreateConditionEntries`).
- `RightContain` renders `<@ n` with a bare index and no `$`.
- `LeftContain` and `RightContain` always serialize their argument with
  `JSON.stringify`. They do not pick an array-shaped variant by the
  argument's shape, and `isJson` is not called by them.
- A nested object in an order specification adds nothing, because
  `buildOrderConditions` discards the result of its recursive call
  (src/QueryConfig.ts:129-130).
- An order field whose value is `undefined` is not skipped: it adds
  `<col> undefined` (`QueryConfig.OrderUndefined`, src/QueryConfig.ts:131-132).
- `select` with an argument that is neither a string nor an object, such as
  a number key, leaves the configuration unchanged (src/QueryConfig.ts:34-40).
- A function carrying a null clause renders that clause as given
  (`value.nullableCondition`, src/QueryConfig.ts:90-92).
- `src/operators.ts` defines three operators: `In`, `LeftContain` and
  `RightContain`.

## Model

| member | source | states |
|---|---|---|
| Utils.AddValue | src/utils.ts:1-10 | the returned index names the value in the new table (`table'[r-1] == value`), and the old table is a prefix of the new one |
| Utils.AddValueCases | src/utils.ts:1-10 | a value already present gets 1 + its first position and the table is unchanged; a new value is appended and gets the new size; no earlier slot holds the value |
| Utils.AddValueDistinct | src/utils.ts:3 | registering keeps a duplicate-free table duplicate-free |
| Utils.AddValueMembers | src/utils.ts:3 | the new table holds exactly the old values and the registered one |
| Utils.AddValueTwice | src/utils.ts:3-4 | registering the same value twice gives the same index, and the second call leaves the table unchanged |
| Utils.AddValueStable | src/utils.ts:3-4 | once a value is registered, registering it in any extension of the table returns the same index and changes nothing |
| Utils.FirstIndex | src/utils.ts:4 | `indexOf` returns the position that holds the value with no earlier occurrence |
| Utils.IndexUnique | src/utils.ts:3-4 | in a duplicate-free table, a position holding the value is the index registration returns |
| Utils.AddValueKeepsIndices | src/utils.ts:5-7 | registering never changes the value at an existing index |
| Utils.SetAdd | src/QueryConfig.ts:76 | `Set.add` leaves a set holding the element unchanged, appends a new element at the end, and keeps the set duplicate-free |
| Utils.SetAddAll | src/QueryConfig.ts:75-77 | adding a list to a set keeps the set duplicate-free and as a prefix, and the members are exactly the old ones and the list's |
| Utils.SetAddAllFresh | src/QueryConfig.ts:24 | adding distinct new elements appends them in order |
| Utils.SetAddAllSnoc | src/QueryConfig.ts:75-77 | adding a list and then one more element is adding the extended list, so the loop adds its elements one by one in order |
| Utils.Dedup | src/QueryConfig.ts:24 | `new Set(xs)` is duplicate-free and has exactly the members of `xs` |
| Utils.DedupDistinct | src/QueryConfig.ts:24 | `new Set(xs)` of a duplicate-free array enumerates it unchanged |
| Utils.DedupSnoc | src/QueryConfig.ts:24 | `new Set(xs + [x])` is `new Set(xs)` when `x` occurs in `xs`, and `new Set(xs)` followed by `x` otherwise |
| Utils.IsArrayOfObjects | src/utils.ts:12-14 | true exactly when some entry has `typeof` `'object'` |
| Utils.IsJsonIsObjectType | src/utils.ts:16-18 | `isJson` as written holds exactly for arrays and plain objects |
| Utils.IsJsonNumberArray | src/utils.ts:16-18 | `isJson([1,2])` holds although the array holds no object |
| Utils.IsJsonIntendedShape | src/utils.ts:12-18 | the corrected test holds for a plain object or an array with an object entry, and fails for arrays of scalars |
| Strings.SplitLength | src/wrappers.ts:5 | `split('.')` gives one more piece than there are `.` characters |
| Strings.SplitPiecesFree | src/wrappers.ts:5 | no piece of `split('.')` contains a `.` |
| Strings.JoinSplit | src/wrappers.ts:5-7 | joining the pieces of a split with the separator gives back the string |
| Strings.SplitJoin | src/wrappers.ts:5-7 | splitting a join of separator-free parts gives back the parts |
| Strings.NatToStringValue | src/operators.ts:7 | the decimal digits of `${n}` denote `n` |
| Strings.NatToStringInjective | src/operators.ts:7 | distinct indices render as distinct `$n` texts |
| Wrappers.HasUpperCase | src/wrappers.ts:1 | true exactly when some character is in `A`–`Z` |
| Wrappers.HasLine | src/wrappers.ts:2 | true exactly when some character is `-` |
| Wrappers.WrapToDoubleQuote | src/wrappers.ts:3-7 | splitting the result at `.` gives the input's `.`-segments, each in double quotes |
| Wrappers.UnquoteQuote | src/wrappers.ts:6 | removing the added quotes from a segment recovers it |
| Wrappers.Wrap | src/wrappers.ts:9 | an identifier with no upper-case letter, or with a `-`, comes back unchanged |
| Wrappers.WrapSegments | src/wrappers.ts:3-9 | when quoting applies, the `.`-segments of the result are the input's segments each in double quotes; unquoting and rejoining gives the input; the number of `.` is kept |
| Wrappers.WrapUnchanged | src/wrappers.ts:9 | `users`, `*` and any string with a `-`, such as a JSON path, are returned as they are |
| Wrappers.WrapChangesIff | src/wrappers.ts:9 | `wrap` changes its argument exactly when the argument has an upper-case letter and no `-` |
| Wrappers.WrapTwoSegments | src/wrappers.ts:3-9 | the quoting decision is taken for the whole string: in `a.B` both segments are quoted |
| Wrappers.WrapSchemaTable | src/wrappers.ts:3-9 | `wrap("schema.Table")` is `"schema"."Table"` |
| Wrappers.WrapSingle | src/wrappers.ts:3-9 | a one-segment identifier with an upper-case letter and no `-` is put in double quotes |
| Wrappers.WrapNotIdempotent | src/wrappers.ts:9 | `wrap("Users")` is `"Users"` and wrapping that again adds a second pair of quotes |
| Fragments.BoundGrow | src/utils.ts:5-7 | appending to the table never unbinds a placeholder |
| Fragments.JoinFragments | src/QueryConfig.ts:68 | every piece of a join is the separator or a piece of one of the joined fragments |
| Fragments.JoinBound | src/QueryConfig.ts:68 | joining fragments whose placeholders are bound gives a bound fragment |
| Fragments.RenderJoin | src/QueryConfig.ts:68 | rendering commutes with `join(sep)` |
| Fragments.ParamsJoin | src/QueryConfig.ts:68 | a join adds no placeholder and loses none |
| Operators.RegisterAll | src/operators.ts:7 | one index per argument, and the old table is a prefix of the new one |
| Operators.RegisterAllIndices | src/operators.ts:7 | each argument, in order, gets an index naming it in the final table |
| Operators.RegisterAllDistinct | src/operators.ts:7 | registering the arguments keeps a duplicate-free table duplicate-free |
| Operators.RegisterAllMembers | src/operators.ts:7 | the final table holds exactly the old values and the arguments |
| Operators.RegisterAllAppend | src/operators.ts:7 | registering `a + b` leaves the table that registering `a` and then `b` leaves |
| Operators.RegisterOne | src/operators.ts:7 | the map over one argument registers exactly that argument |
| Operators.RegisterAllReregisters | src/operators.ts:7 | each index handed out is the index the final table gives its argument, so equal arguments get equal indices |
| Operators.ApplyRegisters | src/operators.ts:5-30 | every operator leaves the table that registering its literals (the `In` arguments, or the one serialized argument) leaves |
| Operators.Apply | src/operators.ts:5-30 | every operator extends the table and binds every placeholder it emits |
| Operators.ApplyDistinct | src/operators.ts:5-30 | every operator keeps a duplicate-free table duplicate-free |
| Operators.InParams | src/operators.ts:7-8 | `In(args)` emits, in order, one placeholder per argument carrying that argument |
| Operators.InPlaceholders | src/operators.ts:7 | `In(args)` has exactly `|args|` placeholders, each indexing its argument, and a repeated argument repeats its index on any table |
| Operators.InRender | src/operators.ts:7-8 | `In(args)` renders `IN (` + the comma-joined `$idx` list + `)` |
| Operators.InEmpty | src/operators.ts:7-8 | `In([])` renders `IN ()` and leaves the table unchanged |
| Operators.AppendedByRegistration | src/operators.ts:7 | a registration appends exactly the arguments not yet in the table, each once |
| Operators.InGrowth | src/operators.ts:7 | the table grows by exactly the number of distinct new arguments |
| Operators.LeftContainShape | src/operators.ts:15-19 | `LeftContain` registers exactly its serialized argument and renders `@> $n` with `n` its index |
| Operators.RightContainShape | src/operators.ts:25-29 | `RightContain` registers as `LeftContain` does but renders `<@ n` with no `$` and no placeholder |
| Operators.RegisterAllStable | src/operators.ts:7 | re-registering arguments that are already present, in any extension of the table, returns the same indices and changes nothing |
| Operators.ApplyStable | src/operators.ts:5-30 | applying an operator again, once its values are present, renders the same fragment and changes nothing |
| Conditions.MapSet | src/conditions.ts:8 | `Map.set` appends a new key and keeps the position of an existing key |
| Conditions.MapSetGet | src/conditions.ts:8 | after `set` the key reads the new value and every other key reads what it read before |
| Conditions.SetAll | src/conditions.ts:6-13 | setting bindings in turn keeps keys distinct and adds only those bindings |
| Conditions.CreateJsonCondition | src/conditions.ts:18-28 | setting the leaves of a nested object into a map with distinct keys keeps its keys distinct |
| Conditions.AddTopFields | src/conditions.ts:6-14 | the loop of `createCondition` keeps the keys of the map distinct |
| Conditions.CreateCondition | src/conditions.ts:4-16 | `createCondition` returns a `Map`, so no key occurs twice |
| Conditions.CreateJsonConditionIsSetAll | src/conditions.ts:18-28 | `createJsonCondition` sets, in order, the depth-first leaves of the nested object |
| Conditions.AddTopFieldsIsSetAll | src/conditions.ts:6-14 | the loop of `createCondition` sets, in order, the depth-first leaves of the fields processed |
| Conditions.CreateConditionIsSetAll | src/conditions.ts:4-16 | `createCondition` is the map built by setting the leaves of the filter in depth-first order |
| Conditions.CreateConditionDepthFirst | src/conditions.ts:4-28 | with distinct leaf keys, the entries of the map are the leaves in depth-first order of the input keys |
| Conditions.JsonLeavesKeys | src/conditions.ts:21-25 | every key under a JSON prefix starts with `prefix->` and no leaf is `null` |
| Conditions.LeavesFacts | src/conditions.ts:6-28 | no leaf is `null`, and a leaf key is a top-level property name or a key that `wrap` leaves unchanged |
| Conditions.CreateConditionEntries | src/conditions.ts:4-28 | every entry of the map is a leaf, none is `null`, and its key is a property name or a key `wrap` leaves alone |
| Conditions.TopLevelArray | src/conditions.ts:7-8 | a top-level array becomes an `In` operator under the raw property name |
| Conditions.TopLevelScalar | src/conditions.ts:11-12 | a top-level scalar is kept under its name exactly when it is truthy; `undefined` adds nothing |
| Conditions.TopLevelFunction | src/conditions.ts:11-12 | a top-level function is kept under its name |
| Conditions.TopLevelNullOrEmpty | src/conditions.ts:9-10 | `null` and `{}` add no entries |
| Conditions.NestedKeys | src/conditions.ts:10-25 | a leaf under `p` gets key `wrap(p)->>'q'`, and a deeper object extends the path with `->'q'` |
| QueryConfig.New | src/QueryConfig.ts:20-32 | a new configuration is valid, keeps schema, table, limit and offset as given, has empty sets, defaults columns to `*`, and its column set has exactly the given columns, in order when they are distinct |
| QueryConfig.Select | src/QueryConfig.ts:34-41 | `select` replaces only the column set: one name, or the set of the array's names; an argument that is neither leaves the configuration unchanged |
| QueryConfig.AddJoin | src/QueryConfig.ts:43-56 | a join adds only `<KIND> <table> ON <condition>` to the join set, keeping it duplicate-free |
| QueryConfig.AddJoinTwice | src/QueryConfig.ts:43-56 | adding the same join twice stores it once |
| QueryConfig.CallText | src/QueryConfig.ts:86-95 | the text around a function's fragment adds no placeholder of its own |
| QueryConfig.BuildEntry | src/QueryConfig.ts:84-101 | each condition extends the table and binds every placeholder it renders |
| QueryConfig.EntryDistinct | src/QueryConfig.ts:84-101 | each condition keeps a duplicate-free table duplicate-free |
| QueryConfig.BuildEntries | src/QueryConfig.ts:81-104 | one fragment per map entry, all bound in the final table, with the old table as a prefix |
| QueryConfig.EntriesAt | src/QueryConfig.ts:81-104 | fragment `i` of the loop is the condition of map entry `i`, built on the table the first `i` entries leave, and its table is a prefix of the final one |
| QueryConfig.EntriesLiteralAt | src/QueryConfig.ts:84-101 | a literal at entry `i` renders fragment `i` as `wrap(key) = $n`, where `n` is the index of that literal in the final table |
| QueryConfig.EntriesCallAt | src/QueryConfig.ts:84-95 | a function without a null clause at entry `i` renders fragment `i` as `wrap(key)` followed by its operator applied to the final table |
| QueryConfig.EntriesNullAt | src/QueryConfig.ts:97-98 | a `null` at entry `i` renders fragment `i` as `wrap(key) IS NULL` |
| QueryConfig.BuildWhereConditions | src/QueryConfig.ts:81-104 | one condition per entry of the flattened map, the old table kept as a prefix, every placeholder bound in the new table |
| QueryConfig.EntriesDistinct | src/QueryConfig.ts:81-104 | building all conditions keeps a duplicate-free table duplicate-free |
| QueryConfig.EntryRegisters | src/QueryConfig.ts:84-101 | a condition leaves the table that registering its literals leaves: none for `null`, the literal itself, or the operator's |
| QueryConfig.EntriesRegister | src/QueryConfig.ts:81-104 | the loop leaves the table that registering all the map's literals, entry after entry, leaves |
| QueryConfig.AppendedByEntries | src/QueryConfig.ts:81-104 | the loop appends to a duplicate-free table exactly the map's literals not yet registered, each once |
| QueryConfig.LiteralEntry | src/QueryConfig.ts:99-100 | a literal entry renders `col = $n`, where `n` is the index the table gives that literal |
| QueryConfig.CallEntry | src/QueryConfig.ts:86-95 | a function entry renders `col <fnValue>` |
| QueryConfig.NullableCallEntry | src/QueryConfig.ts:88-93 | a function with a null clause renders `(col <fnValue> OR col <clause>)`, or only `col <clause>` when the function renders nothing |
| QueryConfig.NullEntry | src/QueryConfig.ts:97-98 | a `null` entry renders `col IS NULL` and registers nothing |
| QueryConfig.AddWhere | src/QueryConfig.ts:61 | a fragment whose text is present is skipped; otherwise it is appended |
| QueryConfig.AddWheres | src/QueryConfig.ts:60-62 | the old set is a prefix, texts stay distinct, and every member is an old member or an added fragment (the order is stated by the two rows below) |
| QueryConfig.AddWheresFresh | src/QueryConfig.ts:60-62 | fragments whose texts are new and distinct are appended after the old ones in the order given |
| QueryConfig.AddWheresSnoc | src/QueryConfig.ts:60-62 | the loop adds the last fragment after all the others, so texts are listed in the order of their first occurrence, repeats included |
| QueryConfig.AddWheresRendered | src/QueryConfig.ts:60-62 | after adding, every added fragment's text is in the set |
| QueryConfig.AddWhereTwice | src/QueryConfig.ts:61 | an identical fragment added twice appears once |
| QueryConfig.Where | src/QueryConfig.ts:58-64 | `where` keeps the configuration valid, changes only the where-set and the table, leaves the table the filter's conditions leave, adds exactly the fragments built from the filter, and appends them in emission order when their texts are new |
| QueryConfig.WhereAppends | src/QueryConfig.ts:58-64 | `where` appends to `values` exactly the filter's literals not yet registered, each once |
| QueryConfig.WhereTwice | src/QueryConfig.ts:58-64 | repeating a `where` with the same filter changes nothing |
| QueryConfig.DedupFragments | src/QueryConfig.ts:67 | `new Set(fragments)` has distinct texts, keeps the text of every fragment, and lists fragments with distinct texts unchanged |
| QueryConfig.DedupFragmentsSnoc | src/QueryConfig.ts:67 | `new Set(fragments)` lists texts in the order of first occurrence: a last fragment comes after all the others, or is skipped |
| QueryConfig.OrGroups | src/QueryConfig.ts:67-68 | one group per filter, the old table as a prefix, every group bound in the final table |
| QueryConfig.OrGroupsHead | src/QueryConfig.ts:67-68 | the first group renders as the first filter's deduplicated conditions joined by ` AND `, and the remaining groups are built on the table the first one left |
| QueryConfig.OrGroupsRegister | src/QueryConfig.ts:66-68 | the groups leave the table that registering all the filters' literals, filter after filter, leaves |
| QueryConfig.OrWhereAppends | src/QueryConfig.ts:66-71 | `orWhere` appends to `values` exactly the filters' literals not yet registered, each once |
| QueryConfig.OrGroupsDistinct | src/QueryConfig.ts:67-68 | building the groups keeps a duplicate-free table duplicate-free |
| QueryConfig.OrWhere | src/QueryConfig.ts:66-71 | `orWhere` keeps the configuration valid, leaves the table the groups leave, and appends the parenthesised OR-fragment exactly when its text is not yet in the where-set |
| QueryConfig.OrFragmentRender | src/QueryConfig.ts:68-69 | the `orWhere` fragment renders `(` + the groups joined by ` OR ` + `)` |
| QueryConfig.BuildOrderConditions | src/QueryConfig.ts:125-136 | at most one condition per field, and every condition is `wrap(col) <value>` for a field of the specification whose value is not an object |
| QueryConfig.OrderLeaves | src/QueryConfig.ts:127-133 | the fields that emit a condition are exactly the fields whose value is not an object |
| QueryConfig.OrderFragments | src/QueryConfig.ts:125-136 | each field whose value is not an object, in order, emits `wrap(col) <value>` (`ASC`, `DESC` or `undefined`), and nothing else is emitted |
| QueryConfig.OrderUndefined | src/QueryConfig.ts:131-132 | a field whose value is `undefined` emits `wrap(col) undefined` |
| QueryConfig.OrderNestedDiscarded | src/QueryConfig.ts:129-130 | a nested object anywhere in an order specification changes nothing |
| QueryConfig.Order | src/QueryConfig.ts:73-79 | `order` keeps the configuration valid, changes only the order set, adds exactly the built order fragments, and appends them in order when none is present yet |
| QueryConfig.NonEmptyMembers | src/QueryConfig.ts:117 | the filter keeps only clauses of its input whose text is non-empty |
| QueryConfig.KeepStrings | src/QueryConfig.ts:117 | `.filter((sql) => sql)` on texts keeps exactly the non-empty ones and never lengthens the list |
| QueryConfig.RenderAllNonEmpty | src/QueryConfig.ts:107-118 | filtering the clauses and then rendering them equals rendering them and then filtering the texts |
| QueryConfig.ClauseTexts | src/QueryConfig.ts:107-116 | the clause list renders as command, columns, `FROM`, joins, `WHERE`, `ORDER BY`, `LIMIT`, `OFFSET`, in that order |
| QueryConfig.TextComposition | src/QueryConfig.ts:106-119 | the statement is the non-empty clause texts, in getter order, joined by a space |
| QueryConfig.NonEmptyKeeps | src/QueryConfig.ts:117 | non-empty clauses in front all survive the filter, in order |
| QueryConfig.NonEmptyDrops | src/QueryConfig.ts:117 | clauses that render empty all fall to the filter |
| QueryConfig.NonEmptySplit | src/QueryConfig.ts:117 | non-empty clauses followed by empty ones filter to exactly the non-empty ones |
| QueryConfig.RenderNonEmpty | src/QueryConfig.ts:117 | no kept clause is empty, and a non-empty first clause stays first |
| QueryConfig.TextPlaceholdersBound | src/QueryConfig.ts:106-123 | every placeholder the builder emits into `text`, as `$n`, names the literal `values[n-1]` it was emitted for, and `values` has no duplicates |
| QueryConfig.WhereClauseRender | src/QueryConfig.ts:150-152 | the WHERE clause is absent without conditions and is `WHERE ` + the conditions joined by ` AND ` otherwise |
| QueryConfig.TextStartsWithSelect | src/QueryConfig.ts:106-119 | the statement begins with `SELECT` |
| QueryConfig.SqlText | src/QueryConfig.ts:106-119 | `text` is `SELECT`, columns, `FROM`, joins, `WHERE`, `ORDER BY`, `LIMIT` and `OFFSET`, the empty ones dropped and the rest joined by a space; it always begins with `SELECT` |
| QueryConfig.Values | src/QueryConfig.ts:121-123 | for a valid configuration, `values` is duplicate-free and binds every placeholder of every condition |
| QueryConfig.LimitOffsetZeroOmitted | src/QueryConfig.ts:158-164 | a limit or offset of 0 gives the same text as none; any other number gives `LIMIT n` |
| QueryConfig.PlainText | src/QueryConfig.ts:106-148 | without joins, conditions, orders, limit or offset, the text is `SELECT <columns> FROM <table>`, or `… FROM <schema>.<table>` when the schema is a non-empty string |
| QueryConfig.FromNotWrapped | src/QueryConfig.ts:138-144 | a single upper-case column is quoted by `wrap`, while schema and table go into `FROM` as given |
| QueryConfig.SalesOrdersExample | src/QueryConfig.ts:106-144 | schema `Sales`, table `Orders` and column `Total` render `SELECT "Total" FROM Sales.Orders` |
| QueryConfig.StarColumns | src/QueryConfig.ts:138-140 | the default column list renders `*` |
| QueryConfig.DefaultSelect | src/QueryConfig.ts:106-119 | `new QueryConfig({ table }).text` is `SELECT * FROM <table>` |
| QueryConfig.FullExample | src/QueryConfig.ts:20-164 | `new QueryConfig({ table: 't', limit: 5 }).join('u', 'x').where({ a: v }).order({ b: 'ASC' })` renders the clauses `SELECT`, `*`, `FROM t`, `JOIN u ON x`, `WHERE a = $1`, `ORDER BY b ASC`, `LIMIT 5` joined by spaces, with values `[v]` |
| QueryConfig.EntryStable | src/QueryConfig.ts:84-101 | rebuilding a condition whose literals are already registered gives the same fragment and table |
| QueryConfig.EntriesStable | src/QueryConfig.ts:81-104 | rebuilding all conditions of a filter whose literals are already registered gives the same fragments and table |
| QueryConfig.AddWheresPresent | src/QueryConfig.ts:60-62 | adding fragments whose texts are all present changes nothing |
| QueryConfig.WhereLiteralExample | src/QueryConfig.ts:58-104 | `where({ col: v, other: null })` on a fresh configuration gives the one condition `col = $1`, with values `[v]` |
| QueryConfig.LiteralThenNull | src/conditions.ts:6-14 | `{ col: v, other: null }` with truthy `v` flattens to the single entry `col → v` |

## Left out

- `JSON.stringify` in `LeftContain` and `RightContain` is a call the model
  cannot see. The operators take the serialized string as input.
- The regular expressions `/[A-Z]/` and `/[-]/` are replaced by character
  predicates on `'A'`–`'Z'` and `'-'`.
- JavaScript numbers are modelled as integers. Floating point, `NaN`, `-0`
  and SameValueZero are left out. Literals are integers, strings and
  booleans.
- `isNullableCondition` is imported from `src/types.ts`, but that file does
  not define it. A where-function is modelled as carrying an optional
  null-clause string, exactly as `src/QueryConfig.ts:88-93` reads it. Nothing
  more about that predicate is assumed.
- `src/types.ts` holds only type declarations. It shapes the datatypes and
  adds no behaviour.
- The outer `Set` of `orWhere` compares the inner `Set` objects by identity,
  so it never merges groups. It is modelled as a plain list of groups.
- `return this` chaining and mutation in place are left out. Every builder
  method returns a new `Config`.
- `Object` property enumeration order, including the JavaScript rule that
  integer-like keys come first, is taken as the order of the field list.
- `sqlCommand` is a public mutable field. It is fixed to `SELECT`, the value
  the constructor gives it.
- `limit` and `offset` render through `IntToString`. Non-integer numbers are
  not modelled.
- `isJson` has no caller in the modelled code, so it appears only as the
  Finding below.
- User-written where-functions are not modelled. `WhereFunction` is a public
  type (src/types.ts:9), and `buildWhereConditions` calls any function value
  with the live value table (src/QueryConfig.ts:86-87). Such a function could
  add or delete entries and return any `$n`. A where-function is modelled as
  one of the three operators of `src/operators.ts`, and
  `QueryConfig.TextPlaceholdersBound` holds for those only.

## Findings

| source | as written | input that shows it | evidently intended | confidence | as-written member | corrected member |
|---|---|---|---|---|---|---|
| src/utils.ts:16-18 | `Array.isArray(arg) && isArrayOfObjects(arg) \|\| typeof arg === 'object'` holds for every array, because `typeof [] === 'object'` | `isJson([1, 2])` is true | a plain object, or an array with at least one object entry | medium, not executed | Utils.IsJsonNumberArray | Utils.IsJsonIntendedShape |
