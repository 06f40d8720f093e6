/** Identifier quoting of src/wrappers.ts. The regular expressions `/[A-Z]/`
    and `/[-]/` become character predicates. */
module Wrappers {
  import Strings

  predicate IsUpper(ch: char)
  {
    'A' <= ch <= 'Z'
  }

  /** `str.match(/[A-Z]/)` is truthy. */
  function HasUpperCase(s: string): (b: bool)
    ensures b <==> exists i :: 0 <= i < |s| && IsUpper(s[i])
  {
    if |s| == 0 then false
    else if IsUpper(s[0]) then
      assert IsUpper(s[0]);
      true
    else
      var rest := HasUpperCase(s[1..]);
      assert forall i :: 1 <= i < |s| ==> s[i] == s[1..][i - 1];
      rest
  }

  /** `str.match(/[-]/)` is truthy: some character is a `-`. */
  function HasLine(s: string): (b: bool)
    ensures b <==> exists i :: 0 <= i < |s| && s[i] == '-'
  {
    '-' in s
  }

  function Quote(s: string): string
  {
    "\"" + s + "\""
  }

  /** Strips one pair of surrounding double quotes, if present. */
  function Unquote(s: string): string
  {
    if |s| >= 2 && s[0] == '"' && s[|s| - 1] == '"' then s[1..|s| - 1] else s
  }

  lemma UnquoteQuote(s: string)
    ensures Unquote(Quote(s)) == s
  {
    assert Quote(s)[1..|Quote(s)| - 1] == s;
  }

  function QuoteAll(parts: seq<string>): (r: seq<string>)
    ensures |r| == |parts|
    ensures forall i :: 0 <= i < |r| ==> r[i] == Quote(parts[i])
  {
    seq(|parts|, i requires 0 <= i < |parts| => Quote(parts[i]))
  }

  function UnquoteAll(parts: seq<string>): (r: seq<string>)
    ensures |r| == |parts|
    ensures forall i :: 0 <= i < |r| ==> r[i] == Unquote(parts[i])
  {
    seq(|parts|, i requires 0 <= i < |parts| => Unquote(parts[i]))
  }

  /** `wrapToDoubleQuote`: every `.`-segment in double quotes, rejoined by
      `.`. Splitting the result on `.` gives the quoted segments back. */
  function WrapToDoubleQuote(s: string): (r: string)
    ensures Strings.Split(r, '.') == QuoteAll(Strings.Split(s, '.'))
  {
    var parts := Strings.Split(s, '.');
    var quoted := QuoteAll(parts);
    Strings.SplitPiecesFree(s, '.');
    assert forall i :: 0 <= i < |quoted| ==> '.' !in quoted[i] by {
      forall i | 0 <= i < |quoted|
        ensures '.' !in quoted[i]
      {
        assert quoted[i] == "\"" + parts[i] + "\"";
      }
    }
    Strings.SplitJoin(quoted, '.');
    Strings.Join(quoted, ".")
  }

  /** True when `wrap` quotes: the whole string has an upper-case letter and
      no `-`. The decision is taken once, for all segments together. */
  predicate NeedsQuotes(s: string)
  {
    HasUpperCase(s) && !HasLine(s)
  }

  /** `wrap(str)`. */
  function Wrap(s: string): (r: string)
    ensures !NeedsQuotes(s) ==> r == s
  {
    if NeedsQuotes(s) then WrapToDoubleQuote(s) else s
  }

  /** When `wrap` quotes, the `.`-segments of its result are exactly the
      segments of the input, each in double quotes; stripping those quotes and
      rejoining gives back the input, and the number of `.` is unchanged. */
  lemma WrapSegments(s: string)
    requires NeedsQuotes(s)
    ensures Strings.Split(Wrap(s), '.') == QuoteAll(Strings.Split(s, '.'))
    ensures Strings.Join(UnquoteAll(Strings.Split(Wrap(s), '.')), ".") == s
    ensures Strings.Count(Wrap(s), '.') == Strings.Count(s, '.')
  {
    var parts := Strings.Split(s, '.');
    var quoted := QuoteAll(parts);
    assert UnquoteAll(quoted) == parts by {
      forall i | 0 <= i < |parts|
        ensures UnquoteAll(quoted)[i] == parts[i]
      {
        UnquoteQuote(parts[i]);
      }
    }
    Strings.JoinSplit(s, '.');
    Strings.SplitLength(s, '.');
    Strings.SplitLength(Wrap(s), '.');
  }

  /** Identifiers without upper-case letters, such as `users` or `*`, and any
      identifier with a `-`, such as a JSON path `"meta"->>'k'`, come back as they are. */
  lemma WrapUnchanged(s: string)
    requires !HasUpperCase(s) || '-' in s
    ensures Wrap(s) == s
  {
  }

  /** `wrap` quotes exactly when it changes its argument. */
  lemma WrapChangesIff(s: string)
    ensures Wrap(s) != s <==> NeedsQuotes(s)
  {
    if NeedsQuotes(s) {
      WrapSegments(s);
    }
  }

  /** Evaluates a concrete split from the join that produced it. */
  lemma SplitExample(parts: seq<string>, s: string)
    requires |parts| >= 1
    requires forall i :: 0 <= i < |parts| ==> '.' !in parts[i]
    requires Strings.Join(parts, ".") == s
    ensures Strings.Split(s, '.') == parts
  {
    Strings.SplitJoin(parts, '.');
  }

  /** Both segments of `schema.Table` are quoted, although only one has an
      upper-case letter. */
  lemma WrapSchemaTable()
    ensures Wrap("schema.Table") == "\"schema\".\"Table\""
  {
    SchemaTableSegments();
    WrapTwoSegments("schema", "Table", 0);
    SchemaTableText();
  }

  /** Two segments, the second with an upper-case letter at `k`, no `-`. */
  lemma WrapTwoSegments(a: string, b: string, k: nat)
    requires k < |b| && IsUpper(b[k])
    requires '-' !in a + b && '.' !in a && '.' !in b
    ensures Wrap(a + "." + b) == Quote(a) + "." + Quote(b)
  {
    var s := a + "." + b;
    assert s[|a| + 1 + k] == b[k];
    assert IsUpper(s[|a| + 1 + k]);
    assert NeedsQuotes(s);
    assert Wrap(s) == Strings.Join(QuoteAll(Strings.Split(s, '.')), ".");
    assert '-' !in s by {
      assert forall i :: 0 <= i < |s| ==> s[i] == '.' || s[i] in a + b;
    }
    assert Strings.Split(s, '.') == [a, b] by {
      SplitExample([a, b], s);
    }
    assert QuoteAll([a, b]) == [Quote(a), Quote(b)];
    assert [Quote(a), Quote(b)][1..] == [Quote(b)];
    assert Strings.Join([Quote(a), Quote(b)], ".") == Quote(a) + "." + Quote(b);
  }

  /** Quoting is not idempotent: the quoted `Users` still has an upper-case
      letter and no `-`, so it is quoted again. */
  lemma WrapNotIdempotent()
    ensures Wrap("Users") == "\"Users\""
    ensures Wrap(Wrap("Users")) == "\"\"Users\"\""
  {
    assert IsUpper("Users"[0]) && '-' !in "Users" && '.' !in "Users";
    assert IsUpper("\"Users\""[1]) && '-' !in "\"Users\"" && '.' !in "\"Users\"";
    assert Quote("Users") == "\"Users\"" && Quote("\"Users\"") == "\"\"Users\"\"";
    WrapSingle("Users", 0);
    WrapSingle("\"Users\"", 1);
  }

  /** A one-segment identifier with an upper-case letter at `k` and no `-`. */
  lemma WrapSingle(s: string, k: nat)
    requires k < |s| && IsUpper(s[k])
    requires '-' !in s && '.' !in s
    ensures Wrap(s) == Quote(s)
  {
    assert Strings.Split(s, '.') == [s] by {
      SplitExample([s], s);
    }
    assert QuoteAll([s]) == [Quote(s)];
  }

  // ---- proof steps ----
  // Literal-string facts for `WrapSchemaTable`, kept apart so that each is
  // checked in a small context; they state nothing about `wrap` of their own.

  lemma SchemaTableSegments()
    ensures IsUpper("Table"[0])
    ensures '-' !in "schema" + "Table" && '.' !in "schema" && '.' !in "Table"
  {
    var s := "schema" + "Table";
    assert forall i :: 0 <= i < |s| ==> s[i] != '-';
  }

  lemma SchemaTableText()
    ensures "schema" + "." + "Table" == "schema.Table"
    ensures Quote("schema") + "." + Quote("Table") == "\"schema\".\"Table\""
  {
  }
}
