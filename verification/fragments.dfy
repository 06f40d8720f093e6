/** SQL text as the builder produces it, kept as a sequence of pieces so that
    every `$n` placeholder remembers the literal it was emitted for. Rendering
    a fragment gives the string the JavaScript code builds with template
    literals; the pieces only add the knowledge of which `$n` are placeholders. */
module Fragments {
  import opened Utils
  import Strings

  /** Literal SQL text, or the placeholder `$index` emitted for `value`. */
  datatype Piece = Text(s: string) | Param(index: nat, value: Value)

  type Fragment = seq<Piece>

  function RenderPiece(p: Piece): string
  {
    match p
    case Text(s) => s
    case Param(n, _) => "$" + Strings.NatToString(n)
  }

  /** The string a fragment stands for. */
  function Render(f: Fragment): string
  {
    if |f| == 0 then "" else RenderPiece(f[0]) + Render(f[1..])
  }

  lemma RenderText(s: string)
    ensures Render([Text(s)]) == s
  {
    assert [Text(s)][1..] == [];
  }

  function RenderAll(fs: seq<Fragment>): (r: seq<string>)
    ensures |r| == |fs|
    ensures forall i :: 0 <= i < |fs| ==> r[i] == Render(fs[i])
  {
    seq(|fs|, i requires 0 <= i < |fs| => Render(fs[i]))
  }

  lemma RenderAllOne(f: Fragment)
    ensures RenderAll([f]) == [Render(f)]
  {
  }

  lemma {:induction false} RenderAppend(a: Fragment, b: Fragment)
    ensures Render(a + b) == Render(a) + Render(b)
  {
    if |a| > 0 {
      assert (a + b)[1..] == a[1..] + b;
      RenderAppend(a[1..], b);
    } else {
      assert a + b == b;
    }
  }

  /** Text around a fragment renders around its text. */
  lemma RenderWrapped(a: string, f: Fragment, b: string)
    ensures Render([Text(a)] + f + [Text(b)]) == a + Render(f) + b
  {
    RenderAppend([Text(a)], f);
    RenderAppend([Text(a)] + f, [Text(b)]);
    assert Render([Text(a)]) == a + Render([]);
    assert Render([Text(b)]) == b + Render([]);
  }

  /** The placeholders of a fragment, in order. */
  function Params(f: Fragment): (r: seq<Piece>)
    ensures forall p :: p in r <==> p in f && p.Param?
  {
    if |f| == 0 then []
    else
      var rest := Params(f[1..]);
      assert forall p :: p in f <==> p == f[0] || p in f[1..];
      (if f[0].Param? then [f[0]] else []) + rest
  }

  lemma {:induction false} ParamsAppend(a: Fragment, b: Fragment)
    ensures Params(a + b) == Params(a) + Params(b)
  {
    if |a| > 0 {
      assert (a + b)[1..] == a[1..] + b;
      ParamsAppend(a[1..], b);
    } else {
      assert a + b == b;
    }
  }

  /** The placeholders of a list of fragments, fragment after fragment. */
  function ParamsAll(fs: seq<Fragment>): seq<Piece>
  {
    if |fs| == 0 then [] else Params(fs[0]) + ParamsAll(fs[1..])
  }

  /** Every placeholder of `f` names, by its 1-based index into the value
      table `t`, the very literal it was emitted for. */
  predicate BoundIn(f: Fragment, t: seq<Value>)
  {
    forall p :: p in f && p.Param? ==> 1 <= p.index <= |t| && t[p.index - 1] == p.value
  }

  predicate AllBoundIn(fs: seq<Fragment>, t: seq<Value>)
  {
    forall f :: f in fs ==> BoundIn(f, t)
  }

  /** Appending to the table never unbinds a placeholder. */
  lemma BoundGrow(f: Fragment, t: seq<Value>, t': seq<Value>)
    requires BoundIn(f, t) && IsPrefix(t, t')
    ensures BoundIn(f, t')
  {
    forall p | p in f && p.Param?
      ensures 1 <= p.index <= |t'| && t'[p.index - 1] == p.value
    {
      assert t'[..|t|][p.index - 1] == t'[p.index - 1];
    }
  }

  lemma AllBoundGrow(fs: seq<Fragment>, t: seq<Value>, t': seq<Value>)
    requires AllBoundIn(fs, t) && IsPrefix(t, t')
    ensures AllBoundIn(fs, t')
  {
    forall f | f in fs
      ensures BoundIn(f, t')
    {
      BoundGrow(f, t, t');
    }
  }

  /** `fragments.join(sep)` on pieces. Every piece of the result is a
      separator or a piece of one of the joined fragments. */
  function JoinFragments(fs: seq<Fragment>, sep: string): (r: Fragment)
    ensures forall p :: p in r ==> p == Text(sep) || exists i :: 0 <= i < |fs| && p in fs[i]
  {
    if |fs| == 0 then []
    else if |fs| == 1 then fs[0]
    else
      var rest := JoinFragments(fs[1..], sep);
      assert forall p :: p in rest ==> p == Text(sep) || exists i :: 1 <= i < |fs| && p in fs[i] by {
        forall p | p in rest && p != Text(sep)
          ensures exists i :: 1 <= i < |fs| && p in fs[i]
        {
          var j :| 0 <= j < |fs[1..]| && p in fs[1..][j];
          assert p in fs[j + 1];
        }
      }
      fs[0] + [Text(sep)] + rest
  }

  /** Joining bound fragments gives a bound fragment. */
  lemma JoinBound(fs: seq<Fragment>, sep: string, t: seq<Value>)
    requires AllBoundIn(fs, t)
    ensures BoundIn(JoinFragments(fs, sep), t)
  {
    forall p | p in JoinFragments(fs, sep) && p.Param?
      ensures 1 <= p.index <= |t| && t[p.index - 1] == p.value
    {
      var i :| 0 <= i < |fs| && p in fs[i];
      assert fs[i] in fs;
    }
  }

  /** Rendering commutes with joining. */
  lemma {:induction false} RenderJoin(fs: seq<Fragment>, sep: string)
    ensures Render(JoinFragments(fs, sep)) == Strings.Join(RenderAll(fs), sep)
  {
    if |fs| >= 2 {
      RenderJoin(fs[1..], sep);
      RenderAppend(fs[0], [Text(sep)]);
      RenderAppend(fs[0] + [Text(sep)], JoinFragments(fs[1..], sep));
      assert RenderAll(fs)[1..] == RenderAll(fs[1..]);
      assert Render([Text(sep)]) == sep;
    }
  }

  /** Joining adds no placeholder and loses none: the placeholders of a join
      are those of the parts, in order. */
  lemma {:induction false} ParamsJoin(fs: seq<Fragment>, sep: string)
    ensures Params(JoinFragments(fs, sep)) == ParamsAll(fs)
  {
    if |fs| == 1 {
      assert ParamsAll(fs) == Params(fs[0]) + [];
    } else if |fs| >= 2 {
      ParamsJoin(fs[1..], sep);
      ParamsAppend(fs[0], [Text(sep)]);
      ParamsAppend(fs[0] + [Text(sep)], JoinFragments(fs[1..], sep));
    }
  }
}
