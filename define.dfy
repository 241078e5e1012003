/// The `#[define(name => expr; ...)]` attribute macro: a list of definitions is parsed into a map
/// from identifier to token stream, and every identifier of the annotated item that is a key of
/// the map is replaced by its tokens.
module Define {
  import opened Common

  /// The delimiter of a token group: `( )`, `{ }`, `[ ]`, or the invisible one.
  datatype Delimiter = Parenthesis | Brace | Bracket | NoDelimiter

  /// `proc_macro2::TokenTree`.
  datatype Token =
    | Ident(name: string)
    | Punct(ch: char)
    | Literal(text: string)
    | Group(delimiter: Delimiter, stream: seq<Token>)

  type Defines = map<string, seq<Token>>

  // ---------------------------------------------------------------------------
  // process_define

  /// `process_define`: each identifier that names a definition becomes that definition's tokens
  /// (spliced in, and not processed again); a group keeps its delimiter and has its contents
  /// processed; every other token is kept.
  function Process(m: Defines, s: seq<Token>): seq<Token>
    decreases s, 1
  {
    if s == [] then [] else Expand(m, s[0]) + Process(m, s[1..])
  }

  /// What one token of the item becomes.
  function Expand(m: Defines, t: Token): seq<Token>
    decreases t, 0
  {
    match t
    case Ident(n) => if n in m then m[n] else [t]
    case Group(d, inner) => [Group(d, Process(m, inner))]
    case _ => [t]
  }

  /// An identifier that names a definition is replaced by exactly the definition's tokens.
  lemma ProcessDefined(m: Defines, n: string)
    requires n in m
    ensures Process(m, [Ident(n)]) == m[n]
  {
    assert [Ident(n)][1..] == [];
    assert m[n] + [] == m[n];
  }

  /// An identifier that names no definition, a punctuation mark and a literal are kept as they are.
  lemma ProcessKept(m: Defines, t: Token)
    requires t.Ident? ==> t.name !in m
    requires !t.Group?
    ensures Process(m, [t]) == [t]
  {
    assert [t][1..] == [];
  }

  /// A group keeps its delimiter; its contents are processed.
  lemma ProcessGroup(m: Defines, d: Delimiter, inner: seq<Token>)
    ensures Process(m, [Group(d, inner)]) == [Group(d, Process(m, inner))]
  {
    assert [Group(d, inner)][1..] == [];
  }

  /// Processing works token by token: a stream cut in two is processed part by part.
  lemma {:induction false} ProcessAppend(m: Defines, a: seq<Token>, b: seq<Token>)
    ensures Process(m, a + b) == Process(m, a) + Process(m, b)
    decreases a
  {
    if a == [] {
      assert a + b == b;
    } else {
      assert (a + b)[0] == a[0] && (a + b)[1..] == a[1..] + b;
      ProcessAppend(m, a[1..], b);
    }
  }

  /// Without definitions the item comes out unchanged, at every depth of grouping.
  lemma {:induction false} ProcessNoDefines(s: seq<Token>)
    ensures Process(map[], s) == s
    decreases s
  {
    if s != [] {
      if s[0].Group? {
        ProcessNoDefines(s[0].stream);
      }
      ProcessNoDefines(s[1..]);
      assert s == [s[0]] + s[1..];
    }
  }

  /// No identifier of the stream, at any depth, names a definition.
  predicate FreeOf(m: Defines, s: seq<Token>)
    decreases s
  {
    forall i :: 0 <= i < |s| ==>
      match s[i]
      case Ident(n) => n !in m
      case Group(_, inner) => FreeOf(m, inner)
      case _ => true
  }

  /// A stream that uses none of the definitions comes out unchanged.
  lemma {:induction false} ProcessFree(m: Defines, s: seq<Token>)
    requires FreeOf(m, s)
    ensures Process(m, s) == s
    decreases s
  {
    if s != [] {
      if s[0].Group? {
        ProcessFree(m, s[0].stream);
      }
      assert FreeOf(m, s[1..]) by {
        forall i | 0 <= i < |s[1..]| ensures
          match s[1..][i]
          case Ident(n) => n !in m
          case Group(_, inner) => FreeOf(m, inner)
          case _ => true
        {
          assert s[1..][i] == s[i + 1];
        }
      }
      ProcessFree(m, s[1..]);
      assert s == [s[0]] + s[1..];
    }
  }

  /// When no definition uses another definition, processing twice is processing once: the
  /// replacement tokens are not looked at again, and nothing the first pass leaves names a
  /// definition.
  lemma {:induction false} ProcessIdempotent(m: Defines, s: seq<Token>)
    requires forall n :: n in m ==> FreeOf(m, m[n])
    ensures FreeOf(m, Process(m, s))
    ensures Process(m, Process(m, s)) == Process(m, s)
    decreases s
  {
    if s != [] {
      var head := Expand(m, s[0]);
      if s[0].Group? {
        ProcessIdempotent(m, s[0].stream);
      }
      assert FreeOf(m, head);
      ProcessIdempotent(m, s[1..]);
      FreeAppend(m, head, Process(m, s[1..]));
      ProcessFree(m, Process(m, s));
    }
  }

  lemma FreeAppend(m: Defines, a: seq<Token>, b: seq<Token>)
    requires FreeOf(m, a) && FreeOf(m, b)
    ensures FreeOf(m, a + b)
  {
    forall i | 0 <= i < |a + b| ensures
      match (a + b)[i]
      case Ident(n) => n !in m
      case Group(_, inner) => FreeOf(m, inner)
      case _ => true
    {
      if i < |a| {
        assert (a + b)[i] == a[i];
      } else {
        assert (a + b)[i] == b[i - |a|];
      }
    }
  }

  /// The replacement is not processed again: with `a => b` and `b => c`, `a` becomes `b`.
  lemma NotReprocessed()
    ensures Process(map["a" := [Ident("b")], "b" := [Ident("c")]], [Ident("a")]) == [Ident("b")]
  {
    ProcessDefined(map["a" := [Ident("b")], "b" := [Ident("c")]], "a");
  }

  // ---------------------------------------------------------------------------
  // DefineAttr::parse

  /// The attribute's input as the parser sees it, one syntactic unit at a time: an identifier,
  /// the `=>` token, an expression of several tokens, the `;` token, or any other token.
  datatype Piece = PIdent(name: string) | PArrow | PExpr(tokens: seq<Token>) | PSemi | POther(token: Token)

  /// Why the parse fails, and at which piece: `syn`'s errors for a missing identifier, `=>`,
  /// expression or `;`.
  datatype ParseError = ExpectedIdent(at: nat) | ExpectedArrow(at: nat) | ExpectedExpr(at: nat) | ExpectedSemi(at: nat)

  function At(e: ParseError): nat
  {
    match e
    case ExpectedIdent(i) => i
    case ExpectedArrow(i) => i
    case ExpectedExpr(i) => i
    case ExpectedSemi(i) => i
  }

  /// `syn::Expr` parsed from one piece: an expression, or a bare identifier (a path expression).
  function ExprOf(p: Piece): Option<seq<Token>>
  {
    match p
    case PExpr(ts) => Some(ts)
    case PIdent(n) => Some([Ident(n)])
    case _ => None
  }

  /// The parse of the pieces `ps`, which start at position `off` of the input, into the map `m`
  /// built so far: while input remains, an identifier, `=>`, an expression, inserted into the
  /// map; then a `;`, which may be missing only at the end.
  function ParseFrom(ps: seq<Piece>, off: nat, m: Defines): (r: Result<Defines, ParseError>)
    ensures r.Ok? ==> m.Keys <= r.value.Keys
    ensures r.Err? ==> off <= At(r.error) <= off + |ps|
    decreases |ps|
  {
    if ps == [] then Ok(m)
    else if !ps[0].PIdent? then Err(ExpectedIdent(off))
    else if |ps| < 2 || !ps[1].PArrow? then Err(ExpectedArrow(off + 1))
    else if |ps| < 3 || ExprOf(ps[2]).None? then Err(ExpectedExpr(off + 2))
    else
      var m' := m[ps[0].name := ExprOf(ps[2]).value];
      if |ps| == 3 then Ok(m')
      else if ps[3].PSemi? then ParseFrom(ps[4..], off + 4, m')
      else Err(ExpectedSemi(off + 3))
  }

  function Parse(ps: seq<Piece>): Result<Defines, ParseError>
  {
    ParseFrom(ps, 0, map[])
  }

  /// `DefineAttr::parse`: the loop over the input stream, inserting each definition into the map.
  method ParseLoop(ps: seq<Piece>) returns (r: Result<Defines, ParseError>)
    ensures r == Parse(ps)
  {
    var m: Defines := map[];
    var i := 0;
    assert ps[0..] == ps;
    while i < |ps|
      invariant 0 <= i <= |ps|
      invariant Parse(ps) == ParseFrom(ps[i..], i, m)
      decreases |ps| - i
    {
      if !ps[i].PIdent? {
        return Err(ExpectedIdent(i));
      }
      var key := ps[i].name;
      if i + 1 >= |ps| || !ps[i + 1].PArrow? {
        return Err(ExpectedArrow(i + 1));
      }
      if i + 2 >= |ps| || ExprOf(ps[i + 2]).None? {
        return Err(ExpectedExpr(i + 2));
      }
      var value := ExprOf(ps[i + 2]).value;
      m := m[key := value];
      i := i + 3;
      if i < |ps| {
        if ps[i].PSemi? {
          assert ps[i - 3..][4..] == ps[i + 1..];
          i := i + 1;
        } else {
          return Err(ExpectedSemi(i));
        }
      } else {
        assert |ps[i - 3..]| == 3;
      }
    }
    assert ps[i..] == [];
    return Ok(m);
  }

  /// Definitions `name => expr` separated by `;`, with or without a `;` after the last one.
  function Render(es: seq<(string, seq<Token>)>, trailing: bool): seq<Piece>
  {
    if es == [] then []
    else
      var entry := [PIdent(es[0].0), PArrow, PExpr(es[0].1)];
      if |es| == 1 then entry + (if trailing then [PSemi] else [])
      else entry + [PSemi] + Render(es[1..], trailing)
  }

  /// The map after inserting the definitions in order into `m`.
  function Insert(m: Defines, es: seq<(string, seq<Token>)>): Defines
    decreases |es|
  {
    if es == [] then m else Insert(m[es[0].0 := es[0].1], es[1..])
  }

  /// A list of definitions parses to the map that inserts them in order, whether or not the last
  /// one is followed by `;`.
  lemma {:induction false} ParseRender(es: seq<(string, seq<Token>)>, trailing: bool, off: nat, m: Defines)
    ensures ParseFrom(Render(es, trailing), off, m) == Ok(Insert(m, es))
    decreases es
  {
    if es != [] {
      var ps := Render(es, trailing);
      var m' := m[es[0].0 := es[0].1];
      if |es| == 1 {
        assert es[1..] == [];
        if trailing {
          assert ps[4..] == [];
        }
      } else {
        assert ps[4..] == Render(es[1..], trailing);
        ParseRender(es[1..], trailing, off + 4, m');
      }
    }
  }

  /// Of several definitions of one name the last one wins.
  lemma {:induction false} InsertLast(m: Defines, es: seq<(string, seq<Token>)>, j: nat)
    requires j < |es|
    requires forall l :: j < l < |es| ==> es[l].0 != es[j].0
    ensures es[j].0 in Insert(m, es) && Insert(m, es)[es[j].0] == es[j].1
    decreases es
  {
    if j == 0 {
      InsertOther(m[es[0].0 := es[0].1], es[1..], es[0].0);
    } else {
      forall l | j - 1 < l < |es[1..]| ensures es[1..][l].0 != es[1..][j - 1].0 {
        assert es[1..][l] == es[l + 1];
      }
      InsertLast(m[es[0].0 := es[0].1], es[1..], j - 1);
    }
  }

  /// A name no definition uses keeps its entry, or its absence.
  lemma {:induction false} InsertOther(m: Defines, es: seq<(string, seq<Token>)>, k: string)
    requires forall l :: 0 <= l < |es| ==> es[l].0 != k
    ensures k in Insert(m, es) <==> k in m
    ensures k in m ==> Insert(m, es)[k] == m[k]
    decreases es
  {
    if es != [] {
      forall l | 0 <= l < |es[1..]| ensures es[1..][l].0 != k {
        assert es[1..][l] == es[l + 1];
      }
      InsertOther(m[es[0].0 := es[0].1], es[1..], k);
    }
  }

  /// A second definition of the same name overrides the first.
  lemma DuplicateKeepsLater(a: string, x: seq<Token>, y: seq<Token>, trailing: bool)
    ensures Parse(Render([(a, x), (a, y)], trailing)) == Ok(map[a := y])
  {
    ParseRender([(a, x), (a, y)], trailing, 0, map[]);
    var es := [(a, x), (a, y)];
    assert es[1..] == [(a, y)] && es[1..][1..] == [];
    assert Insert(map[], es) == Insert(map[a := x], [(a, y)]) == Insert(map[a := x][a := y], []);
    assert map[a := x][a := y] == map[a := y];
  }

  /// Two definitions with nothing between them: the parse fails at the second identifier, where
  /// the `;` should be.
  lemma MissingSemicolon(a: string, x: seq<Token>, ps: seq<Piece>, off: nat, m: Defines)
    requires |ps| >= 4 && ps[..3] == [PIdent(a), PArrow, PExpr(x)] && !ps[3].PSemi?
    ensures ParseFrom(ps, off, m) == Err(ExpectedSemi(off + 3))
  {
    assert ps[0] == ps[..3][0] && ps[1] == ps[..3][1] && ps[2] == ps[..3][2];
  }
}
