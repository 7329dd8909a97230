/** The scan of one field's type in src/imp.rs: `recurse_through_type_list`
    splits a type tree at its top-level commas and hands each segment to
    `recurse_through_type`, which checks for a stray colon and for a second
    declaration keyword, lifts a nested declaration out (naming it when it
    is anonymous) or, when there is none, copies the tokens and scans the
    angle-bracket groups again. The nested `recurse_through_definition` is
    not part of this model: an entry `Definition(tokens, strike, makePub)`
    in the log stands for what it appends, and the function `define` for the
    generics it returns. */
module TypeLists {
  import opened Common
  import opened Tokens
  import opened Diagnostics
  import opened TypeTrees
  import opened Generics

  /** `get_tt_punct(t, c).is_some()`. */
  predicate IsTtPunct(t: TypeTree, c: char)
  {
    t.Token? && IsPunct(t.tt, c)
  }

  predicate IsComma(t: TypeTree)
  {
    IsTtPunct(t, ',')
  }

  /** `get_decl_ident(t).is_some()`: a declaration keyword at this level. */
  predicate IsDeclNode(t: TypeTree)
  {
    t.Token? && IsDeclIdent(t.tt)
  }

  // ---------------------------------------------------------------------
  // The colon check (src/imp.rs:511-523)

  /** The window of three nodes at `i` has a `:` in the middle and no `:`
      on either side. */
  predicate ColonWindow(tok: seq<TypeTree>, i: nat)
    requires i + 2 < |tok|
  {
    IsTtPunct(tok[i + 1], ':') && !IsTtPunct(tok[i], ':') && !IsTtPunct(tok[i + 2], ':')
  }

  /** `windows(3).find_map(..)` from window `i` on: the first window that
      holds a lone colon. */
  function ColonFrom(tok: seq<TypeTree>, i: nat): (r: Option<nat>)
    ensures r.Some? ==> i <= r.value && r.value + 2 < |tok| && ColonWindow(tok, r.value)
    ensures r.Some? ==> forall m: nat :: i <= m < r.value ==> !ColonWindow(tok, m)
    ensures r.None? ==> forall j: nat :: i <= j && j + 2 < |tok| ==> !ColonWindow(tok, j)
    decreases |tok| - i
  {
    if i + 2 >= |tok| then None
    else if ColonWindow(tok, i) then Some(i)
    else ColonFrom(tok, i + 1)
  }

  /** The span of the first lone top-level colon, if any. */
  function MisplacedColon(tok: seq<TypeTree>): (r: Option<Span>)
    ensures r.Some? <==> exists j: nat :: j + 2 < |tok| && ColonWindow(tok, j)
    ensures r.Some? ==>
      exists j: nat :: j + 2 < |tok| && ColonWindow(tok, j) && r.value == tok[j + 1].tt.span
        && forall m: nat :: m < j ==> !ColonWindow(tok, m)
  {
    match ColonFrom(tok, 0)
    case Some(j) => Some(tok[j + 1].tt.span)
    case None => None
  }

  /** A colon next to another colon, as in a `::` path, is never reported. */
  lemma PathColonsNotFlagged(tok: seq<TypeTree>)
    requires forall i :: 0 <= i < |tok| && IsTtPunct(tok[i], ':') ==>
      (i > 0 && IsTtPunct(tok[i - 1], ':')) || (i + 1 < |tok| && IsTtPunct(tok[i + 1], ':'))
    ensures MisplacedColon(tok).None?
  {
    forall j: nat | j + 2 < |tok| ensures !ColonWindow(tok, j) {
      if IsTtPunct(tok[j + 1], ':') {
        assert IsTtPunct(tok[j], ':') || IsTtPunct(tok[j + 2], ':');
      }
    }
  }

  // ---------------------------------------------------------------------
  // The duplicate-declaration check (src/imp.rs:524-532)

  /** The span of the second top-level declaration keyword, if any. */
  function SecondDecl(tok: seq<TypeTree>): (r: Option<Span>)
    ensures r.Some? <==> exists i, j :: 0 <= i < j < |tok| && IsDeclNode(tok[i]) && IsDeclNode(tok[j])
    ensures r.Some? ==>
      exists i, j :: 0 <= i < j < |tok| && IsDeclNode(tok[i]) && IsDeclNode(tok[j]) && r.value == tok[j].tt.span
        && forall m :: 0 <= m < j && m != i ==> !IsDeclNode(tok[m])
  {
    match Position(tok, IsDeclNode)
    case None => None
    case Some(kw) =>
      match Position(tok[kw + 1..], IsDeclNode)
      case None =>
        OnlyOneDecl(tok, kw, tok[kw + 1..]);
        None
      case Some(d) =>
        SecondDeclAt(tok, kw, tok[kw + 1..], d);
        Some(tok[kw + 1 + d].tt.span)
  }

  lemma OnlyOneDecl(tok: seq<TypeTree>, kw: nat, rest: seq<TypeTree>)
    requires kw < |tok| && rest == tok[kw + 1..] && forall m :: 0 <= m < kw ==> !IsDeclNode(tok[m])
    requires forall m :: 0 <= m < |rest| ==> !IsDeclNode(rest[m])
    ensures !exists i, j :: 0 <= i < j < |tok| && IsDeclNode(tok[i]) && IsDeclNode(tok[j])
  {
    forall i, j | 0 <= i < j < |tok| && IsDeclNode(tok[i]) ensures !IsDeclNode(tok[j]) {
      assert tok[j] == rest[j - kw - 1];
    }
  }

  lemma SecondDeclAt(tok: seq<TypeTree>, kw: nat, rest: seq<TypeTree>, d: nat)
    requires kw < |tok| && rest == tok[kw + 1..] && IsDeclNode(tok[kw]) && forall m :: 0 <= m < kw ==> !IsDeclNode(tok[m])
    requires d < |rest| && IsDeclNode(rest[d])
    requires forall m :: 0 <= m < d ==> !IsDeclNode(rest[m])
    ensures var j := kw + 1 + d;
      j < |tok| && IsDeclNode(tok[j]) && forall m :: 0 <= m < j && m != kw ==> !IsDeclNode(tok[m])
  {
    var j := kw + 1 + d;
    assert tok[j] == rest[d];
    forall m | kw < m < j ensures !IsDeclNode(tok[m]) {
      assert tok[m] == rest[m - kw - 1];
    }
  }

  // ---------------------------------------------------------------------
  // Top-level comma splitting (src/imp.rs:478-500)

  /** The segments between top-level commas. */
  function Segments(tok: seq<TypeTree>): (r: seq<seq<TypeTree>>)
    ensures |r| >= 1
    decreases |tok|
  {
    match Position(tok, IsComma)
    case None => [tok]
    case Some(p) => [tok[..p]] + Segments(tok[p + 1..])
  }

  /** The top-level commas, in order. */
  function Commas(tok: seq<TypeTree>): seq<TokenTree>
    decreases |tok|
  {
    match Position(tok, IsComma)
    case None => []
    case Some(p) => [tok[p].tt] + Commas(tok[p + 1..])
  }

  function AsNodes(ts: seq<TokenTree>): (r: seq<TypeTree>)
    ensures |r| == |ts| && forall k :: 0 <= k < |ts| ==> r[k] == Token(ts[k])
  {
    seq(|ts|, k requires 0 <= k < |ts| => Token(ts[k]))
  }

  /** One comma step of `Segments` and `Commas`. */
  lemma SplitStep(tok: seq<TypeTree>, p: nat)
    requires Position(tok, IsComma) == Some(p)
    ensures Segments(tok) == [tok[..p]] + Segments(tok[p + 1..])
    ensures Commas(tok) == [tok[p].tt] + Commas(tok[p + 1..])
  {
    SegmentsStep(tok, p);
    CommasStep(tok, p);
  }

  lemma SegmentsStep(tok: seq<TypeTree>, p: nat)
    requires Position(tok, IsComma) == Some(p)
    ensures Segments(tok) == [tok[..p]] + Segments(tok[p + 1..])
  {
  }

  lemma CommasStep(tok: seq<TypeTree>, p: nat)
    requires Position(tok, IsComma) == Some(p)
    ensures Commas(tok) == [tok[p].tt] + Commas(tok[p + 1..])
  {
  }

  lemma {:induction false} SegmentsCount(tok: seq<TypeTree>)
    ensures |Segments(tok)| == |Commas(tok)| + 1
    decreases |tok|
  {
    match Position(tok, IsComma)
    case None =>
    case Some(p) =>
      SegmentsCount(tok[p + 1..]);
      SplitStep(tok, p);
  }

  lemma {:induction false} SegmentsCommaFree(tok: seq<TypeTree>)
    ensures forall k, j :: 0 <= k < |Segments(tok)| && 0 <= j < |Segments(tok)[k]| ==> !IsComma(Segments(tok)[k][j])
    decreases |tok|
  {
    match Position(tok, IsComma)
    case None =>
    case Some(p) =>
      var rest := tok[p + 1..];
      SegmentsCommaFree(rest);
      SplitStep(tok, p);
      var segs := Segments(tok);
      forall k, j | 0 <= k < |segs| && 0 <= j < |segs[k]| ensures !IsComma(segs[k][j]) {
        if k > 0 {
          assert segs[k] == Segments(rest)[k - 1];
        } else {
          assert segs[0][j] == tok[j];
        }
      }
  }

  lemma {:induction false} CommasArePunct(tok: seq<TypeTree>)
    ensures forall k :: 0 <= k < |Commas(tok)| ==> IsPunct(Commas(tok)[k], ',')
    decreases |tok|
  {
    match Position(tok, IsComma)
    case None =>
    case Some(p) =>
      CommasArePunct(tok[p + 1..]);
      SplitStep(tok, p);
  }

  lemma AsNodesCons(t: TokenTree, ts: seq<TokenTree>)
    ensures AsNodes([t] + ts) == [Token(t)] + AsNodes(ts)
  {
    var l, r := AsNodes([t] + ts), [Token(t)] + AsNodes(ts);
    forall k | 0 <= k < |l| ensures l[k] == r[k] {
      if k > 0 {
        assert ([t] + ts)[k] == ts[k - 1];
      }
    }
  }

  lemma {:induction false} SegmentsJoinBack(tok: seq<TypeTree>)
    ensures |Segments(tok)| == |Commas(tok)| + 1
    ensures Interleave(Segments(tok), AsNodes(Commas(tok))) == tok
    decreases |tok|
  {
    SegmentsCount(tok);
    match Position(tok, IsComma)
    case None =>
    case Some(p) =>
      var rest := tok[p + 1..];
      SegmentsJoinBack(rest);
      SegmentsCount(rest);
      SplitStep(tok, p);
      var c := tok[p].tt;
      assert tok[p] == Token(c);
      AsNodesCons(c, Commas(rest));
      InterleaveSplit(tok, p, Segments(rest), AsNodes(Commas(rest)));
  }

  /** Splitting at top-level commas: no segment has a top-level comma, there
      is one segment more than there are commas, and the segments joined by
      the commas give back the whole list. */
  lemma SplitAtCommas(tok: seq<TypeTree>)
    ensures |Segments(tok)| == |Commas(tok)| + 1
    ensures forall k, j :: 0 <= k < |Segments(tok)| && 0 <= j < |Segments(tok)[k]| ==> !IsComma(Segments(tok)[k][j])
    ensures forall k :: 0 <= k < |Commas(tok)| ==> IsPunct(Commas(tok)[k], ',')
    ensures Interleave(Segments(tok), AsNodes(Commas(tok))) == tok
  {
    SegmentsCommaFree(tok);
    CommasArePunct(tok);
    SegmentsJoinBack(tok);
  }

  // ---------------------------------------------------------------------
  // What one scan appends: tokens to `type_ret` and entries to `ret`

  datatype Out = Out(typeRet: seq<TokenTree>, ret: seq<Emission>)

  function Cat(a: Out, b: Out): Out
  {
    Out(a.typeRet + b.typeRet, a.ret + b.ret)
  }

  /** What the scan of a type passes down unchanged: `name_hint` (an
      identifier), `pub_hint`, and `strike_attrs`, the attributes carried
      onto every declaration nested in the type. */
  datatype Hint = Hint(nameHint: Option<TokenTree>, pubHint: bool, strike: seq<Attribute>)

  /** The generics `recurse_through_definition(tokens, .., makePub, ..)`
      returns for the declaration it is given. */
  type Definer = (seq<TokenTree>, bool) -> Option<GenericParamList>

  /** The placeholder name when there is no context to name from. */
  const MissingName: TokenTree := Punct('!', Alone, CallSite)

  function ColonErrors(tok: seq<TypeTree>): seq<Emission>
  {
    match MisplacedColon(tok)
    case None => []
    case Some(s) => [CompileError(ColonAtTopLevel, Some(s))]
  }

  function DuplicateErrors(tok: seq<TypeTree>): seq<Emission>
  {
    match SecondDecl(tok)
    case None => []
    case Some(s) => [CompileError(MoreThanOneDeclaration, Some(s))]
  }

  lemma {:induction false} DeclSurvivesUntree(tok: seq<TypeTree>, kw: nat)
    requires kw < |tok| && IsDeclNode(tok[kw])
    ensures Position(Untree(tok), IsDeclIdent).Some?
  {
    var pre := tok[..kw];
    assert tok[kw..] == [tok[kw]] + tok[kw + 1..];
    assert tok == pre + tok[kw..];
    UntreeAppend(pre, [tok[kw]] + tok[kw + 1..]);
    UntreeAppend([tok[kw]], tok[kw + 1..]);
    assert [tok[kw]][..0] == [];
    assert Untree([tok[kw]]) == [tok[kw].tt];
    assert Untree(tok)[|Untree(pre)|] == tok[kw].tt;
  }

  /** The declaration branch of `recurse_through_type`: flatten the segment,
      find its first declaration keyword; when a name follows, lift the
      segment as it is, otherwise insert the name hint (or `!` and an error)
      after the keyword. The name goes into the type, followed by the
      re-projected generics of the lifted declaration. */
  function LiftOut(tok: seq<TypeTree>, kw: nat, h: Hint, define: Definer): Out
    requires kw < |tok| && IsDeclNode(tok[kw])
  {
    var decl := Untree(tok);
    DeclSurvivesUntree(tok, kw);
    var pos := Position(decl, IsDeclIdent).value;
    if pos + 1 < |decl| && decl[pos + 1].Ident? then
      Out([decl[pos + 1]] + UseSiteTokens(define(decl, h.pubHint)), [Definition(decl, h.strike, h.pubHint)])
    else
      var name := if h.nameHint.Some? then h.nameHint.value else MissingName;
      var errs := if h.nameHint.Some? then [] else [CompileError(NoNamingContext, StreamSpan(decl))];
      var newthing := decl[..pos + 1] + [name] + decl[pos + 1..];
      Out([name] + UseSiteTokens(define(newthing, h.pubHint)), errs + [Definition(newthing, h.strike, h.pubHint)])
  }

  /** The token right after the first declaration keyword of `d`: the
      name of the declaration `d` spells, when it is an identifier. */
  function NameAfterKeyword(d: seq<TokenTree>): (r: Option<TokenTree>)
    ensures r.Some? <==> exists k :: 0 <= k < |d| - 1 && Position(d, IsDeclIdent) == Some(k)
    ensures r.Some? ==> Position(d, IsDeclIdent).Some? && Position(d, IsDeclIdent).value + 1 < |d|
                        && r.value == d[Position(d, IsDeclIdent).value + 1]
  {
    match Position(d, IsDeclIdent)
    case Some(k) => if k + 1 < |d| then Some(d[k + 1]) else None
    case None => None
  }

  /** Inserting `name` right after the first keyword of `decl`. */
  lemma InsertName(decl: seq<TokenTree>, pos: nat, name: TokenTree)
    requires Position(decl, IsDeclIdent) == Some(pos)
    ensures var d := decl[..pos + 1] + [name] + decl[pos + 1..];
      && Position(d, IsDeclIdent) == Some(pos) && pos < |d| - 1
      && NameAfterKeyword(d) == Some(name)
      && d[..pos + 1] + d[pos + 2..] == decl
  {
    var d := decl[..pos + 1] + [name] + decl[pos + 1..];
    assert d[..pos + 1] == decl[..pos + 1];
    PositionPrefix(decl, d, IsDeclIdent, pos);
    assert d[pos + 1] == name;
    assert d[pos + 2..] == decl[pos + 1..];
    assert decl == decl[..pos + 1] + decl[pos + 1..];
  }

  /** The facts `LiftOut` is built on: the flattened segment has a first
      declaration keyword. */
  lemma LiftOutKeyword(tok: seq<TypeTree>, kw: nat) returns (pos: nat)
    requires kw < |tok| && IsDeclNode(tok[kw])
    ensures Position(Untree(tok), IsDeclIdent) == Some(pos)
  {
    DeclSurvivesUntree(tok, kw);
    pos := Position(Untree(tok), IsDeclIdent).value;
  }

  /** The declaration is named when an identifier follows its first keyword. */
  predicate Named(decl: seq<TokenTree>)
  {
    NameAfterKeyword(decl).Some? && NameAfterKeyword(decl).value.Ident?
  }

  /** Lifting a declaration out of a type: the last log entry defines the
      flattened segment, with the name inserted right after the keyword when
      none was written there; what goes into the type is the name the
      defined declaration carries, followed by its use-site generics. */
  lemma LiftOutDefines(tok: seq<TypeTree>, kw: nat, h: Hint, define: Definer)
    requires kw < |tok| && IsDeclNode(tok[kw])
    ensures var o := LiftOut(tok, kw, h, define);
      && o.ret != [] && o.ret[|o.ret| - 1].Definition? && o.ret[|o.ret| - 1].makePub == h.pubHint
      && var d := o.ret[|o.ret| - 1].tokens;
      && NameAfterKeyword(d).Some?
      && o.typeRet == [NameAfterKeyword(d).value] + UseSiteTokens(define(d, h.pubHint))
      && (Named(Untree(tok)) ==> d == Untree(tok))
      && (!Named(Untree(tok)) ==>
            exists k :: 0 <= k < |d| - 1 && Position(d, IsDeclIdent) == Some(k) && d[..k + 1] + d[k + 2..] == Untree(tok))
  {
    var decl := Untree(tok);
    var pos := LiftOutKeyword(tok, kw);
    var o := LiftOut(tok, kw, h, define);
    if pos + 1 < |decl| && decl[pos + 1].Ident? {
      assert NameAfterKeyword(decl) == Some(decl[pos + 1]);
      assert o.typeRet == [decl[pos + 1]] + UseSiteTokens(define(decl, h.pubHint));
      assert o.ret == [Definition(decl, h.strike, h.pubHint)];
    } else {
      var name := if h.nameHint.Some? then h.nameHint.value else MissingName;
      var newthing := decl[..pos + 1] + [name] + decl[pos + 1..];
      InsertName(decl, pos, name);
      assert !Named(decl);
      assert o.typeRet == [name] + UseSiteTokens(define(newthing, h.pubHint));
      assert o.ret[|o.ret| - 1] == Definition(newthing, h.strike, h.pubHint);
    }
  }

  /** The name an anonymous declaration is given is the name hint, or `!`
      when there is none; the type refers to the declaration by the name
      the definition carries after its keyword. */
  lemma LiftOutName(tok: seq<TypeTree>, kw: nat, h: Hint, define: Definer)
    requires kw < |tok| && IsDeclNode(tok[kw]) && !Named(Untree(tok))
    ensures var o := LiftOut(tok, kw, h, define);
      && o.typeRet != [] && o.ret != [] && o.ret[|o.ret| - 1].Definition?
      && o.typeRet[0] == (if h.nameHint.Some? then h.nameHint.value else MissingName)
      && NameAfterKeyword(o.ret[|o.ret| - 1].tokens) == Some(o.typeRet[0])
  {
    var decl := Untree(tok);
    var pos := LiftOutKeyword(tok, kw);
    var o := LiftOut(tok, kw, h, define);
    var name := if h.nameHint.Some? then h.nameHint.value else MissingName;
    var newthing := decl[..pos + 1] + [name] + decl[pos + 1..];
    InsertName(decl, pos, name);
    if pos + 1 < |decl| {
      assert NameAfterKeyword(decl) == Some(decl[pos + 1]);
    }
    assert o.typeRet == [name] + UseSiteTokens(define(newthing, h.pubHint));
    assert o.ret[|o.ret| - 1] == Definition(newthing, h.strike, h.pubHint);
  }

  /** The "No context for naming substructure" error is logged, before the
      definition, exactly when the declaration has no name and there is no
      hint to name it by. */
  lemma LiftOutErrors(tok: seq<TypeTree>, kw: nat, h: Hint, define: Definer)
    requires kw < |tok| && IsDeclNode(tok[kw])
    ensures Untree(tok) != []
    ensures var o := LiftOut(tok, kw, h, define);
      && (|o.ret| == 2 <==> !Named(Untree(tok)) && h.nameHint.None?)
      && (|o.ret| != 2 ==> |o.ret| == 1)
      && (|o.ret| == 2 ==> o.ret[0] == CompileError(NoNamingContext, StreamSpan(Untree(tok))))
  {
    var pos := LiftOutKeyword(tok, kw);
  }

  /** `recurse_through_type_list`. */
  function ListOut(tok: seq<TypeTree>, h: Hint, define: Definer): Out
    decreases tok, 2
  {
    match Position(tok, IsComma)
    case None => TypeOut(tok, h, define)
    case Some(p) =>
      Cat(Cat(TypeOut(tok[..p], h, define), Out([tok[p].tt], [])), ListOut(tok[p + 1..], h, define))
  }

  /** `recurse_through_type`. */
  function TypeOut(tok: seq<TypeTree>, h: Hint, define: Definer): Out
    decreases tok, 1
  {
    match Position(tok, IsDeclNode)
    case None => Cat(Out([], ColonErrors(tok)), UnTypeTreeOut(tok, h, define))
    case Some(kw) => Cat(Out([], ColonErrors(tok) + DuplicateErrors(tok)), LiftOut(tok, kw, h, define))
  }

  /** `un_type_tree` with `recurse_through_type_list` (and `pub_hint`
      false) as the callback on the children of each group. */
  function UnTypeTreeOut(tok: seq<TypeTree>, h: Hint, define: Definer): Out
    decreases tok, 0
  {
    if tok == [] then Out([], [])
    else
      Cat(UnTypeTreeOut(tok[..|tok| - 1], h, define),
          match tok[|tok| - 1]
          case Token(t) => Out([t], [])
          case Group(o, g, c) => Cat(Cat(Out([o], []), ListOut(g, h.(pubHint := false), define)), Out(OptSeq(c), [])))
  }

  /** `recurse_through_type_list`: the loop that re-slices `tok` after each
      top-level comma, scanning the segment before it and copying the comma. */
  method RecurseThroughTypeList(tok: seq<TypeTree>, h: Hint, define: Definer)
    returns (typeRet: seq<TokenTree>, ret: seq<Emission>)
    ensures Out(typeRet, ret) == ListOut(tok, h, define)
  {
    var rest := tok;
    typeRet, ret := [], [];
    while true
      invariant Cat(Out(typeRet, ret), ListOut(rest, h, define)) == ListOut(tok, h, define)
      decreases |rest|
    {
      var end := Position(rest, IsComma);
      var current := rest[..if end.Some? then end.value else |rest|];
      var o := TypeOut(current, h, define);
      if end.Some? {
        var comma := rest[end.value].tt;
        var after := rest[end.value + 1..];
        ListOutComma(rest, end.value, h, define);
        CatStep(Out(typeRet, ret), o, comma, ListOut(after, h, define));
        typeRet, ret := typeRet + o.typeRet + [comma], ret + o.ret;
        rest := after;
      } else {
        assert current == rest;
        ListOutNoComma(rest, h, define);
        typeRet, ret := typeRet + o.typeRet, ret + o.ret;
        return;
      }
    }
  }

  /** The last segment of `ListOut`. */
  lemma ListOutNoComma(tok: seq<TypeTree>, h: Hint, define: Definer)
    requires Position(tok, IsComma).None?
    ensures ListOut(tok, h, define) == TypeOut(tok, h, define)
  {
  }

  /** One comma step of `ListOut`. */
  lemma ListOutComma(tok: seq<TypeTree>, p: nat, h: Hint, define: Definer)
    requires Position(tok, IsComma) == Some(p)
    ensures ListOut(tok, h, define)
         == Cat(Cat(TypeOut(tok[..p], h, define), Out([tok[p].tt], [])), ListOut(tok[p + 1..], h, define))
  {
  }

  lemma CatStep(acc: Out, o: Out, c: TokenTree, b: Out)
    ensures Cat(acc, Cat(Cat(o, Out([c], [])), b)) == Cat(Out(acc.typeRet + o.typeRet + [c], acc.ret + o.ret), b)
  {
    assert acc.typeRet + (o.typeRet + [c] + b.typeRet) == acc.typeRet + o.typeRet + [c] + b.typeRet;
    assert acc.ret + (o.ret + [] + b.ret) == acc.ret + o.ret + b.ret;
  }

  // ---------------------------------------------------------------------
  // Properties of the scan

  function SegmentTypeRets(segs: seq<seq<TypeTree>>, h: Hint, define: Definer): (r: seq<seq<TokenTree>>)
    ensures |r| == |segs|
  {
    if segs == [] then [] else [TypeOut(segs[0], h, define).typeRet] + SegmentTypeRets(segs[1..], h, define)
  }

  function SegmentRets(segs: seq<seq<TypeTree>>, h: Hint, define: Definer): seq<seq<Emission>>
  {
    if segs == [] then [] else [TypeOut(segs[0], h, define).ret] + SegmentRets(segs[1..], h, define)
  }

  lemma SegmentsJoin(x: Out, c: TokenTree, ts: seq<seq<TokenTree>>, cs: seq<TokenTree>, rs: seq<seq<Emission>>, b: Out, o: Out)
    requires |ts| == |cs| + 1 && b.typeRet == Interleave(ts, cs) && b.ret == Concat(rs)
    requires o == Cat(Cat(x, Out([c], [])), b)
    ensures o.typeRet == Interleave([x.typeRet] + ts, [c] + cs) && o.ret == Concat([x.ret] + rs)
  {
    InterleaveCons(x.typeRet, ts, c, cs);
    ConcatCons(x.ret, rs);
    assert o.typeRet == x.typeRet + [c] + b.typeRet;
    assert o.ret == x.ret + [] + b.ret;
  }

  /** Each top-level comma is copied exactly once, in order, between the
      outputs of the segments on either side of it; the log is the logs of
      the segments in order. */
  lemma {:induction false} ListOutBySegments(tok: seq<TypeTree>, h: Hint, define: Definer)
    ensures |Segments(tok)| == |Commas(tok)| + 1
    ensures ListOut(tok, h, define).typeRet == Interleave(SegmentTypeRets(Segments(tok), h, define), Commas(tok))
    ensures ListOut(tok, h, define).ret == Concat(SegmentRets(Segments(tok), h, define))
    decreases |tok|
  {
    SegmentsCount(tok);
    match Position(tok, IsComma)
    case None =>
      assert Segments(tok) == [tok];
      assert SegmentRets([tok], h, define) == [TypeOut(tok, h, define).ret];
    case Some(p) =>
      var rest := tok[p + 1..];
      ListOutBySegments(rest, h, define);
      var a := TypeOut(tok[..p], h, define);
      SplitStep(tok, p);
      SegmentsJoin(a, tok[p].tt, SegmentTypeRets(Segments(rest), h, define), Commas(rest),
                   SegmentRets(Segments(rest), h, define), ListOut(rest, h, define), ListOut(tok, h, define));
  }

  /** No declaration keyword at any depth. */
  predicate DeclFree(ts: seq<TypeTree>)
  {
    forall k :: 0 <= k < |ts| ==> NodeDeclFree(ts[k])
  }

  predicate NodeDeclFree(t: TypeTree)
  {
    match t
    case Token(tt) => !IsDeclIdent(tt)
    case Group(_, ch, _) => DeclFree(ch)
  }

  predicate OnlyColonErrors(ret: seq<Emission>)
  {
    forall e :: e in ret ==> e.CompileError? && e.kind == ColonAtTopLevel
  }

  lemma DeclFreeSlice(ts: seq<TypeTree>, i: nat, j: nat)
    requires DeclFree(ts) && i <= j <= |ts|
    ensures DeclFree(ts[i..j])
  {
    forall k | 0 <= k < j - i ensures NodeDeclFree(ts[i..j][k]) {
      assert ts[i..j][k] == ts[i + k];
    }
  }

  lemma UntreeAround(tok: seq<TypeTree>, p: nat)
    requires p < |tok| && tok[p].Token?
    ensures Untree(tok) == Untree(tok[..p]) + [tok[p].tt] + Untree(tok[p + 1..])
  {
    var a, m, b := tok[..p], tok[p..], tok[p + 1..];
    assert m == [tok[p]] + b;
    assert tok == a + m;
    UntreeAppend(a, m);
    UntreeAppend([tok[p]], b);
    UntreeSingle(tok[p]);
    var ua, ub := Untree(a), Untree(b);
    assert Untree(m) == [tok[p].tt] + ub;
    assert Untree(tok) == ua + ([tok[p].tt] + ub);
  }

  lemma UntreeSingle(t: TypeTree)
    ensures Untree([t]) == UntreeNode(t)
  {
    assert [t][..0] == [];
  }

  lemma CommaJoinDeclFree(tok: seq<TypeTree>, p: nat, a: Out, b: Out, o: Out)
    requires p < |tok| && tok[p].Token?
    requires a.typeRet == Untree(tok[..p]) && b.typeRet == Untree(tok[p + 1..])
    requires OnlyColonErrors(a.ret) && OnlyColonErrors(b.ret)
    requires o == Cat(Cat(a, Out([tok[p].tt], [])), b)
    ensures o.typeRet == Untree(tok) && OnlyColonErrors(o.ret)
  {
    UntreeAround(tok, p);
    assert o.typeRet == a.typeRet + [tok[p].tt] + b.typeRet;
    assert o.ret == a.ret + [] + b.ret;
    assert a.ret + [] == a.ret;
    forall e | e in o.ret ensures e.CompileError? && e.kind == ColonAtTopLevel {
      assert e in a.ret || e in b.ret;
    }
  }

  /** A type with no nested declaration comes out token for token as it went
      in, and only colon errors are reported for it. */
  lemma {:induction false} ListOutDeclFree(tok: seq<TypeTree>, h: Hint, define: Definer)
    requires DeclFree(tok)
    ensures ListOut(tok, h, define).typeRet == Untree(tok)
    ensures OnlyColonErrors(ListOut(tok, h, define).ret)
    decreases tok, 2
  {
    match Position(tok, IsComma)
    case None =>
      TypeOutDeclFree(tok, h, define);
    case Some(p) =>
      DeclFreeSlice(tok, 0, p);
      DeclFreeSlice(tok, p + 1, |tok|);
      var a := TypeOut(tok[..p], h, define);
      var b := ListOut(tok[p + 1..], h, define);
      TypeOutDeclFree(tok[..p], h, define);
      ListOutDeclFree(tok[p + 1..], h, define);
      CommaJoinDeclFree(tok, p, a, b, ListOut(tok, h, define));
  }

  lemma {:induction false} TypeOutDeclFree(tok: seq<TypeTree>, h: Hint, define: Definer)
    requires DeclFree(tok)
    ensures TypeOut(tok, h, define).typeRet == Untree(tok)
    ensures OnlyColonErrors(TypeOut(tok, h, define).ret)
    decreases tok, 1
  {
    assert Position(tok, IsDeclNode).None? by {
      forall k | 0 <= k < |tok| ensures !IsDeclNode(tok[k]) {
        assert NodeDeclFree(tok[k]);
      }
    }
    UnTypeTreeOutDeclFree(tok, h, define);
  }

  lemma {:induction false} UnTypeTreeOutDeclFree(tok: seq<TypeTree>, h: Hint, define: Definer)
    requires DeclFree(tok)
    ensures UnTypeTreeOut(tok, h, define).typeRet == Untree(tok)
    ensures OnlyColonErrors(UnTypeTreeOut(tok, h, define).ret)
    decreases tok, 0
  {
    if tok != [] {
      var n := |tok| - 1;
      DeclFreeSlice(tok, 0, n);
      UnTypeTreeOutDeclFree(tok[..n], h, define);
      assert NodeDeclFree(tok[n]);
      match tok[n]
      case Token(t) =>
      case Group(o, g, c) =>
        ListOutDeclFree(g, h.(pubHint := false), define);
    }
  }

  /** Every declaration the log defines is given the attributes `strike`. */
  predicate CarriesStrike(ret: seq<Emission>, strike: seq<Attribute>)
  {
    forall e :: e in ret && e.Definition? ==> e.strike == strike
  }

  lemma CatCarries(a: Out, b: Out, strike: seq<Attribute>)
    requires CarriesStrike(a.ret, strike) && CarriesStrike(b.ret, strike)
    ensures CarriesStrike(Cat(a, b).ret, strike)
  {
    forall e | e in Cat(a, b).ret && e.Definition? ensures e.strike == strike {
      assert e in a.ret || e in b.ret;
    }
  }

  lemma LiftOutCarries(tok: seq<TypeTree>, kw: nat, h: Hint, define: Definer)
    requires kw < |tok| && IsDeclNode(tok[kw])
    ensures CarriesStrike(LiftOut(tok, kw, h, define).ret, h.strike)
  {
    var pos := LiftOutKeyword(tok, kw);
  }

  /** The attributes carried into a type reach every declaration lifted
      out of it, at any depth: `strike_attrs` is handed unchanged to every
      nested `recurse_through_definition`. */
  lemma {:induction false} ListOutCarries(tok: seq<TypeTree>, h: Hint, define: Definer)
    ensures CarriesStrike(ListOut(tok, h, define).ret, h.strike)
    decreases tok, 2
  {
    match Position(tok, IsComma)
    case None =>
      TypeOutCarries(tok, h, define);
    case Some(p) =>
      var a := TypeOut(tok[..p], h, define);
      var b := ListOut(tok[p + 1..], h, define);
      TypeOutCarries(tok[..p], h, define);
      ListOutCarries(tok[p + 1..], h, define);
      CatCarries(a, Out([tok[p].tt], []), h.strike);
      CatCarries(Cat(a, Out([tok[p].tt], [])), b, h.strike);
  }

  lemma {:induction false} TypeOutCarries(tok: seq<TypeTree>, h: Hint, define: Definer)
    ensures CarriesStrike(TypeOut(tok, h, define).ret, h.strike)
    decreases tok, 1
  {
    match Position(tok, IsDeclNode)
    case None =>
      UnTypeTreeOutCarries(tok, h, define);
      CatCarries(Out([], ColonErrors(tok)), UnTypeTreeOut(tok, h, define), h.strike);
    case Some(kw) =>
      LiftOutCarries(tok, kw, h, define);
      CatCarries(Out([], ColonErrors(tok) + DuplicateErrors(tok)), LiftOut(tok, kw, h, define), h.strike);
  }

  lemma {:induction false} UnTypeTreeOutCarries(tok: seq<TypeTree>, h: Hint, define: Definer)
    ensures CarriesStrike(UnTypeTreeOut(tok, h, define).ret, h.strike)
    decreases tok, 0
  {
    if tok != [] {
      var n := |tok| - 1;
      var a := UnTypeTreeOut(tok[..n], h, define);
      UnTypeTreeOutCarries(tok[..n], h, define);
      match tok[n]
      case Token(t) =>
        CatCarries(a, Out([t], []), h.strike);
      case Group(o, g, c) =>
        var h' := h.(pubHint := false);
        var m := ListOut(g, h', define);
        ListOutCarries(g, h', define);
        CatCarries(Out([o], []), m, h.strike);
        CatCarries(Cat(Out([o], []), m), Out(OptSeq(c), []), h.strike);
        CatCarries(a, Cat(Cat(Out([o], []), m), Out(OptSeq(c), [])), h.strike);
    }
  }
}
