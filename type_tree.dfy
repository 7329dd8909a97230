/** The angle-bracket tokenizer of src/imp.rs: `type_tree` turns a flat
    token sequence into a `TypeTree`, grouping the tokens between a `<`
    and its matching `>`, and `un_tree_type` flattens such a tree back. */
module TypeTrees {
  import opened Common
  import opened Tokens
  import opened Diagnostics

  /** `Group(open, children, close)`: `open` is the `<`, `close` the `>`
      or `None` when the group was still open at the end of the input. */
  datatype TypeTree =
    | Token(tt: TokenTree)
    | Group(open: TokenTree, children: seq<TypeTree>, close: Option<TokenTree>)

  /** The token sequence a tree stands for (`un_tree_type`). */
  function Untree(ts: seq<TypeTree>): seq<TokenTree>
  {
    if ts == [] then [] else Untree(ts[..|ts| - 1]) + UntreeNode(ts[|ts| - 1])
  }

  function UntreeNode(t: TypeTree): seq<TokenTree>
  {
    match t
    case Token(tt) => [tt]
    case Group(o, ch, c) => [o] + Untree(ch) + OptSeq(c)
  }

  lemma {:induction false} UntreeAppend(a: seq<TypeTree>, b: seq<TypeTree>)
    ensures Untree(a + b) == Untree(a) + Untree(b)
    decreases |b|
  {
    if b == [] {
      assert a + b == a;
    } else {
      var n := |b| - 1;
      assert (a + b)[..|a + b| - 1] == a + b[..n];
      assert (a + b)[|a + b| - 1] == b[n];
      calc {
        Untree(a + b);
        Untree(a + b[..n]) + UntreeNode(b[n]);
        { UntreeAppend(a, b[..n]); }
        Untree(a) + Untree(b[..n]) + UntreeNode(b[n]);
        Untree(a) + Untree(b);
      }
    }
  }

  /** `un_tree_type`: pushes the tokens of `tok` in order, each group as its
      `<`, its flattened children and its `>` if it has one. */
  method UnTreeType(tok: seq<TypeTree>) returns (typeRet: seq<TokenTree>)
    ensures typeRet == Untree(tok)
    decreases tok
  {
    typeRet := [];
    for i := 0 to |tok|
      invariant typeRet == Untree(tok[..i])
    {
      assert tok[..i + 1] == tok[..i] + [tok[i]];
      UntreeSnoc(tok[..i], tok[i]);
      match tok[i]
      case Group(o, g, c) =>
        typeRet := typeRet + [o];
        var inner := UnTreeType(g);
        typeRet := typeRet + inner;
        if c.Some? {
          typeRet := typeRet + [c.value];
        }
      case Token(t) =>
        typeRet := typeRet + [t];
    }
    assert tok[..|tok|] == tok;
  }

  // ---------------------------------------------------------------------
  // The shape `type_tree` produces

  predicate IsStrayClose(t: TypeTree)
  {
    t.Token? && IsPunct(t.tt, '>')
  }

  predicate NoStrayClose(ts: seq<TypeTree>)
  {
    forall k :: 0 <= k < |ts| ==> !IsStrayClose(ts[k])
  }

  /** No `<` as a plain token; every group opens with `<`, closes with `>`
      when it closes at all, and holds no plain `>` at any depth. */
  predicate NodeOk(t: TypeTree)
  {
    match t
    case Token(tt) => !IsPunct(tt, '<')
    case Group(o, ch, c) =>
      && IsPunct(o, '<')
      && (c.Some? ==> IsPunct(c.value, '>'))
      && NoStrayClose(ch)
      && forall k :: 0 <= k < |ch| ==> NodeOk(ch[k])
  }

  predicate WellFormed(ts: seq<TypeTree>)
  {
    forall k :: 0 <= k < |ts| ==> NodeOk(ts[k])
  }

  /** A node with no group left open at any depth. */
  predicate Closed(t: TypeTree)
  {
    match t
    case Token(_) => true
    case Group(_, ch, c) => c.Some? && forall k :: 0 <= k < |ch| ==> Closed(ch[k])
  }

  predicate AllClosed(ts: seq<TypeTree>)
  {
    forall k :: 0 <= k < |ts| ==> Closed(ts[k])
  }

  /** A node that may be left open: an open group runs to the end of its
      level, so everything before its last child is closed. */
  predicate OpenNode(t: TypeTree)
  {
    match t
    case Token(_) => true
    case Group(_, ch, c) =>
      if c.Some? then AllClosed(ch)
      else forall k :: 0 <= k < |ch| ==> if k < |ch| - 1 then Closed(ch[k]) else OpenNode(ch[k])
  }

  /** Only the last node of a level may hold an open group: a `<` that is
      never closed takes in everything after it. */
  predicate OpenOnRight(ts: seq<TypeTree>)
  {
    forall k :: 0 <= k < |ts| ==> if k < |ts| - 1 then Closed(ts[k]) else OpenNode(ts[k])
  }

  lemma AllClosedSnoc(ts: seq<TypeTree>, t: TypeTree)
    requires AllClosed(ts) && Closed(t)
    ensures AllClosed(ts + [t])
  {
    forall k | 0 <= k < |ts| + 1 ensures Closed((ts + [t])[k]) {
      if k < |ts| { assert (ts + [t])[k] == ts[k]; }
    }
  }

  lemma OpenSnoc(ts: seq<TypeTree>, t: TypeTree)
    requires AllClosed(ts) && OpenNode(t)
    ensures OpenOnRight(ts + [t])
  {
    var u := ts + [t];
    forall k | 0 <= k < |u| ensures if k < |u| - 1 then Closed(u[k]) else OpenNode(u[k]) {
      if k < |ts| { assert u[k] == ts[k]; }
    }
  }

  lemma AllClosedOpen(ts: seq<TypeTree>)
    requires AllClosed(ts)
    ensures OpenOnRight(ts)
  {
    forall k | 0 <= k < |ts| ensures OpenNode(ts[k]) {
      assert Closed(ts[k]);
    }
  }

  // ---------------------------------------------------------------------
  // The shape determines the tree. Reading the text from the front with a
  // nesting depth, the `>` that closes a group is the first token that
  // takes the depth below the group's own; an open group never meets one.

  function Step(t: TokenTree): int
  {
    if IsPunct(t, '<') then 1 else if IsPunct(t, '>') then -1 else 0
  }

  /** The depth `u` adds. */
  function Net(u: seq<TokenTree>): int
  {
    if u == [] then 0 else Step(u[0]) + Net(u[1..])
  }

  /** The first index at which the depth, starting at `d`, goes below zero. */
  function Dip(u: seq<TokenTree>, d: int): Option<nat>
  {
    if u == [] then None
    else if d + Step(u[0]) < 0 then Some(0)
    else match Dip(u[1..], d + Step(u[0]))
      case None => None
      case Some(i) => Some(i + 1)
  }

  function Shift(o: Option<nat>, n: nat): Option<nat>
  {
    if o.Some? then Some(o.value + n) else None
  }

  lemma {:induction false} NetAppend(u: seq<TokenTree>, w: seq<TokenTree>)
    ensures Net(u + w) == Net(u) + Net(w)
    decreases |u|
  {
    if u == [] {
      assert u + w == w;
    } else {
      assert (u + w)[1..] == u[1..] + w;
      NetAppend(u[1..], w);
    }
  }

  lemma {:induction false} DipAppend(u: seq<TokenTree>, w: seq<TokenTree>, d: int)
    ensures Dip(u + w, d) == if Dip(u, d).Some? then Dip(u, d) else Shift(Dip(w, d + Net(u)), |u|)
    decreases |u|
  {
    if u == [] {
      assert u + w == w;
    } else {
      assert (u + w)[0] == u[0];
      assert (u + w)[1..] == u[1..] + w;
      DipAppend(u[1..], w, d + Step(u[0]));
    }
  }

  lemma {:induction false} DipMono(u: seq<TokenTree>, d: int, e: int)
    requires d <= e && Dip(u, d).None?
    ensures Dip(u, e).None?
    decreases |u|
  {
    if u != [] {
      DipMono(u[1..], d + Step(u[0]), e + Step(u[0]));
    }
  }

  lemma {:induction false} DipNet(u: seq<TokenTree>, d: int)
    requires d >= 0 && Dip(u, d).None?
    ensures d + Net(u) >= 0
    decreases |u|
  {
    if u != [] {
      DipNet(u[1..], d + Step(u[0]));
    }
  }

  lemma UntreeFront(ts: seq<TypeTree>)
    requires ts != []
    ensures Untree(ts) == UntreeNode(ts[0]) + Untree(ts[1..])
  {
    assert ts == [ts[0]] + ts[1..];
    UntreeAppend([ts[0]], ts[1..]);
    UntreeSnoc([], ts[0]);
    assert [] + [ts[0]] == [ts[0]];
  }

  lemma NonEmptyText(ts: seq<TypeTree>)
    ensures ts == [] <==> Untree(ts) == []
  {
    if ts != [] {
      UntreeFront(ts);
    }
  }

  /** Inside a group: no `<` or `>` as a plain token at any depth. */
  predicate Inner(ts: seq<TypeTree>)
  {
    WellFormed(ts) && NoStrayClose(ts)
  }

  /** The text of the contents of a group never goes below the group's
      depth, and comes back to it when nothing in it is left open. */
  lemma {:induction false} InnerText(ts: seq<TypeTree>)
    requires Inner(ts)
    ensures Dip(Untree(ts), 0).None? && Net(Untree(ts)) >= 0
    ensures AllClosed(ts) ==> Net(Untree(ts)) == 0
    decreases |Untree(ts)|, 1
  {
    if ts != [] {
      var u, w := UntreeNode(ts[0]), Untree(ts[1..]);
      UntreeFront(ts);
      assert Inner(ts[1..]) && (AllClosed(ts) ==> AllClosed(ts[1..])) by {
        forall k | 0 <= k < |ts| - 1 ensures ts[1..][k] == ts[k + 1] { }
      }
      NodeText(ts[0]);
      InnerText(ts[1..]);
      DipAppend(u, w, 0);
      DipMono(w, 0, Net(u));
      NetAppend(u, w);
    }
  }

  lemma {:induction false} NodeText(t: TypeTree)
    requires NodeOk(t) && !IsStrayClose(t)
    ensures Dip(UntreeNode(t), 0).None? && Net(UntreeNode(t)) >= 0
    ensures Closed(t) ==> Net(UntreeNode(t)) == 0
    decreases |UntreeNode(t)|, 0
  {
    match t
    case Token(tt) =>
      assert UntreeNode(t)[1..] == [];
    case Group(o, ch, c) =>
      var u := Untree(ch);
      var rest := u + OptSeq(c);
      assert UntreeNode(t) == [o] + rest;
      assert ([o] + rest)[1..] == rest;
      InnerText(ch);
      DipMono(u, 0, 1);
      DipAppend(u, OptSeq(c), 1);
      NetAppend(u, OptSeq(c));
      if c.Some? {
        assert OptSeq(c)[1..] == [];
      }
  }

  /** What `OpenOnRight` says of a group at the front of a level. */
  lemma GroupShape(a: seq<TypeTree>)
    requires WellFormed(a) && OpenOnRight(a) && a != [] && a[0].Group?
    ensures Inner(a[0].children) && OpenOnRight(a[0].children)
    ensures a[0].close.Some? ==> IsPunct(a[0].close.value, '>') && AllClosed(a[0].children)
    ensures a[0].close.None? ==> |a| == 1
  {
    assert NodeOk(a[0]);
    if a[0].close.Some? {
      assert AllClosed(a[0].children) by {
        if 0 < |a| - 1 { assert Closed(a[0]); } else { assert OpenNode(a[0]); }
      }
      AllClosedOpen(a[0].children);
    } else {
      assert OpenNode(a[0]);
    }
  }

  lemma GroupText(a: seq<TypeTree>)
    requires a != [] && a[0].Group?
    ensures Untree(a) == [a[0].open] + (Untree(a[0].children) + (OptSeq(a[0].close) + Untree(a[1..])))
  {
    var g := a[0];
    UntreeFront(a);
    assert UntreeNode(g) == [g.open] + Untree(g.children) + OptSeq(g.close);
  }

  /** After the `<` of a group at the front of a level, the depth first
      goes below zero at the group's `>`, or never when it is left open. */
  lemma GroupDip(a: seq<TypeTree>)
    requires WellFormed(a) && OpenOnRight(a) && a != [] && a[0].Group?
    ensures Inner(a[0].children) && OpenOnRight(a[0].children)
    ensures Untree(a) == [a[0].open] + (Untree(a[0].children) + (OptSeq(a[0].close) + Untree(a[1..])))
    ensures a[0].close.Some? ==> IsPunct(a[0].close.value, '>')
    ensures a[0].close.None? ==> a[1..] == []
    ensures Dip(Untree(a)[1..], 0) == if a[0].close.Some? then Some(|Untree(a[0].children)|) else None
  {
    var g := a[0];
    GroupShape(a);
    GroupText(a);
    InnerText(g.children);
    assert Untree(a)[1..] == Untree(g.children) + (OptSeq(g.close) + Untree(a[1..]));
    DipAfterInner(Untree(g.children), g.close, Untree(a[1..]));
  }

  /** A text that never dips, followed by a `>` that brings it back below
      zero, first dips at that `>`. */
  lemma DipAfterInner(u: seq<TokenTree>, c: Option<TokenTree>, w: seq<TokenTree>)
    requires Dip(u, 0).None? && Net(u) >= 0
    requires c.Some? ==> IsPunct(c.value, '>') && Net(u) == 0
    requires c.None? ==> w == []
    ensures Dip(u + (OptSeq(c) + w), 0) == if c.Some? then Some(|u|) else None
  {
    DipAppend(u, OptSeq(c) + w, 0);
    if c.None? {
      assert OptSeq(c) + w == [];
    } else {
      assert (OptSeq(c) + w)[0] == c.value;
    }
  }

  lemma FirstToken(a: seq<TypeTree>)
    requires a != []
    ensures Untree(a) != [] && Untree(a)[0] == if a[0].Token? then a[0].tt else a[0].open
  {
    UntreeFront(a);
  }

  /** The tree of a text is unique: two well-formed trees, each open only
      on the right, that stand for the same tokens are the same tree. So
      the contract of `BuildTypeTree` determines its result. */
  lemma {:induction false} TreeUnique(a: seq<TypeTree>, b: seq<TypeTree>)
    requires WellFormed(a) && OpenOnRight(a) && WellFormed(b) && OpenOnRight(b)
    requires Untree(a) == Untree(b)
    ensures a == b
    decreases |Untree(a)|, 1
  {
    NonEmptyText(a);
    NonEmptyText(b);
    if a != [] && b != [] {
      FirstToken(a);
      FirstToken(b);
      assert NodeOk(a[0]) && NodeOk(b[0]);
      if a[0].Token? {
        TokenUnique(a, b);
      } else {
        GroupUnique(a, b);
      }
    }
  }

  /** `TreeUnique` when the first token is not a `<`. */
  lemma {:induction false} TokenUnique(a: seq<TypeTree>, b: seq<TypeTree>)
    requires WellFormed(a) && OpenOnRight(a) && WellFormed(b) && OpenOnRight(b)
    requires Untree(a) == Untree(b) && a != [] && b != [] && a[0].Token? && b[0].Token?
    ensures a == b
    decreases |Untree(a)|, 0
  {
    UntreeFront(a);
    UntreeFront(b);
    TailShape(a);
    TailShape(b);
    var s := Untree(a);
    assert s == [a[0].tt] + Untree(a[1..]) && s == [b[0].tt] + Untree(b[1..]);
    assert Untree(a[1..]) == s[1..] == Untree(b[1..]);
    TreeUnique(a[1..], b[1..]);
    assert a == [a[0]] + a[1..] && b == [b[0]] + b[1..];
  }

  /** `TreeUnique` when both trees start with a group. */
  lemma {:induction false} GroupUnique(a: seq<TypeTree>, b: seq<TypeTree>)
    requires WellFormed(a) && OpenOnRight(a) && WellFormed(b) && OpenOnRight(b)
    requires Untree(a) == Untree(b) && a != [] && b != [] && a[0].Group? && b[0].Group?
    ensures a == b
    decreases |Untree(a)|, 0
  {
    GroupSplit(a, b);
    GroupShape(a);
    GroupShape(b);
    TailShape(a);
    TailShape(b);
    GroupText(a);
    TreeUnique(a[0].children, b[0].children);
    TreeUnique(a[1..], b[1..]);
    assert a == [a[0]] + a[1..] && b == [b[0]] + b[1..];
  }

  /** Two groups at the front of the same text end at the same `>`, or
      both run to the end. */
  lemma GroupSplit(a: seq<TypeTree>, b: seq<TypeTree>)
    requires WellFormed(a) && OpenOnRight(a) && WellFormed(b) && OpenOnRight(b)
    requires Untree(a) == Untree(b) && a != [] && b != [] && a[0].Group? && b[0].Group?
    ensures a[0].open == b[0].open && a[0].close == b[0].close
    ensures Untree(a[0].children) == Untree(b[0].children) && Untree(a[1..]) == Untree(b[1..])
  {
    GroupDip(a);
    GroupDip(b);
    var ga, gb := a[0], b[0];
    var r := Untree(a)[1..];
    assert ga.open == Untree(a)[0] == gb.open;
    assert r == Untree(ga.children) + (OptSeq(ga.close) + Untree(a[1..]));
    assert r == Untree(gb.children) + (OptSeq(gb.close) + Untree(b[1..]));
    SplitAt(r, Untree(ga.children), ga.close, Untree(a[1..]), Untree(gb.children), gb.close, Untree(b[1..]));
  }

  /** Splitting one text at the same place, or not at all, gives the same parts. */
  lemma SplitAt(r: seq<TokenTree>, u: seq<TokenTree>, c: Option<TokenTree>, w: seq<TokenTree>,
                u': seq<TokenTree>, c': Option<TokenTree>, w': seq<TokenTree>)
    requires r == u + (OptSeq(c) + w) && r == u' + (OptSeq(c') + w')
    requires c.Some? <==> c'.Some?
    requires c.Some? ==> |u| == |u'|
    requires c.None? ==> w == [] && w' == []
    ensures u == u' && c == c' && w == w'
  {
    if c.Some? {
      assert u == r[..|u|] == u';
      assert c.value == r[|u|] == c'.value;
      assert w == r[|u| + 1..] == w';
    } else {
      assert u == r == u';
    }
  }

  lemma TailShape(a: seq<TypeTree>)
    requires WellFormed(a) && OpenOnRight(a) && a != []
    ensures WellFormed(a[1..]) && OpenOnRight(a[1..])
  {
    var t := a[1..];
    forall k | 0 <= k < |t| ensures t[k] == a[k + 1] { }
  }

  /** `Map<K, V>` has one top-level group holding `K, V`, so its comma is
      not at the top level. */
  lemma MapOfKV(sp: Span, tree: seq<TypeTree>)
    requires Untree(tree) == [Ident("Map", sp), Punct('<', Alone, sp), Ident("K", sp),
                              Punct(',', Alone, sp), Ident("V", sp), Punct('>', Alone, sp)]
    requires WellFormed(tree) && OpenOnRight(tree)
    ensures tree == [Token(Ident("Map", sp)),
                     TypeTree.Group(Punct('<', Alone, sp),
                                    [Token(Ident("K", sp)), Token(Punct(',', Alone, sp)), Token(Ident("V", sp))],
                                    Some(Punct('>', Alone, sp)))]
  {
    var e := KVTree(sp);
    TreeUnique(tree, e);
  }

  lemma KVTree(sp: Span) returns (e: seq<TypeTree>)
    ensures e == [Token(Ident("Map", sp)),
                  TypeTree.Group(Punct('<', Alone, sp),
                                 [Token(Ident("K", sp)), Token(Punct(',', Alone, sp)), Token(Ident("V", sp))],
                                 Some(Punct('>', Alone, sp)))]
    ensures WellFormed(e) && OpenOnRight(e)
    ensures Untree(e) == [Ident("Map", sp), Punct('<', Alone, sp), Ident("K", sp),
                          Punct(',', Alone, sp), Ident("V", sp), Punct('>', Alone, sp)]
  {
    var g := KVGroup(sp);
    var m := Token(Ident("Map", sp));
    e := [m, g];
    UntreeSnoc([], m);
    assert [] + [m] == [m];
    assert Untree([m]) == [Ident("Map", sp)];
    UntreeSnoc([m], g);
    assert [m] + [g] == e;
    assert Untree(e) == [Ident("Map", sp)] + UntreeNode(g);
    assert WellFormed(e) by {
      forall i | 0 <= i < 2 ensures NodeOk(e[i]) { }
    }
    assert AllClosed(e) by {
      forall i | 0 <= i < 2 ensures Closed(e[i]) { }
    }
    AllClosedOpen(e);
  }

  lemma KVGroup(sp: Span) returns (g: TypeTree)
    ensures g == TypeTree.Group(Punct('<', Alone, sp),
                                [Token(Ident("K", sp)), Token(Punct(',', Alone, sp)), Token(Ident("V", sp))],
                                Some(Punct('>', Alone, sp)))
    ensures NodeOk(g) && Closed(g) && !IsStrayClose(g)
    ensures UntreeNode(g) == [Punct('<', Alone, sp), Ident("K", sp), Punct(',', Alone, sp),
                              Ident("V", sp), Punct('>', Alone, sp)]
  {
    var k, c, v := Token(Ident("K", sp)), Token(Punct(',', Alone, sp)), Token(Ident("V", sp));
    var inner := [k, c, v];
    g := TypeTree.Group(Punct('<', Alone, sp), inner, Some(Punct('>', Alone, sp)));
    UntreeSnoc([], k);
    UntreeSnoc([k], c);
    UntreeSnoc([k, c], v);
    assert [] + [k] == [k] && [k] + [c] == [k, c] && [k, c] + [v] == inner;
    assert NoStrayClose(inner) by {
      forall i | 0 <= i < 3 ensures !IsStrayClose(inner[i]) { }
    }
    assert WellFormed(inner) by {
      forall i | 0 <= i < 3 ensures NodeOk(inner[i]) { }
    }
    assert AllClosed(inner) by {
      forall i | 0 <= i < 3 ensures Closed(inner[i]) { }
    }
  }

  // ---------------------------------------------------------------------
  // The errors `type_tree` reports, by an independent scan of the input

  /** `opens`: spans of the `<` still open; `strays`: spans of every `>`
      met while nothing was open. */
  datatype ScanState = ScanState(opens: seq<Span>, strays: seq<Span>)

  function ScanStep(st: ScanState, t: TokenTree): ScanState
  {
    if IsPunct(t, '<') then st.(opens := st.opens + [t.span])
    else if IsPunct(t, '>') then
      if st.opens == [] then st.(strays := st.strays + [t.span])
      else st.(opens := st.opens[..|st.opens| - 1])
    else st
  }

  function Scan(s: seq<TokenTree>): ScanState
  {
    if s == [] then ScanState([], []) else ScanStep(Scan(s[..|s| - 1]), s[|s| - 1])
  }

  /** One "Unexpected >" per stray `>`, in order, then one "Unclosed group"
      per `<` left open, innermost first. */
  function TreeErrors(st: ScanState): seq<Emission>
  {
    ErrorsAt(UnexpectedClose, st.strays) + ErrorsAt(UnclosedGroup, Reverse(st.opens))
  }

  lemma ErrorsAtSnoc(kind: ErrorKind, spans: seq<Span>, s: Span)
    ensures ErrorsAt(kind, spans + [s]) == ErrorsAt(kind, spans) + [CompileError(kind, Some(s))]
  {
    var l := ErrorsAt(kind, spans + [s]);
    var r := ErrorsAt(kind, spans) + [CompileError(kind, Some(s))];
    assert |l| == |r|;
    forall k | 0 <= k < |l| ensures l[k] == r[k] {
      assert (spans + [s])[k] == if k < |spans| then spans[k] else s;
    }
  }

  // ---------------------------------------------------------------------
  // `type_tree` itself

  type Frame = (TokenTree, seq<TypeTree>)

  /** The tokens consumed so far that the open frames stand for. */
  ghost function StackText(stac: seq<Frame>): seq<TokenTree>
  {
    if stac == [] then []
    else StackText(stac[..|stac| - 1]) + Untree(stac[|stac| - 1].1) + [stac[|stac| - 1].0]
  }

  ghost predicate FramesOk(stac: seq<Frame>)
  {
    forall k :: 0 <= k < |stac| ==>
      WellFormed(stac[k].1) && AllClosed(stac[k].1) && (k > 0 ==> NoStrayClose(stac[k].1))
  }

  ghost predicate FramesMatch(stac: seq<Frame>, opens: seq<Span>)
  {
    && |stac| <= |opens|
    && forall k :: 0 <= k < |stac| ==> IsPunct(stac[k].0, '<') && stac[k].0.span == opens[k]
  }

  lemma ScanSnoc(prefix: seq<TokenTree>, tt: TokenTree)
    ensures Scan(prefix + [tt]) == ScanStep(Scan(prefix), tt)
  {
    assert (prefix + [tt])[..|prefix|] == prefix;
  }

  lemma WellFormedSnoc(ts: seq<TypeTree>, t: TypeTree)
    requires WellFormed(ts) && NodeOk(t)
    ensures WellFormed(ts + [t])
  {
    forall k | 0 <= k < |ts| + 1 ensures NodeOk((ts + [t])[k]) {
      if k < |ts| { assert (ts + [t])[k] == ts[k]; }
    }
  }

  lemma NoStrayCloseSnoc(ts: seq<TypeTree>, t: TypeTree)
    requires NoStrayClose(ts) && !IsStrayClose(t)
    ensures NoStrayClose(ts + [t])
  {
    forall k | 0 <= k < |ts| + 1 ensures !IsStrayClose((ts + [t])[k]) {
      if k < |ts| { assert (ts + [t])[k] == ts[k]; }
    }
  }

  lemma UntreeSnoc(ts: seq<TypeTree>, t: TypeTree)
    ensures Untree(ts + [t]) == Untree(ts) + UntreeNode(t)
  {
    assert (ts + [t])[..|ts|] == ts;
  }

  /** The loop invariant of the first loop of `type_tree`, after the
      tokens `prefix` have been consumed. */
  ghost predicate ForInv(prefix: seq<TokenTree>, stac: seq<Frame>, current: seq<TypeTree>, errs: seq<Emission>)
  {
    && StackText(stac) + Untree(current) == prefix
    && |stac| == |Scan(prefix).opens| && FramesMatch(stac, Scan(prefix).opens)
    && errs == ErrorsAt(UnexpectedClose, Scan(prefix).strays)
    && FramesOk(stac) && WellFormed(current) && AllClosed(current)
    && (|stac| > 0 ==> NoStrayClose(current))
  }

  lemma OpenStep(args: seq<TokenTree>, i: nat, stac: seq<Frame>, current: seq<TypeTree>, errs: seq<Emission>)
    requires i < |args| && ForInv(args[..i], stac, current, errs) && IsPunct(args[i], '<')
    ensures ForInv(args[..i + 1], stac + [(args[i], current)], [], errs)
  {
    var prefix, tt := args[..i], args[i];
    assert args[..i + 1] == prefix + [tt];
    ScanSnoc(prefix, tt);
    var stac' := stac + [(tt, current)];
    assert stac'[..|stac|] == stac;
    assert StackText(stac') == prefix + [tt];
    var o := Scan(prefix).opens + [tt.span];
    forall k | 0 <= k < |stac'| ensures IsPunct(stac'[k].0, '<') && stac'[k].0.span == o[k] {
      if k < |stac| { assert stac'[k] == stac[k]; }
    }
    forall k | 0 <= k < |stac'|
      ensures WellFormed(stac'[k].1) && AllClosed(stac'[k].1) && (k > 0 ==> NoStrayClose(stac'[k].1))
    {
      if k < |stac| { assert stac'[k] == stac[k]; }
    }
  }

  /** Closing the innermost frame with `g` keeps the text consumed so far. */
  lemma PopText(stac: seq<Frame>, current: seq<TypeTree>, close: Option<TokenTree>)
    requires |stac| > 0
    ensures var j := |stac| - 1;
      StackText(stac[..j]) + Untree(stac[j].1 + [TypeTree.Group(stac[j].0, current, close)])
      == StackText(stac) + Untree(current) + OptSeq(close)
  {
    var j := |stac| - 1;
    var g := TypeTree.Group(stac[j].0, current, close);
    UntreeSnoc(stac[j].1, g);
    assert UntreeNode(g) == [stac[j].0] + Untree(current) + OptSeq(close);
  }

  lemma PopFrames(stac: seq<Frame>, opens: seq<Span>)
    requires FramesOk(stac) && FramesMatch(stac, opens) && |stac| > 0
    ensures FramesOk(stac[..|stac| - 1]) && FramesMatch(stac[..|stac| - 1], opens)
    ensures IsPunct(stac[|stac| - 1].0, '<') && stac[|stac| - 1].0.span == opens[|stac| - 1]
    ensures WellFormed(stac[|stac| - 1].1) && AllClosed(stac[|stac| - 1].1)
    ensures |stac| > 1 ==> NoStrayClose(stac[|stac| - 1].1)
  {
    var s' := stac[..|stac| - 1];
    forall k | 0 <= k < |s'| ensures s'[k] == stac[k] { }
  }

  lemma PopFramesMatch(stac: seq<Frame>, opens: seq<Span>)
    requires FramesMatch(stac, opens) && |stac| == |opens| > 0
    ensures FramesMatch(stac[..|stac| - 1], opens[..|opens| - 1])
  {
    var s', o' := stac[..|stac| - 1], opens[..|opens| - 1];
    forall k | 0 <= k < |s'| ensures s'[k] == stac[k] && o'[k] == opens[k] { }
  }

  /** The new `current` after a frame is closed. */
  lemma PopNode(stac: seq<Frame>, opens: seq<Span>, current: seq<TypeTree>, close: Option<TokenTree>)
    requires FramesOk(stac) && FramesMatch(stac, opens) && |stac| > 0
    requires WellFormed(current) && NoStrayClose(current)
    requires close.Some? ==> IsPunct(close.value, '>')
    requires if close.Some? then AllClosed(current) else OpenOnRight(current)
    ensures var j := |stac| - 1;
      var c := stac[j].1 + [TypeTree.Group(stac[j].0, current, close)];
      && WellFormed(c) && (j > 0 ==> NoStrayClose(c))
      && (if close.Some? then AllClosed(c) else OpenOnRight(c))
  {
    var j := |stac| - 1;
    PopFrames(stac, opens);
    var g := TypeTree.Group(stac[j].0, current, close);
    assert NodeOk(g);
    WellFormedSnoc(stac[j].1, g);
    if close.Some? {
      AllClosedSnoc(stac[j].1, g);
    } else {
      OpenSnoc(stac[j].1, g);
    }
    if j > 0 {
      NoStrayCloseSnoc(stac[j].1, g);
    }
  }

  lemma CloseStep(args: seq<TokenTree>, i: nat, stac: seq<Frame>, current: seq<TypeTree>, errs: seq<Emission>)
    requires i < |args| && ForInv(args[..i], stac, current, errs) && IsPunct(args[i], '>') && |stac| > 0
    ensures
      var j := |stac| - 1;
      ForInv(args[..i + 1], stac[..j], stac[j].1 + [TypeTree.Group(stac[j].0, current, Some(args[i]))], errs)
  {
    var prefix, tt := args[..i], args[i];
    assert args[..i + 1] == prefix + [tt];
    ScanSnoc(prefix, tt);
    var st := Scan(prefix);
    assert Scan(prefix + [tt]) == st.(opens := st.opens[..|st.opens| - 1]);
    PopText(stac, current, Some(tt));
    PopFrames(stac, st.opens);
    PopFramesMatch(stac, st.opens);
    PopNode(stac, st.opens, current, Some(tt));
  }

  lemma StrayStep(args: seq<TokenTree>, i: nat, stac: seq<Frame>, current: seq<TypeTree>, errs: seq<Emission>)
    requires i < |args| && ForInv(args[..i], stac, current, errs) && IsPunct(args[i], '>') && stac == []
    ensures ForInv(args[..i + 1], stac, current + [Token(args[i])], errs + [CompileError(UnexpectedClose, Some(args[i].span))])
  {
    var prefix, tt := args[..i], args[i];
    assert args[..i + 1] == prefix + [tt];
    ScanSnoc(prefix, tt);
    ErrorsAtSnoc(UnexpectedClose, Scan(prefix).strays, tt.span);
    UntreeSnoc(current, Token(tt));
    WellFormedSnoc(current, Token(tt));
    AllClosedSnoc(current, Token(tt));
  }

  lemma OtherStep(args: seq<TokenTree>, i: nat, stac: seq<Frame>, current: seq<TypeTree>, errs: seq<Emission>)
    requires i < |args| && ForInv(args[..i], stac, current, errs) && !IsPunct(args[i], '<') && !IsPunct(args[i], '>')
    ensures ForInv(args[..i + 1], stac, current + [Token(args[i])], errs)
  {
    var prefix, tt := args[..i], args[i];
    assert args[..i + 1] == prefix + [tt];
    ScanSnoc(prefix, tt);
    UntreeSnoc(current, Token(tt));
    WellFormedSnoc(current, Token(tt));
    AllClosedSnoc(current, Token(tt));
    if |stac| > 0 {
      NoStrayCloseSnoc(current, Token(tt));
    }
  }

  /** The invariant of the draining loop: `errs0` are the errors of the
      first loop and `opens` the spans of the frames it left open. */
  ghost predicate DrainInv(args: seq<TokenTree>, opens: seq<Span>, errs0: seq<Emission>,
                           stac: seq<Frame>, current: seq<TypeTree>, errs: seq<Emission>)
  {
    && StackText(stac) + Untree(current) == args
    && FramesMatch(stac, opens)
    && errs == errs0 + ErrorsAt(UnclosedGroup, Reverse(opens[|stac|..]))
    && FramesOk(stac) && WellFormed(current) && OpenOnRight(current)
    && (|stac| > 0 ==> NoStrayClose(current))
  }

  lemma DrainStep(args: seq<TokenTree>, opens: seq<Span>, errs0: seq<Emission>,
                  stac: seq<Frame>, current: seq<TypeTree>, errs: seq<Emission>)
    requires DrainInv(args, opens, errs0, stac, current, errs) && |stac| > 0
    ensures
      var j := |stac| - 1;
      DrainInv(args, opens, errs0, stac[..j], stac[j].1 + [TypeTree.Group(stac[j].0, current, None)],
               errs + [CompileError(UnclosedGroup, Some(stac[j].0.span))])
  {
    var j := |stac| - 1;
    PopText(stac, current, None);
    PopFrames(stac, opens);
    PopNode(stac, opens, current, None);
    UnclosedStep(opens, j);
    var e := ErrorsAt(UnclosedGroup, Reverse(opens[j + 1..]));
    assert errs0 + (e + [CompileError(UnclosedGroup, Some(opens[j]))])
        == errs0 + e + [CompileError(UnclosedGroup, Some(opens[j]))];
  }

  lemma UnclosedStep(opens: seq<Span>, j: nat)
    requires j < |opens|
    ensures ErrorsAt(UnclosedGroup, Reverse(opens[j..]))
         == ErrorsAt(UnclosedGroup, Reverse(opens[j + 1..])) + [CompileError(UnclosedGroup, Some(opens[j]))]
  {
    assert opens[j..][1..] == opens[j + 1..];
    ErrorsAtSnoc(UnclosedGroup, Reverse(opens[j + 1..]), opens[j]);
  }

  lemma DrainStart(args: seq<TokenTree>, stac: seq<Frame>, current: seq<TypeTree>, errs: seq<Emission>)
    requires ForInv(args, stac, current, errs)
    ensures DrainInv(args, Scan(args).opens, errs, stac, current, errs)
  {
    assert Scan(args).opens[|stac|..] == [];
    AllClosedOpen(current);
  }

  lemma DrainEnd(args: seq<TokenTree>, errs0: seq<Emission>, current: seq<TypeTree>, errs: seq<Emission>)
    requires errs0 == ErrorsAt(UnexpectedClose, Scan(args).strays)
    requires DrainInv(args, Scan(args).opens, errs0, [], current, errs)
    ensures Untree(current) == args && WellFormed(current) && OpenOnRight(current)
    ensures errs == TreeErrors(Scan(args))
  {
    assert Scan(args).opens[0..] == Scan(args).opens;
  }

  /** `type_tree`: an explicit stack of open `<` frames and a `current`
      buffer. A `>` with an empty stack is reported and kept as a token; each
      frame left open at the end is reported and closed without a `>`,
      innermost first. */
  method BuildTypeTree(args: seq<TokenTree>) returns (tree: seq<TypeTree>, errs: seq<Emission>)
    ensures Untree(tree) == args
    ensures WellFormed(tree) && OpenOnRight(tree)
    ensures errs == TreeErrors(Scan(args))
  {
    var stac: seq<Frame>, current: seq<TypeTree> := [], [];
    errs := [];
    for i := 0 to |args|
      invariant ForInv(args[..i], stac, current, errs)
    {
      var tt := args[i];
      if IsPunct(tt, '<') {
        OpenStep(args, i, stac, current, errs);
        stac := stac + [(tt, current)];
        current := [];
      } else if IsPunct(tt, '>') {
        if |stac| > 0 {
          CloseStep(args, i, stac, current, errs);
          var (open, parent) := stac[|stac| - 1];
          stac := stac[..|stac| - 1];
          current := parent + [TypeTree.Group(open, current, Some(tt))];
        } else {
          StrayStep(args, i, stac, current, errs);
          errs := errs + [CompileError(UnexpectedClose, Some(tt.span))];
          current := current + [Token(tt)];
        }
      } else {
        OtherStep(args, i, stac, current, errs);
        current := current + [Token(tt)];
      }
    }
    assert args[..|args|] == args;
    ghost var opens := Scan(args).opens;
    ghost var errs0 := errs;
    DrainStart(args, stac, current, errs);
    while |stac| > 0
      invariant DrainInv(args, opens, errs0, stac, current, errs)
      decreases |stac|
    {
      DrainStep(args, opens, errs0, stac, current, errs);
      var (open, parent) := stac[|stac| - 1];
      stac := stac[..|stac| - 1];
      current := parent + [TypeTree.Group(open, current, None)];
      errs := errs + [CompileError(UnclosedGroup, Some(open.span))];
    }
    DrainEnd(args, errs0, current, errs);
    tree := current;
  }
}
