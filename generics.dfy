/** Generic parameter lists, and their re-projection at the use site of a
    lifted declaration (src/imp.rs, the tail of `recurse_through_type`):
    every parameter keeps its name, keeps its prefix only when the prefix is
    punctuation (the `'` of a lifetime), and loses its bound. */
module Generics {
  import opened Common
  import opened Tokens

  /** `: tokens` after a parameter name. */
  datatype GenericBound = GenericBound(colon: TokenTree, tokens: seq<TokenTree>)

  /** `prefix` is the `'` of a lifetime or the `const` of a const parameter. */
  datatype GenericParam = GenericParam(prefix: Option<TokenTree>, name: TokenTree, bound: Option<GenericBound>)

  /** `< p0 sep0 p1 sep1 ... >`, each parameter with the separator after it. */
  datatype GenericParamList = GenericParamList(
    lBracket: TokenTree,
    params: seq<(GenericParam, Option<TokenTree>)>,
    rBracket: TokenTree)

  function BoundTokens(b: Option<GenericBound>): seq<TokenTree>
  {
    if b.Some? then [b.value.colon] + b.value.tokens else []
  }

  function ParamTokens(p: GenericParam): seq<TokenTree>
  {
    OptSeq(p.prefix) + [p.name] + BoundTokens(p.bound)
  }

  function ParamsTokens(ps: seq<(GenericParam, Option<TokenTree>)>): seq<TokenTree>
  {
    if ps == [] then [] else ParamTokens(ps[0].0) + OptSeq(ps[0].1) + ParamsTokens(ps[1..])
  }

  /** The tokens of a parameter list as it is written. */
  function ListTokens(g: GenericParamList): seq<TokenTree>
  {
    [g.lBracket] + ParamsTokens(g.params) + [g.rBracket]
  }

  /** One parameter as it is written at a use site. */
  function UseSiteParam(p: GenericParam): (r: GenericParam)
    ensures r.name == p.name && r.bound.None?
    ensures r.prefix.Some? <==> p.prefix.Some? && p.prefix.value.Punct?
    ensures r.prefix.Some? ==> r.prefix == p.prefix
  {
    GenericParam(if p.prefix.Some? && p.prefix.value.Punct? then p.prefix else None, p.name, None)
  }

  function UseSiteParams(ps: seq<(GenericParam, Option<TokenTree>)>): (r: seq<(GenericParam, Option<TokenTree>)>)
    ensures |r| == |ps|
    ensures forall k :: 0 <= k < |ps| ==> r[k] == (UseSiteParam(ps[k].0), ps[k].1)
  {
    if ps == [] then [] else [(UseSiteParam(ps[0].0), ps[0].1)] + UseSiteParams(ps[1..])
  }

  function UseSite(g: GenericParamList): GenericParamList
  {
    g.(params := UseSiteParams(g.params))
  }

  /** What is appended after the name of a lifted declaration that has
      generics (src/imp.rs:568-583); nothing when it has none. */
  function UseSiteTokens(g: Option<GenericParamList>): seq<TokenTree>
  {
    if g.Some? then ListTokens(UseSite(g.value)) else []
  }

  /** A parameter that is already in use-site form. */
  predicate Plain(p: GenericParam)
  {
    p.bound.None? && (p.prefix.Some? ==> p.prefix.value.Punct?)
  }

  lemma UseSiteParamIdempotent(p: GenericParam)
    ensures Plain(UseSiteParam(p)) && UseSiteParam(UseSiteParam(p)) == UseSiteParam(p)
  {
  }

  /** Re-projecting a list that is already in use-site form changes nothing. */
  lemma {:induction false} UseSiteOfPlain(ps: seq<(GenericParam, Option<TokenTree>)>)
    requires forall k :: 0 <= k < |ps| ==> Plain(ps[k].0)
    ensures UseSiteParams(ps) == ps
  {
    if ps != [] {
      UseSiteOfPlain(ps[1..]);
      assert ps == [ps[0]] + ps[1..];
    }
  }

  lemma UseSiteIdempotent(g: GenericParamList)
    ensures UseSite(UseSite(g)) == UseSite(g)
  {
    UseSiteOfPlain(UseSite(g).params);
  }

  /** `a` is obtained from `b` by deleting elements. */
  ghost predicate Subsequence<T>(a: seq<T>, b: seq<T>)
    decreases |b|
  {
    if b == [] then a == []
    else
      || (a != [] && a[|a| - 1] == b[|b| - 1] && Subsequence(a[..|a| - 1], b[..|b| - 1]))
      || Subsequence(a, b[..|b| - 1])
  }

  lemma {:induction false} SubsequenceRefl<T>(a: seq<T>)
    ensures Subsequence(a, a)
    decreases |a|
  {
    if a != [] {
      SubsequenceRefl(a[..|a| - 1]);
    }
  }

  lemma {:induction false} SubsequenceEmptyLeft<T>(b: seq<T>)
    ensures Subsequence([], b)
    decreases |b|
  {
    if b != [] {
      SubsequenceEmptyLeft(b[..|b| - 1]);
    }
  }

  lemma {:induction false} SubsequenceConcat<T>(a1: seq<T>, b1: seq<T>, a2: seq<T>, b2: seq<T>)
    requires Subsequence(a1, b1) && Subsequence(a2, b2)
    ensures Subsequence(a1 + a2, b1 + b2)
    decreases |b2|
  {
    if b2 == [] {
      assert a2 == [];
      assert a1 + a2 == a1 && b1 + b2 == b1;
    } else {
      var b := b1 + b2;
      assert b[..|b| - 1] == b1 + b2[..|b2| - 1];
      assert b[|b| - 1] == b2[|b2| - 1];
      if a2 != [] && a2[|a2| - 1] == b2[|b2| - 1] && Subsequence(a2[..|a2| - 1], b2[..|b2| - 1]) {
        var a := a1 + a2;
        assert a[..|a| - 1] == a1 + a2[..|a2| - 1];
        assert a[|a| - 1] == a2[|a2| - 1];
        SubsequenceConcat(a1, b1, a2[..|a2| - 1], b2[..|b2| - 1]);
      } else {
        SubsequenceConcat(a1, b1, a2, b2[..|b2| - 1]);
      }
    }
  }

  lemma UseSiteParamTokens(p: GenericParam)
    ensures Subsequence(ParamTokens(UseSiteParam(p)), ParamTokens(p))
  {
    var q := UseSiteParam(p);
    var pre := OptSeq(q.prefix);
    if q.prefix.Some? {
      SubsequenceRefl(pre);
    } else {
      SubsequenceEmptyLeft(OptSeq(p.prefix));
    }
    SubsequenceRefl([p.name]);
    SubsequenceConcat(pre, OptSeq(p.prefix), [p.name], [p.name]);
    SubsequenceEmptyLeft(BoundTokens(p.bound));
    SubsequenceConcat(pre + [p.name], OptSeq(p.prefix) + [p.name], [], BoundTokens(p.bound));
    assert pre + [p.name] + [] == ParamTokens(q);
  }

  lemma {:induction false} UseSiteParamsTokens(ps: seq<(GenericParam, Option<TokenTree>)>)
    ensures Subsequence(ParamsTokens(UseSiteParams(ps)), ParamsTokens(ps))
    decreases |ps|
  {
    if ps == [] {
    } else {
      var qs := UseSiteParams(ps);
      assert qs[1..] == UseSiteParams(ps[1..]);
      UseSiteParamsTokens(ps[1..]);
      UseSiteParamTokens(ps[0].0);
      SubsequenceRefl(OptSeq(ps[0].1));
      SubsequenceConcat(ParamTokens(qs[0].0), ParamTokens(ps[0].0), OptSeq(ps[0].1), OptSeq(ps[0].1));
      SubsequenceConcat(ParamTokens(qs[0].0) + OptSeq(ps[0].1), ParamTokens(ps[0].0) + OptSeq(ps[0].1),
                        ParamsTokens(qs[1..]), ParamsTokens(ps[1..]));
    }
  }

  /** The use-site list is the written list with some tokens (bounds and
      identifier prefixes) deleted, and nothing added or reordered. */
  lemma UseSiteOnlyDeletes(g: GenericParamList)
    ensures Subsequence(ListTokens(UseSite(g)), ListTokens(g))
  {
    UseSiteParamsTokens(g.params);
    SubsequenceRefl([g.lBracket]);
    SubsequenceRefl([g.rBracket]);
    SubsequenceConcat([g.lBracket], [g.lBracket], ParamsTokens(UseSite(g).params), ParamsTokens(g.params));
    SubsequenceConcat([g.lBracket] + ParamsTokens(UseSite(g).params), [g.lBracket] + ParamsTokens(g.params),
                      [g.rBracket], [g.rBracket]);
  }

  /** `struct Inner<T: Bound>` is referred to as `Inner<T>`. */
  lemma BoundDropped(l: TokenTree, t: TokenTree, colon: TokenTree, bound: seq<TokenTree>, r: TokenTree)
    ensures UseSiteTokens(Some(GenericParamList(l, [(GenericParam(None, t, Some(GenericBound(colon, bound))), None)], r)))
            == [l, t, r]
  {
    var ps := [(GenericParam(None, t, Some(GenericBound(colon, bound))), None)];
    assert UseSiteParams(ps)[1..] == [];
    assert ParamsTokens(UseSiteParams(ps)) == [t];
  }
}
