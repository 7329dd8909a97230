/** Attributes on a declaration (src/imp.rs:99-110, 405-444): recognising
    `#[structstruck::name]`, and carrying `#[structstruck::each[..]]` (and
    its deprecated spelling `#[strikethrough[..]]`) from a declaration onto
    every declaration nested in it. */
module Attributes {
  import opened Common
  import opened Tokens
  import opened Diagnostics

  /** `get_value_tokens`: the tokens of the value, none when it is empty. */
  function ValueTokens(a: Attribute): seq<TokenTree>
  {
    match a.value
    case GroupValue(_, ts) => ts
    case Equals(_, ts) => ts
    case Empty => []
  }

  /** `check_crate_attr`: the path is exactly `structstruck :: name`, the
      first colon joint to the second. */
  predicate CheckCrateAttr(a: Attribute, name: string)
  {
    && |a.path| == 4
    && IsIdent(a.path[0], CrateName)
    && IsPunct(a.path[1], ':') && a.path[1].spacing == Joint
    && IsPunct(a.path[2], ':')
    && IsIdent(a.path[3], name)
  }

  /** The deprecated spelling: a path that is exactly `strikethrough`. */
  predicate IsStrikethrough(a: Attribute)
  {
    |a.path| == 1 && IsIdent(a.path[0], "strikethrough")
  }

  /** An attribute that asks to be carried onto nested declarations. */
  predicate Propagates(a: Attribute)
  {
    IsStrikethrough(a) || CheckCrateAttr(a, "each")
  }

  /** An attribute names at most one crate attribute. */
  lemma CrateAttrUnique(a: Attribute, n1: string, n2: string)
    requires CheckCrateAttr(a, n1) && CheckCrateAttr(a, n2)
    ensures n1 == n2
  {
  }

  /** `#[structstruck::each]` is recognised, and is not recognised once the
      colons are spaced apart, the crate is another, or the path is longer. */
  lemma CrateAttrShape(sp: Span, v: AttributeValue)
    ensures var h := Punct('#', Alone, sp);
      && CheckCrateAttr(Attribute(h, None, sp, [Ident(CrateName, sp), Punct(':', Joint, sp), Punct(':', Alone, sp), Ident("each", sp)], v), "each")
      && !CheckCrateAttr(Attribute(h, None, sp, [Ident(CrateName, sp), Punct(':', Alone, sp), Punct(':', Alone, sp), Ident("each", sp)], v), "each")
      && !CheckCrateAttr(Attribute(h, None, sp, [Ident("serde", sp), Punct(':', Joint, sp), Punct(':', Alone, sp), Ident("each", sp)], v), "each")
      && !CheckCrateAttr(Attribute(h, None, sp, [Ident(CrateName, sp), Punct(':', Joint, sp), Punct(':', Alone, sp), Ident("each", sp), Punct(',', Alone, sp)], v), "each")
      && !CheckCrateAttr(Attribute(h, None, sp, [Ident("each", sp)], v), "each")
  {
  }

  /** The attribute that is carried: the contents of the brackets become
      the whole path and the value is left empty. */
  function Template(a: Attribute): (r: Attribute)
    requires a.value.GroupValue?
    ensures r.path == a.value.tokens && r.value == Empty
    ensures r.hash == a.hash && r.bang == a.bang && r.brackets == a.value.brackets
  {
    Attribute(a.hash, a.bang, a.value.brackets, a.value.tokens, Empty)
  }

  /** What the `retain` closure appends to the output for one attribute:
      the deprecation notice for `strikethrough`, then, for an attribute that
      propagates but has no bracketed value, the "must be a [group]" error. */
  function AttrLog(a: Attribute): seq<Emission>
  {
    (if IsStrikethrough(a) then [StrikethroughDeprecated(a.path[0].span)] else [])
    + (if Propagates(a) && !a.value.GroupValue? then [CompileError(EachNotGroup, StreamSpan(ValueTokens(a)))] else [])
  }

  /** The log of the whole `retain`, attribute by attribute. */
  function StrikeLog(attrs: seq<Attribute>): seq<Emission>
  {
    if attrs == [] then [] else StrikeLog(attrs[..|attrs| - 1]) + AttrLog(attrs[|attrs| - 1])
  }

  /** The templates the `retain` pushes, in order. */
  function Templates(attrs: seq<Attribute>): seq<Attribute>
  {
    if attrs == [] then []
    else
      var a := attrs[|attrs| - 1];
      Templates(attrs[..|attrs| - 1]) + (if Propagates(a) && a.value.GroupValue? then [Template(a)] else [])
  }

  predicate Stays(a: Attribute)
  {
    !Propagates(a)
  }

  /** The attributes the `retain` keeps. */
  function Kept(attrs: seq<Attribute>): seq<Attribute>
  {
    Filter(attrs, Stays)
  }

  /** One attribute's step of the three specification functions. */
  lemma StrikeSnoc(attrs: seq<Attribute>, i: nat)
    requires i < |attrs|
    ensures var a, pre, post := attrs[i], attrs[..i], attrs[..i + 1];
      && Kept(post) == Kept(pre) + (if Stays(a) then [a] else [])
      && Templates(post) == Templates(pre) + (if Propagates(a) && a.value.GroupValue? then [Template(a)] else [])
      && StrikeLog(post) == StrikeLog(pre) + AttrLog(a)
  {
    assert attrs[..i + 1][..i] == attrs[..i];
  }

  /** `strike_through_attributes`: remove every propagating attribute from
      `decAttrs`, pushing a template for each onto `strikeAttrs` (or logging
      an error when it has no `[..]`), then put all of `strikeAttrs` in front
      of what is left. */
  method StrikeThroughAttributes(decAttrs: seq<Attribute>, strikeAttrs: seq<Attribute>)
    returns (newDec: seq<Attribute>, newStrike: seq<Attribute>, log: seq<Emission>)
    ensures newStrike == strikeAttrs + Templates(decAttrs)
    ensures newDec == newStrike + Kept(decAttrs)
    ensures log == StrikeLog(decAttrs)
  {
    var kept := [];
    newStrike, log := strikeAttrs, [];
    for i := 0 to |decAttrs|
      invariant kept == Kept(decAttrs[..i])
      invariant newStrike == strikeAttrs + Templates(decAttrs[..i])
      invariant log == StrikeLog(decAttrs[..i])
    {
      var attr := decAttrs[i];
      StrikeSnoc(decAttrs, i);
      var each := CheckCrateAttr(attr, "each");
      var strikethrough := |attr.path| == 1 && IsIdent(attr.path[0], "strikethrough");
      var notice := if strikethrough then [StrikethroughDeprecated(attr.path[0].span)] else [];
      if strikethrough || each {
        match attr.value
        case GroupValue(brackets, value) =>
          newStrike := newStrike + [Attribute(attr.hash, attr.bang, brackets, value, Empty)];
          log := log + notice;
        case _ =>
          log := log + (notice + [CompileError(EachNotGroup, StreamSpan(ValueTokens(attr)))]);
      } else {
        kept := kept + [attr];
        log := log + notice;
      }
    }
    assert decAttrs[..|decAttrs|] == decAttrs;
    newDec := newStrike + kept;
  }

  /** No attribute that asks to be carried is left among the kept ones, and
      every other attribute is kept. */
  lemma KeptExactly(attrs: seq<Attribute>, a: Attribute)
    requires a in attrs
    ensures a in Kept(attrs) <==> !Propagates(a)
  {
    if !Propagates(a) {
      FilterKeeps(attrs, Stays, a);
    }
  }

  predicate IsEachError(e: Emission)
  {
    e.CompileError? && e.kind == EachNotGroup
  }

  predicate IsDeprecation(e: Emission)
  {
    e.StrikethroughDeprecated?
  }

  lemma AttrLogCounts(a: Attribute)
    ensures Count(AttrLog(a), IsEachError) == (if Propagates(a) && !a.value.GroupValue? then 1 else 0)
    ensures Count(AttrLog(a), IsDeprecation) == (if IsStrikethrough(a) then 1 else 0)
  {
    var n := if IsStrikethrough(a) then [StrikethroughDeprecated(a.path[0].span)] else [];
    var e := if Propagates(a) && !a.value.GroupValue? then [CompileError(EachNotGroup, StreamSpan(ValueTokens(a)))] else [];
    CountAppend(n, e, IsEachError);
    CountAppend(n, e, IsDeprecation);
    if n != [] { assert n[..0] == []; }
    if e != [] { assert e[..0] == []; }
  }

  /** Every attribute that is removed either leaves a template or logs the
      "must be a [group]" error, and every `strikethrough` logs one
      deprecation notice. */
  lemma {:induction false} StrikeAccounting(attrs: seq<Attribute>)
    ensures |Templates(attrs)| + Count(StrikeLog(attrs), IsEachError)
         == |attrs| - |Kept(attrs)|
    ensures Count(StrikeLog(attrs), IsDeprecation) == Count(attrs, IsStrikethrough)
    decreases |attrs|
  {
    if attrs != [] {
      var n := |attrs| - 1;
      var a := attrs[n];
      StrikeAccounting(attrs[..n]);
      StrikeSnoc(attrs, n);
      assert attrs[..n + 1] == attrs;
      CountAppend(StrikeLog(attrs[..n]), AttrLog(a), IsEachError);
      CountAppend(StrikeLog(attrs[..n]), AttrLog(a), IsDeprecation);
      AttrLogCounts(a);
    }
  }

  lemma {:induction false} CountAppend<T>(s: seq<T>, t: seq<T>, p: T -> bool)
    ensures Count(s + t, p) == Count(s, p) + Count(t, p)
    decreases |t|
  {
    if t != [] {
      var n := |t| - 1;
      assert (s + t)[..|s + t| - 1] == s + t[..n];
      assert (s + t)[|s + t| - 1] == t[n];
      CountAppend(s, t[..n], p);
    } else {
      assert s + t == s;
    }
  }
}
