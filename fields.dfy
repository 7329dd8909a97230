/** Struct fields (src/imp.rs:251-266, 323-403): the visibility marker of a
    field, the hint a field gives to a declaration nested in its type, and
    the transfer of a tuple field's visibility onto a declaration written in
    its type (`struct Foo(pub struct Bar());` makes `Bar` public). */
module Fields {
  import opened Common
  import opened Tokens
  import opened TypeTrees
  import opened TypeLists
  import opened Naming

  /** `pub` alone, or `pub` followed by a group such as `(crate)`. */
  datatype VisMarker = VisMarker(token1: TokenTree, token2: Option<TokenTree>)

  /** `make_pub_marker`. */
  function MakePubMarker(): (r: VisMarker)
    ensures IsPlainPub(Some(r))
  {
    VisMarker(Ident("pub", MixedSite), None)
  }

  /** `is_plain_pub`: exactly the one identifier `pub`. */
  predicate IsPlainPub(vis: Option<VisMarker>)
  {
    vis.Some? && IsIdent(vis.value.token1, "pub") && vis.value.token2.None?
  }

  lemma PlainPubExamples(sp: Span, g: TokenTree)
    ensures IsPlainPub(Some(VisMarker(Ident("pub", sp), None)))
    ensures !IsPlainPub(Some(VisMarker(Ident("pub", sp), Some(g))))
    ensures !IsPlainPub(None)
  {
  }

  /** The tokens of a visibility marker, none when there is no marker. */
  function VisTokens(vis: Option<VisMarker>): seq<TokenTree>
  {
    if vis.Some? then [vis.value.token1] + OptSeq(vis.value.token2) else []
  }

  predicate HasTopLevelPub(tree: seq<TypeTree>)
  {
    exists k :: 0 <= k < |tree| && tree[k].Token? && IsIdent(tree[k].tt, "pub")
  }

  /** The transfer (src/imp.rs:375-391): when the type has no `pub` of its
      own at the top level, the field's marker is taken away from the field
      and put in front of the type. The result is the new type and the
      field's visibility afterwards. */
  function TransferVisibility(tree: seq<TypeTree>, vis: Option<VisMarker>): (r: (seq<TypeTree>, Option<VisMarker>))
    ensures r.1 == vis <==> HasTopLevelPub(tree) || vis.None?
    ensures r.1 != vis ==> r.1.None? && r.0 == AsNodes(VisTokens(vis)) + tree
    ensures r.1 == vis ==> r.0 == tree
  {
    if HasTopLevelPub(tree) then (tree, vis)
    else if vis.Some? then (AsNodes(VisTokens(vis)) + tree, None)
    else (tree, None)
  }

  lemma UntreeAsNodes(ts: seq<TokenTree>)
    ensures Untree(AsNodes(ts)) == ts
    decreases |ts|
  {
    if ts != [] {
      var n := |ts| - 1;
      assert AsNodes(ts)[..n] == AsNodes(ts[..n]);
      UntreeAsNodes(ts[..n]);
      assert ts == ts[..n] + [ts[n]];
    }
  }

  /** No visibility token is lost or duplicated: the field's marker and the
      type's tokens together are the same before and after. */
  lemma TransferConserves(tree: seq<TypeTree>, vis: Option<VisMarker>)
    ensures var r := TransferVisibility(tree, vis);
      VisTokens(r.1) + Untree(r.0) == VisTokens(vis) + Untree(tree)
  {
    var r := TransferVisibility(tree, vis);
    if r.1 != vis {
      UntreeAppend(AsNodes(VisTokens(vis)), tree);
      UntreeAsNodes(VisTokens(vis));
    }
  }

  /** A second transfer changes nothing. */
  lemma TransferIdempotent(tree: seq<TypeTree>, vis: Option<VisMarker>)
    ensures var r := TransferVisibility(tree, vis);
      TransferVisibility(r.0, r.1) == r
  {
  }

  /** `struct Foo(pub struct Bar())`: the `pub` moves onto `Bar`, and the
      field itself is left without a marker. */
  lemma TransferExample(sp: Span)
    ensures var bar := [Token(Ident("struct", sp)), Token(Ident("Bar", sp))];
      TransferVisibility(bar, Some(VisMarker(Ident("pub", sp), None)))
        == ([Token(Ident("pub", sp))] + bar, None)
  {
    var bar := [Token(Ident("struct", sp)), Token(Ident("Bar", sp))];
    assert !HasTopLevelPub(bar) by {
      forall k | 0 <= k < |bar| ensures !IsIdent(bar[k].tt, "pub") {
        assert k == 0 || k == 1;
      }
    }
    assert VisTokens(Some(VisMarker(Ident("pub", sp), None))) == [Ident("pub", sp)];
    assert AsNodes([Ident("pub", sp)]) == [Token(Ident("pub", sp))];
  }

  /** The hint a named field gives (src/imp.rs:333-347): named after the
      field, without a raw-identifier prefix, and public when the field is
      plainly `pub` or the enclosing enum is public. The carried attributes
      `strike` are passed on as they are. */
  function NamedFieldHint(path: NameHints, fieldName: string, nameSpan: Span,
                          vis: Option<VisMarker>, inPubEnum: bool, strike: seq<Attribute>): (r: Hint)
    ensures r.nameHint == Some(GetNameHint(WithFieldName(path, StripRaw(fieldName)), None, nameSpan))
    ensures r.pubHint <==> IsPlainPub(vis) || inPubEnum
    ensures r.strike == strike
  {
    Hint(Some(GetNameHint(WithFieldName(path, StripRaw(fieldName)), None, nameSpan)), IsPlainPub(vis) || inPubEnum, strike)
  }

  /** The hint the `num`-th tuple field gives (src/imp.rs:362-398). The
      visibility is read after the transfer, so a marker that moved onto the
      nested declaration no longer makes it public through the hint. */
  function TupleFieldHint(path: NameHints, num: nat, span: Span, tree: seq<TypeTree>,
                          vis: Option<VisMarker>, inPubEnum: bool, strike: seq<Attribute>): (r: Hint)
    ensures r.nameHint == Some(GetNameHint(path, Some(num), span))
    ensures r.pubHint <==> IsPlainPub(TransferVisibility(tree, vis).1) || inPubEnum
    ensures r.strike == strike
  {
    var after := TransferVisibility(tree, vis).1;
    Hint(Some(GetNameHint(path, Some(num), span)), IsPlainPub(after) || inPubEnum, strike)
  }

  /** Once the marker has moved into the type, only the enclosing enum can
      make the hint public. */
  lemma MovedMarkerNotInHint(path: NameHints, num: nat, span: Span, tree: seq<TypeTree>,
                             vis: Option<VisMarker>, inPubEnum: bool, strike: seq<Attribute>)
    requires vis.Some? && !HasTopLevelPub(tree)
    ensures TupleFieldHint(path, num, span, tree, vis, inPubEnum, strike).pubHint == inPubEnum
  {
  }
}
