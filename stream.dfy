/** Token-stream rewrites of src/imp.rs that work on whole streams: the
    semicolon appended after a bare `type` declaration (233-249), inner
    attributes moved out of braces (268-304), and invisible groups
    flattened away (682-697). */
module Stream {
  import opened Tokens

  // ---------------------------------------------------------------------
  // hack_append_type_decl_semicolon

  /** The stream is a `type` declaration: it has an identifier `type` at
      the top level, and no other declaration keyword there. */
  predicate IsTypeDecl(input: seq<TokenTree>)
  {
    && (exists k :: 0 <= k < |input| && IsIdent(input[k], "type"))
    && (forall k :: 0 <= k < |input| ==> IsIdent(input[k], "type") || !IsDeclIdent(input[k]))
  }

  /** The declaration keywords that occur at the top level of a stream. */
  function DeclKeywords(input: seq<TokenTree>): set<string>
  {
    set k | 0 <= k < |input| && IsDeclIdent(input[k]) :: input[k].name
  }

  /** `hack_append_type_decl_semicolon`: a `;` with the call-site span is
      appended to a `type` declaration, and any other stream is returned
      as it is. */
  function HackAppendTypeDeclSemicolon(input: seq<TokenTree>): (r: seq<TokenTree>)
    ensures |input| <= |r| <= |input| + 1 && r[..|input|] == input
    ensures |r| == |input| + 1 <==> IsTypeDecl(input)
    ensures |r| != |input| ==> r[|input|] == Punct(';', Alone, CallSite)
  {
    if IsTypeDecl(input) then input + [Punct(';', Alone, CallSite)] else input
  }

  /** The test in other words: `type` is the one declaration keyword
      present at the top level. */
  lemma TypeDeclIffOnlyTypeKeyword(input: seq<TokenTree>)
    ensures IsTypeDecl(input) <==> DeclKeywords(input) == {"type"}
  {
    var ks := DeclKeywords(input);
    if IsTypeDecl(input) {
      var k :| 0 <= k < |input| && IsIdent(input[k], "type");
      assert "type" in ks;
      forall n | n in ks ensures n == "type" {
        var j :| 0 <= j < |input| && IsDeclIdent(input[j]) && input[j].name == n;
        assert IsIdent(input[j], "type");
      }
      assert ks == {"type"};
    }
    if ks == {"type"} {
      assert "type" in ks;
      var k :| 0 <= k < |input| && IsDeclIdent(input[k]) && input[k].name == "type";
      assert IsIdent(input[k], "type");
      forall j | 0 <= j < |input| ensures IsIdent(input[j], "type") || !IsDeclIdent(input[j]) {
        if IsDeclIdent(input[j]) {
          assert input[j].name in ks;
        }
      }
    }
  }

  /** `type A = u8` gets its semicolon; `struct A { b: type }` does not,
      nor does a stream with no `type` at all. */
  lemma TypeDeclExamples(sp: Span)
    ensures var ty := [Ident("type", sp), Ident("A", sp), Punct('=', Alone, sp), Ident("u8", sp)];
      HackAppendTypeDeclSemicolon(ty) == ty + [Punct(';', Alone, CallSite)]
    ensures var st := [Ident("struct", sp), Ident("type", sp)];
      HackAppendTypeDeclSemicolon(st) == st
    ensures var fn := [Ident("fn", sp), Ident("f", sp)];
      HackAppendTypeDeclSemicolon(fn) == fn
  {
    var ty := [Ident("type", sp), Ident("A", sp), Punct('=', Alone, sp), Ident("u8", sp)];
    assert IsIdent(ty[0], "type");
    assert IsTypeDecl(ty) by {
      forall k | 0 <= k < |ty| ensures IsIdent(ty[k], "type") || !IsDeclIdent(ty[k]) {
        assert k == 0 || k == 1 || k == 2 || k == 3;
      }
    }
    var st := [Ident("struct", sp), Ident("type", sp)];
    assert !IsIdent(st[0], "type") && IsDeclIdent(st[0]);
    var fn := [Ident("fn", sp), Ident("f", sp)];
    assert !IsTypeDecl(fn) by {
      forall k | 0 <= k < |fn| ensures !IsIdent(fn[k], "type") {
        assert k == 0 || k == 1;
      }
    }
  }

  // ---------------------------------------------------------------------
  // move_out_inner_attrs

  /** The stream starts with an inner attribute `# ! [..]`. */
  predicate StartsInner(gt: seq<TokenTree>)
  {
    |gt| >= 3 && IsPunct(gt[0], '#') && IsPunct(gt[1], '!') && gt[2].Group?
  }

  /** The inner `loop` of `move_out_inner_attrs` on the contents of one
      brace group: the leading inner attributes, each as its `#` and its
      group (the `!` dropped), and the rest of the contents. */
  function Hoist(gt: seq<TokenTree>): (seq<TokenTree>, seq<TokenTree>)
    decreases |gt|
  {
    if StartsInner(gt) then
      var h := Hoist(gt[3..]);
      ([gt[0], gt[2]] + h.0, h.1)
    else ([], gt)
  }

  /** A run of inner attributes with the `!` of each dropped. */
  function DropBangs(s: seq<TokenTree>): seq<TokenTree>
    decreases |s|
  {
    if |s| < 3 then [] else [s[0], s[2]] + DropBangs(s[3..])
  }

  /** The attributes given back as `# group` pairs. */
  predicate AttrPairs(p: seq<TokenTree>)
    decreases |p|
  {
    p == [] || (|p| >= 2 && IsPunct(p[0], '#') && p[1].Group? && AttrPairs(p[2..]))
  }

  /** What `Hoist` leaves: a suffix of the contents that does not start
      with another inner attribute. */
  lemma {:induction false} HoistRest(gt: seq<TokenTree>)
    ensures IsSuffix(Hoist(gt).1, gt) && !StartsInner(Hoist(gt).1)
    decreases |gt|
  {
    if StartsInner(gt) {
      var rest := gt[3..];
      HoistRest(rest);
      var r := Hoist(rest).1;
      assert gt[|gt| - |r|..] == rest[|rest| - |r|..];
    } else {
      assert gt[|gt| - |gt|..] == gt;
    }
  }

  /** What `Hoist` takes: exactly the tokens before the rest, with every
      `!` dropped, two tokens kept for every three taken. */
  lemma {:induction false} HoistTaken(gt: seq<TokenTree>)
    ensures |Hoist(gt).1| <= |gt|
    ensures var n := |gt| - |Hoist(gt).1|;
      Hoist(gt).0 == DropBangs(gt[..n]) && 2 * n == 3 * |Hoist(gt).0|
    decreases |gt|
  {
    if StartsInner(gt) {
      var rest := gt[3..];
      HoistTaken(rest);
      var m := |rest| - |Hoist(rest).1|;
      var pre := gt[..m + 3];
      assert pre[3..] == rest[..m];
      assert pre[0] == gt[0] && pre[2] == gt[2];
    } else {
      assert gt[..0] == [];
    }
  }

  /** The attributes taken are `# group` pairs. */
  lemma {:induction false} HoistPairs(gt: seq<TokenTree>)
    ensures AttrPairs(Hoist(gt).0)
    decreases |gt|
  {
    if StartsInner(gt) {
      HoistPairs(gt[3..]);
      assert ([gt[0], gt[2]] + Hoist(gt[3..]).0)[2..] == Hoist(gt[3..]).0;
    }
  }

  predicate IsSuffix(a: seq<TokenTree>, b: seq<TokenTree>)
  {
    |a| <= |b| && a == b[|b| - |a|..]
  }

  predicate IsBrace(e: TokenTree)
  {
    e.Group? && e.delimiter == Brace
  }

  /** One top-level token after the rewrite: a brace group keeps its span
      and loses its leading inner attributes; anything else is unchanged. */
  function Rebuilt(e: TokenTree): TokenTree
  {
    if IsBrace(e) then Group(Brace, Hoist(e.stream).1, e.span) else e
  }

  /** The attributes taken out of one top-level token. */
  function Hoisted(e: TokenTree): seq<TokenTree>
  {
    if IsBrace(e) then Hoist(e.stream).0 else []
  }

  /** `prefix` of `move_out_inner_attrs`: all attributes taken out, in
      order. */
  function Prefix(input: seq<TokenTree>): seq<TokenTree>
  {
    if input == [] then [] else Prefix(input[..|input| - 1]) + Hoisted(input[|input| - 1])
  }

  /** `ret` of `move_out_inner_attrs`: the top-level tokens rebuilt. */
  function Body(input: seq<TokenTree>): (r: seq<TokenTree>)
    ensures |r| == |input|
  {
    seq(|input|, k requires 0 <= k < |input| => Rebuilt(input[k]))
  }

  /** The result of `move_out_inner_attrs`. */
  function MovedOut(input: seq<TokenTree>): seq<TokenTree>
  {
    Prefix(input) + Body(input)
  }

  lemma PrefixSnoc(input: seq<TokenTree>, i: nat)
    requires i < |input|
    ensures Prefix(input[..i + 1]) == Prefix(input[..i]) + Hoisted(input[i])
  {
    assert input[..i + 1][..i] == input[..i];
  }

  lemma HoistStep(gt: seq<TokenTree>, j: nat)
    requires j <= |gt| && StartsInner(gt[j..])
    ensures Hoist(gt[j..]) == ([gt[j], gt[j + 2]] + Hoist(gt[j + 3..]).0, Hoist(gt[j + 3..]).1)
  {
    assert gt[j..][3..] == gt[j + 3..];
  }

  lemma BodySnoc(input: seq<TokenTree>, i: nat)
    requires i < |input|
    ensures Body(input)[..i + 1] == Body(input)[..i] + [Rebuilt(input[i])]
  {
  }

  /** One pass of the inner loop: the attribute at `j` joins the prefix. */
  lemma HoistInv(prefix: seq<TokenTree>, gt: seq<TokenTree>, j: nat, target: seq<TokenTree>)
    requires j <= |gt| && StartsInner(gt[j..]) && prefix + Hoist(gt[j..]).0 == target
    ensures (prefix + [gt[j], gt[j + 2]]) + Hoist(gt[j + 3..]).0 == target
    ensures Hoist(gt[j + 3..]).1 == Hoist(gt[j..]).1
  {
    HoistStep(gt, j);
  }

  /** The `loop` inside `move_out_inner_attrs` for one brace group: take
      `# ! group` triples off the front while there are any, keeping the
      `#` and the group of each, then copy what is left. */
  method HoistInnerAttrs(gt: seq<TokenTree>) returns (attrs: seq<TokenTree>, tt: seq<TokenTree>)
    ensures (attrs, tt) == Hoist(gt)
  {
    attrs := [];
    var j := 0;
    while StartsInner(gt[j..])
      invariant j <= |gt|
      invariant attrs + Hoist(gt[j..]).0 == Hoist(gt).0
      invariant Hoist(gt[j..]).1 == Hoist(gt).1
      decreases |gt| - j
    {
      HoistInv(attrs, gt, j, Hoist(gt).0);
      attrs := attrs + [gt[j], gt[j + 2]];
      j := j + 3;
    }
    assert Hoist(gt[j..]) == ([], gt[j..]);
    assert attrs + [] == attrs;
    tt := [];
    for k := j to |gt|
      invariant tt == gt[j..k]
    {
      tt := tt + [gt[k]];
    }
    assert tt == Hoist(gt[j..]).1;
  }

  /** `move_out_inner_attrs`: every brace group at the top level gives up
      its leading inner attributes, which are put, as outer attributes, in
      front of the whole stream. */
  method MoveOutInnerAttrs(input: seq<TokenTree>) returns (r: seq<TokenTree>)
    ensures r == Prefix(input) + Body(input)
  {
    var prefix: seq<TokenTree> := [];
    var ret: seq<TokenTree> := [];
    for i := 0 to |input|
      invariant prefix == Prefix(input[..i])
      invariant ret == Body(input)[..i]
    {
      var e := input[i];
      PrefixSnoc(input, i);
      BodySnoc(input, i);
      if e.Group? && e.delimiter == Brace {
        var attrs, tt := HoistInnerAttrs(e.stream);
        prefix := prefix + attrs;
        ret := ret + [Group(Brace, tt, e.span)];
      } else {
        ret := ret + [e];
      }
    }
    assert input[..|input|] == input;
    r := prefix + ret;
  }

  lemma {:induction false} AttrPairsAppend(p: seq<TokenTree>, h: seq<TokenTree>)
    requires AttrPairs(p) && AttrPairs(h)
    ensures AttrPairs(p + h)
    decreases |p|
  {
    if p == [] {
      assert p + h == h;
    } else {
      AttrPairsAppend(p[2..], h);
      assert (p + h)[2..] == p[2..] + h;
    }
  }

  lemma {:induction false} PrefixPairs(input: seq<TokenTree>)
    ensures AttrPairs(Prefix(input))
    decreases |input|
  {
    if input != [] {
      var n := |input| - 1;
      PrefixPairs(input[..n]);
      if IsBrace(input[n]) {
        HoistPairs(input[n].stream);
      }
      AttrPairsAppend(Prefix(input[..n]), Hoisted(input[n]));
    }
  }

  /** What comes out: the stream starts with `# group` pairs, one per inner
      attribute taken out; then come the top-level tokens one for one, brace
      groups with their delimiter and span kept and no inner attribute left
      at their head, everything else unchanged. */
  lemma MoveOutShape(input: seq<TokenTree>)
    ensures AttrPairs(Prefix(input))
    ensures |MovedOut(input)| == |Prefix(input)| + |input|
    ensures forall k :: 0 <= k < |input| && !IsBrace(input[k]) ==> Body(input)[k] == input[k]
    ensures forall k :: 0 <= k < |input| && IsBrace(input[k]) ==>
      && IsBrace(Body(input)[k]) && Body(input)[k].span == input[k].span
      && !StartsInner(Body(input)[k].stream)
      && IsSuffix(Body(input)[k].stream, input[k].stream)
  {
    PrefixPairs(input);
    forall k | 0 <= k < |input| && IsBrace(input[k])
      ensures !StartsInner(Body(input)[k].stream)
      ensures IsSuffix(Body(input)[k].stream, input[k].stream)
    {
      HoistRest(input[k].stream);
    }
  }

  /** A stream with no inner attribute at the head of a top-level brace
      group is left as it is. */
  lemma {:induction false} MoveOutIdentity(input: seq<TokenTree>)
    requires forall k :: 0 <= k < |input| && IsBrace(input[k]) ==> !StartsInner(input[k].stream)
    ensures MovedOut(input) == input
  {
    PrefixNone(input);
    forall k | 0 <= k < |input| ensures Body(input)[k] == input[k] {
    }
  }

  lemma {:induction false} PrefixNone(input: seq<TokenTree>)
    requires forall k :: 0 <= k < |input| && IsBrace(input[k]) ==> !StartsInner(input[k].stream)
    ensures Prefix(input) == []
    decreases |input|
  {
    if input != [] {
      var n := |input| - 1;
      PrefixNone(input[..n]);
    }
  }

  /** Moving out again finds nothing: the rewritten tokens are settled. */
  lemma BodySettled(input: seq<TokenTree>)
    ensures MovedOut(Body(input)) == Body(input)
  {
    MoveOutShape(input);
    MoveOutIdentity(Body(input));
  }

  // ---------------------------------------------------------------------
  // flatten_empty_groups

  /** `flatten_empty_groups`: every invisible group, at any depth, is
      replaced by its (flattened) contents; other groups keep their
      delimiter and span. */
  function Flatten(ts: seq<TokenTree>): seq<TokenTree>
    decreases ts
  {
    if ts == [] then []
    else
      var head :=
        match ts[0]
        case Group(d, s, sp) =>
          if d == NoDelimiter then Flatten(s) else [Group(d, Flatten(s), sp)]
        case _ => [ts[0]];
      head + Flatten(ts[1..])
  }

  /** No invisible group anywhere in the stream. */
  predicate NoInvisible(ts: seq<TokenTree>)
    decreases ts
  {
    forall k :: 0 <= k < |ts| ==>
      ts[k].Group? ==> ts[k].delimiter != NoDelimiter && NoInvisible(ts[k].stream)
  }

  /** The identifiers, punctuation and literals of a stream in order, at
      every depth. */
  function Leaves(ts: seq<TokenTree>): seq<TokenTree>
    decreases ts
  {
    if ts == [] then []
    else (if ts[0].Group? then Leaves(ts[0].stream) else [ts[0]]) + Leaves(ts[1..])
  }

  /** The visible groups of a stream in pre-order, each as its delimiter
      and span. */
  function Visible(ts: seq<TokenTree>): seq<(Delimiter, Span)>
    decreases ts
  {
    if ts == [] then []
    else
      (if ts[0].Group? then
        (if ts[0].delimiter == NoDelimiter then [] else [(ts[0].delimiter, ts[0].span)])
        + Visible(ts[0].stream)
      else [])
      + Visible(ts[1..])
  }

  lemma {:induction false} NoInvisibleAppend(a: seq<TokenTree>, b: seq<TokenTree>)
    requires NoInvisible(a) && NoInvisible(b)
    ensures NoInvisible(a + b)
  {
    forall k | 0 <= k < |a + b| && (a + b)[k].Group?
      ensures (a + b)[k].delimiter != NoDelimiter && NoInvisible((a + b)[k].stream)
    {
      if k < |a| { assert (a + b)[k] == a[k]; } else { assert (a + b)[k] == b[k - |a|]; }
    }
  }

  lemma {:induction false} LeavesAppend(a: seq<TokenTree>, b: seq<TokenTree>)
    ensures Leaves(a + b) == Leaves(a) + Leaves(b)
    decreases a
  {
    if a == [] {
      assert a + b == b;
    } else {
      assert (a + b)[0] == a[0] && (a + b)[1..] == a[1..] + b;
      LeavesAppend(a[1..], b);
    }
  }

  lemma {:induction false} VisibleAppend(a: seq<TokenTree>, b: seq<TokenTree>)
    ensures Visible(a + b) == Visible(a) + Visible(b)
    decreases a
  {
    if a == [] {
      assert a + b == b;
    } else {
      assert (a + b)[0] == a[0] && (a + b)[1..] == a[1..] + b;
      VisibleAppend(a[1..], b);
    }
  }

  /** The result has no invisible group left at any depth. */
  lemma {:induction false} FlattenNoInvisible(ts: seq<TokenTree>)
    ensures NoInvisible(Flatten(ts))
    decreases ts
  {
    if ts != [] {
      FlattenNoInvisible(ts[1..]);
      match ts[0]
      case Group(d, s, sp) =>
        FlattenNoInvisible(s);
        if d == NoDelimiter {
          NoInvisibleAppend(Flatten(s), Flatten(ts[1..]));
        } else {
          var g := Group(d, Flatten(s), sp);
          assert NoInvisible([g]) by {
            forall k | 0 <= k < 1 ensures [g][k] == g { }
          }
          NoInvisibleAppend([g], Flatten(ts[1..]));
        }
      case _ =>
        NoInvisibleAppend([ts[0]], Flatten(ts[1..]));
    }
  }

  /** No identifier, punctuation or literal is lost, duplicated or moved. */
  lemma {:induction false} FlattenLeaves(ts: seq<TokenTree>)
    ensures Leaves(Flatten(ts)) == Leaves(ts)
    decreases ts
  {
    if ts != [] {
      var t, rest := ts[0], Flatten(ts[1..]);
      FlattenLeaves(ts[1..]);
      if t.Group? {
        FlattenLeaves(t.stream);
        if t.delimiter == NoDelimiter {
          assert Flatten(ts) == Flatten(t.stream) + rest;
          LeavesAppend(Flatten(t.stream), rest);
        } else {
          var g := Group(t.delimiter, Flatten(t.stream), t.span);
          assert Flatten(ts) == [g] + rest;
          LeavesAppend([g], rest);
          LeavesSingle(g);
        }
      } else {
        assert Flatten(ts) == [t] + rest;
        LeavesAppend([t], rest);
        LeavesSingle(t);
      }
    }
  }

  lemma LeavesSingle(t: TokenTree)
    ensures Leaves([t]) == if t.Group? then Leaves(t.stream) else [t]
  {
    assert [t][0] == t && [t][1..] == [];
  }

  lemma VisibleSingle(t: TokenTree)
    ensures Visible([t]) == if t.Group? then
        (if t.delimiter == NoDelimiter then [] else [(t.delimiter, t.span)]) + Visible(t.stream)
      else []
  {
    assert [t][0] == t && [t][1..] == [];
  }

  /** Every visible group survives, in the same order, with its delimiter
      and span. */
  lemma {:induction false} FlattenVisible(ts: seq<TokenTree>)
    ensures Visible(Flatten(ts)) == Visible(ts)
    decreases ts
  {
    if ts != [] {
      var t, rest := ts[0], Flatten(ts[1..]);
      FlattenVisible(ts[1..]);
      if t.Group? {
        FlattenVisible(t.stream);
        if t.delimiter == NoDelimiter {
          assert Flatten(ts) == Flatten(t.stream) + rest;
          VisibleAppend(Flatten(t.stream), rest);
        } else {
          var g := Group(t.delimiter, Flatten(t.stream), t.span);
          assert Flatten(ts) == [g] + rest;
          VisibleAppend([g], rest);
          VisibleSingle(g);
        }
      } else {
        assert Flatten(ts) == [t] + rest;
        VisibleAppend([t], rest);
        VisibleSingle(t);
      }
    }
  }

  /** A stream without invisible groups is left exactly as it is. */
  lemma {:induction false} FlattenIdentity(ts: seq<TokenTree>)
    requires NoInvisible(ts)
    ensures Flatten(ts) == ts
    decreases ts
  {
    if ts != [] {
      assert NoInvisible(ts[1..]) by {
        forall k | 0 <= k < |ts[1..]| && ts[1..][k].Group?
          ensures ts[1..][k].delimiter != NoDelimiter && NoInvisible(ts[1..][k].stream)
        {
          assert ts[1..][k] == ts[k + 1];
        }
      }
      FlattenIdentity(ts[1..]);
      if ts[0].Group? {
        FlattenIdentity(ts[0].stream);
      }
      assert ts == [ts[0]] + ts[1..];
    }
  }

  /** Flattening twice is flattening once. */
  lemma FlattenIdempotent(ts: seq<TokenTree>)
    ensures Flatten(Flatten(ts)) == Flatten(ts)
  {
    FlattenNoInvisible(ts);
    FlattenIdentity(Flatten(ts));
  }
}
