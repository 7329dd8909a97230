/** Names synthesised for anonymous nested declarations (src/imp.rs:38-129,
    335-338): `pascal_case`, the naming context `NameHints` and the name it
    hints, in short mode (the innermost component) or long mode (every
    component, outermost first). */
module Naming {
  import opened Common
  import opened Tokens
  import opened Attributes

  // ---------------------------------------------------------------------
  // pascal_case (src/imp.rs:112-129)

  /** `char::to_ascii_uppercase`. */
  function AsciiUpper(c: char): char
  {
    if 'a' <= c <= 'z' then (c as int - 32) as char else c
  }

  /** The output of `pascal_case` for the rest `s` of the input, when the
      next letter is uppercased exactly if `upper`. */
  function PascalFrom(s: string, upper: bool): string
  {
    if s == [] then []
    else if s[0] == '_' then PascalFrom(s[1..], true)
    else [if upper then AsciiUpper(s[0]) else s[0]] + PascalFrom(s[1..], false)
  }

  function PascalCase(s: string): string
  {
    PascalFrom(s, true)
  }

  /** `pascal_case`: one pass with an `uppercase_next` flag. */
  method PascalCaseLoop(s: string) returns (ret: string)
    ensures ret == PascalCase(s)
  {
    ret := [];
    var uppercaseNext := true;
    for i := 0 to |s|
      invariant ret + PascalFrom(s[i..], uppercaseNext) == PascalCase(s)
    {
      var c := s[i];
      PascalLoopStep(s, i, ret, uppercaseNext);
      if c == '_' {
        uppercaseNext := true;
      } else if uppercaseNext {
        ret := ret + [AsciiUpper(c)];
        uppercaseNext := false;
      } else {
        ret := ret + [c];
      }
    }
  }

  /** One pass of the loop keeps its invariant. */
  lemma PascalLoopStep(s: string, i: nat, ret: string, upper: bool)
    requires i < |s| && ret + PascalFrom(s[i..], upper) == PascalCase(s)
    ensures s[i] == '_' ==> ret + PascalFrom(s[i + 1..], true) == PascalCase(s)
    ensures s[i] != '_' ==>
      (ret + [if upper then AsciiUpper(s[i]) else s[i]]) + PascalFrom(s[i + 1..], false) == PascalCase(s)
  {
    PascalStep(s, i, upper);
    var c := [if upper then AsciiUpper(s[i]) else s[i]];
    var tail := PascalFrom(s[i + 1..], false);
    assert ret + (c + tail) == (ret + c) + tail;
  }

  lemma PascalStep(s: string, i: nat, upper: bool)
    requires i < |s|
    ensures PascalFrom(s[i..], upper)
         == if s[i] == '_' then PascalFrom(s[i + 1..], true)
            else [if upper then AsciiUpper(s[i]) else s[i]] + PascalFrom(s[i + 1..], false)
  {
    assert s[i..][0] == s[i] && s[i..][1..] == s[i + 1..];
  }

  /** Whether input position `i` is uppercased: the first character and
      every character right after an underscore. */
  predicate StartsWord(s: string, i: nat)
    requires i < |s|
  {
    i == 0 || s[i - 1] == '_'
  }

  /** Reference definition, character by character: each underscore is
      dropped, each character starting a word is uppercased, every other
      character is kept as it is (so capitals inside a word stay). */
  function PascalRef(s: string): string
  {
    if s == [] then []
    else
      var n := |s| - 1;
      PascalRef(s[..n]) + (if s[n] == '_' then [] else [if StartsWord(s, n) then AsciiUpper(s[n]) else s[n]])
  }

  lemma {:induction false} PascalUpTo(s: string, i: nat)
    requires i <= |s|
    ensures PascalRef(s[..i]) + PascalFrom(s[i..], i == 0 || s[i - 1] == '_') == PascalCase(s)
    decreases i
  {
    if i > 0 {
      var j := i - 1;
      PascalUpTo(s, j);
      var up := j == 0 || s[j - 1] == '_';
      assert s[j..][0] == s[j] && s[j..][1..] == s[i..];
      assert s[..i][..j] == s[..j];
      assert StartsWord(s[..i], j) == up;
      assert PascalRef(s[..i]) == PascalRef(s[..j])
        + (if s[j] == '_' then [] else [if up then AsciiUpper(s[j]) else s[j]]);
    } else {
      assert s[..0] == [] && s[0..] == s;
    }
  }

  /** `pascal_case` agrees with the character-by-character definition. */
  lemma PascalCaseIsRef(s: string)
    ensures PascalCase(s) == PascalRef(s)
  {
    PascalUpTo(s, |s|);
    assert s[..|s|] == s && s[|s|..] == [];
  }

  predicate IsUnderscore(c: char)
  {
    c == '_'
  }

  /** The output has no underscore and is shorter than the input by the
      number of underscores in it. */
  lemma {:induction false} PascalFromShape(s: string, upper: bool)
    ensures '_' !in PascalFrom(s, upper)
    ensures |PascalFrom(s, upper)| == |s| - Count(s, IsUnderscore)
    decreases |s|
  {
    if s != [] {
      CountCons(s, IsUnderscore);
      PascalFromShape(s[1..], true);
      PascalFromShape(s[1..], false);
    }
  }

  lemma FooBar()
    ensures PascalCase("foo_bar") == "FooBar"
  {
    assert PascalFrom("r", false) == "r";
    assert PascalFrom("ar", false) == "ar";
    assert PascalFrom("bar", true) == "Bar";
    assert PascalFrom("_bar", false) == "Bar";
    assert PascalFrom("o_bar", false) == "oBar";
    assert PascalFrom("oo_bar", false) == "ooBar";
  }

  // ---------------------------------------------------------------------
  // `usize::to_string`

  function Digit(d: nat): char
    requires d < 10
  {
    ('0' as int + d) as char
  }

  /** The decimal digits of `n`, most significant first, as `n.to_string()`. */
  function DecimalString(n: nat): (r: string)
    ensures |r| >= 1
    ensures forall k :: 0 <= k < |r| ==> '0' <= r[k] <= '9'
    ensures n > 0 ==> r[0] != '0'
  {
    if n < 10 then [Digit(n)] else DecimalString(n / 10) + [Digit(n % 10)]
  }

  /** Reading the digits back. */
  function ParseDecimal(s: string): nat
  {
    if s == [] then 0
    else
      var c := s[|s| - 1];
      ParseDecimal(s[..|s| - 1]) * 10 + (if '0' <= c <= '9' then c as int - '0' as int else 0)
  }

  lemma {:induction false} DecimalRoundTrip(n: nat)
    ensures ParseDecimal(DecimalString(n)) == n
  {
    if n >= 10 {
      DecimalRoundTrip(n / 10);
      var s := DecimalString(n);
      assert s[..|s| - 1] == DecimalString(n / 10);
    }
  }

  /** Digits are their own upper case, so `pascal_case` leaves a number as
      it is. */
  lemma {:induction false} PascalOfDigits(s: string, upper: bool)
    requires forall k :: 0 <= k < |s| ==> '0' <= s[k] <= '9'
    ensures PascalFrom(s, upper) == s
    decreases |s|
  {
    if s != [] {
      PascalOfDigits(s[1..], false);
      assert s == [s[0]] + s[1..];
    }
  }

  // ---------------------------------------------------------------------
  // NameHints (src/imp.rs:38-97)

  datatype NameHints = NameHints(
    long: bool,
    parentName: string,
    variantName: Option<string>,
    fieldName: Option<string>)

  /** `num.filter(|&n| n > 0).map(|n| n.to_string())`. */
  function IndexSuffix(num: Option<nat>): (r: Option<string>)
    ensures r.Some? <==> num.Some? && num.value > 0
    ensures r.Some? ==> r.value == DecimalString(num.value)
  {
    if num.Some? && num.value > 0 then Some(DecimalString(num.value)) else None
  }

  function OptPascal(x: Option<string>): string
  {
    if x.Some? then PascalCase(x.value) else ""
  }

  /** `map(pascal_case)` and `fold` the name components, `None` adding
      nothing. */
  function JoinPascal(names: seq<Option<string>>): string
  {
    if names == [] then "" else OptPascal(names[0]) + JoinPascal(names[1..])
  }

  lemma SuffixUnchanged(num: Option<nat>)
    ensures OptPascal(IndexSuffix(num)) == if num.Some? && num.value > 0 then DecimalString(num.value) else ""
  {
    if num.Some? && num.value > 0 {
      PascalOfDigits(DecimalString(num.value), true);
    }
  }

  lemma JoinCons(x: Option<string>, rest: seq<Option<string>>)
    ensures JoinPascal([x] + rest) == OptPascal(x) + JoinPascal(rest)
  {
    assert ([x] + rest)[1..] == rest;
  }

  lemma JoinTwo(a: Option<string>, b: Option<string>)
    ensures JoinPascal([a, b]) == OptPascal(a) + OptPascal(b)
  {
    assert [a, b] == [a] + [b];
    JoinCons(a, [b]);
    assert [b] == [b] + [];
    JoinCons(b, []);
    assert OptPascal(b) + "" == OptPascal(b);
  }

  lemma JoinFour(a: Option<string>, b: Option<string>, c: Option<string>, d: Option<string>)
    ensures JoinPascal([a, b, c, d]) == OptPascal(a) + (OptPascal(b) + (OptPascal(c) + OptPascal(d)))
  {
    assert [a, b, c, d] == [a] + [b, c, d];
    JoinCons(a, [b, c, d]);
    assert [b, c, d] == [b] + [c, d];
    JoinCons(b, [c, d]);
    JoinTwo(c, d);
  }

  function OrElse(a: Option<string>, b: Option<string>): Option<string>
  {
    if a.Some? then a else b
  }

  /** `get_name_hint`: the name components of the mode, each through
      `pascal_case`, joined; the hint is an identifier at `span`. */
  function GetNameHint(h: NameHints, num: Option<nat>, span: Span): (r: TokenTree)
    ensures r.Ident? && r.span == span
    ensures h.long ==>
      r.name == PascalCase(h.parentName) + (OptPascal(h.variantName) + (OptPascal(h.fieldName)
                + (if num.Some? && num.value > 0 then DecimalString(num.value) else "")))
    ensures !h.long ==>
      r.name == PascalCase(if h.fieldName.Some? then h.fieldName.value
                           else if h.variantName.Some? then h.variantName.value
                           else h.parentName)
                + (if num.Some? && num.value > 0 then DecimalString(num.value) else "")
  {
    var suffix := IndexSuffix(num);
    var names := if h.long then [Some(h.parentName), h.variantName, h.fieldName, suffix]
                 else [OrElse(h.fieldName, OrElse(h.variantName, Some(h.parentName))), suffix];
    SuffixUnchanged(num);
    JoinTwo(OrElse(h.fieldName, OrElse(h.variantName, Some(h.parentName))), suffix);
    JoinFour(Some(h.parentName), h.variantName, h.fieldName, suffix);
    Ident(JoinPascal(names), span)
  }

  /** `with_field_name`: only the field component changes. */
  function WithFieldName(h: NameHints, fieldName: string): (r: NameHints)
    ensures r.fieldName == Some(fieldName)
    ensures r.long == h.long && r.parentName == h.parentName && r.variantName == h.variantName
  {
    h.(fieldName := Some(fieldName))
  }

  /** `with_variant_name`: only the variant component changes. */
  function WithVariantName(h: NameHints, variantName: string): (r: NameHints)
    ensures r.variantName == Some(variantName)
    ensures r.long == h.long && r.parentName == h.parentName && r.fieldName == h.fieldName
  {
    h.(variantName := Some(variantName))
  }

  /** In short mode the innermost component that is set names the
      declaration: a field wins over a variant, which wins over the parent. */
  lemma ShortModePrefersInnermost(h: NameHints, f: string, v: string, sp: Span)
    requires !h.long
    ensures GetNameHint(WithFieldName(WithVariantName(h, v), f), None, sp).name == PascalCase(f)
    ensures GetNameHint(WithVariantName(h.(fieldName := None), v), None, sp).name == PascalCase(v)
    ensures GetNameHint(NameHints(false, h.parentName, None, None), None, sp).name == PascalCase(h.parentName)
  {
  }

  /** Short mode, tuple fields `Foo(.., ..)`: index 0 adds nothing, index 1
      adds `1`. */
  lemma IndexExamples(sp: Span)
    ensures GetNameHint(NameHints(false, "Foo", None, None), Some(0), sp).name == "Foo"
    ensures GetNameHint(NameHints(false, "Foo", None, None), Some(1), sp).name == "Foo1"
  {
    assert DecimalString(1) == "1";
    assert PascalCase("Foo") == "Foo";
  }

  /** Long mode: `Quux`, variant `Baz`, field `bar`. */
  lemma LongNameExample(sp: Span)
    ensures GetNameHint(WithFieldName(WithVariantName(NameHints(true, "Quux", None, None), "Baz"), "bar"), None, sp).name
            == "QuuxBazBar"
  {
    var h := WithFieldName(WithVariantName(NameHints(true, "Quux", None, None), "Baz"), "bar");
    assert h == NameHints(true, "Quux", Some("Baz"), Some("bar"));
    assert PascalFrom("x", false) == "x";
    assert PascalFrom("ux", false) == "ux";
    assert PascalFrom("uux", false) == "uux";
    assert PascalFrom("Quux", true) == "Quux";
    assert PascalFrom("z", false) == "z";
    assert PascalFrom("az", false) == "az";
    assert PascalFrom("Baz", true) == "Baz";
    assert PascalFrom("r", false) == "r";
    assert PascalFrom("ar", false) == "ar";
    assert PascalFrom("bar", true) == "Bar";
    assert "Quux" + ("Baz" + ("Bar" + "")) == "QuuxBazBar";
  }

  /** `NameHints::from`: drop every `#[structstruck::long_names]` from the
      attributes, switching long mode on when there was one. */
  method From(parentName: string, attributes: seq<Attribute>) returns (h: NameHints, remaining: seq<Attribute>)
    ensures remaining == Filter(attributes, NotLongNames)
    ensures h.long <==> exists k :: 0 <= k < |attributes| && IsLongNames(attributes[k])
    ensures h.parentName == parentName && h.variantName.None? && h.fieldName.None?
  {
    var long := false;
    remaining := [];
    for i := 0 to |attributes|
      invariant remaining == Filter(attributes[..i], NotLongNames)
      invariant long <==> Count(attributes[..i], IsLongNames) > 0
    {
      var attr := attributes[i];
      FilterSnoc(attributes, i, NotLongNames);
      FilterSnoc(attributes, i, IsLongNames);
      var enableLong := CheckCrateAttr(attr, "long_names");
      long := long || enableLong;
      if !enableLong {
        remaining := remaining + [attr];
      }
    }
    assert attributes[..|attributes|] == attributes;
    CountPositive(attributes, IsLongNames);
    h := NameHints(long, parentName, None, None);
  }

  predicate IsLongNames(a: Attribute)
  {
    CheckCrateAttr(a, "long_names")
  }

  predicate NotLongNames(a: Attribute)
  {
    !CheckCrateAttr(a, "long_names")
  }

  // ---------------------------------------------------------------------
  // Raw identifiers (src/imp.rs:335-338)

  /** A field named `r#type` hints from `type`. */
  function StripRaw(name: string): (r: string)
    ensures (|name| >= 2 && name[..2] == "r#") ==> name == "r#" + r
    ensures !(|name| >= 2 && name[..2] == "r#") ==> r == name
  {
    if |name| >= 2 && name[..2] == "r#" then name[2..] else name
  }

  lemma StripRawExample()
    ensures StripRaw("r#type") == "type" && StripRaw("kind") == "kind"
  {
    assert "r#type"[..2] == "r#" && "r#type"[2..] == "type";
    assert "kind"[0] == 'k';
  }
}
