/** What the flattener appends to its output stream `ret` besides the
    flattened declarations: compile errors anchored at a span, the
    deprecation notice for the old attribute name, and (standing for the
    whole output of a nested call of `recurse_through_definition`, which is
    not part of this model) a request to define a lifted declaration. */
module Diagnostics {
  import opened Common
  import opened Tokens

  datatype ErrorKind =
    | UnexpectedClose          // a `>` with no open `<`
    | UnclosedGroup            // a `<` still open at the end of a type
    | ColonAtTopLevel          // a lone `:` at the top level of a type
    | MoreThanOneDeclaration   // two declaration keywords at one top level
    | NoNamingContext          // anonymous declaration and no name hint
    | EachNotGroup             // `each` / `strikethrough` without a [group]

  /** The message text `report_error` is given for each kind. */
  function Message(kind: ErrorKind): string
  {
    match kind
    case UnexpectedClose => "Unexpected >"
    case UnclosedGroup => "Unclosed group"
    case ColonAtTopLevel => "Colon in top level of type expression. Did you forget a comma somewhere?"
    case MoreThanOneDeclaration => "More than one struct/enum/.. declaration found"
    case NoNamingContext => "No context for naming substructure"
    case EachNotGroup => "#[structstruck::each …]: … must be a [group]"
  }

  /** The text of the `compile_error!` that `report_error` emits. */
  function ErrorText(kind: ErrorKind): string
  {
    CrateName + " error: " + Message(kind) + " - starting from:"
  }

  /** Recording an error by its kind loses nothing: different kinds give
      different `compile_error!` texts, so the text names the kind. */
  lemma ErrorTextNamesKind(k1: ErrorKind, k2: ErrorKind)
    ensures ErrorText(k1) == ErrorText(k2) <==> k1 == k2
  {
    var pre := CrateName + " error: ";
    var post := " - starting from:";
    if ErrorText(k1) == ErrorText(k2) {
      var m1, m2 := Message(k1), Message(k2);
      assert ErrorText(k1) == pre + m1 + post && ErrorText(k2) == pre + m2 + post;
      assert |m1| == |m2|;
      assert m1 == ErrorText(k1)[|pre|..|pre| + |m1|];
      assert m2 == ErrorText(k2)[|pre|..|pre| + |m2|];
    }
    MessageNamesKind(k1, k2);
  }

  /** The six messages have six different lengths, so the length of a
      message tells its kind. */
  function KindOfLength(n: nat): Option<ErrorKind>
  {
    if n == 12 then Some(UnexpectedClose)
    else if n == 14 then Some(UnclosedGroup)
    else if n == 72 then Some(ColonAtTopLevel)
    else if n == 46 then Some(MoreThanOneDeclaration)
    else if n == 34 then Some(NoNamingContext)
    else if n == 44 then Some(EachNotGroup)
    else None
  }

  lemma MessageLength(k: ErrorKind)
    ensures KindOfLength(|Message(k)|) == Some(k)
  {
  }

  lemma MessageNamesKind(k1: ErrorKind, k2: ErrorKind)
    ensures Message(k1) == Message(k2) <==> k1 == k2
  {
    MessageLength(k1);
    MessageLength(k2);
  }

  datatype Emission =
    /** `compile_error!` at `at`; `None` is the case where the source has
        no span and panics instead. */
    | CompileError(kind: ErrorKind, at: Option<Span>)
    /** The dead `strikethrough_used` function carrying a deprecation. */
    | StrikethroughDeprecated(notice: Span)
    /** Everything a nested `recurse_through_definition(tokens, strike,
        makePub, ret)` appends, `strike` being the attributes carried onto
        the nested declaration. */
    | Definition(tokens: seq<TokenTree>, strike: seq<Attribute>, makePub: bool)

  /** `stream_span`: the span of the first token; `None` for no tokens.
      Joining it with the spans of the tokens after it is not modelled. */
  function StreamSpan(ts: seq<TokenTree>): (r: Option<Span>)
    ensures r.None? <==> ts == []
    ensures r.Some? ==> r.value == ts[0].span
  {
    if ts == [] then None else Some(ts[0].span)
  }

  /** One error of `kind` at each of `spans`, in order. */
  function ErrorsAt(kind: ErrorKind, spans: seq<Span>): (r: seq<Emission>)
    ensures |r| == |spans|
    ensures forall k :: 0 <= k < |r| ==> r[k] == CompileError(kind, Some(spans[k]))
  {
    if spans == [] then [] else [CompileError(kind, Some(spans[0]))] + ErrorsAt(kind, spans[1..])
  }
}
