/** The token trees of a procedural-macro token stream, as the flattener
    sees them: identifiers, single-character punctuation, literals and
    delimited groups. Every token carries an opaque source span. An
    attribute is kept as its tokens. */
module Tokens {
  import opened Common

  /** A source position. The model never looks inside one; it only carries
      a span from the token that has it to the diagnostic that points at it. */
  datatype Span = At(offset: nat) | CallSite | MixedSite

  datatype Spacing = Alone | Joint

  /** `NoDelimiter` is the invisible delimiter (`Delimiter::None`). */
  datatype Delimiter = Parenthesis | Brace | Bracket | NoDelimiter

  datatype TokenTree =
    | Ident(name: string, span: Span)
    | Punct(ch: char, spacing: Spacing, span: Span)
    | Literal(text: string, span: Span)
    | Group(delimiter: Delimiter, stream: seq<TokenTree>, span: Span)

  /** What follows the path of an attribute: `[tokens]` (the span of the
      brackets and their contents), `= tokens`, or nothing. */
  datatype AttributeValue =
    | GroupValue(brackets: Span, tokens: seq<TokenTree>)
    | Equals(equalSign: TokenTree, tokens: seq<TokenTree>)
    | Empty

  /** `# ! [ path value ]`: the `#`, the optional `!` of an inner attribute,
      the span of the brackets, the path tokens and the value. */
  datatype Attribute = Attribute(
    hash: TokenTree,
    bang: Option<TokenTree>,
    brackets: Span,
    path: seq<TokenTree>,
    value: AttributeValue)

  predicate IsPunct(t: TokenTree, c: char)
  {
    t.Punct? && t.ch == c
  }

  predicate IsIdent(t: TokenTree, s: string)
  {
    t.Ident? && t.name == s
  }

  /** The keywords `is_decl_kw` recognises as starting a declaration. */
  predicate IsDeclKw(name: string)
  {
    name == "struct" || name == "enum" || name == "union" || name == "type"
    || name == "fn" || name == "mod" || name == "trait"
  }

  predicate IsDeclIdent(t: TokenTree)
  {
    t.Ident? && IsDeclKw(t.name)
  }

  /** The crate and package name, which the source takes from
      `CARGO_CRATE_NAME` / `CARGO_PKG_NAME` at build time. */
  const CrateName: string := "structstruck"
}
