# structstruck's flattener, modelled in Dafny

structstruck is a procedural macro. It lets a Rust declaration contain
further declarations inside its field types, for example
`struct A { b: struct B { c: u8 } }`. It lifts each nested declaration out
to the top level and replaces it with its name. This project models the
token-level machinery behind that in `src/imp.rs` and proves properties of
it:

- the angle-bracket tokenizer `type_tree` and its inverse `un_tree_type`;
- name synthesis: `pascal_case`, the `NameHints` path and the `r#` strip;
- the scanning rules of a type list:
  - splitting at top-level commas;
  - the misplaced-colon check;
  - the first and duplicate declaration keyword;
  - lifting a nested declaration out, with the re-projection of its generics;
- attributes: `check_crate_attr` and `strike_through_attributes`;
- the visibility of tuple fields: `is_plain_pub`, `make_pub_marker` and the
  transfer of a field's `pub` onto a declaration written in its type;
- whole-stream rewrites: `hack_append_type_decl_semicolon`,
  `move_out_inner_attrs` and `flatten_empty_groups`.

Tokens are a small datatype of identifiers, punctuation, literals and
groups, and spans are opaque values (`tokens.dfy`). The output stream `ret`
gets diagnostics appended to it. The model turns `ret` into a returned log
of `Emission`s (`diagnostics.dfy`). The `&mut Vec` parameters of
the source become input and output values.

Mutating loops are methods proved against specification functions:

- `type_tree`, with its stack and its current buffer;
- `un_tree_type`;
- `pascal_case`;
- `NameHints::from`;
- the `retain` of `strike_through_attributes`;
- the re-slicing loop of `recurse_through_type_list`;
- the two loops of `move_out_inner_attrs`.

The pure code is modelled as functions and predicates. Several of them
carry no contract of their own. The lemmas and methods in the table below
state their properties:

- `check_crate_attr` (src/imp.rs:99-110) is `Attributes.CheckCrateAttr`;
- `pascal_case` (src/imp.rs:112-129) is `Naming.PascalCase`;
- the `is_type_decl` test of `hack_append_type_decl_semicolon`
  (src/imp.rs:233-249) is `Stream.IsTypeDecl`;
- `is_plain_pub` (src/imp.rs:258-266) is `Fields.IsPlainPub`;
- `get_tt_punct` (src/imp.rs:462-467) is `TypeLists.IsTtPunct`;
- `recurse_through_type_list` (src/imp.rs:469-501) is specified by
  `TypeLists.ListOut`;
- `recurse_through_type` (src/imp.rs:502-589) is `TypeLists.TypeOut`;
  its declaration branch (src/imp.rs:533-583) is `TypeLists.LiftOut`;
- `get_decl_ident` (src/imp.rs:591-596) is `TypeLists.IsDeclNode`;
- `un_tree_type` (src/imp.rs:598-600) is specified by `TypeTrees.Untree`;
- `un_type_tree` (src/imp.rs:602-619) is `TypeLists.UnTypeTreeOut`;
- `is_decl_kw` (src/imp.rs:655-663) is `Tokens.IsDeclKw`;
- `flatten_empty_groups` (src/imp.rs:682-697) is `Stream.Flatten`.

Each module except Tokens adds lemmas that relate
its functions to an inverse, to an independent reference definition, or to
an invariant.

Files, in dependency order:

- `common.dfy`: Option, and sequence helpers (Position, Filter, Count,
  Interleave, Concat).
- `tokens.dfy`: `TokenTree`, `is_decl_kw`, and the crate name as a constant.
- `diagnostics.dfy`: the error kinds, their messages and the emission log.
- `type_tree.dfy`: `type_tree` and `un_tree_type`.
- `generics.dfy`: generic parameter lists and their use-site projection.
- `type_list.dfy`: `recurse_through_type_list` and `recurse_through_type`.
- `attributes.dfy`: `check_crate_attr` and `strike_through_attributes`.
- `naming.dfy`: `pascal_case`, `NameHints` and the `r#` strip.
- `fields.dfy`: visibility markers and the per-field name and pub hints.
- `stream.dfy`: the three stream rewrites.

The model states two points of `get_name_hint` (src/imp.rs:61-82) exactly as
the code has them:

- `pascal_case` is applied to every part in both naming modes
  (src/imp.rs:78-81). A short-mode field name `foo_bar` yields the hint
  `FooBar`.
- The fold at src/imp.rs:80 concatenates the parts that are present with
  no separator. In long mode these are the parent, the variant, the field
  and a nonzero index.

## Model

| member | source | states |
|---|---|---|
| TypeTrees.BuildTypeTree | src/imp.rs:627-653 | Flattening the tree gives back exactly the input tokens, even for unmatched `>` and unclosed `<`. The tree is well formed: no plain `<` token, every group opens with `<` and closes with `>` when it closes, and no plain `>` below the top level. Only the last node of each level may be an unclosed group, so an unclosed `<` takes in everything after it. The error log is one "Unexpected >" per `>` met with nothing open, in order, then one "Unclosed group" per `<` still open, innermost first. These counts come from an independent scan of the input. |
| TypeTrees.TreeUnique | src/imp.rs:627-653 | Two well-formed trees that are open only on the right and have the same token text are equal. So the contract of `BuildTypeTree` fixes its result: each `>` closes the innermost `<` still open. |
| TypeTrees.MapOfKV | src/imp.rs:627-653 | The only tree `BuildTypeTree` may return for `Map<K, V>` is `Map` followed by one closed group holding `K , V`, so the comma is not at the top level. |
| TypeTrees.UnTreeType | src/imp.rs:598-619 | The loop (recursing into groups) outputs the tree's token text: open bracket, children, and the close bracket when present. |
| TypeTrees.UntreeAppend | src/imp.rs:598-619 | Flattening distributes over concatenation of trees. |
| TypeTrees.ErrorsAtSnoc | src/imp.rs:640-651 | Adding one span to the error spans adds one error of the same kind at the end of the log. |
| Diagnostics.ErrorsAt | src/imp.rs:665-680 | One `compile_error!` per span, in order, each of the given kind at that span. |
| Diagnostics.ErrorTextNamesKind | src/imp.rs:665-670 | Two error kinds give the same `compile_error!` text exactly when they are the same kind. The message strings of the six kinds are pairwise different, so an error recorded by its kind records its text. |
| Diagnostics.StreamSpan | src/imp.rs:23-36 | No span exactly when there are no tokens; otherwise the first token's span. |
| Generics.UseSiteParam | src/imp.rs:568-583 | A re-projected parameter keeps its name and loses its bound. It keeps its prefix exactly when the prefix is punctuation. |
| Generics.UseSiteParams | src/imp.rs:568-583 | The projection is applied to every parameter in place, keeping each separator. |
| Generics.UseSiteParamIdempotent | src/imp.rs:568-583 | A projected parameter is plain, and projecting it again changes nothing. |
| Generics.UseSiteOfPlain | src/imp.rs:568-583 | A list of plain parameters is its own projection. |
| Generics.UseSiteIdempotent | src/imp.rs:568-583 | Re-projecting a whole generic parameter list is idempotent. |
| Generics.UseSiteOnlyDeletes | src/imp.rs:568-583 | The use-site tokens are a subsequence of the declaration's generic tokens: tokens are only dropped, never added or reordered. |
| Generics.UseSiteParamsTokens | src/imp.rs:568-583 | The subsequence property, parameter by parameter. |
| Generics.BoundDropped | src/imp.rs:568-583 | `<T: bound>` is projected to `<T>`. |
| TypeLists.ColonFrom | src/imp.rs:511-517 | Finds the first three-node window from a given index whose middle is a lone `:` with no `:` on either side, and finds nothing only when there is no such window. |
| TypeLists.MisplacedColon | src/imp.rs:511-523 | There is a colon error if and only if some window of three nodes has a lone `:` in the middle. The span reported is that of the first such colon. |
| TypeLists.PathColonsNotFlagged | src/imp.rs:511-523 | When every `:` has a `:` next to it, as in `a::b`, no colon error is reported. |
| TypeLists.SecondDecl | src/imp.rs:524-532 | The duplicate-declaration error fires if and only if two declaration keywords occur at the top level. Its span is that of the second keyword after the first. |
| TypeLists.OnlyOneDecl | src/imp.rs:524-532 | With nothing but the first keyword before it and no keyword in the rest, there are no two keywords. |
| TypeLists.SecondDeclAt | src/imp.rs:524-532 | The first keyword found in the rest is the second keyword of the whole list. |
| TypeLists.Segments | src/imp.rs:479-500 | There is always at least one segment. |
| TypeLists.SplitStep | src/imp.rs:479-500 | At the first top-level comma, the segment before it is split off and the comma is recorded. |
| TypeLists.SplitAtCommas | src/imp.rs:479-500 | There is one more segment than commas, and no segment holds a top-level comma. Every recorded comma is a `,`. Interleaving the segments with the commas gives back the list, so a comma inside a group never splits. |
| TypeLists.SegmentsCount | src/imp.rs:479-500 | One more segment than commas. |
| TypeLists.SegmentsCommaFree | src/imp.rs:479-500 | No segment contains a top-level comma. |
| TypeLists.CommasArePunct | src/imp.rs:479-500 | The split tokens are the `,` punctuation. |
| TypeLists.SegmentsJoinBack | src/imp.rs:479-500 | Segments interleaved with the commas rebuild the list. |
| TypeLists.AsNodes | src/imp.rs:375-391 | Wraps each token as a plain tree node, one for one. |
| TypeLists.DeclSurvivesUntree | src/imp.rs:533-538 | A declaration keyword at the top level is still found after flattening, so the source's `unwrap` never fails. |
| TypeLists.LiftOutKeyword | src/imp.rs:533-538 | Returns the position of the first keyword in the flattened declaration. |
| TypeLists.NameAfterKeyword | src/imp.rs:539-540 | Is the token right after the first declaration keyword, and there is one exactly when that keyword is not the last token. The declaration counts as named when that token is an identifier. |
| TypeLists.InsertName | src/imp.rs:559-561 | Inserting the hint name right after the keyword makes it the declaration's name. Removing it again gives back the original tokens. |
| TypeLists.LiftOutDefines | src/imp.rs:533-583 | The lifted declaration is logged last, with the caller's pub hint. At the use site it is replaced by its name followed by its projected generics. A named declaration is defined as written. An anonymous one is defined with exactly one name inserted after its keyword. |
| TypeLists.LiftOutName | src/imp.rs:547-561 | An anonymous declaration is named by the name hint, or by `!` when there is no hint. The type gets that name, and the definition carries the same name right after its keyword. |
| TypeLists.LiftOutErrors | src/imp.rs:547-558 | The "No context for naming substructure" error is logged exactly when the declaration is anonymous and there is no name hint. It spans the declaration's tokens, and nothing else is logged besides the definition. |
| TypeLists.RecurseThroughTypeList | src/imp.rs:469-501 | The loop's output and log equal the recursive specification `ListOut`: segment by segment, with each comma copied once between the outputs of its neighbours. |
| TypeLists.ListOutComma | src/imp.rs:469-501 | One comma step of the specification: the first segment, the comma, then the rest. |
| TypeLists.CatStep | src/imp.rs:469-501 | Appending to an accumulated output and log is associative, as the loop needs. |
| TypeLists.SegmentTypeRets | src/imp.rs:469-501 | There is one output per segment. |
| TypeLists.SegmentsJoin | src/imp.rs:469-501 | A segment's output, a comma and the rest's output interleave as the split does. |
| TypeLists.ListOutBySegments | src/imp.rs:469-501 | The type output is the segments' outputs interleaved with the commas, and the log is the segments' logs concatenated. |
| TypeLists.DeclFreeSlice | src/imp.rs:584-588 | A part of a declaration-free list is declaration-free. |
| TypeLists.UntreeAround | src/imp.rs:598-619 | Flattening splits around a plain token. |
| TypeLists.CommaJoinDeclFree | src/imp.rs:469-501 | Joining two declaration-free outputs around a comma keeps the output equal to the flattened input, and keeps the log to colon errors. |
| TypeLists.ListOutDeclFree | src/imp.rs:469-501 | A type list with no declaration keyword at any depth is copied through unchanged. Only colon errors can be logged. |
| TypeLists.TypeOutDeclFree | src/imp.rs:502-589 | The same for a single type, which recurses through its groups. |
| TypeLists.UnTypeTreeOutDeclFree | src/imp.rs:584-588 | The same for the group-by-group traversal `un_type_tree`. |
| TypeLists.ListOutCarries | src/imp.rs:469-589 | Every declaration defined while scanning a type list, at any depth, is given the carried attributes `strike_attrs` that the scan was given. |
| TypeLists.TypeOutCarries | src/imp.rs:502-589 | The same for one type. |
| TypeLists.UnTypeTreeOutCarries | src/imp.rs:584-588 | The same for the group-by-group traversal, whose groups are scanned with the pub hint off but the same attributes. |
| Attributes.CrateAttrUnique | src/imp.rs:99-110 | An attribute path matches at most one crate attribute name. |
| Attributes.CrateAttrShape | src/imp.rs:99-110 | `structstruck::each` matches. Spaced colons, another crate, a longer path or a bare `each` do not. |
| Attributes.Template | src/imp.rs:419-427 | The carried attribute keeps the `#`, the `!` and the bracket span. Its path is the bracket contents and its value is empty. |
| Attributes.StrikeThroughAttributes | src/imp.rs:405-444 | The new carried set is the old one followed by one template per propagating attribute with a bracketed value, so the old set is a prefix. The declaration's attributes become the new carried set followed by the non-propagating attributes in their original order. The log is the per-attribute notices and errors, in order. |
| Attributes.StrikeSnoc | src/imp.rs:410-441 | One attribute's effect on the kept attributes, the templates and the log. |
| Attributes.KeptExactly | src/imp.rs:410-441 | An attribute is kept if and only if it does not ask to be carried. |
| Attributes.AttrLogCounts | src/imp.rs:410-441 | One attribute logs an error exactly when it propagates without a group, and a deprecation exactly when it is `strikethrough`. |
| Attributes.StrikeAccounting | src/imp.rs:405-444 | Every removed attribute leaves either a template or a "must be a [group]" error. Every `strikethrough` logs exactly one deprecation notice. |
| Attributes.CountAppend | src/imp.rs:410-441 | Counts add up over concatenated logs. |
| Naming.PascalCaseLoop | src/imp.rs:115-129 | The character loop with the `uppercase_next` flag computes `PascalCase`. |
| Naming.PascalStep | src/imp.rs:115-129 | One character of the loop: `_` sets the flag and is dropped. Otherwise the character is uppercased when the flag is set, or pushed unchanged. |
| Naming.PascalLoopStep | src/imp.rs:118-127 | One pass of the loop keeps the invariant that the output so far, followed by the specification of the rest under the current flag, is the whole result. |
| Naming.PascalCaseIsRef | src/imp.rs:112-129 | It agrees with an independent character-by-character definition. A character is ASCII-uppercased exactly when it is first or follows `_`, and every other non-`_` character is kept unchanged. |
| Naming.PascalUpTo | src/imp.rs:112-129 | The reference definition of a prefix, followed by the loop's remainder, is the whole result. |
| Naming.PascalFromShape | src/imp.rs:112-129 | The output contains no `_`. Its length is the input length minus the number of underscores. |
| Naming.FooBar | src/imp.rs:112-114 | `foo_bar` becomes `FooBar`. |
| Naming.DecimalString | src/imp.rs:62 | `to_string` of an index: one or more decimal digits, with no leading zero when the index is positive. |
| Naming.DecimalRoundTrip | src/imp.rs:62 | Reading the digits back gives the index. |
| Naming.PascalOfDigits | src/imp.rs:79-81 | `pascal_case` leaves a digit string alone, so a long-mode index is appended as written. |
| Naming.IndexSuffix | src/imp.rs:62 | An index contributes a part exactly when it is present and nonzero. That part is its decimal form. |
| Naming.SuffixUnchanged | src/imp.rs:62-81 | After `pascal_case`, an index part is its decimal form, and it is empty for `None` or `0`. |
| Naming.JoinTwo | src/imp.rs:78-81 | The fold over two parts concatenates their pascal-cased forms. |
| Naming.JoinFour | src/imp.rs:78-81 | The fold over four parts concatenates their pascal-cased forms, in order. |
| Naming.GetNameHint | src/imp.rs:61-82 | The hint is an identifier at the given span. In long mode it is the parent, the variant, the field and a nonzero index, each pascal-cased, concatenated in that order. In short mode it is the field name, else the variant name, else the parent name, pascal-cased, then a nonzero index. |
| Naming.WithFieldName | src/imp.rs:84-89 | Sets the field name and changes nothing else. |
| Naming.WithVariantName | src/imp.rs:91-96 | Sets the variant name and changes nothing else. |
| Naming.ShortModePrefersInnermost | src/imp.rs:70-75 | In short mode the innermost component present names the declaration. |
| Naming.IndexExamples | src/imp.rs:61-82 | Index 0 adds nothing (`Foo`) and index 1 adds `1` (`Foo1`). |
| Naming.LongNameExample | src/imp.rs:61-82 | Long mode with variant `Baz` and field `bar` under `Quux` gives `QuuxBazBar`. |
| Naming.From | src/imp.rs:46-59 | Every `#[structstruck::long_names]` is removed and the rest keep their order. Long mode is on exactly when one was present. The parent name is kept, and the variant and field names start empty. |
| Naming.StripRaw | src/imp.rs:335-338 | A name starting with `r#` loses exactly those two characters. Any other name is unchanged. |
| Naming.StripRawExample | src/imp.rs:335-338 | `r#type` becomes `type`, and `kind` stays `kind`. |
| Fields.MakePubMarker | src/imp.rs:251-256 | The marker that is made is a plain `pub`. |
| Fields.PlainPubExamples | src/imp.rs:258-266 | `pub` alone is plain. `pub(..)` is not, and neither is no marker at all. |
| Fields.TransferVisibility | src/imp.rs:375-391 | The field's marker moves off the field exactly when it has one and the type has no top-level `pub` identifier. It then stands in front of the type's tokens and the field is left with no marker. Otherwise both stay as they were. |
| Fields.UntreeAsNodes | src/imp.rs:386-389 | Wrapping tokens as nodes and flattening them gives the tokens back. |
| Fields.TransferConserves | src/imp.rs:375-391 | The field's marker tokens followed by the type's tokens are the same before and after the transfer. No visibility token is lost or duplicated. |
| Fields.TransferIdempotent | src/imp.rs:375-391 | A second transfer changes nothing. |
| Fields.TransferExample | src/imp.rs:369-374 | In `struct Foo(pub struct Bar())` the `pub` goes to `Bar`. |
| Fields.NamedFieldHint | src/imp.rs:333-347 | A named field's hint is named after the field, without its `r#`, at the name's span. It is public exactly when the field is plainly `pub` or the enum is public. The carried attributes are passed on unchanged. |
| Fields.TupleFieldHint | src/imp.rs:392-400 | The `num`-th tuple field's hint carries the index. Its pub flag reads the field's visibility after the transfer. The carried attributes are passed on unchanged. |
| Fields.MovedMarkerNotInHint | src/imp.rs:375-400 | A marker that moved onto the nested declaration no longer makes the hint public. Only the enclosing enum can. |
| Stream.HackAppendTypeDeclSemicolon | src/imp.rs:233-249 | The input is kept as a prefix. Exactly one call-site `;` is appended if and only if the stream is a `type` declaration, and nothing otherwise. |
| Stream.TypeDeclIffOnlyTypeKeyword | src/imp.rs:234-240 | The test holds if and only if `type` is the only declaration keyword at the top level. |
| Stream.TypeDeclExamples | src/imp.rs:233-249 | `type A = u8` gets the `;`. `struct .. type` and `fn f` do not. |
| Stream.HoistInnerAttrs | src/imp.rs:274-295 | The inner loop over one brace group's contents computes `Hoist`. |
| Stream.HoistInv | src/imp.rs:279-286 | One step of that loop preserves its invariant. |
| Stream.HoistRest | src/imp.rs:277-295 | What is left of a brace group's contents is a suffix of them that does not start with another `#![..]`. |
| Stream.HoistTaken | src/imp.rs:277-295 | The attributes taken are exactly the tokens before that suffix with each `!` dropped: two tokens kept for every three taken. |
| Stream.HoistPairs | src/imp.rs:279-286 | The attributes taken are `# group` pairs. |
| Stream.MoveOutInnerAttrs | src/imp.rs:268-304 | The result is all hoisted attributes, in order, followed by the top-level tokens rebuilt one for one. |
| Stream.PrefixPairs | src/imp.rs:268-304 | The prefix consists of whole `# group` pairs. |
| Stream.MoveOutShape | src/imp.rs:268-304 | The prefix is `# group` pairs, and the output grows by the prefix length. Non-brace tokens are unchanged. Each brace group keeps its delimiter and span, and its contents are a suffix of the old contents with no leading inner attribute. |
| Stream.MoveOutIdentity | src/imp.rs:268-304 | A stream with no leading `#!` in any top-level brace group is returned unchanged. |
| Stream.BodySettled | src/imp.rs:268-304 | Running the rewrite again over its rebuilt tokens changes nothing. |
| Stream.FlattenNoInvisible | src/imp.rs:682-697 | The result contains no `Delimiter::None` group at any depth. |
| Stream.FlattenLeaves | src/imp.rs:682-697 | The identifiers, punctuation and literals, at every depth, are unchanged and in the same order. |
| Stream.FlattenVisible | src/imp.rs:682-697 | Every visible group survives, in pre-order, with its delimiter and span. |
| Stream.FlattenIdentity | src/imp.rs:682-697 | A stream without invisible groups is left unchanged. |
| Stream.FlattenIdempotent | src/imp.rs:682-697 | Flattening twice is flattening once. |

## Left out

- `recurse_through_definition` (src/imp.rs:131-231) is not modelled: it drives the external `venial` parser and serialiser.
  - A nested call is one `Definition(tokens, strike, makePub)` entry in the log. `strike` is the set of carried attributes it is handed.
  - The generics it returns come from a function parameter, `define`.
  - The loops `named_struct_fields` and `tuple_struct_fields` (src/imp.rs:306-403) belong to that recursion. Only their per-field pieces are modelled: the `r#` strip, the hints and the visibility transfer.
- The `quote!` code generation is left out. This covers the `compile_error!` payload of `report_error` (src/imp.rs:665-680) and the `strikethrough_used` deprecation stub (src/imp.rs:446-460). Both become log entries.
- Spans are opaque values. `stream_span` joins spans with `Span::join`, which depends on the compiler host; the model uses the first token's span instead.
- The panic in `report_error` when it gets no span (src/imp.rs:678) becomes an error entry with no span. That case arises, for example, from `#[structstruck::each]` with an empty value.
- `env!("CARGO_CRATE_NAME")` is the constant `CrateName`, `"structstruck"`.
- `Ident::new` accepts only valid identifiers. That check, and `proc_macro2` internals in general, are not modelled.
- `&mut` parameters are modelled as values passed in and returned, which Rust's exclusive borrows make equivalent. In-place `retain` and `splice` are stated on the resulting sequences.
- Fields.TransferVisibility: the `mem::take` of `field.vis_marker` is modelled as returning the field's new marker, not as mutating the field.
- Strings are sequences of `char`. `to_ascii_uppercase` is modelled for ASCII letters, and every other character is unchanged.
