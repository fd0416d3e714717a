# golem-rust: the WIT description pipeline, modelled in Dafny

golem-rust lets a Rust component running on Golem describe its exported types and functions
in the WebAssembly Interface Type (WIT) language. This project models the parts of it that turn
Rust declarations into WIT text, and the guest-side helpers around the Golem host interface.

- **The description model** (`wit_model.dfy`): `WitExport`, `WitMeta` and the primitive
  descriptions, and the `HasWitMeta` table for primitives, `Result`, `Option`, `Vec` and non-empty
  tuples.
- **The serializer** (`into_wit.dfy`, with the text it writes in `wit_text.dfy`): the
  `WitSerializer` class appends to a `writer` buffer and keeps an indentation `level`, as
  `write_kebab`, `interleave`, `wit_ref`, `into_wit` and `export_wit_interface` do. Each method
  is proved to append exactly a pure text function of its input. `wit_text_props.dfy` proves
  what that text is:
  - kebab-casing is idempotent, turns `_` into `-`, adds a `-` at each word break, and keeps
    every character other than a letter, `-` and `_`;
  - `interleave` is a join;
  - a tuple reference leaves one `<` unclosed.
- **The older serializer** (`legacy_into_wit.dfy`): the copy in golem-rust-examples, which does
  not trim underscores and has no indentation levels. `serializer_comparison.dfy` relates its
  output to the current one.
- **The file generator** (`wit_gen.dfy`): `generate_witfile` and its helpers over a small Rust
  syntax datatype (`rust_syntax.dfy`). Every `panic!` and `unwrap` failure becomes an `Err`,
  and the first failing item in iteration order wins. `wit_gen_props.dfy` relates the
  generator's naming and type resolution to the serializer's.
- **The derive macros** (`golem_macro.dfy`): `make_type_wit_const`, the struct, enum and
  variant expansions, the registry static's name, and `implement_global_function`.
- **The transaction macro** (`transaction_macro.dfy`): `result_type`, and
  `golem_operation_impl`'s argument loop, input loop, compensation choice and signature
  rewrite. The loops form a method proved equal to a pure specification.
- **The host helpers** (`host.dfy`):
  - the `PromiseId` text form;
  - the retry-policy conversions between nanoseconds and `Duration`;
  - the `use_*`/`with_*` guards and `atomically`, as methods of a `Host` class whose fields
    are the host's settings and its oplog markers.

A consequence of the `PromiseId` text form is worth stating plainly. `from_str` splits on every
`/` and wants exactly two pieces, while its own error message gives a worker id's form as
`<component_id>/<worker_name>`. So a promise id whose worker id is written in that usual form,
with a `/`, never parses back from its own display (`Host.SlashInWorkerIdRejected`). The round
trip `Host.PromiseIdRoundTrip` holds only for worker ids whose text has no `/`.

## Model

| member | source | states |
|---|---|---|
| WitModel.WitExport.Name | golem-rust/src/wit/model.rs:20-30 | the name is the declared name of whichever shape is exported |
| WitModel.PrimitiveAliases | golem-rust/src/wit/model.rs:137-157 | `isize`/`i64` and `usize`/`u64` share a description, and no other two names do |
| WitModel.MetaOfSupported | golem-rust/src/wit/model.rs:137-195 | a Rust type has a table description exactly when it is built from the primitives by `Result`, `Option`, `Vec` and tuples of at least one item; `()` has none |
| WitModel.MetasOfSupported | golem-rust/src/wit/model.rs:184-195 | a tuple's items are all described exactly when each item is supported |
| WitModel.MetasOfPointwise | golem-rust/src/wit/model.rs:184-195 | a tuple is described item by item, in order |
| WitText.TrimUnderscoresSteps | golem-rust/src/wit/into_wit.rs:204 | trimming leading then trailing underscores is the single trimming function used by the model |
| WitText.TrimStartUnderscoresSpec | golem-rust/src/wit/into_wit.rs:204 | `trim_start_matches('_')` removes exactly the leading run of underscores |
| WitText.TrimEndUnderscoresSpec | golem-rust/src/wit/into_wit.rs:204 | `trim_end_matches('_')` removes exactly the trailing run of underscores |
| WitText.Indentation | golem-rust/src/wit/into_wit.rs:227-232 | the indentation at a level is three spaces per level and nothing else |
| WitTextProps.TrimUnderscoresSlice | golem-rust/src/wit/into_wit.rs:204 | the trimmed name is a contiguous slice that neither starts nor ends with `_`, with only `_` around it |
| WitTextProps.KebabIsKebabText | golem-rust/src/wit/into_wit.rs:200-224 | on ASCII input `write_kebab` writes no uppercase letter and no underscore |
| WitTextProps.KebabIdentity | golem-rust/src/wit/into_wit.rs:200-224 | a name already in lowercase kebab form is written unchanged |
| WitTextProps.KebabIdempotent | golem-rust/src/wit/into_wit.rs:200-224 | kebab-casing a kebab-cased ASCII name again, trimming or not, changes nothing |
| WitTextProps.KebabLength | golem-rust/src/wit/into_wit.rs:206-221 | the output is one character longer per word break (a capital after a non-capital, not first) than the input |
| WitTextProps.KebabHyphens | golem-rust/src/wit/into_wit.rs:206-221 | the hyphens written are the name's hyphens, its underscores and one per word break |
| WitTextProps.KebabKeeps | golem-rust/src/wit/into_wit.rs:206-221 | every character that is not a letter, `-` or `_` occurs as often in the output as in the name |
| WitTextProps.InterleavedIsJoin | golem-rust/src/wit/into_wit.rs:263-284 | `interleave` writes the prefixed items joined by the separator |
| WitTextProps.InterleavedLength | golem-rust/src/wit/into_wit.rs:263-284 | the length is the items, one prefix per item, and one separator fewer than items |
| WitTextProps.InterleavedCount | golem-rust/src/wit/into_wit.rs:263-284 | a character absent from prefix and separator occurs as often as in the items |
| WitTextProps.RefTextBrackets | golem-rust/src/wit/into_wit.rs:164-198 | a reference has exactly one more `<` than `>` per tuple in it: every other bracket is closed |
| WitTextProps.RefTextsBrackets | golem-rust/src/wit/into_wit.rs:188-195 | the same count for a list of references |
| WitText.RefText | golem-rust/src/wit/into_wit.rs:164-198 | the reference text of a description; stated by `RefTextBrackets`, `TupleAmbiguity` and `TupleJoin`, and appended by `WitSerializer.WitRef` |
| WitTextProps.TupleJoin | golem-rust/src/wit/into_wit.rs:188-195 | a tuple of any items is written as `tuple<` and its item texts joined by `, `, with no closing `>` |
| WitText.RefTexts | golem-rust/src/wit/into_wit.rs:188-195 | a list of descriptions is written item by item, in order |
| WitTextProps.TupleAmbiguity | golem-rust/src/wit/into_wit.rs:188-195 | for any item types `x` and `y`, the different shapes `tuple<tuple<x>, y>` and `tuple<tuple<x, y>>` are both written as `tuple<tuple<x, y` |
| IntoWit.WitSerializer.constructor | golem-rust/src/wit/into_wit.rs:51-57 | a new serializer has an empty buffer and the given level |
| IntoWit.WitSerializer.WriteStr | golem-rust/src/wit/into_wit.rs:257-260 | appends the string |
| IntoWit.WitSerializer.NewLine | golem-rust/src/wit/into_wit.rs:245-247 | appends a newline |
| IntoWit.WitSerializer.IncIndent | golem-rust/src/wit/into_wit.rs:235-237 | raises the level by one |
| IntoWit.WitSerializer.DecIndent | golem-rust/src/wit/into_wit.rs:240-242 | lowers a positive level by one |
| IntoWit.WitSerializer.WriteIndentation | golem-rust/src/wit/into_wit.rs:227-232 | appends the indentation of the current level |
| IntoWit.WitSerializer.WriteIndentLine | golem-rust/src/wit/into_wit.rs:250-254 | appends indentation, the string and a newline |
| IntoWit.WitSerializer.WriteKebab | golem-rust/src/wit/into_wit.rs:200-224 | appends the trimmed, kebab-cased name |
| IntoWit.WitSerializer.Interleave | golem-rust/src/wit/into_wit.rs:263-284 | appends the items in order, each after its prefix, separated by the separator |
| IntoWit.WitSerializer.WritePiece | golem-rust/src/wit/into_wit.rs:70-153 | appends the text of one record field, function argument, variant option or enum case |
| IntoWit.WitSerializer.WitRef | golem-rust/src/wit/into_wit.rs:164-198 | appends the reference text of a description |
| IntoWit.WitSerializer.WriteBlockHeader | golem-rust/src/wit/into_wit.rs:63-68 | appends the opening line of a block declaration |
| IntoWit.WitSerializer.WriteBlockFooter | golem-rust/src/wit/into_wit.rs:81-83 | appends the closing brace line one level less, and lowers the level |
| IntoWit.WitSerializer.WriteRecord | golem-rust/src/wit/into_wit.rs:62-84 | a record is a block whose fields are separated by `\n`; the level is unchanged afterwards |
| IntoWit.WitSerializer.WriteVariant | golem-rust/src/wit/into_wit.rs:85-120 | a variant is a block of options separated by `,\n`; the level is unchanged afterwards |
| IntoWit.WitSerializer.WriteEnum | golem-rust/src/wit/into_wit.rs:121-139 | an enum is a block of cases separated by `,\n`; the level is unchanged afterwards |
| IntoWit.WitSerializer.WriteFunction | golem-rust/src/wit/into_wit.rs:140-158 | a function is one line `name: func(args) -> result` |
| IntoWit.WitSerializer.IntoWit | golem-rust/src/wit/into_wit.rs:59-162 | appends the export's text at the current level and leaves the level as it was |
| WitText.ExportText | golem-rust/src/wit/into_wit.rs:59-162 | the text of one export; appended by `WitSerializer.IntoWit`, and related to the older text by `ExportAgree` |
| IntoWit.ExportWitInterface | golem-rust/src/wit/into_wit.rs:4-22 | the document is every export at level 1, each followed by a newline, inside the interface and world blocks |
| WitText.InterfaceText | golem-rust/src/wit/into_wit.rs:4-22 | the whole interface document; written by `ExportWitInterface`, and stated by `InterfaceHoldsExports` |
| WitTextProps.ExportsTextConcat | golem-rust/src/wit/into_wit.rs:12-15 | the exports are written independently and in order: the text of two lists of exports is the text of the first followed by the text of the second |
| WitTextProps.InterfaceHoldsExports | golem-rust/src/wit/into_wit.rs:4-22 | the document is the interface header, the exports before any export, its own text and a newline, the exports after it, and the closing interface and world blocks |
| IntoWit.IntoWitString | golem-rust/src/wit/into_wit.rs:24-29 | the text of one export at level 0 |
| LegacyIntoWit.LegacyWitSerializer.constructor | golem-rust-examples/src/main.rs:110-115 | a new serializer has an empty buffer |
| LegacyIntoWit.LegacyWitSerializer.WriteStr | golem-rust-examples/src/main.rs:265-269 | appends the string |
| LegacyIntoWit.LegacyWitSerializer.WriteKebab | golem-rust-examples/src/main.rs:240-263 | appends the kebab-cased name without trimming underscores |
| LegacyIntoWit.LegacyWitSerializer.Interleave | golem-rust-examples/src/main.rs:271-293 | appends the items, each after the fixed prefix, separated by the separator |
| LegacyIntoWit.LegacyWitSerializer.WritePiece | golem-rust-examples/src/main.rs:119-197 | appends the text of one field, argument, option or case |
| LegacyIntoWit.LegacyWitSerializer.WitRef | golem-rust-examples/src/main.rs:203-237 | appends the untrimmed reference text of a description |
| LegacyIntoWit.LegacyWitSerializer.WriteBlock | golem-rust-examples/src/main.rs:119-180 | a record, variant or enum is a header, `,\n`-separated items and `\n}` |
| LegacyIntoWit.LegacyWitSerializer.WriteFunction | golem-rust-examples/src/main.rs:181-197 | a function is `name: func(args) -> result` with no newline |
| LegacyIntoWit.LegacyWitSerializer.IntoWit | golem-rust-examples/src/main.rs:117-201 | appends the older text of the export |
| LegacyIntoWit.LegacyIntoWitString | golem-rust-examples/src/main.rs:83-88 | the older text of one export |
| SerializerComparison.KebabDisagree | golem-rust/src/wit/into_wit.rs:204 | for every name starting with `_`, the current `write_kebab` writes what it writes for the name without that `_`, while the older one writes a text starting with `-` |
| SerializerComparison.RefTextAgree | golem-rust/src/wit/into_wit.rs:164-198 | with no name starting or ending in `_`, both serializers write the same reference |
| SerializerComparison.ExportAgree | golem-rust-examples/src/main.rs:117-201 | at level 0 and with untrimmed names, variants, enums and functions are written as the older serializer wrote them, plus one newline |
| SerializerComparison.RecordSeparators | golem-rust/src/wit/into_wit.rs:70-80 | the older record text is one character longer per field separator (`,\n` against `\n`); with at most one field they agree |
| WitGen.PascalToKebab | golem-rust/src/wit_gen.rs:202-221 | fails exactly on the empty name (the `unwrap` on the first character); otherwise starts with the lowered first character |
| WitGen.CollectAll | golem-rust/src/wit_gen.rs:28-175 | collecting succeeds exactly when every item does, keeps each value in order, and otherwise reports the first failure |
| WitGen.TrimWhitespace | golem-rust/src/wit_gen.rs:191 | trimming never lengthens the text |
| WitGenProps.PascalToKebabCounts | golem-rust/src/wit_gen.rs:202-221 | every capital after the first character gains a hyphen: one more character and one more hyphen per capital, nothing uppercase left, `_` kept |
| WitGenProps.PascalKebabAgree | golem-rust/src/wit_gen.rs:202-221 | on ASCII names without `_` or consecutive capitals the generator's kebab-casing is the serializer's, either version |
| WitGenProps.AcronymSplit | golem-rust/src/wit_gen.rs:208-214 | where they differ: the generator writes `AB` as `a-b`, the serializer as `ab` |
| WitGenProps.DashedLowerAgree | golem-rust/src/wit_gen.rs:43-48 | lowercasing field, parameter and function names and turning `_` into `-` is the older `write_kebab` on names without capitals |
| WitGenProps.PackageNameForm | golem-rust/src/wit_gen.rs:19-24 | the package name lowers every capital, turns `_` into `:` and keeps every other character |
| WitGenProps.ConvertMatchesPrimitives | golem-rust/src/wit_gen.rs:246-265 | the name table agrees with the `HasWitMeta` table on every primitive but the floats (`float32` against `f32`); other names are kebab-cased |
| WitGen.ConvertRustType | golem-rust/src/wit_gen.rs:246-265 | the name table; stated by `ConvertMatchesPrimitives` |
| WitGenProps.ResolvePath | golem-rust/src/wit_gen.rs:279-285 | a path starting with `super` is refused; otherwise only its last segment counts |
| WitGen.ResolveType | golem-rust/src/wit_gen.rs:277-363 | `resolve_type`; stated by `ResolvePath`, `ResolveBox`, `ResolveResult`, `ResolveWrapped`, `ResolveTuple`, `ResolveSlice`, `ResolveOther` and `StrategiesAgree` |
| WitGen.ResolveArgs | golem-rust/src/wit_gen.rs:318-323 | the generic arguments of a `Result` resolve exactly when each does, each to its own text in order, and otherwise to the first failure |
| WitGen.ResolveTypes | golem-rust/src/wit_gen.rs:345-350 | the items of a tuple resolve exactly when each does, each to its own text in order, and otherwise to the first failure |
| WitGenProps.ResolveBox | golem-rust/src/wit_gen.rs:286-296 | `Box<T>` resolves as `T` |
| WitGenProps.ResolveResult | golem-rust/src/wit_gen.rs:311-326 | `Result` with any non-empty list of arguments that resolve is `result<` their texts joined by `, ` `>`, each argument resolved on its own |
| WitGenProps.ResolveResultFails | golem-rust/src/wit_gen.rs:318-323 | the first argument of a `Result` that fails to resolve gives the error, whatever follows |
| WitGenProps.ResolveWrapped | golem-rust/src/wit_gen.rs:297-339 | `Option<T>` resolves to `option<t>` and `Vec<T>` to `list<t>` |
| WitGenProps.StrategiesAgree | golem-rust/src/wit_gen.rs:277-363 | for types built from integers, `bool`, `char` and `String` by `Result`, `Option` and `Vec`, `resolve_type` writes what `wit_ref` writes for the table's description |
| WitGenProps.TupleClosed | golem-rust/src/wit_gen.rs:344-357 | for any non-empty tuple whose items are built from integers, `bool`, `char` and `String` by `Result`, `Option` and `Vec` (no floats, no nested tuples), the generator writes the serializer's reference text plus the closing `>` the serializer leaves out |
| WitGenProps.ResolveTuple | golem-rust/src/wit_gen.rs:344-357 | a tuple resolves to `tuple<` its items joined by `, ` `>`, except that it resolves to nothing exactly when it has no items or one item resolving to nothing |
| WitGenProps.ResolveTupleFails | golem-rust/src/wit_gen.rs:345-350 | the first tuple item that fails to resolve gives the error |
| WitGenProps.EmptyTuples | golem-rust/src/wit_gen.rs:344-357 | `()` and `((),)` both resolve to nothing |
| WitGenProps.ResolveSlice | golem-rust/src/wit_gen.rs:358-360 | a slice `[T]` resolves as `Vec<T>` does: `list<t>`, or the element's error |
| WitGenProps.ResolveOther | golem-rust/src/wit_gen.rs:361 | every other kind of type (references, pointers, arrays, groups, parenthesised types, ...) resolves to nothing |
| WitGenProps.ReservedStructs | golem-rust/src/wit_gen.rs:267-273 | structs named `Option` or `Result` are refused |
| WitGenProps.StructLayout | golem-rust/src/wit_gen.rs:57-67 | a struct without fields is the one line `    record <title> {}`; with fields the text starts with a newline and `    record ` and ends with a comma, a newline and the indented `}` |
| WitGen.StructText | golem-rust/src/wit_gen.rs:32-68 | a struct's record text; stated by `StructLayout` and `ReservedStructs` |
| WitGenProps.NamedCasesFlattened | golem-rust/src/wit_gen.rs:133-155 | an enum case with named fields is written like a tuple case with the same types |
| WitGen.EnumText | golem-rust/src/wit_gen.rs:124-168 | an enum's variant text; stated by `NamedCasesFlattened` |
| WitGenProps.UnitReturnOmitsArrow | golem-rust/src/wit_gen.rs:104-118 | a method returning `()` is written without `->`, like one without a return type |
| WitGenProps.WitFileFailure | golem-rust/src/wit_gen.rs:26-189 | generation fails exactly when the module has no body or one of its items fails, and then with the first failing item's error |
| WitGen.WitFile | golem-rust/src/wit_gen.rs:8-191 | the generated document; stated by `WitFileFailure` and `WitFileText` |
| WitGenProps.WitFileText | golem-rust/src/wit_gen.rs:177-191 | the document starts with `package` and ends with `}`, so trimming leaves it as it is |
| WitGenProps.TrimWhitespaceSlice | golem-rust/src/wit_gen.rs:191 | `trim` leaves the slice between the leading and trailing whitespace, which neither starts nor ends with whitespace |
| GolemMacro.TypeWitConstRoot | golem-rust-macro/src/golem.rs:230-280 | the rewrite succeeds exactly on unqualified paths whose generic arguments are all such types; the root form is the nested form plus `::WIT` |
| GolemMacro.TypeWitConst | golem-rust-macro/src/golem.rs:230-280 | the rewrite of a type into its `WIT` constant expression; its properties are stated by `TypeWitConstRoot`, `LastSegmentOnly`, `PlainTypeConst`, `GenericTypeConst`, `ArgConsts` and `NestedExample` |
| GolemMacro.LastSegmentOnly | golem-rust-macro/src/golem.rs:233-240 | only the last path segment is rewritten |
| GolemMacro.PlainTypeConst | golem-rust-macro/src/golem.rs:263-273 | a type without generic arguments becomes its name, followed by `::WIT` at the root only |
| GolemMacro.GenericTypeConst | golem-rust-macro/src/golem.rs:242-262 | for any rewritable arguments, each argument is rewritten on its own in nested form, and the generic type is `Name::<` those texts joined by `, ` `>`, followed by `::WIT` at the root only |
| GolemMacro.ArgConsts | golem-rust-macro/src/golem.rs:243-252 | the arguments succeed exactly when each does, each keeps its own text in order, and otherwise the first failing argument's error is reported |
| GolemMacro.NestedExample | golem-rust-macro/src/golem.rs:226-229 | `Result<Option<T>, E>` becomes `Result::<Option::<T>, E>::WIT`, whatever the names `T` and `E` |
| GolemMacro.RegistryName | golem-rust-macro/src/golem.rs:212-224 | the registry static is the ASCII-uppercased type name followed by `_WIT` |
| GolemMacro.RegistryCollision | golem-rust-macro/src/golem.rs:212-224 | types named `Ab` and `AB` get the same registry static |
| GolemMacro.FieldConsts | golem-rust-macro/src/golem.rs:23-37 | the fields succeed exactly when each does, in order, each with its own name and type expression; otherwise the first failing field's error is reported |
| GolemMacro.ExpandStructFields | golem-rust-macro/src/golem.rs:12-60 | the struct derive succeeds exactly when every field is named and rewritable, and then lists every field in order with its root type expression |
| GolemMacro.ExpandStruct | golem-rust-macro/src/golem.rs:12-60 | the struct derive; stated by `ExpandStructFields`, `FieldConsts` and `FirstFieldFails` |
| GolemMacro.FirstFieldFails | golem-rust-macro/src/golem.rs:23-37 | the first failing field, at any position, gives the derive's error, whatever follows |
| GolemMacro.CaseNames | golem-rust-macro/src/golem.rs:89-95 | the enum derive lists every case name, in order |
| GolemMacro.ExpandEnum | golem-rust-macro/src/golem.rs:83-117 | the enum derive; stated by `CaseNames` |
| GolemMacro.PayloadConsts | golem-rust-macro/src/golem.rs:150-158 | a case's payload succeeds exactly when each type is rewritable, each as its root expression; otherwise the first failing type's error is reported |
| GolemMacro.OptionConsts | golem-rust-macro/src/golem.rs:146-171 | the variant derive succeeds exactly when every case's payload does, and keeps each case's name and payload in order |
| GolemMacro.FirstPayloadFails | golem-rust-macro/src/golem.rs:146-171 | the first case whose payload fails gives the variant derive's error, whatever follows |
| GolemMacro.ExpandVariant | golem-rust-macro/src/golem.rs:139-191 | the variant derive; stated by `OptionConsts`, `PayloadConsts` and `FirstPayloadFails` |
| GolemMacro.GlobalFunction | golem-rust-macro/src/golem.rs:282-330 | a marker struct named by the pascal-cased function, a registry entry `FUN` plus that name uppercased, and the function itself |
| GolemMacro.GlobalFunctionExample | golem-rust-macro/src/golem.rs:298-302 | `get_address` is registered as `FUNGETADDRESS`, with no separators |
| TransactionMacro.ResultTypeRecognises | golem-rust-macro/src/transaction.rs:144-185 | recognised are exactly unqualified `Result`, `std::result::Result` or `core::result::Result` paths, under any wrappers, with two type arguments, returned in order |
| TransactionMacro.ResultType | golem-rust-macro/src/transaction.rs:144-185 | `result_type`; stated by `ResultTypeRecognises`, `RewrittenReturnRecognised` and `StdResultRecognised` |
| TransactionMacro.RewrittenReturnRecognised | golem-rust-macro/src/transaction.rs:105-110 | the rewritten return type is again a recognised `Result`, with the error wrapped in `TransactionFailure` |
| TransactionMacro.InputsUpToSpec | golem-rust-macro/src/transaction.rs:51-62 | the input loop fails exactly on a `self` receiver, and otherwise splits every input into its pattern and type |
| TransactionMacro.GolemOperationImpl | golem-rust-macro/src/transaction.rs:23-142 | the argument loop, return-type check, input loop, compensation choice and signature rewrite give exactly the specified operation or error |
| TransactionMacro.GolemOperation | golem-rust-macro/src/transaction.rs:23-142 | the specification of `golem_operation_impl`; stated by `GolemOperationImpl`, `NoCompensation`, `BothRejected`, `WithResultArguments`, `SignatureRewrite` and `NotReapplicable` |
| TransactionMacro.CompensationsPrefix | golem-rust-macro/src/transaction.rs:28-39 | the argument loop over a longer list passes through the states of the loop over its prefix |
| TransactionMacro.IgnoredArgument | golem-rust-macro/src/transaction.rs:28-39 | arguments other than the two compensation names leave the loop's state as it was |
| TransactionMacro.NoCompensation | golem-rust-macro/src/transaction.rs:51-96 | with neither name given, the plain `operation` is used with no compensation, and its arguments are the inputs' patterns, one per input in order |
| TransactionMacro.BothRejected | golem-rust-macro/src/transaction.rs:41-74 | giving both compensation names is the `Cannot specify both` error once the return type and the inputs have passed; a missing `Result` return, then a `self` input, is reported first |
| TransactionMacro.WithResultArguments | golem-rust-macro/src/transaction.rs:78-96 | `compensation_with_result` receives every input in order and then `op_result`, typed `std::result::Result<succ, err>`, through `operation_with_result` |
| TransactionMacro.StdResultRecognised | golem-rust-macro/src/transaction.rs:79 | the fully qualified `std::result::Result<succ, err>` written for `op_result` is recognised by `result_type` with the same two arguments, and is a different type from the one-segment `Result<succ, err>` |
| TransactionMacro.SignatureRewrite | golem-rust-macro/src/transaction.rs:41-110 | a `self` input is refused, with the receiver error once the attribute arguments and the return type have passed; otherwise the trait method takes `self` and the original inputs and returns `Result<succ, TransactionFailure<err>>` |
| TransactionMacro.NotReapplicable | golem-rust-macro/src/transaction.rs:98-103 | the rewritten signature, starting with `self`, cannot be rewritten again |
| Host.ParseU64 | golem-rust/src/lib.rs:59-61 | an oplog index parses only from non-empty text, to a value below 2^64 |
| Host.ParseShowNat | golem-rust/src/lib.rs:44-61 | an index's decimal text parses back to it |
| Host.ParseNotInjective | golem-rust/src/lib.rs:59-61 | `+7`, `007` and `7` all parse to 7; `+`, `-7` and the empty text do not parse |
| Host.SplitJoin | golem-rust/src/lib.rs:54 | the pieces of a split, joined with `/`, give the text back |
| Host.SplitPieces | golem-rust/src/lib.rs:54 | no piece of a split holds a `/` |
| Host.SplitTwo | golem-rust/src/lib.rs:54-55 | text with exactly one `/` splits into the parts around it |
| Host.ParsePromiseId | golem-rust/src/lib.rs:50-72 | parsing succeeds only on text with exactly one `/`; any other count gives the "invalid promise id" message |
| Host.PromiseIdRoundTrip | golem-rust/src/lib.rs:44-72 | a promise id whose worker id text has no `/` and parses back, and whose index fits in 64 bits, reads back from its display |
| Host.SlashInWorkerIdRejected | golem-rust/src/lib.rs:44-72 | a worker id whose text holds a `/` gives a promise id display that does not parse |
| Host.ParsedPromiseId | golem-rust/src/lib.rs:53-65 | a parsed text is a worker id text and an index text around one `/`, each accepted by its parser |
| Host.ParseOneSlash | golem-rust/src/lib.rs:53-65 | for any two texts without `/`, the text `a/b` parses to the worker id and index they parse to; an unparseable worker id gives the "invalid worker id" message, checked before the index, and an unparseable index the "invalid oplog index" message |
| Host.ShowPromiseId | golem-rust/src/lib.rs:44-48 | the display of a promise id; stated by `PromiseIdRoundTrip` and `SlashInWorkerIdRejected` |
| Host.Split | golem-rust/src/lib.rs:54 | `split('/')` gives one more piece than there are `/`; `SplitJoin`, `SplitPieces` and `SplitTwo` state the pieces |
| Host.FromNanos | golem-rust/src/lib.rs:87-88 | `Duration::from_nanos` gives a valid duration holding that many nanoseconds |
| Host.FromHostPolicy | golem-rust/src/lib.rs:83-93 | the attempts and float fields are copied, and each delay is the duration of that many nanoseconds |
| Host.ToHostPolicy | golem-rust/src/lib.rs:95-105 | the attempts and float fields are copied, and each delay is its nanosecond count truncated to 64 bits |
| Host.HostPolicyRoundTrip | golem-rust/src/lib.rs:83-105 | a host policy converted to the guest's form and back is unchanged |
| Host.PolicyRoundTrip | golem-rust/src/lib.rs:83-105 | a guest policy converted to the host's form and back is unchanged exactly when both delays are below 2^64 nanoseconds |
| Host.StepsAppend | golem-rust/src/lib.rs:127-218 | running two call sequences in turn is running their concatenation |
| Host.StepsExtendOplog | golem-rust/src/lib.rs:192-218 | host calls only add to the oplog |
| Host.Step | golem-rust/src/lib.rs:111-210 | the effect of one host call; stated by `StepsAppend`, `StepsExtendOplog` and the `Host` methods |
| Host.WithLevelTransparent | golem-rust/src/lib.rs:117-131 | around calls that do not set the persistence level themselves, `with_persistence_level` leaves the host as the calls alone would |
| Host.WithIdempotenceTransparent | golem-rust/src/lib.rs:143-157 | the same for `with_idempotence_mode` |
| Host.WithRetryTransparent | golem-rust/src/lib.rs:176-190 | the same for `with_retry_policy`, whose restore goes through the guest form of the policy |
| Host.AtomicBrackets | golem-rust/src/lib.rs:192-218 | `atomically` writes a begin marker at the first new oplog position and, last, an end marker naming that position, keeping the earlier oplog |
| Host.Host.Call | golem-rust/src/lib.rs:113 | one host call changes the host as the call's effect says |
| Host.Host.MarkBeginOperation | golem-rust/src/lib.rs:208 | the begin marker is appended and its oplog index returned |
| Host.Host.Run | golem-rust/src/lib.rs:130 | a closure's host calls take effect in order |
| Host.Host.UsePersistenceLevel | golem-rust/src/lib.rs:121-125 | the guard holds the previous level and the host has the new one, nothing else changed |
| Host.Host.DropPersistenceLevelGuard | golem-rust/src/lib.rs:111-115 | dropping the guard sets the remembered level again |
| Host.Host.WithPersistenceLevel | golem-rust/src/lib.rs:128-131 | the calls run under the new level, and afterwards the original level is back |
| Host.Host.UseIdempotenceMode | golem-rust/src/lib.rs:147-151 | the guard holds the previous mode and the host has the new one |
| Host.Host.DropIdempotenceModeGuard | golem-rust/src/lib.rs:137-141 | dropping the guard sets the remembered mode again |
| Host.Host.WithIdempotenceMode | golem-rust/src/lib.rs:154-157 | the calls run under the new mode, and afterwards the original mode is back |
| Host.Host.UseRetryPolicy | golem-rust/src/lib.rs:180-184 | the guard holds the previous policy in the guest's form, and the host has the new one in the host's form |
| Host.Host.DropRetryPolicyGuard | golem-rust/src/lib.rs:170-174 | dropping the guard hands the remembered policy back in the host's form |
| Host.Host.WithRetryPolicy | golem-rust/src/lib.rs:187-190 | the calls run under the new policy, and afterwards the host's original policy is back exactly |
| Host.Host.MarkAtomicOperation | golem-rust/src/lib.rs:207-210 | the guard holds the index of the begin marker just written |
| Host.Host.DropAtomicOperationGuard | golem-rust/src/lib.rs:196-200 | dropping the guard writes the end marker naming the guard's begin index |
| Host.Host.Atomically | golem-rust/src/lib.rs:215-218 | the calls run between a begin marker and the end marker naming its index |

## Left out

- File and standard-error I/O in `generate_witfile` (the file creation, `eprintln!` of the
  module, `write_all`, and their errors) is not modelled. The model computes the text that
  would be written.
- Token streams from `quote!` and `syn` parsing are modelled as strings and as a small Rust
  syntax datatype. Spacing and the spans of tokens are not modelled.
- Heck's `to_pascal_case`, used by `implement_global_function` and `golem_operation_impl`, is
  a function parameter.
- The worker id's parser and display belong to the host bindings, which are not part of this
  model; both are parameters.
- The host calls (`get_*`/`set_*`, `mark_begin_operation`, `mark_end_operation`) are the
  effects of a `Host` object. The oplog index of a begin marker is modelled as its position
  in the list of markers.
- `generate_idempotency_key` is a foreign call that returns a fresh UUID and is not modelled.
- Host.Host.WithPersistenceLevel, Host.Host.WithIdempotenceMode, Host.Host.WithRetryPolicy,
  Host.Host.Atomically: the closure is a sequence of host calls. Its return value, its panics
  and the unwinding that drops the guard are not modelled.
- Host.ParsePromiseId: Rust's `parse::<u64>` is modelled for ASCII digits. A worker-id parse
  failure is modelled as `None`.
- `f64` fields of a retry policy are only copied. They are modelled as `real`, so NaN is not
  represented.
- Uppercase detection and lowering cover ASCII only. Lemmas about "no uppercase in the output"
  require ASCII input. `write_kebab`'s `c as u8` is modelled as the character's low byte.
- `Ident::new` panics on an invalid identifier (a `to_pascal_case` result that is not one, for
  example). That panic is not modelled.
- `Flag` exports are a `todo!()` in both serializers. They are excluded by a precondition.
- The struct, enum and variant derives in golem-rust-macro/src/lib.rs: the `golem` attribute
  tries the struct and then the enum expansion. `variant::expand` is modelled
  (`GolemMacro.ExpandVariant`), but nothing dispatches to it. darling's `enum_tuple` check is
  taken to accept exactly enums whose cases all have unnamed fields.
- The `HasWitMetadata` implementation that `implement_global_function` builds, and never
  emits, is not modelled.
- `syn::parse(item).unwrap()` in `golem_operation_impl` is taken to succeed: the function is
  given as a parsed signature. A non-ident argument path is modelled as the `ArgNotIdent`
  error.
- In `generate_witfile` a `panic!` (including a failed `unwrap` or `expect`) is modelled as
  an `Err` result, and the first failing item in iteration order wins. A trait's name is
  kebab-cased and then discarded, as in the source, so only its failure on an empty name
  matters.
- WitGen.TrimWhitespace: the ensures states only that trimming never lengthens the text.
  `WitGenProps.TrimWhitespaceSlice` states what is removed. Whitespace means ASCII
  whitespace only.
- GolemMacro.OptionConsts: the first-failure property is not an ensures of the function. It is
  stated as the lemma `GolemMacro.FirstPayloadFails`, which takes the failing case's position.
- WitGenProps.TupleClosed: the agreement is stated only for tuples of items without floats and
  without nested tuples. For those the two strategies differ further. Floats are `float32` and
  `float64` in the generator but `f32` and `f64` in the serializer. A nested tuple is closed by
  the generator and left open by the serializer, so `((u8,),)` is `tuple<tuple<u8>>` against
  `tuple<tuple<u8` followed by the one outer `>`.
