# denogen interface extraction and guards, in Dafny

This project models the core of denogen, a Deno tool that reads TypeScript,
finds its top-level interface declarations and emits a type-guard stub for
each one. The model has three parts.

- **Extraction** (`Interfaces`, over the node shapes in `SwcAst`). The
  `Interface` class and its constructor turn a `TsInterfaceDeclaration` into
  a name plus an ordered list of `{name, kind}` properties. Every body item
  must be a `TsPropertySignature` with an `Identifier` key. A `TsKeywordType`
  annotation gives the property's `kind`, and a missing annotation leaves it
  absent. Anything else throws. `Interface.ExtractAll` collects the top-level
  interface declarations in order and constructs an `Interface` for each. The
  first throw aborts the whole extraction.
- **Generation** (`GuardGen`). The guard name is `is` followed by the
  interface name with its first letter upper-cased. The emitted text is a doc
  comment plus a function stub.
- **Primitive guards** (`Guards`). `isNumber`, `isBoolean`, `isString` and
  `isStringMatch` are modelled over a datatype of JavaScript runtime values
  and a `typeof` function.

Thrown exceptions become a `Result` whose `Failure` carries an `ExtractError`.
The `map` with a throwing closure used by both the constructor and
`ExtractAll` is defined once, as `MapOrFail`. `ExtractAll` is an imperative
method: its selection loop, followed by `ConstructAll`, the loop behind
`decls.map(...)`. It is proved equal to the pure `Extraction`.
All the lemmas are stated about `Extraction`.

Notes on the code's behaviour:
- The constructor takes the interface's own name unchecked. It is the
  identifier's text, which the parser never leaves empty (`IdentifierText`).
- The emitted guard body is a `TODO` comment, with no property checks.
- An annotation that is not a keyword type throws. It does not leave `kind`
  absent.
- Only items whose own kind is `TsInterfaceDeclaration` are selected. An
  `export interface Foo {}` is an `ExportDeclaration` item at the top level,
  so main.ts:134 skips it, and the model skips it as an `OtherItem`.
- The emitted template is modelled twice. `SignatureAsWritten` and
  `GuardSourceAsWritten` give the text exactly as main.ts:268-277 writes it.
  `Signature` and `GuardSource` give the corrected text, with the `:` that
  main.ts:274 leaves out (see Findings).

## Model

| member | source | states |
|---|---|---|
| `Interfaces.MapOrFail` | main.ts:79-113 | The map succeeds exactly when the closure succeeds on every element. It then returns one result per element, in order. Otherwise it returns the error of the first failing element. |
| `Interfaces.MapOrFailConcat` | main.ts:140-142 | Mapping `a + b` succeeds iff both halves do, and the result is their concatenation. Otherwise `a`'s error wins over `b`'s. |
| `Interfaces.ConvertMember` | main.ts:80-112 | A member converts iff it is a property signature with an identifier key and either no annotation or a keyword annotation. The property's name is the key's text. Its kind is the keyword, or absent when unannotated. Each failing shape gives its own error: a wrong member kind, a wrong key kind, or an unsupported annotation. |
| `Interfaces.NewInterface` | main.ts:74-114 | Construction succeeds iff every body member is supported. The interface name is the declaration's identifier text, unchanged. There is one property per member, in body order, each describing its member. On failure, the error comes from the first unsupported member. |
| `Interfaces.RejectsNonPropertyMember` | main.ts:81-83 | A member that is not a property signature, wherever it sits, makes construction fail. |
| `Interfaces.Declarations` | main.ts:129-137 | The top-level scan selects at most as many declarations as there are items. |
| `Interfaces.DeclarationsConcat` | main.ts:131-137 | The scan is order-preserving. Scanning `a + b` gives `a`'s declarations followed by `b`'s. |
| `Interfaces.DeclarationsExactly` | main.ts:134-136 | A declaration is selected iff it occurs as a top-level interface item. |
| `Interfaces.DeclarationsOfNone` | main.ts:129-137 | Items with no interface declarations select nothing. |
| `Interfaces.DeclarationsOfAll` | main.ts:129-137 | Items that are all interface declarations are all selected, position by position. |
| `Interfaces.Extraction` | main.ts:125-143 | Extraction succeeds iff every top-level interface declaration constructs. It then yields exactly one interface per selected declaration, in order, each named by its declaration's identifier. On failure, the error comes from the first declaration that fails. |
| `Interfaces.ExtractionOfNone` | main.ts:129-142 | Input without interface declarations extracts to the empty list, never to an error. |
| `Interfaces.ExtractionConcat` | main.ts:125-143 | Extracting `a + b` succeeds iff extracting `a` and `b` both do, and the result is their interfaces one after the other. Otherwise the first error is reported, so no partial list is returned. |
| `Interfaces.ExtractionSkipsOtherItem` | main.ts:134-136 | Inserting a non-interface item anywhere leaves the extraction unchanged. |
| `Interfaces.ExtractedNamesNonEmpty` | main.ts:76 | Every extracted interface has a non-empty name, so a guard name can be formed for each one. |
| `Interfaces.ExtractionOfAll` | main.ts:129-142 | N well-formed interface declarations extract to exactly N interfaces, in order. Each keeps its name and has as many properties as its body has members. |
| `Interfaces.Interface.Init` | main.ts:76-79 | The object holds exactly the given name and property list. |
| `Interfaces.Interface.Create` | main.ts:74-114 | `new Interface(node)` returns a fresh object holding `NewInterface(node)`'s value, or throws its error. |
| `Interfaces.Interface.ConstructAll` | main.ts:140-142 | Constructing an object for each declaration, in order, gives fresh objects that hold exactly the mapped interfaces. Otherwise it gives the first construction's error. |
| `Interfaces.Interface.ExtractAll` | main.ts:125-143 | The selection loop followed by the constructions returns fresh objects that hold exactly `Extraction(nodes)`'s interfaces, in order, or its error. |
| `Interfaces.ExtractsFoo` | main_test.ts:5-37 | `interface Foo { prop1: string; prop2: number; prop3; }` extracts to `Foo` with properties `prop1: string`, `prop2: number` and `prop3` with no kind. |
| `Interfaces.RejectsMethodSignature` | main.ts:81-83 | An interface containing a method signature fails with an unexpected-member error naming that member's kind. |
| `GuardGen.ToUpper` | main.ts:261 | Upper-casing maps an ASCII lower-case letter to its capital and leaves every other character unchanged. |
| `GuardGen.GuardName` | main.ts:261 | The guard name is two characters longer than the interface name. It starts with `is`, then has the first letter upper-cased and the rest of the name unchanged. |
| `GuardGen.GuardNameOfCapitalised` | main.ts:261 | A name not starting with a lower-case letter gives `"is" + name` verbatim. |
| `GuardGen.GuardNameCollision` | main.ts:261 | Two names give the same guard name iff they agree after the first character and their first characters agree once upper-cased. So `foo` and `Foo` collide. |
| `GuardGen.DocComment` | main.ts:268-273 | The doc comment above each guard opens with `/**` and names the interface. |
| `GuardGen.SignatureAsWritten` | main.ts:274 | The signature line as written names the guard. |
| `GuardGen.SignatureAsWrittenMissesColon` | main.ts:274 | For every interface, the emitted signature line does not declare a type predicate. Right after the parameter list, a space stands where the return type's `:` belongs. |
| `GuardGen.Signature` | main.ts:274 | The corrected signature line is the line as written with exactly one `:` inserted right after the parameter list `(value: unknown)`. |
| `GuardGen.SignatureDeclaresTypePredicate` | main.ts:274 | The corrected line declares the function named by the guard name, taking `value: unknown`, with return type `value is <interface name>`. |
| `GuardGen.GuardSourceAsWritten` | main.ts:268-277 | The text emitted for an interface, exactly as written, opens with `/**` and names both the interface and its guard. |
| `GuardGen.GuardSource` | main.ts:268-277 | The corrected text is the emitted text with exactly one `:` inserted after the parameter list. It contains the corrected signature line. |
| `GuardGen.GuardSourceDocumentsInterface` | main.ts:268-273 | The corrected text, like the emitted one, opens with `/**` and names the interface. |
| `GuardGen.GuardSourceDeclaresGuard` | main.ts:268-277 | The corrected text names the guard, within its type-predicate signature. |
| `Guards.TypeOf` | guards.ts:2 | `typeof` yields one of the eight JavaScript tags. It is `"object"` exactly for `null` and objects. |
| `Guards.IsNumber` | guards.ts:1-3 | `isNumber(v)` holds exactly when `v` is a number. |
| `Guards.IsBoolean` | guards.ts:5-7 | `isBoolean(v)` holds exactly when `v` is a boolean. |
| `Guards.IsString` | guards.ts:9-11 | `isString(v)` holds exactly when `v` is a string. |
| `Guards.IsStringMatch` | guards.ts:13-17 | `isStringMatch(v, w)` is exactly `v == w`. The two discarded `isString` calls do not affect the result. |
| `Guards.AtMostOnePrimitive` | guards.ts:1-11 | No value passes two of `isNumber`, `isBoolean` and `isString`. |
| `Guards.IsStringMatchReflexive` | guards.ts:16 | Every string matches itself. |
| `Guards.IsStringMatchSymmetric` | guards.ts:16 | Matching does not depend on argument order. |
| `Guards.IsNumberExamples` | guards_test.ts:5-19 | `1` passes `isNumber` and `false` does not. |

## Findings

| source | as written | input that shows it | evidently intended | confidence | as-written member | corrected member |
|---|---|---|---|---|---|---|
| main.ts:274 | `function ${guardName}(value: unknown) value is ${def.name} {`, with no `:` before the return type | any interface, e.g. `Foo`, gives `function isFoo(value: unknown) value is Foo {`, which is not valid TypeScript | `function isFoo(value: unknown): value is Foo {`, a type-predicate return type | high; not executed | `GuardGen.SignatureAsWritten` (shown by `GuardGen.SignatureAsWrittenMissesColon`; the whole emitted text is `GuardGen.GuardSourceAsWritten`) | `GuardGen.Signature` (proved by `GuardGen.SignatureDeclaresTypePredicate`; used by `GuardGen.GuardSource`) |

## Left out

- `Interface.FromSrc` (main.ts:152-167) calls the external SWC parser. The model starts from an already-parsed sequence of top-level items.
- The command-line block (main.ts:171-286) is left out. It covers flag parsing, file-existence checks, file reading, concurrent processing of files, the `ast` debug dump, the per-file `map` over interfaces, writing to standard output and exit codes. Only the guard-name and template expressions are modelled.
- The runtime property checks of a complete guard are not modelled, because the source does not implement them. `checks` is never used, and the emitted body is a `TODO` comment.
- Error messages are modelled as an `ExtractError` value, not as text. The unsupported-annotation message at main.ts:105 always reports the wrapper's type, so `UnsupportedAnnotation` carries no payload.
- `kind` holds a `Keyword` value (the SWC keyword enumeration), not that keyword's spelling as a string.
- `Interface` objects are modelled with `const` fields. The source assigns `name` and `properties` only in the constructor.
- `GuardGen.ToUpper`: only ASCII letters are upper-cased. Unicode case mapping, including characters that expand to two, is not modelled.
- `GuardGen.GuardName`: requires a non-empty name. For an empty name, `def.name[0]` is `undefined` and calling `.toUpperCase()` on it throws a `TypeError`. That case is not modelled because an extracted name is never empty (`Interfaces.ExtractedNamesNonEmpty`).
- `Guards.IsNumber`: numbers are modelled as reals, so NaN, infinities and negative zero are not modelled.
- The test files main_test.ts and guards_test.ts are cited as evidence only. Their two scenarios are restated as lemmas.
