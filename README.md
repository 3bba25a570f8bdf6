# ngrx-utils action metadata extractor and union-type synthesizer, in Dafny

This project models the code generator of `ngrx-utils`. It reads a TypeScript
source file of NgRx action declarations and writes the union type of those
actions. The two steps modelled are:

- **Extraction** (`src/bin/ngrx-utils.ts`). `getActionClasses` keeps the
  top-level classes whose heritage clauses name `Action`. `getTypeProperty`
  reads the `type` member of each such class and parses it. `collectMetadata`
  keeps the top-level interfaces that name `Action` and turns each into an
  `ActionMetadata` record: the interface name, the text of its `type`
  literal (quotes kept), and its property signatures except a required
  `type`: the required ones first, then the optional ones, an optional
  `type` among them.
- **Synthesis** (`src/bin/printer.ts`). `parseActionType` splits a
  discriminant such as `'[Truck] Get Items'` into a category (`Truck`) and a
  name. `createActionOutput` builds one import declaration naming every
  record, and one exported type alias named after the first record's
  category whose union lists every record.

The TypeScript syntax tree is modelled as datatypes holding the node texts
the code reads through `getText()` (module `Syntax`). Each `throw` and each
`TypeError` the code can hit becomes the `Err` side of a `Result`. The
modules are:

| module | file | models |
|---|---|---|
| `Results` | results.dfy | `Option`, `Result`, and `Array.prototype.map` with a callback that may throw (`AllOk`) |
| `Text` | text.dfy | line terminators as the regular-expression `.` sees them; `indexOf`; `String.prototype.replace` with a string pattern |
| `Syntax` | syntax.dfy | statements, class and interface declarations, heritage clauses, members |
| `ActionTypes` | action_types.dfy | `parseActionType` and the regular expression `\[(.*?)\](.*)` |
| `NgrxUtils` | ngrx_utils.dfy | `ActionMetadata`, `getActionClasses`, `getTypeProperty`, `collectMetadata` |
| `CaseConversion` | case_conversion.dfy | `upperFirst(camelCase(.))`: apostrophes deleted, words capitalized and joined, on ASCII categories without case humps |
| `Printer` | printer.dfy | `createActionOutput` |
| `Scenarios` | scenarios.dfy | the repository's `[Truck]` fixture, end to end |

The regular expression is modelled as a search. A match starts at the
leftmost `[` that has a `]` after it on the same line. The category is the
text up to the first such `]`, because `.*?` is lazy. The name is the rest of
that line, because `.` stops at `\n`, `\r`, U+2028 and U+2029. Then the
first `;` of the name is removed. `replace` with a string pattern removes
only the first occurrence. That is also why `createActionOutput` cuts only
the first `.ts` out of the file name.

## Model

| member | source | states |
|---|---|---|
| `Results.AllOk` | src/bin/ngrx-utils.ts:80-111 | a `map` whose callback may throw succeeds exactly when every element succeeds, and then yields every value in order; otherwise it fails with the error of the first failing element |
| `Text.LineEnd` | src/bin/printer.ts:30 | the greedy `(.*)` ends at the first line terminator after `from`, or at the end of the text |
| `Text.IndexOf` | src/bin/printer.ts:40 | the result is the first occurrence at or after `from`; `None` means there is no occurrence there |
| `Text.RemoveFirst` | src/bin/printer.ts:40 | with no occurrence the text is unchanged; otherwise exactly the first occurrence is cut out and the rest is kept |
| `Text.RemoveFirstRestores` | src/bin/printer.ts:40 | putting the pattern back where it was cut restores the text, so the result is exactly one pattern shorter |
| `Text.RemoveFirstCharAbsent` | src/bin/printer.ts:40 | `replace(';', '')` on a text without `;` changes nothing |
| `Text.RemoveFirstCharAt` | src/bin/printer.ts:40 | `replace(';', '')` drops the leftmost `;` and nothing else |
| `ActionTypes.ClosingBracket` | src/bin/printer.ts:30 | the lazy `(.*?)`: the first `]` reached before any line terminator, or none |
| `ActionTypes.LeftmostMatch` | src/bin/printer.ts:30-32 | the result is a `[` that opens a match, with the first `]` after it and no line break between; no earlier `[` opens a match; `None` exactly when no `[` does |
| `ActionTypes.ParseActionType` | src/bin/printer.ts:31-36 | a failure is `Could not parse action type` and carries the very text given |
| `ActionTypes.ParseFailsIffNoBracketPair` | src/bin/printer.ts:30-36 | parsing throws exactly when no `[` is followed later on the same line by a `]` |
| `ActionTypes.MatchPositions` | src/bin/printer.ts:30-32 | when the pattern matches, its leftmost match exists |
| `ActionTypes.LeftmostMatchUnique` | src/bin/printer.ts:30 | there is only one leftmost match |
| `ActionTypes.LeftmostMatchFound` | src/bin/printer.ts:30-32 | the search returns exactly the leftmost match |
| `ActionTypes.NameGroup` | src/bin/printer.ts:40 | the name group is no longer than the text after the `]` |
| `ActionTypes.ParseActionTypeMeaning` | src/bin/printer.ts:30-41 | with the leftmost match at `a` and `j`, the category is the text strictly between them and the name is the rest of that line with its first `;` removed |
| `ActionTypes.CategoryIsBracketContent` | src/bin/printer.ts:30-39 | a parsed category contains no `]` and no line terminator |
| `ActionTypes.NameOnBracketLine` | src/bin/printer.ts:30-40 | a parsed name contains no line terminator |
| `ActionTypes.ParseCategoryAfterPrefix` | src/bin/printer.ts:30-39 | when no `[` comes before `[<category>]`, parsing succeeds with that category, whatever follows |
| `ActionTypes.ParseFormatted` | src/bin/printer.ts:30-41 | `[<category>]<name>;` parses back to exactly that category and that name, and a leading space of the name is kept |
| `ActionTypes.NameGroupToEnd` | src/bin/printer.ts:40 | when `<name>;` follows the `]` to the end of the text, the name group is `<name>` |
| `NgrxUtils.ExtendsAction` | src/bin/ngrx-utils.ts:21-27 | the `some` over heritage clauses and their types holds exactly when some clause lists a type whose expression text is `Action`; the interface filter at lines 67-73 uses the same test |
| `NgrxUtils.ActionClasses` | src/bin/ngrx-utils.ts:16-33 | the selection is no longer than the statement list |
| `NgrxUtils.ActionClassesMembers` | src/bin/ngrx-utils.ts:18-31 | a class is selected exactly when it is a top-level statement with a heritage type whose expression is `Action` |
| `NgrxUtils.ActionClassesAppend` | src/bin/ngrx-utils.ts:18-31 | the filter keeps source order: the selection of `a + b` is the selection of `a` followed by that of `b` |
| `NgrxUtils.ActionClassesSingle` | src/bin/ngrx-utils.ts:19-30 | one statement is kept exactly when it is a class naming `Action` |
| `NgrxUtils.ActionInterfaces` | src/bin/ngrx-utils.ts:62-78 | the selection is no longer than the statement list |
| `NgrxUtils.ActionInterfacesMembers` | src/bin/ngrx-utils.ts:62-78 | an interface is selected exactly when it is a top-level statement with a heritage type whose expression is `Action` |
| `NgrxUtils.ActionInterfacesAppend` | src/bin/ngrx-utils.ts:62-78 | the filter keeps source order across concatenation |
| `NgrxUtils.ActionInterfacesSingle` | src/bin/ngrx-utils.ts:63-77 | one statement is kept exactly when it is an interface naming `Action` |
| `NgrxUtils.PropertySignatures` | src/bin/ngrx-utils.ts:81 | exactly the property-signature members are kept, and no others |
| `NgrxUtils.PropertySignaturesAppend` | src/bin/ngrx-utils.ts:81 | the filter keeps member order: the signatures of `a + b` are those of `a` followed by those of `b` |
| `NgrxUtils.FindTypeSignature` | src/bin/ngrx-utils.ts:83-85 | `None` exactly when no signature is named `type`; otherwise the first one named `type` |
| `NgrxUtils.RequiredNames` | src/bin/ngrx-utils.ts:91-95 | a name is listed exactly when some signature with that name has no `?` and is not `type` |
| `NgrxUtils.OptionalNames` | src/bin/ngrx-utils.ts:97-101 | a name is listed exactly when some signature with that name has `?`, an optional `type` included |
| `NgrxUtils.RequiredNamesAppend` | src/bin/ngrx-utils.ts:91-95 | required names keep declaration order across concatenation |
| `NgrxUtils.OptionalNamesAppend` | src/bin/ngrx-utils.ts:97-101 | optional names keep declaration order across concatenation |
| `NgrxUtils.Tagged` | src/bin/ngrx-utils.ts:107-108 | each name is paired with the given flag, in order |
| `NgrxUtils.PropertiesOf` | src/bin/ngrx-utils.ts:106-109 | the required properties all come before the optional ones; an entry named `type` is always optional; the length is the sum of both groups |
| `NgrxUtils.PropertiesCount` | src/bin/ngrx-utils.ts:91-109 | every signature lands in exactly one group, except the required ones named `type` |
| `NgrxUtils.PropertiesCountOneRequiredType` | src/bin/ngrx-utils.ts:91-109 | with a single required `type` signature, the record has one property fewer than there are signatures |
| `NgrxUtils.PropertiesPartition` | src/bin/ngrx-utils.ts:91-109 | `(name, false)` is a property exactly when some signature with that name has no `?` and is not `type`; `(name, true)` is one exactly when some signature with that name has `?` |
| `NgrxUtils.InterfaceMetadata` | src/bin/ngrx-utils.ts:80-111 | fails with the missing-`type` error for this interface exactly when no signature is named `type`; a record carries the interface name and the partitioned properties |
| `NgrxUtils.InterfaceMetadataReadsFirstType` | src/bin/ngrx-utils.ts:83-110 | the record's `type` is the literal text of the first signature named `type`; a non-literal annotation there fails |
| `NgrxUtils.InterfacesMetadata` | src/bin/ngrx-utils.ts:80-111 | succeeds exactly when every interface does, with one record per interface in order; otherwise fails with the first interface's error |
| `NgrxUtils.CollectMetadata` | src/bin/ngrx-utils.ts:59-114 | one record per selected interface, in order and with the same names; fails exactly when some selected interface fails |
| `NgrxUtils.FindTypeMember` | src/bin/ngrx-utils.ts:41-43 | `None` exactly when no member is named `type`; otherwise the first member named `type` |
| `NgrxUtils.ClassMetadata` | src/bin/ngrx-utils.ts:38-54 | fails with the missing-`type` error for this class exactly when no member is named `type`; a record carries the class name |
| `NgrxUtils.ClassMetadataParsesTypeMember` | src/bin/ngrx-utils.ts:41-53 | the record's `type` is the whole text of the first member named `type`, and its category is that text parsed; a parse failure fails the class with the parser's error |
| `NgrxUtils.ClassesMetadata` | src/bin/ngrx-utils.ts:38-54 | succeeds exactly when every class does, with one record per class in order; otherwise fails with the first class's error |
| `NgrxUtils.GetTypeProperty` | src/bin/ngrx-utils.ts:35-57 | one record per selected class, in order and with the same names; fails exactly when some selected class fails |
| `CaseConversion.AsciiPascalCase` | src/bin/printer.ts:22 | the alias prefix is every word of the category, apostrophes deleted first, capitalized and joined without separators |
| `CaseConversion.PascalFrom` | src/bin/printer.ts:22 | the single pass yields no more characters than it reads |
| `CaseConversion.PascalFromWords` | src/bin/printer.ts:22 | the single pass equals capitalizing every maximal run of letters and digits and joining the results, for inputs with any number of words |
| `CaseConversion.PascalFromWord` | src/bin/printer.ts:22 | a word followed by the end or a separator becomes its capitalized form, and the rest is converted as a new start |
| `CaseConversion.ApostropheJoins` | src/bin/printer.ts:22 | an apostrophe neither splits a word nor appears in the result: `it's` gives the same as `its` |
| `CaseConversion.PascalIgnoresCase` | src/bin/printer.ts:22 | on inputs without case humps or letter-digit boundaries, lower-casing the input first changes nothing, and the lower-cased input is again such an input |
| `CaseConversion.PascalOfWord` | src/bin/printer.ts:22 | a hump-free word of letters gets an upper-case first letter and a lower-case rest, and lies in the inputs where this matches lodash |
| `CaseConversion.CapitalizedWordKept` | src/bin/printer.ts:22 | a word already written with an upper-case initial and lower-case letters after it is unchanged |
| `Printer.Names` | src/bin/printer.ts:12 | one name per record, in order |
| `Printer.NamesAppend` | src/bin/printer.ts:12 | names of concatenated records are the concatenated names, with no deduplication |
| `Printer.ModuleSpecifier` | src/bin/printer.ts:14 | the specifier is `'./` + file name + `'` with only the first `.ts` cut out, quotes included |
| `Printer.ModuleSpecifierCutsFirstTs` | src/bin/printer.ts:14 | for `base + ".ts" + rest` with no `.ts` in `base`, the specifier is `'./` + base + rest + `'`; a later `.ts` is kept |
| `Printer.CreateActionOutput` | src/bin/printer.ts:6-28 | fails exactly when there are no records or the first `type` does not parse; otherwise an import of every name in order from the module specifier, then an exported alias `<PascalCase(category)>Actions` whose union is the same list |
| `Printer.AliasFromFirstRecordOnly` | src/bin/printer.ts:17-22 | records after the first change neither whether synthesis succeeds nor the alias name |
| `Scenarios.TruckInterfaceMetadata` | src/spec/cmd.spec.ts:38-73 | a fixture interface gives a record with its name, its quoted `[Truck] ...` literal and no properties |
| `Scenarios.AllSelected` | src/spec/cmd.spec.ts:35-73 | interface statements that all extend `Action` are all selected, in order |
| `Scenarios.TruckSelected` | src/spec/cmd.spec.ts:35-73 | the fixture's leading import is skipped and every interface is selected, in order |
| `Scenarios.AllClassesSelected` | src/spec/cmd.spec.ts:19-33 | class statements that all name `Action` are all selected, in order |
| `Scenarios.FixtureClassesSelected` | src/spec/cmd.spec.ts:19-33 | after a leading import, `getActionClasses` returns every action class in declaration order, so the joined names are the declared names in that order |
| `Scenarios.TruckMetadata` | src/spec/cmd.spec.ts:35-73 | extraction of the fixture succeeds with every interface name in order and each quoted literal |
| `Scenarios.TruckPascalCase` | src/bin/printer.ts:22 | `upperFirst(camelCase('Truck'))` is `Truck` |
| `Scenarios.ParseTruckLiteral` | src/bin/printer.ts:30-39 | a quoted `'[Truck] ...'` literal parses with category `Truck` |
| `Scenarios.TruckOutput` | src/bin/printer.ts:6-28 | records whose first `type` has category `Truck` give the alias `TruckActions` over all names, and the import of all names from `'./<filename>'` |
| `Scenarios.TruckActionsGenerated` | src/spec/cmd.spec.ts:35-73 | end to end, a non-empty `[Truck]` fixture gives one import of all names in order and the exported alias `TruckActions` over the same names |

## Left out

- The command-line entry point (`src/bin/ngrx.ts`), file reading and writing, and the TypeScript printer that renders the two statements as text are not modelled. The model stops at the statement values.
- Parsing TypeScript source into a syntax tree is not modelled. The syntax datatypes hold what `getText()` returns for each node.
- `src/of-action.ts` (the runtime `ofAction` operator) is not part of this model.
- `CreateActionOutput`: lodash's `upperFirst(camelCase(.))` is taken as a function parameter, because lodash's full word splitting (case humps, letter-digit boundaries, ordinals, Unicode words) is not modelled.
- `CaseConversion.AsciiPascalCase`: it deletes apostrophes as lodash does, but splits words only at characters other than ASCII letters and digits. That is lodash's split only on the inputs `CaseConversion.InLodashDomain` describes: ASCII text without a case hump (`fooBar`, `FOOBar`) or a letter-digit boundary (`v2`). Outside them the results differ: `fooBar` gives `Foobar` here and `FooBar` in lodash. `PascalIgnoresCase` and `PascalOfWord` require such inputs.
- `CaseConversion.PascalFrom`: its own contract states only a length bound. Its value for any number of words is stated by `PascalFromWords`.
- `ParseActionType`: the regular expression is modelled only for the one pattern the code uses, not as a general regular-expression engine.
- `ClassMetadata`: the error for a class without a name holds `None` where the source's message text shows `undefined`. Message texts are not modelled beyond which error is raised and for which declaration.
- `NgrxUtils.ActionClasses`, `NgrxUtils.ActionInterfaces`: their own contracts state only a length bound. Membership and order are stated by the `...Members`, `...Append` and `...Single` lemmas.
- `NgrxUtils.ClassMetadata`, `NgrxUtils.InterfaceMetadata`: their own contracts state the missing-`type` case and the record's name. What the record reads from the `type` member is stated by `ClassMetadataParsesTypeMember` and `InterfaceMetadataReadsFirstType`.
- An absent `heritageClauses` list is modelled as the empty list. Both select nothing, as in the source.
- The repository's test expects each `type` without its quotes and records without `properties`. The code keeps the quotes of the literal's text and always adds `properties`. The model follows the code.
