# Altr Stream: verified models

Altr Stream compiles a small query language, AltrQL, to several databases, keeps a registry of mappings between
logical models and physical schemas, and updates its own container with rollback. The modules here model the parts
of it whose correctness is hard to see from the code and prove what those parts are for.

| modules | part of the system |
|---|---|
| `AltrqlLexer`, `LexerSpans`, `LexerComposition`, `LexerPrinting`, `LexerRoundTrip`, `LexerLiterals` | the AltrQL lexer: a cursor machine against a scan of the remaining text; spans, line-wise composition, print and read back, and what its tables amount to |
| `Query`, `LogicalResolver`, `LogicalMeaning` | the syntax tree with an evaluator (two-valued NULL), and the logical-to-physical rewriting that must preserve it |
| `Schema`, `TypeValidator`, `Binder` | data types, operator and operand checks, binding |
| `MappingValidation`, `MappingTyping`, `QueryThroughMapping` | what validating a mapping checks, and which queries bind through it |
| `MappingLifecycle`, `Registry` | source mappings from draft to active, validation, activation |
| `SemanticVersions`, `SemVerOrder`, `UpgradeResolver` | version parsing and precedence (Semantic Versioning 2.0.0), and the choice of the version to upgrade to |
| `Updates`, `SupervisorProtocol`, `SupervisorSafety`, `SupervisorRounds`, `Supervisor` | update statuses and the host supervisor as a protocol with crashes |
| `SqlSplitter`, `SqlStatements`, `SqlPieces`, `SqlComments` | splitting query texts into statements, and the comment filter |
| `UsageLog`, `Usage` | the usage tracker and the log its indexes stand for |
| `LineBuffers` | the incremental line splitter of the macOS application |
| `EnvFile`, `VersionSwitch` | the installation's `.env` file and the compensated version switch of the installer engine |
| `Text`, `Decimals` | shared vocabulary: prefixes, trimming, splitting, decimal numerals |

Where the source works step by step, a class or a method with loops is proved equal to a specification function, and
the theorems are about that function. Docker, the health endpoint, the disk, clocks and schema discovery are
parameters that may answer anything.

Several properties that the design suggests are false of the code in corner cases. For each of these there is a
condition under which it holds, an equivalence where the text does not say otherwise, and a lemma with inputs that
fail.

- A physical column name, or an alias, can capture a logical field name during resolution
  (`LogicalMeaning.WherePreservedExactly`; `PhysicalNameCaptures`, `AliasCaptures`, `NestedAliasLosesPath`).
- A query that names a logical entity exactly can be led to another mapping
  (`LogicalResolver.AllFoundExactly`; `ExactEntityNameCanLose`).
- A mapping can pass validation and not preserve typing: a column differs in case and no test on its field binds, or a
  stored name has become that of another field (`QueryThroughMapping.ValidatedTypingExactly`; `ColumnOfOtherCase`,
  `StaleNameChangesType`).
- Validation ignores what may be NULL (`MappingTyping.AssignmentsPreservedExactly`;
  `QueryThroughMapping.NullabilityIgnored`), and it can look at another table than binding
  (`MappingValidation.SameTableExactly`; `BindingIgnoresNamespace`).
- An ordering against a value set that contains NULL is accepted and has no meaning, and so is a string operator
  against a range or a constraint (`TypeValidator.AcceptedNeverStuckExactly`; `OrderingAgainstNullAccepted`,
  `MatchAgainstRangeAccepted`).
- A version built without parsing can have leading zeros, and then comparison is not trichotomous
  (`SemVerOrder.ComparableExactly`; `LeadingZerosBreakTrichotomy`).
- A restart can report an update as completed whose image was never persisted, or was replaced by the previous one
  (`SupervisorSafety.CompletionPersistedExactly`, `SupervisorRounds.RestartCompletionExactly`;
  `SupervisorSafety.ReconciledCompletionIsNotPersisted`).
- A request that arrives while another is worked on can be removed with that one, and no status speaks of it
  (`SupervisorRounds.RequestLostExactly`; `SubmittedMeanwhileIsLost`).
- A rollback from a version that cannot be read can be hidden as obsolete on the node it restored
  (`Supervisor.RollbackHiddenExactly`; `RollbackCanBeHidden`).
- The validator refuses a few value sets that have a meaning (`TypeValidator.AcceptedExactly`, which names them).
- The case of a name does not matter, but that of an id does (`LogicalMeaning.PathCaseExactly`; `IdCaseMatters`).
- A source that ends in an open string can lex once another line follows
  (`LexerComposition.ErrorKeptExactly`, with the line that makes it lex).
- The comment filter of the statement splitter does not drop what the scanner takes for comments only. For every text,
  `SqlComments.FilterIsReader` says what it keeps; `FilterAgrees`, whose condition is sufficient, says when that is
  what the scanner reads. It fails both ways: `SqlPieces.FilterDropsCode` has texts whose code is dropped, and
  `SqlComments.FilterKeepsComment` texts of comments that are kept.
- A window of a day or a week shows all but one step of its length (`UsageLog.WindowShowsLess`; `DayShowsLess`).
- A version switch that fails leaves files behind that did not exist before
  (`VersionSwitch.ErrorRestoresFilesExactly`; `NewFilesStayBehind`), and a rollback can be reported as successful
  while the rejected image still runs (`RolledBackRunsPreviousExactly`; `RollbackCanKeepRejectedImage`).
- Setting a mapping's status to active can leave two active siblings (`MappingLifecycle.OneActiveAlways`;
  `TwoSiblingsActive`), and three kinds of change can mark a content as validated that never was
  (`TrustKeptExactly`; `UncheckedBecomesActive`).

Documentation and code disagree in one place: `docs/altrql/specification.md` lists date literals with a time, which
the lexer rejects. The model follows the code.

## Model

| member | source | states |
|---|---|---|
| AltrqlLexer.Lexer.Tokenize | src/altr_stream/query_engine/parser/lexer.py:145-241 | the cursor machine returns the tokens, or the first error with its position, of the scan of the remaining text |
| AltrqlLexer.Lexer.Advance | src/altr_stream/query_engine/parser/lexer.py:135-143 | line and column stay those of the cursor's offset |
| AltrqlLexer.Lexer.NextToken | src/altr_stream/query_engine/parser/lexer.py:167-238 | one token, exactly as long as the longest operator, literal or word at the cursor, or an unexpected character |
| AltrqlLexer.Lexer.ScanTemporalLiteral | src/altr_stream/query_engine/parser/lexer.py:243-277 | a date runs to a delimiter or a range operator and must be a day of the calendar |
| AltrqlLexer.Lexer.ScanStringLiteral | src/altr_stream/query_engine/parser/lexer.py:279-315 | the unescaped content, or which of the three string faults occurs |
| AltrqlLexer.Lexer.ScanNumberLiteral | src/altr_stream/query_engine/parser/lexer.py:317-340 | an integer before a range operator, a decimal after one dot, a fault for a dot without digits |
| AltrqlLexer.Lexer.ScanIdentifierOrKeyword | src/altr_stream/query_engine/parser/lexer.py:342-354 | the longest word, a keyword if it is reserved |
| LexerSpans.LexCovers | src/altr_stream/query_engine/parser/lexer.py:145-241 | spans are disjoint and in order, gaps hold blanks and comments only, line and column count the newlines and characters before a token |
| LexerSpans.ScanLexeme | src/altr_stream/query_engine/parser/lexer.py:167-354 | a lexeme is its span; for strings it is the last characters of the span, content and two quotes in number |
| LexerSpans.StringBodyEscapes | src/altr_stream/query_engine/parser/lexer.py:279-315 | the lexeme of a string is its whole span if and only if the literal has no backslash |
| LexerComposition.ScanLocal | src/altr_stream/query_engine/parser/lexer.py:154-354 | what a text begins with, unless it is an open string, does not depend on what follows a newline after it |
| LexerComposition.LexLines | src/altr_stream/query_engine/parser/lexer.py:145-241 | a source that lexes, a newline and any second source give the first tokens without the end token, then the second result moved down, errors included |
| LexerComposition.ErrorKeptExactly | src/altr_stream/query_engine/parser/lexer.py:279-315 | the error of a source that does not lex is kept for every second source if and only if it does not end in an open string; only an open escape can be healed, and a closing quote heals it |
| LexerPrinting.ScanPrinted | src/altr_stream/query_engine/parser/lexer.py:154-354 | a printed token is read back if and only if what follows it separates |
| LexerRoundTrip.PrintThenLex | src/altr_stream/query_engine/parser/lexer.py:145-354 | any list of tokens printed with clean gaps lexes to the same kinds and values and the end token |
| LexerRoundTrip.SpacedRoundTrip | src/altr_stream/query_engine/parser/lexer.py:145-354 | one blank before each token always suffices |
| LexerRoundTrip.RangeRoundTrip | src/altr_stream/query_engine/parser/lexer.py:243-340 | ranges of numbers, decimals, dates and strings need no blanks around the two dots |
| LexerRoundTrip.LexPrintable | src/altr_stream/query_engine/parser/lexer.py:145-354 | every token that the lexer can produce is one that can be printed and read back |
| LexerRoundTrip.ReformatPreservesTokens | src/altr_stream/query_engine/parser/lexer.py:145-354 | laying out any source that lexes anew changes no kind and no value |
| LexerRoundTrip.KeywordsAreWords | src/altr_stream/query_engine/parser/lexer.py:73-99 | every reserved word reads back as its keyword |
| LexerPrinting.FractionIsQuotient | src/altr_stream/query_engine/parser/lexer.py:317-340 | the digits behind a point are worth their whole number over the power of ten of their count, for every digit string |
| LexerLiterals.DateReadExactly | src/altr_stream/query_engine/parser/lexer.py:243-277 | of all texts of four, two and two digits exactly the days of the calendar are read, by the lengths of the twelve months |
| LexerLiterals.LeapYearsCounted | src/altr_stream/query_engine/parser/lexer.py:268-276 | up to any year y there are y/4 - y/100 + y/400 leap years |
| LexerLiterals.MonthsOfYear | src/altr_stream/query_engine/parser/lexer.py:268-276 | the twelve months, and the 365 or 366 days that they make |
| LexerLiterals.KeywordsExactly | src/altr_stream/query_engine/parser/lexer.py:73-99 | a word is a keyword if and only if it is that keyword's spelling, and an identifier if and only if it is no keyword's |
| LexerLiterals.EscapeReads | src/altr_stream/query_engine/parser/lexer.py:295-307 | three escaped letters are control characters, every other escaped character stands for itself |
| LexerLiterals.BlankSkipped | src/altr_stream/query_engine/parser/lexer.py:150-166 | one character is skipped if and only if it is a tab, line feed, carriage return or space |
| LexerLiterals.DateEnds | src/altr_stream/query_engine/parser/lexer.py:247-254 | a date is read up to exactly these delimiters, two dots or the end |
| LogicalResolver.FindEntityMapping | src/altr_stream/query_engine/binding/logical_resolver.py:39-61 | the first mapping that matches the entity by name, id or singular, none if and only if no mapping matches |
| LogicalResolver.AllFoundExactly | src/altr_stream/query_engine/binding/logical_resolver.py:39-55 | every mapping is found by its logical name if and only if no logical name is a key of an earlier mapping |
| LogicalResolver.ExactEntityNameCanLose | src/altr_stream/query_engine/binding/logical_resolver.py:39-55 | an exactly named entity can be sent to an earlier mapping that agrees only up to a plural |
| LogicalResolver.EntityCaseIgnored | src/altr_stream/query_engine/binding/logical_resolver.py:39-55 | names that agree up to ASCII case find the same mapping, and logical name, id and physical name match in any case |
| LogicalResolver.SingularParts | src/altr_stream/query_engine/binding/logical_resolver.py:44-53 | what a plural loses is letters s only, and all of those at the end |
| Text.LowerEqualExactly | src/altr_stream/query_engine/binding/logical_resolver.py:41-48 | lowering makes two names equal if and only if they agree up to ASCII case |
| Text.TrimParts | src/altr_stream/query_engine/binding/logical_resolver.py:44-46 | trimming takes blanks off both ends, and all of them |
| LogicalResolver.BuildFieldMap | src/altr_stream/query_engine/binding/logical_resolver.py:63-77 | the dictionary filled in place, later entries overwriting earlier ones |
| LogicalResolver.ResolveLogicalIr | src/altr_stream/query_engine/binding/logical_resolver.py:26-184 | none if no entity mapping matches, else every path of the query led through the dictionary and nothing else changed |
| LogicalMeaning.DictionaryIsLastWord | src/altr_stream/query_engine/binding/logical_resolver.py:63-77 | the dictionary agrees with a backwards lookup of who claimed a name last |
| LogicalMeaning.RootByLastWord | src/altr_stream/query_engine/binding/logical_resolver.py:79-90 | a path is led to the last word on its root in lower case, else on its root as spelled, else it stays |
| LogicalMeaning.AliasRecorded | src/altr_stream/query_engine/binding/logical_resolver.py:71-77 | an alias enters the dictionary if and only if it is not empty and its path is known |
| LogicalMeaning.PathCaseExactly | src/altr_stream/query_engine/binding/logical_resolver.py:79-90 | two spellings of a root are led to the same column if and only if it is an entry in lower case, as every logical and physical name is, or both are led there as they are |
| LogicalMeaning.IdCaseMatters | src/altr_stream/query_engine/binding/logical_resolver.py:65-69 | an id in another case is not led anywhere |
| LogicalMeaning.KeptEverywhere | src/altr_stream/query_engine/binding/logical_resolver.py:63-90 | checking the listed logical names and aliases covers every spelling that a query can use |
| LogicalMeaning.TestsKept | src/altr_stream/query_engine/binding/logical_resolver.py:92-109 | resolution keeps the tests of a tree in order, with operators and operands |
| LogicalMeaning.WherePreservedExactly | src/altr_stream/query_engine/binding/logical_resolver.py:63-129 | every WHERE tree keeps its outcome on every row if and only if no name is captured |
| LogicalMeaning.ResolvedQueryAnswersTheSame | src/altr_stream/query_engine/binding/logical_resolver.py:26-184 | if no name that the query uses is captured, the resolved query filters, sorts, ranks and returns each row as the original treats its logical view |
| LogicalMeaning.OutputNamesKept | src/altr_stream/query_engine/binding/logical_resolver.py:111-126 | projections keep their output column names, captures or not: the alias, or the last segment of the path |
| LogicalMeaning.DistinctNamesSuffice | src/altr_stream/query_engine/binding/logical_resolver.py:63-77 | without shared keys and with fresh aliases, a name is kept if and only if it means a whole column |
| LogicalMeaning.EveryNameLeads | src/altr_stream/query_engine/binding/logical_resolver.py:63-90 | without shared keys and with fresh aliases, logical and physical names in any case, and ids, lead to the field's column |
| LogicalMeaning.UnusedNestedAliasIsHarmless | src/altr_stream/query_engine/binding/logical_resolver.py:71-77 | a nested path selected under an alias is preserved although the alias itself is not |
| LogicalMeaning.PhysicalNameCaptures | src/altr_stream/query_engine/binding/logical_resolver.py:65-69 | a physical name can take a logical name over, depending on the order of the mappings |
| LogicalMeaning.AliasCaptures | src/altr_stream/query_engine/binding/logical_resolver.py:71-77 | an alias that is also a field name takes its place in WHERE |
| LogicalMeaning.NestedAliasLosesPath | src/altr_stream/query_engine/binding/logical_resolver.py:71-77 | an alias keeps its meaning if and only if it stands for a whole column |
| LogicalMeaning.UpdateThroughMapping | src/altr_stream/query_engine/binding/logical_resolver.py:131-139 | an update through the mapping updates the logical view: assigned fields show the last value, others what they showed |
| LogicalMeaning.SharedColumnUpdatesBoth | src/altr_stream/query_engine/binding/logical_resolver.py:131-139 | an assignment to one field leaves another alone if and only if they have different columns |
| Schema.CompatibleExactly | src/altr_stream/domain/schema.py:70-124 | compatibility is equality of category, except that integers do not go into float columns |
| Schema.CategoriesExactly | src/altr_stream/query_engine/binding/type_validator.py:31-44 | the types of each of the four categories |
| Schema.ResolveEntity | src/altr_stream/query_engine/binding/resolver.py:13-25 | the first entity with exactly this name, none if and only if there is no such entity |
| Schema.ColumnOfPath | src/altr_stream/query_engine/binding/resolver.py:28-60 | a path is the first column named by all its segments with dots, else the first named by its root, else unknown |
| TypeValidator.AcceptedNeverStuckExactly | src/altr_stream/query_engine/binding/type_validator.py:62-268 | an accepted expression has an outcome on every value of the column if and only if its operator supports its value set |
| TypeValidator.AcceptedExactly | src/altr_stream/query_engine/binding/type_validator.py:62-268 | an expression whose value set is supported is accepted if and only if it has an outcome on every value of the column, but for three kinds of value sets; single literals and ranges without exception |
| TypeValidator.ExemptExactly | src/altr_stream/query_engine/binding/type_validator.py:72-107 | nested paths take everything but NULL where it cannot be compared, unsupported types nothing but NULL |
| TypeValidator.OrderingAgainstNullAccepted | src/altr_stream/query_engine/binding/type_validator.py:189-225 | an ordering against a set with NULL passes and has no outcome |
| TypeValidator.MatchAgainstRangeAccepted | src/altr_stream/query_engine/binding/type_validator.py:62-158 | a string operator against a range of texts, or a constraint on texts, passes and has no outcome |
| TypeValidator.AssignmentAcceptedExactly | src/altr_stream/query_engine/binding/type_validator.py:271-325 | an assignment is accepted if and only if the column may store its value, NULL alone for unsupported types |
| Binder.BindAll | src/altr_stream/query_engine/binding/binder.py:70-161 | the loops bind every element in order or stop at the first error |
| Binder.BindAltrql | src/altr_stream/query_engine/binding/binder.py:43-195 | binding succeeds if and only if the entity exists and every part resolves and type checks; the result is the query with annotations of that entity |
| Binder.CreateIsBatch | src/altr_stream/query_engine/binding/binder.py:93-118 | a list of assignments is inserted as a batch of one, a batch record by record whatever the list; the declared primary key, else that of the columns |
| Binder.BindingAnnotates | src/altr_stream/query_engine/binding/binder.py:198-232 | binding gives a tree if and only if that tree is the expression with correct annotations and fitting operands |
| Binder.FirstErrorReported | src/altr_stream/query_engine/binding/binder.py:198-232 | a tree that does not bind fails with the error of its first field from the left, unknown or refused |
| Binder.BoundQueryErases | src/altr_stream/query_engine/binding/binder.py:70-195 | a bound query without its annotations is the query, clause by clause and in order, and the annotations are the schema's |
| Binder.BoundWhereDefined | src/altr_stream/query_engine/binding/binder.py:139-142 | a bound WHERE tree on plain columns has an outcome on every well-typed row if and only if its operators support their value sets |
| Binder.BoundAssignmentKeepsTyping | src/altr_stream/query_engine/binding/binder.py:120-137 | a bound assignment keeps well-typed rows well typed |
| MappingTyping.TypingPreservedExactly | src/altr_stream/application/registry_service.py:472-550 | type checks against the logical entity and binding after resolution agree on every WHERE tree if and only if entity and table agree on the category of every name |
| MappingTyping.AssignmentsPreservedExactly | src/altr_stream/query_engine/binding/type_validator.py:271-325 | so do assignments if and only if they agree on what may be NULL |
| QueryThroughMapping.ValidatedTypingExactly | src/altr_stream/application/registry_service.py:472-550 | for a validated mapping, typing is preserved with every name known if and only if columns are spelled as in the schema and names are in line with the validated fields |
| QueryThroughMapping.NormalNamesInLine | src/altr_stream/application/registry_service.py:269-278 | names that were brought in line stay in line when field names differ by more than case |
| QueryThroughMapping.InexactColumnFails | src/altr_stream/query_engine/binding/resolver.py:38-45 | a field whose column is not in the schema under its exact name binds in no test |
| QueryThroughMapping.ColumnOfOtherCase | src/altr_stream/application/registry_service.py:523-530 | a mapping with a column of other case passes validation, and no test on its field binds |
| QueryThroughMapping.StaleNameChangesType | src/altr_stream/application/registry_service.py:207-230 | a field renamed behind its mapping: the mapping passes validation, and a test that type checks does not bind |
| QueryThroughMapping.NullabilityIgnored | src/altr_stream/application/registry_service.py:540-550 | a validated mapping under which the column refuses a NULL that the logical field takes |
| QueryThroughMapping.ValidatedQueryBindsExactly | src/altr_stream/application/registry_service.py:472-556 | from a mapping that passes to the bound query, for all four operations: it binds if and only if its WHERE clause type checks logically and every written value fits its field and its column's nullability |
| QueryThroughMapping.OneFieldQueryBinds | src/altr_stream/application/registry_service.py:472-556 | a mapping that passes, and a query through it that meets all the conditions and binds |
| MappingValidation.SameTableExactly | src/altr_stream/application/registry_service.py:482-507 | validation and binding look at the same table if and only if the first table of the exact name is preferred and none preferred stands before it |
| MappingValidation.BindingIgnoresNamespace | src/altr_stream/application/registry_service.py:482-507 | two tables of one name in different namespaces: they look at different ones |
| MappingValidation.TableLookup | src/altr_stream/application/registry_service.py:482-507 | the first table of the name in any case, in the mapped namespace if that is named and has one |
| MappingValidation.ColumnLookup | src/altr_stream/application/registry_service.py:523-530 | a column of exactly this name before one of another case |
| MappingValidation.FieldLookup | src/altr_stream/domain/logical.py:48-62 | by exact name before any case, by any case before any number |
| MappingValidation.IdBeforeName | src/altr_stream/application/registry_service.py:515-522 | the field with the mapped id; a name counts only for an unknown id |
| MappingLifecycle.EntityLookup | src/altr_stream/domain/logical.py:90-104 | entities by exact name before any case, by any case before any number |
| MappingLifecycle.NormalFieldFound | src/altr_stream/application/registry_service.py:270-278 | after names are brought in line the same logical field is found |
| MappingLifecycle.NormalNames | src/altr_stream/application/registry_service.py:269-278 | only logical names are brought in line, with those of the entities and fields found |
| MappingLifecycle.NormalizedPassesExactly | src/altr_stream/application/registry_service.py:269-278 | bringing names in line neither makes nor breaks validity, and doing it twice changes nothing |
| MappingLifecycle.OneActiveKeptExactly | src/altr_stream/application/registry_service.py:240-655 | every change keeps at most one active mapping per model and source, except setting the status to active past an active sibling |
| MappingLifecycle.ActivatedExactly | src/altr_stream/application/registry_service.py:558-581 | activation makes the mapping active and demotes active ones of the same model and source to validated, nothing else |
| MappingLifecycle.OthersKept | src/altr_stream/application/registry_service.py:240-655 | what each change leaves alone; a new version is stored, and no mapping moves to another model or source |
| MappingLifecycle.OneActiveAlways | src/altr_stream/application/registry_service.py:240-655 | a sequence of changes from an empty registry never has two active siblings if and only if it never sets the status to active past an active sibling |
| MappingLifecycle.TwoSiblingsActive | src/altr_stream/application/registry_service.py:338-349 | a sequence that leaves two siblings active |
| MappingLifecycle.TrustKeptExactly | src/altr_stream/application/registry_service.py:240-655 | only contents that passed a validation are validated or active, except after exactly three kinds of change |
| MappingLifecycle.UncheckedBecomesActive | src/altr_stream/application/registry_service.py:280-290 | a mapping that no validation looked at becomes active |
| Registry.RegistryService.CreateSourceMapping | src/altr_stream/application/registry_service.py:240-290 | each error exactly when it applies, a version used twice included; otherwise a new mapping that is never active |
| Registry.RegistryService.IngestAlignSuggestions | src/altr_stream/application/registry_service.py:583-655 | a new draft, whatever versions exist |
| Registry.RegistryService.UpdateSourceMapping | src/altr_stream/application/registry_service.py:309-349 | new contents make a draft, a status is set as asked; the one operation that can leave two active siblings, and exactly when |
| Registry.RegistryService.DeleteSourceMapping | src/altr_stream/application/registry_service.py:351-353 | the mapping is gone, others stay |
| Registry.RegistryService.AddEntityMapping | src/altr_stream/application/registry_service.py:359-396 | the content grows by a mapping with names in line, and becomes a draft |
| Registry.RegistryService.DeleteEntityMapping | src/altr_stream/application/registry_service.py:398-400 | one entity mapping less under an unchanged status |
| Registry.RegistryService.ValidateSourceMapping | src/altr_stream/application/registry_service.py:434-556 | validated if and only if every entity and field mapping passes; a draft without entity mappings; an error otherwise |
| Registry.RegistryService.CheckFields | src/altr_stream/application/registry_service.py:515-550 | the loop accepts if and only if every field mapping has a logical field, a column and compatible types |
| Registry.RegistryService.CheckEntities | src/altr_stream/application/registry_service.py:472-550 | the loop accepts if and only if every entity mapping passes |
| Registry.RegistryService.ActivateSourceMapping | src/altr_stream/application/registry_service.py:558-581 | from validated only; every active sibling is demoted to validated, nothing else changes |
| SemanticVersions.ParsesExactly | src/altr_stream/domain/semver.py:86-112 | parsing accepts exactly the formatted texts of well-formed versions, with outer blanks and one leading v |
| SemanticVersions.TextsOfVersion | src/altr_stream/domain/semver.py:86-104 | but for outer blanks, a version has two accepted texts: formatted, and with one letter v before that |
| SemanticVersions.FormatThenParse | src/altr_stream/domain/semver.py:61-104 | formatting and parsing give the version back, build metadata included |
| SemanticVersions.FormatOfParse | src/altr_stream/domain/semver.py:86-104 | every accepted text formats to itself without outer blanks and one leading v |
| SemanticVersions.IdentifiersExactly | src/altr_stream/domain/semver.py:12-17 | the two kinds of pre-release identifiers, and build identifiers |
| SemVerOrder.LtIsPrecedence | src/altr_stream/domain/semver.py:134-173 | the comparator is the precedence of section 11 of Semantic Versioning 2.0.0 |
| SemVerOrder.RaisedIsNewer | src/altr_stream/domain/semver.py:124-150 | the first of major, minor and patch that differs decides, and a pre-release comes before its release |
| SemVerOrder.LtIrreflexive | src/altr_stream/domain/semver.py:134-173 | no version is smaller than itself |
| SemVerOrder.LtTransitive | src/altr_stream/domain/semver.py:134-173 | comparison is transitive |
| SemVerOrder.Trichotomy | src/altr_stream/domain/semver.py:124-173 | two well-formed versions are equal up to build metadata or exactly one is smaller |
| SemVerOrder.LtRespectsEq | src/altr_stream/domain/semver.py:124-173 | equal versions are interchangeable in comparisons |
| SemVerOrder.DerivedComparisons | src/altr_stream/domain/semver.py:39-40 | the comparisons derived by total ordering are the converse order if and only if the versions do not clash, as well-formed ones never do |
| SemVerOrder.ComparableExactly | src/altr_stream/domain/semver.py:124-173 | any two versions, parsed or not, are comparable or equal if and only if the first identifiers that differ are not the same number |
| SemVerOrder.LeadingZerosBreakTrichotomy | src/altr_stream/domain/semver.py:45-59 | well-formed versions never clash, and a leading zero makes a pair that does |
| UpgradeResolver.EliminateDuplicates | src/altr_stream/domain/semver.py:250-256 | the loop over the set of seen versions keeps the first release of each version |
| UpgradeResolver.ChannelExactly | src/altr_stream/domain/semver.py:73-83 | stable without pre-release, beta if and only if the text says beta or rc and not alpha, in any case |
| UpgradeResolver.AllowedExactly | src/altr_stream/domain/semver.py:215-229 | a channel takes exactly the releases that are at least as stable |
| UpgradeResolver.ResolveDirectUpgrade | src/altr_stream/domain/semver.py:231-283 | the plan as specified by filter, stable sort, first occurrences and last newer release |
| UpgradeResolver.CandidatesExact | src/altr_stream/domain/semver.py:241-256 | the candidates are strictly ascending, cover exactly the allowed versions, and each is the earliest listed of its version |
| UpgradeResolver.TargetIsGreatest | src/altr_stream/domain/semver.py:258-283 | a target exists if and only if an allowed release is newer, and none is newer than the target |
| UpgradeResolver.OneHop | src/altr_stream/domain/semver.py:231-283 | resolving again from the target finds no update, in the same channel or in the target's own |
| Updates.StatesPartition | src/altr_stream/domain/updates.py:46-83 | every state is active or terminal, never both; active is cancellable or critical, never both |
| Updates.SameTextSameVersion | src/altr_stream/supervisor/supervisor.py:405-408 | versions that the health check takes for the same text are the same version |
| Updates.CompletedVisibleExactly | src/altr_stream/domain/updates.py:238-244 | a completed status is shown if and only if the node reports the target version |
| Updates.CompletedIsVisible | src/altr_stream/supervisor/supervisor.py:781-796 | a completed status is never stale on a node that passed the health check for its target |
| Updates.RolledBackVisibleExactly | src/altr_stream/domain/updates.py:216-236 | a rolled-back status is stale if and only if the restored version is not older than the target |
| Updates.RolledBackIsVisible | src/altr_stream/supervisor/supervisor.py:842-859 | a verified rollback to an older version is never stale on the restored node |
| Updates.ActiveHiddenExactly | src/altr_stream/domain/updates.py:182-222 | an update in progress is stale if and only if the node is beyond its target |
| Updates.FailureHiddenExactly | src/altr_stream/domain/updates.py:224-236 | a failed, cancelled or rolled-back one if and only if the node has reached the target or reports another version than the recorded one |
| SupervisorSafety.RunKeeps | src/altr_stream/supervisor/supervisor.py:570-941 | the invariant of the protocol holds after every run with any answers and crashes |
| SupervisorSafety.PersistedImagesSafe | src/altr_stream/supervisor/supervisor.py:529-556 | each persisted image is the original one or was recreated and then found healthy before any other recreation |
| SupervisorSafety.StatusesFollowLifecycle | src/altr_stream/supervisor/supervisor.py:570-941 | each status follows the one before in the lifecycle: while a request is active only its own statuses are written, and work starts only when none is active |
| SupervisorSafety.RerunOnlyAfterTerminalStatus | src/altr_stream/supervisor/supervisor.py:570-941 | work on a request starts again after its container was recreated only if a terminal status was written in between |
| SupervisorSafety.RerunOnlyBeforeRemoval | src/altr_stream/supervisor/supervisor.py:514-527 | and, unless it is submitted again, only if no removal was completed since the recreation: the crash fell between status and removal |
| SupervisorSafety.CompletionPersistedExactly | src/altr_stream/supervisor/supervisor.py:529-556 | whenever a completion is written, a file names the image recreated last if and only if that was written to it since or it named it before |
| SupervisorSafety.CompletionWithoutRecreation | src/altr_stream/supervisor/supervisor.py:630-650 | a completion without any recreation leaves both files as they were |
| SupervisorSafety.CompletionByWorkflowIsPersisted | src/altr_stream/supervisor/supervisor.py:781-796 | when the workflow reports completion, each file names the target if and only if the write just before succeeded or it named it before |
| SupervisorSafety.ReconciledCompletionIsNotPersisted | src/altr_stream/supervisor/supervisor.py:899-920 | for every request that is due, a run in which a restart reports completion while both files name the original image |
| SupervisorRounds.RestartCompletionExactly | src/altr_stream/supervisor/supervisor.py:899-920 | the completion that a restart records is that of the interrupted request; a file names its target image if and only if what was written to it since work began (the target, or the previous image if the update was being rolled back) is that image, or nothing was written and it named it before |
| SupervisorRounds.RequestLostExactly | src/altr_stream/supervisor/supervisor.py:514-527 | after a round on one request, any other is in neither file and without a status if and only if it is not the last submitted on the host between the two removals |
| SupervisorRounds.LostForGood | src/altr_stream/supervisor/supervisor.py:514-527 | work on a request that is in neither file never starts, until it is submitted again |
| SupervisorRounds.SubmittedMeanwhileIsLost | src/altr_stream/supervisor/supervisor.py:514-527 | for every due request whose image cannot be pulled, a run that loses another one submitted meanwhile |
| Supervisor.AltrSupervisor.ReconcileStartupState | src/altr_stream/supervisor/supervisor.py:882-941 | an active status becomes terminal and its request is dropped; completed if and only if the node runs the target; nothing else changes |
| Supervisor.AltrSupervisor.ProcessPendingRequest | src/altr_stream/supervisor/supervisor.py:570-880 | no request, no change; otherwise the request is gone, the status is its outcome, and the files name target, previous or unchanged image accordingly |
| Supervisor.LiveVersionDecides | src/altr_stream/supervisor/supervisor.py:615-672 | the version that the node reports, or else the recorded one, decides whether a request is completed, refused or attempted |
| Supervisor.TagDecides | src/altr_stream/supervisor/supervisor.py:621-626 | if that is unknown, the text behind the last colon of the running image decides, and without a colon the request is attempted |
| Supervisor.ValidRequestExactly | src/altr_stream/supervisor/supervisor.py:558-568 | a request is valid if and only if its image has an allowed prefix and its version is not empty and free of seven characters |
| Supervisor.OutcomeReported | src/altr_stream/supervisor/supervisor.py:674-880 | the status and the image of the files for each way in which a request ends, the previous image included |
| Supervisor.AltrSupervisor.SynchronizeRequest | src/altr_stream/supervisor/supervisor.py:572-591 | the request of the host, or else that of the container |
| Supervisor.AltrSupervisor.Handle | src/altr_stream/supervisor/supervisor.py:593-672 | refused, already satisfied, out of date or attempted requests end in their outcome |
| Supervisor.AltrSupervisor.Attempt | src/altr_stream/supervisor/supervisor.py:674-796 | the workflow of a request from staging to its outcome |
| Supervisor.AltrSupervisor.RollBack | src/altr_stream/supervisor/supervisor.py:798-880 | a verified rollback persists the previous image and reports it, any other reports failure and persists nothing |
| Supervisor.AltrSupervisor.PersistImageUpdate | src/altr_stream/supervisor/supervisor.py:529-556 | each file that can be written names the image, the others are left as they are |
| Supervisor.RollbackHiddenExactly | src/altr_stream/supervisor/supervisor.py:842-859 | a reported rollback is hidden on the restored node if and only if the version before the update is unreadable and the restored one is readable and not older than the target |
| Supervisor.RollbackCanBeHidden | src/altr_stream/domain/updates.py:216-236 | a request and answers whose rollback is hidden on the node it restored, for every version without pre-release |
| Supervisor.CompletionIsVisible | src/altr_stream/supervisor/supervisor.py:630-650 | a completion that is reported is shown on the node that runs the target |
| Supervisor.ReconciledIsVisible | src/altr_stream/supervisor/supervisor.py:899-920 | the completion that a restart records is shown on the node that it found running the target |
| SqlSplitter.SplitSqlStatements | src/altr_stream/domain/query_validation.py:16-149 | the scanner with five flags, at most one set, returns the statements of the one-mode automaton |
| SqlSplitter.ValidateQuery | src/altr_stream/domain/query_validation.py:152-181 | the query's only statement, or that it is empty or has several |
| SqlStatements.SegmentsRejoin | src/altr_stream/domain/query_validation.py:16-149 | the segments joined by semicolons are the input |
| SqlStatements.SegmentsAreWhole | src/altr_stream/domain/query_validation.py:33-149 | no segment holds a separator: split again, each is itself |
| SqlStatements.TrimIsWhole | src/altr_stream/domain/query_validation.py:136-147 | trimming a segment introduces no separator |
| SqlStatements.SplitTwice | src/altr_stream/domain/query_validation.py:16-149 | every statement found is, split again, the one statement that it is |
| SqlStatements.ValidatedTwice | src/altr_stream/domain/query_validation.py:152-181 | validating a validated query returns it unchanged, and it holds no separator |
| SqlPieces.PiecePasses | src/altr_stream/domain/query_validation.py:44-134 | quoted text, dollar quotes and comments of any content begin and end in code without a separator |
| SqlPieces.DollarTagExactly | src/altr_stream/domain/query_validation.py:121-131 | a dollar quote opens if and only if a name, empty or not, stands between two dollar signs |
| SqlPieces.WrittenStatementsFound | src/altr_stream/domain/query_validation.py:16-149 | statements written from lexical pieces and joined by semicolons are exactly the segments found |
| SqlPieces.FilterDropsCode | src/altr_stream/domain/query_validation.py:7-13 | plain code between two comments that hold the marks of a block comment is dropped |
| SqlComments.FilterIsReader | src/altr_stream/domain/query_validation.py:7-13 | for every text, the two passes keep it if and only if one pass reads code: the scanner's comments, but a closed block counts inside a line comment too |
| SqlComments.FilterAgrees | src/altr_stream/domain/query_validation.py:7-13 | unless a block that starts in a line comment is closed on a later line, the filter keeps a text if and only if the scanner reads code in it or ends in an open block |
| SqlComments.MixedRemark | src/altr_stream/domain/query_validation.py:7-13 | a closed block in a line comment is swallowed to its end, also beyond the line, and what follows counts as the rest of the line comment |
| SqlComments.BlockWithinLine | src/altr_stream/domain/query_validation.py:44-60 | the scanner sees the same with and without any part of a line comment |
| SqlComments.FilterKeepsComment | src/altr_stream/domain/query_validation.py:7-13 | texts of comments only, which the filter keeps because it ends a block of its own inside one of them |
| SqlComments.PiecesKeptExactly | src/altr_stream/domain/query_validation.py:7-13 | a text written in pieces, whose line comments close every block they begin, is kept if and only if some piece is code |
| UsageLog.SeriesAddsUp | src/altr_stream/application/usage_tracker.py:335-368 | the steps of a series add up to everything recorded in the minutes from the first step to the last |
| UsageLog.StepOfMinute | src/altr_stream/application/usage_tracker.py:307-309 | every covered minute lies in exactly one step |
| UsageLog.WindowShowsLess | src/altr_stream/application/usage_tracker.py:283-309 | of a window only its length less all but one minute of a step is shown, the full length if and only if steps are minutes |
| UsageLog.DayShowsLess | src/altr_stream/application/usage_tracker.py:290-309 | a recording of 23 hours and two minutes ago is missing in the window of a day |
| UsageLog.PrunedCountExactly | src/altr_stream/application/usage_tracker.py:370-387 | the pruned queue counts the operations since the cutoff if and only if no older one stands behind a fresh one |
| UsageLog.ExactWhenOrdered | src/altr_stream/application/usage_tracker.py:370-387 | it does so at every cutoff if and only if the timestamps do not decrease |
| UsageLog.PrunedCountsLastMinute | src/altr_stream/application/usage_tracker.py:370-387 | recordings in the order of their timestamps make the queue count what the log has since the cutoff |
| Usage.UsageTracker.RecordRead | src/altr_stream/application/usage_tracker.py:69-92 | the log grows by the reads and every index stays exact; nothing for counts that are not positive |
| Usage.UsageTracker.RecordWrite | src/altr_stream/application/usage_tracker.py:94-117 | the same for writes |
| Usage.UsageTracker.Series | src/altr_stream/application/usage_tracker.py:307-368 | every step holds what the log has for its own minutes |
| Usage.UsageTracker.StepCounts | src/altr_stream/application/usage_tracker.py:344-365 | the loop over minutes sums exactly the step's span of the log |
| Usage.UsageTracker.GetMetrics | src/altr_stream/application/usage_tracker.py:279-402 | totals, series and throughput are those of the log, globally or for one source |
| Usage.ThroughputExactly | src/altr_stream/application/usage_tracker.py:370-402 | the current minute if and only if nothing was recorded in sixty seconds, else what was, exactly if no older recording stands behind a fresh one |
| Usage.UsageTracker.Reset | src/altr_stream/application/usage_tracker.py:433-445 | everything is forgotten |
| LineBuffers.LineBuffer.ProcessChunk | packaging/macos/AltrStreamApp/Sources/EngineBridge.swift:125-131 | reported lines and buffered rest are those of everything received; nothing when closed |
| LineBuffers.LineBuffer.CloseAndFlush | packaging/macos/AltrStreamApp/Sources/EngineBridge.swift:133-146 | the lines of the whole stream are reported, and the buffer is closed |
| LineBuffers.LineBuffer.ExtractLines | packaging/macos/AltrStreamApp/Sources/EngineBridge.swift:148-156 | the loop reports every terminated line and leaves the unterminated rest |
| LineBuffers.WholeIsSplit | packaging/macos/AltrStreamApp/Sources/EngineBridge.swift:148-156 | reading a stream splits it at its newlines, losing nothing |
| LineBuffers.SplitIsWhole | packaging/macos/AltrStreamApp/Sources/EngineBridge.swift:148-156 | there is only one such splitting |
| LineBuffers.ReadStream | packaging/macos/AltrStreamApp/Sources/EngineBridge.swift:119-157 | however a stream is cut into chunks, the same lines are reported, and none after closing |
| EnvFile.UpdateContent | packaging/engine/lifecycle.go:797-829 | lines of the four settings are replaced in place, missing ones appended |
| EnvFile.FindSetting | packaging/engine/lifecycle.go:803-815 | the only setting that a line has, if any |
| EnvFile.OtherLinesKept | packaging/engine/lifecycle.go:797-829 | every other line stays where it is |
| EnvFile.SettingReadBack | packaging/engine/lifecycle.go:797-829 | each setting is read back as written if the file had it or it is to be added, and else is missing |
| EnvFile.WrittenSettingsRead | packaging/engine/lifecycle.go:797-829 | image, container, volume and environment are read back from their own lines, missing only as defaults |
| EnvFile.ImageReadBack | packaging/engine/lifecycle.go:1183-1191 | starting the container reads the image that was written, whatever the file held before |
| VersionSwitch.InstallerEngine.RemoveContainerByName | packaging/engine/lifecycle.go:576-625 | a removal follows an inspection that showed neither a development nor a foreign container |
| VersionSwitch.InstallerEngine.WriteRuntimeFiles | packaging/engine/lifecycle.go:708-857 | both files rendered or updated, with the error cases of the writes |
| VersionSwitch.InstallerEngine.StartContainer | packaging/engine/lifecycle.go:1167-1265 | a running container is left alone unless it is seen to run another image than configured |
| VersionSwitch.InstallerEngine.RollbackVersion | packaging/engine/engine.go:793-820 | container removed if possible, saved files written back, container started and checked |
| VersionSwitch.InstallerEngine.SwitchVersion | packaging/engine/engine.go:624-791 | files, container and outcome for all answers; all removals guarded and no volume removed |
| VersionSwitch.ErrorRestoresFilesExactly | packaging/engine/engine.go:715-820 | an error leaves both files as they were if and only if both existed, or the image was refused, Docker not ready or nothing fetched |
| VersionSwitch.NewFilesStayBehind | packaging/engine/engine.go:741-750 | in an empty directory, a container that cannot be removed leaves the new files behind |
| VersionSwitch.EarlyErrorsKeepContainer | packaging/engine/engine.go:674-750 | errors before the container is removed keep it, and refusals change nothing |
| VersionSwitch.UnfinishedConfigurationStays | packaging/engine/engine.go:735-738 | if `.env` cannot be created, the new compose file stays in place |
| VersionSwitch.SwitchedRunsTarget | packaging/engine/engine.go:752-791 | success means that the container runs what the new files say |
| VersionSwitch.SwitchedSettings | packaging/engine/engine.go:752-791 | and that an existing environment file has the new container, volume and environment |
| VersionSwitch.RolledBackRunsPreviousExactly | packaging/engine/engine.go:793-820 | after a successful rollback the previous image runs if and only if the container was removed, or none was seen running, or its image was read and differs from the saved setting, or it was that image all along |
| VersionSwitch.RollbackCanKeepRejectedImage | packaging/engine/engine.go:793-820 | a rollback reported as successful can leave the rejected image running |

## Left out

- The AltrQL parser, the planner, dialect lowerers and `semantic/validator.py`; the evaluator in `Query` is this
  model's own reading of the documented semantics: two-valued NULL, value sets as OR, compound constraints as AND.
- Characters beyond ASCII: `isdigit`, `isalpha`, `lower` and `strip` know more of Unicode than the model.
- Decimal literals are exact reals, not IEEE numbers; Python's limit on the digits of an integer is not modelled.
- The wording of error messages, and which of the errors of several clauses binding reports first.
- A field path without segments and a temporal literal without keyword and value, which the parser never builds.
- TypeValidator.AcceptedNeverStuckExactly: speaks of plain fields; the validator exempts nested JSON paths on purpose.
- QueryThroughMapping.ValidatedQueryBindsExactly: speaks of single-segment mapped fields, for the same reason.
- The documented meaning of a date literal against a timestamp column, the whole day (`docs/altrql/specification.md`):
  the lowerers give it, and `Query` compares moments as they are.
- MappingLifecycle.NormalizedPassesExactly: logical names are not empty, as the API guarantees
  (`src/altr_stream/presentation/api/dtos.py`, lines 321 to 333).
- Registry.RegistryService.IngestAlignSuggestions: takes entity mappings already looked up; parsing the loose proposal dictionaries is left out.
- Provenance, error texts and timestamps of mappings; adding and deleting single field mappings changes a content
  like `MappingLifecycle.Edit` and has no method of its own.
- Supervisor.AltrSupervisor.PersistImageUpdate: the rewriting of the files' text; whether a file exists, can be written
  and mentions an official image is one answer per file.
- SupervisorSafety.RerunOnlyBeforeRemoval: request files are removed when the supervisor removes them; failures
  of that removal are logged and ignored by the code.
- SupervisorRounds.RequestLostExactly: speaks of a round without a crash; a crash between the two removals leaves the
  request in the container to be read again.
- SupervisorSafety.StatusesFollowLifecycle: speaks of the statuses that the supervisor writes. The application may
  submit requests at any time on either side, and statuses inside the container; it does not write the host's status.
- Supervisor messages and progress percentages; the poll loop, daemon and signal handling.
- `raw` of a parsed version, and release data other than the version.
- UsageLog.PrunedCountsLastMinute: the database, the lock, debounced saving and rounding of percentages and chart
  coordinates are left out; a fresh tracker is assumed.
- Usage.UsageTracker.GetMetrics: the throughput is stated for clocks that do not run back between two calls.
- VersionSwitch.SwitchedRunsTarget: settings fit on one line and do not end in a blank; all writes succeed.
- VersionSwitch.InstallerEngine.SwitchVersion: image validation, the classification of containers and of Docker's
  error texts are answers; what compose runs is a function of its file and the image setting; the container that the
  files name is the one that is switched; files that exist are readable.
- VersionSwitch.InstallerEngine.WriteRuntimeFiles: the rendered compose text and the first `.env` are parameters.
- FastAPI routes, SQL storage, encryption, feedback, the user interfaces and all packaging scripts.
