# Verified models of the GoogleSQL analyzer

This project models the parts of the GoogleSQL analyzer in which several loops,
tries or searches must agree with one simple meaning, and proves that they do.
Every `.dfy` file is a module; `dafny verify dfyconfig.toml` checks all of them.

| module | models |
|---|---|
| `Types`, `Sequences`, `Graphs` | shared vocabulary: SQL types and arguments, sequences without repetition, dependency graphs |
| `Signatures`, `ArgumentCount` | function signatures, their canonical expansion, and the argument count check |
| `ArgumentMapping`, `ArgumentMappingProperties` | mapping the arguments of a call to parameters, and what the mapping guarantees |
| `Reordering` | reordering arguments by the mapping, with default values for omitted ones |
| `Templates`, `SignatureMatching`, `TypeInference`, `TemplateCompleteness` | type checks along the expansion and inference of templated types, and what they decide |
| `ConcreteSignatures`, `Matcher`, `Overloads` | the concrete signature, the match of one signature, and overload resolution |
| `FilterFields` | the include/exclude trie of FILTER_FIELDS |
| `GraphMeasures` | trial-and-error resolution of graph measures |
| `Windows`, `AnalyticFunctions` | flattening of named windows, groups of analytic functions, the analytic scan |
| `ExprMatching`, `FieldPaths` | comparison of expressions for GROUP BY; comparison and hashing of field paths |
| `FieldPathConflicts` | overlapping field paths and shared oneofs |
| `ColumnCycles` | cycle detection among generated columns |

## How things are modelled

- Objects whose methods update fields are classes with those fields. Containers
  they change are `map`, `seq` and `set` fields that are reassigned. The
  FILTER_FIELDS trie owns its nodes through unique pointers, so its nodes are
  kept in one map from the path of field numbers to the node. Ghost fields record
  the history of a run: the paths added, the finish order, the window of each call.
- The coercer, the type factory, the catalog, the expression resolver and the
  protobuf descriptors are parameters: functions with a stated contract
  (`Templates.Honest`, `GraphMeasures.Truthful`, `GraphMeasures.Honest`,
  `FilterFields.Schema.Valid`), or arbitrary functions where nothing is assumed.
- The expression resolver that measure resolution asks may depend on everything
  resolved so far and on the number of attempts made before.
- A literal of any type but INTERVAL and floating point zero is given by its class
  under SQL equality and its exact contents.
- Syntax nodes and columns are natural numbers. Names are compared exactly; case
  folding happens before.
- A signature is valid when its repeated block is contiguous, its optional
  parameters come last, defaults come at the end of the optional ones, there are
  more repeated than optional parameters if there are any repeated ones, and
  repeated parameters are positional-only.
- Argument types are copied when they are reordered, because `InputArgumentType` has
  a copy constructor and no move constructor (`input_argument_type.h`, line 135).
  Expressions are owned by unique pointers and moved.
- Field names are arbitrary non-empty strings in `FieldPathConflicts`: the name of a
  STRUCT field may be a quoted identifier with dots in it.
- In `FilterFields`, `FieldPathConflicts` and `ColumnCycles` the first error ends
  a run, because the code leaves a half-made change behind when it reports one.

## Where a property fails, and exactly when it holds

- A positional-only parameter that carries a name used in the call is given the
  named argument a second time. Each argument is used once, the reordered arguments
  are a permutation of those of the call plus the injected ones, and every moved
  expression arrives, if and only if no such name occurs (`EachArgumentOnce`,
  `CandidateConserves`, `ExpressionsArriveIff`, `AmbiguousNameTakenTwice`).
- An omitted unnamed optional parameter before a positional-only named one gets no
  row, so later rows are checked against the wrong parameter. Rows and expansion
  agree if and only if there is no such gap (`MappingFollowsExpansion`,
  `RowsSoundIffGapFree`, `GapLosesParameter`).
- An argument for `RANGE<ANY_1>` is not checked against the range type that is
  inferred: `range_contains(RANGE<DATE>, DATETIME)` gives `RANGE<DATETIME>`, to which
  the first argument does not coerce (`RangeNotChecked`). Where a range coerces only
  to its own type, all arguments of a match fit their types if and only if the
  element type of each range argument is the type inferred for `ANY_1`
  (`AllFitIffRangesAgree`, `SignatureMatches`).
- The key or value of a proto map can be left without a type, which the code says
  cannot happen and treats as an internal failure. That is so if and only if every
  argument that could determine it is untyped (`UnresolvedIsMapPart`,
  `MapKeyOfNull`).
- The required-field check of FILTER_FIELDS does not follow extension fields. It is
  exact for everything that declared fields reach, and exact overall if and only
  if the added paths keep the required fields of the messages they pass behind
  extensions (`KeptIffUnvisitedOk`, `KeptWithoutExtensions`,
  `ExtensionHidesRequired`).
- A PARTITION BY or ORDER BY that is a correlated reference is copied as it is. The
  references of a group are to the input of the scan or to its wrapper if and only if
  each bare reference in its clauses names a column of the input
  (`CreateAnalyticScan`, `CorrelatedReference`).
- Literals are compared by SQL equality, which is coarser than being the same value:
  `INTERVAL '1' MONTH` equals `INTERVAL '30' DAY`, and `0.0` equals `-0.0`. Expressions
  that test equal have the same value in every environment if and only if their
  literals are exactly the same (`EqualMeansSameValue`, `EqualIntervalsDiffer`).
- Paths that match as update items leave columns out of the comparison. They have the
  same hash under every hash function if and only if they start from the same column
  (`UpdateItemsHashIffSameRoot`, `UpdateItemsMayHashDifferently`).
- Field paths are compared as text without escaping, so a field `a.b` and the field
  `b` of a field `a` are reported to overlap. A reported overlap is real, and so is a
  shared oneof, if and only if no name of one path continues a name of the other past
  a dot after the same beginning (`OverlapIff`, `SharesIffKeyText`,
  `DottedNameReported`); plain names never do (`WellFormedNoClash`).
- Once a stored text is a prefix of a new one, texts inside the new one are no longer
  searched. Over a whole run the stored texts stay free of overlaps if and only if
  this never hides one, and it can hide one only when some text is a prefix of another
  away from a dot (`AddFieldPath`, `DetectedIffOverlap`, `AntichainStep`,
  `AntichainIff`, `HiddenOverlapAccepted`).
- Without discipline of the clients the column cycle detector misses cycles. The
  finish order is topological if and only if they were disciplined
  (`FinishOrderTopological`, `CycleMissedWithoutDiscipline`).

## Where code and documentation disagree

The models follow the code.

- The count check is documented to look for a positive number of optional
  arguments (`function_signature_matcher.cc`, lines 773 to 777); it accepts zero.
  Its last mismatch branch (lines 814 to 823) cannot be reached.
- The mapping is documented to hold an entry for every omitted optional argument
  when asked to (`function_resolver.h`, lines 302 to 322); the code leaves out
  unnamed ones past the last nameable and the last defaulted parameter.
- The limit of 20 is documented as a number of dependencies
  (`graph_ddl_resolver.h`, lines 121 to 122); it counts attempts, so 19 unresolved
  dependencies are possible and 20 are not.
- `VisitNewColumn` is documented to fail when called again with the same column
  (`column_cycle_detector.h`); it fails only while that column is being visited.

## Model

| member | source | states |
|---|---|---|
| Signatures.WalkIsExpansion | googlesql/analyzer/function_signature_matcher.cc:694-703 | walking a signature and rewinding at the end of its repeated block visits the parameters of the canonical expansion, in order |
| Signatures.ExpansionTail | googlesql/public/function_signature.cc:1736-1907 | the optional parameters of a valid signature are the last places of its expansion, in order |
| ArgumentCount.SignatureArgumentCountMatches | googlesql/analyzer/function_signature_matcher.cc:734-827 | succeeds if and only if n = required + x * repeated + y has a solution with 0 <= y <= optional, and returns the solution with the fewest repetitions |
| ArgumentCount.SolutionUnique | googlesql/analyzer/function_signature_matcher.cc:773-777 | with a repeated block the solution is unique |
| ArgumentMapping.CollectNamedArguments | googlesql/analyzer/function_resolver.cc:394-431 | succeeds if and only if all names are known and used once; gives the position of each name and the extent of the named arguments; the error is for the whole call if and only if a name is used twice before an unknown one comes up |
| ArgumentMapping.NamedLastIff | googlesql/analyzer/function_resolver.cc:434-446 | the test on the first and last named position holds if and only if the named arguments are exactly the last ones |
| ArgumentMapping.GetFunctionArgumentIndexMapping | googlesql/analyzer/function_resolver.cc:377-560 | a mapping is found if and only if every place of the expansion can be filled; its rows are those of the expansion; an error for the whole call is reported if and only if a name is used twice, a positional argument follows a named one, or the first place that cannot be filled is an empty repeated one; the internal check fails if and only if a repeated parameter that shares its name with a nameable one is reached by name |
| ArgumentMappingProperties.MappableIff | googlesql/analyzer/function_resolver.cc:448-558 | a call can be mapped if and only if its names are known, different and last, every positional argument is at the place of a parameter that may be positional and is not also named, every other place is optional or required and named, and a block that is passed over is not named |
| ArgumentMappingProperties.AllTaken | googlesql/analyzer/function_resolver.cc:448-558 | the rows stay within the call and leave no argument out |
| ArgumentMappingProperties.EachArgumentOnce | googlesql/analyzer/function_resolver.cc:448-558 | the mapping uses each argument of the call exactly once if and only if no name in the call belongs to a positional-only parameter |
| ArgumentMappingProperties.AmbiguousNameTakenTwice | googlesql/analyzer/function_resolver.cc:460-463 | a call in which one argument is taken for two parameters |
| ArgumentMappingProperties.OmittedRowsAreOptional | googlesql/analyzer/function_resolver.cc:497-544 | every row without an argument belongs to an optional parameter |
| ArgumentMappingProperties.OmittedRowIff | googlesql/analyzer/function_resolver.cc:497-544 | an optional parameter that the call does not fill gets a row if and only if the call has named arguments, or it or a later parameter has a default, or omitted named parameters are wanted and it has a name or it or a later one can be named |
| ArgumentMappingProperties.MappingFollowsExpansion | googlesql/analyzer/function_resolver.cc:448-558 | the rows name the first places of the expansion in order if and only if no gap lies among the omitted parameters |
| ArgumentMappingProperties.GapLosesParameter | googlesql/analyzer/function_resolver.cc:497-508 | a signature and a call in which the only row belongs to the second parameter while the first place belongs to the first |
| ArgumentMappingProperties.CountAgain | googlesql/analyzer/function_signature_matcher.cc:2004-2009 | the list extended by the omitted rows passes the count check with the same repetitions, and its optional arguments are exactly the rows of optional parameters |
| ArgumentMappingProperties.CountAgainUnique | googlesql/analyzer/function_signature_matcher.cc:2004-2009 | the second count check finds the same number of repetitions, with or without repeated parameters |
| ArgumentMappingProperties.RowsInOrder | googlesql/analyzer/function_resolver.h:308-315 | consecutive rows go forward through the signature, except from the end of the repeated block to its start |
| Reordering.ReorderInputArguments | googlesql/analyzer/function_resolver.cc:563-619 | gives every row its argument or an injected value, and fails if and only if an omitted row is not optional |
| Reordering.OmittedValues | googlesql/analyzer/function_resolver.cc:584-602 | an omitted row holds the default of its parameter, without one a NULL of its type, without a type an untyped NULL |
| Reordering.DefaultsInjected | googlesql/analyzer/function_resolver.cc:500-603 | every omitted parameter with a default has that default among the reordered arguments |
| Reordering.ReorderExpressions | googlesql/analyzer/function_resolver.cc:642-687 | moves every expression to its row; a row is left without one if and only if an earlier row has the same argument, so all arrive if and only if no argument stands in two rows |
| Reordering.ExpressionsArriveIff | googlesql/analyzer/function_resolver.cc:642-687 | by the mapping of a call no argument stands in two rows if and only if no name in the call belongs to a positional-only parameter |
| Reordering.ReorderingConserves | googlesql/analyzer/function_resolver.cc:578-603 | the reordered list is a permutation of the arguments together with one injected value per omitted row if and only if no argument stands in two rows |
| Templates.CheckSingleKeeps | googlesql/analyzer/function_signature_matcher.cc:1196-1528 | one check keeps array kinds together with their element kinds, never lowers a type set, and records the argument under the kind of its parameter |
| Templates.CollectResultKeeps | googlesql/analyzer/function_signature_matcher.cc:1132-1157 | taking the kind of the result into account keeps the collection consistent and lowers nothing |
| Templates.DetermineResolvedTypes | googlesql/analyzer/function_signature_matcher.cc:1767-1923 | the loop over the collected kinds, in their order, computes the step-by-step resolution |
| Templates.ResolveSound | googlesql/analyzer/function_signature_matcher.cc:1767-1972 | on a consistent collection no internal failure is possible, and every kind resolved fits its components and all of its typed arguments; a range gets the type resolved for its element |
| Templates.CheckArrayKinds | googlesql/analyzer/function_signature_matcher.cc:2054-2085 | succeeds if and only if, for ANY_1 to ANY_5, one of the types of ANY_K and ARRAY_ANY_K is the array of the other |
| Templates.ArraysAgree | googlesql/analyzer/function_signature_matcher.cc:2054-2085 | the check cannot fail: after resolution ARRAY_ANY_K is always the array of ANY_K |
| Templates.RangeNotChecked | googlesql/analyzer/function_signature_matcher.cc:1808-1828 | with ranges that coerce only to their own type, a range of dates beside a datetime is taken for a range of datetimes, to which it does not coerce |
| SignatureMatching.CheckArgumentTypes | googlesql/analyzer/function_signature_matcher.cc:1078-1159 | the k-th argument is checked against the parameter at the k-th place of the expansion |
| SignatureMatching.CheckAllKeeps | googlesql/analyzer/function_signature_matcher.cc:1088-1130 | after a successful walk every typed argument is recorded under the kind of the parameter at its place |
| SignatureMatching.PartsFromArguments | googlesql/analyzer/function_signature_matcher.cc:1441-1525 | the key or value type of a proto map is only ever determined by an argument for it or for the map |
| TypeInference.ContainsMeasureIff | googlesql/analyzer/function_signature_matcher.cc:1530-1532 | a type contains a measure if and only if it or a type it is built from is one |
| TypeInference.AcceptedIff | googlesql/analyzer/function_signature_matcher.cc:1196-1528 | the check of one argument succeeds if and only if its type has the shape that the kind asks for, or is the fixed type or may be coerced to it, and is a measure just where one is asked for |
| TypeInference.CollectedIs | googlesql/analyzer/function_signature_matcher.cc:1078-1130 | the walk succeeds if and only if every argument is accepted, and then has collected for each kind just what the arguments say about it |
| TypeInference.OnceMeans | googlesql/public/input_argument_type.cc:418-442 | the set of a kind holds each argument type that was said, once, and nothing else |
| TypeInference.DominantMeans | googlesql/public/input_argument_type.cc:404-416 | the dominant argument is the last one that was set to be, or the first, unless that is simple and a compound one follows |
| TypeInference.ResolvesIffSolution | googlesql/analyzer/function_signature_matcher.cc:1767-1972 | resolution succeeds if and only if the kinds have types that satisfy, in no order, the rules for each kind; there is at most one such choice, and it is the one found; kinds without typed arguments are INT64 or ARRAY<INT64>, unless they need a certain shape |
| TypeInference.MatchesTypesIff | googlesql/analyzer/function_signature_matcher.cc:2020-2118 | the arguments match the types of a signature if and only if each is accepted at its place and the kinds have such types |
| TypeInference.FixedMatchIff | googlesql/analyzer/function_signature_matcher.cc:1283-1298 | against a signature without templates, arguments without measures match if and only if each has the type at its place or, where coercion is allowed, coerces to it or may by a rule of the parameter; nothing is left without a type |
| TypeInference.SupertypesMatch | googlesql/analyzer/function_signature_matcher.cc:1943-1971 | arguments for ANY and ARRAY_ANY parameters match when those of each kind have a common supertype and the arrays coerce, and the supertypes are inferred |
| ConcreteSignatures.GetConcreteArgumentsGeneral | googlesql/analyzer/function_signature_matcher.cc:600-708 | lists every parameter with its occurrences, type and first argument; fails if and only if an occurring parameter has no type |
| ConcreteSignatures.GetConcreteArgumentsFast | googlesql/analyzer/function_signature_matcher.cc:564-598 | meets the same contract when there are neither optional nor repeated parameters |
| ConcreteSignatures.GetConcreteArguments | googlesql/analyzer/function_signature_matcher.cc:556-708 | either path meets that contract |
| ConcreteSignatures.FastEqualsGeneral | googlesql/analyzer/function_signature_matcher.cc:564-598 | where the fast path applies, list and indices are the only ones that meet the contract |
| ConcreteSignatures.ConcreteFollowsExpansion | googlesql/public/function_signature.cc:1367-1424 | taken in turn, the k-th concrete argument was made from the parameter at the k-th place of the expansion, with the type of that place |
| ConcreteSignatures.OccurrencesAddUp | googlesql/analyzer/function_signature_matcher.cc:607-708 | the occurrences of the concrete arguments add up to the number of arguments |
| Matcher.OccursIffPlaced | googlesql/analyzer/function_signature_matcher.cc:607-640 | a parameter occurs in the concrete signature if and only if some argument is at its place |
| Matcher.UnresolvedIsMapPart | googlesql/analyzer/function_signature_matcher.cc:674-690 | an occurring parameter is left without a type if and only if it is the key or value of a proto map that no argument determines |
| Matcher.AllFitIffRangesAgree | googlesql/analyzer/function_signature_matcher.cc:1808-1828 | where a range coerces only to its own type, all arguments coerce to their concrete types if and only if the element type of each typed range argument is the type that the arguments give ANY_1 |
| Matcher.MapKeyOfNull | googlesql/analyzer/function_signature_matcher.cc:674-690 | a signature with a proto map key and a call with an untyped NULL that pass every check and leave the key without a type |
| Matcher.SignatureMatches | googlesql/analyzer/function_signature_matcher.cc:1974-2121 | says no match exactly when counting, type checks or inference fail; a match gives every argument a concrete argument made from the parameter at its place, with a type it may have, range arguments under the exact condition, and every argument outside the block the index of its own; an internal failure is an undetermined proto map part and nothing else |
| TemplateCompleteness.ResolveExact | googlesql/analyzer/function_signature_matcher.cc:1767-1972 | when all collected arguments have exactly the types of one instantiation, resolution succeeds with that instantiation |
| TemplateCompleteness.ExactCallMatches | googlesql/analyzer/function_signature_matcher.cc:2020-2118 | a call whose arguments have exactly the types of some instantiation of the signature is never rejected, and that instantiation is inferred |
| Overloads.CoercionCost | googlesql/analyzer/function_signature_matcher.cc:2123-2167 | adds up the cost of every argument against its concrete argument |
| Overloads.FreeIffExact | googlesql/analyzer/function_signature_matcher.cc:2123-2167 | a match costs nothing if and only if every argument already has its concrete type |
| Overloads.CostMeans | googlesql/analyzer/function_signature_matcher.cc:2123-2167 | the cost counts the expressions that are given another type and adds up their distances, and does the same for literals and untyped arguments |
| Overloads.CloserOrder | googlesql/public/signature_match_result.cc:31-43 | the comparison of costs is a strict total order |
| Overloads.CloserIffFirstSmaller | googlesql/public/signature_match_result.cc:31-43 | a cost is closer if and only if it is smaller in the first of its four parts that differs: expressions, their distance, literals, their distance |
| Overloads.DefaultAtOwnPlace | googlesql/analyzer/function_resolver.cc:500-508 | an injected default stands at the place of its own parameter, gap or no gap |
| Overloads.TrySignature | googlesql/analyzer/function_resolver.cc:885-981 | an overload becomes a candidate if and only if it is visible and enabled, the call can be mapped to it, the reordered arguments match and the constraint holds; the whole call fails if and only if the overload is visible, knows all names and either the mapping is in error or a match leaves a proto map part without a type |
| Overloads.MatchReordered | googlesql/analyzer/function_resolver.cc:947-981 | the reordered arguments become a candidate if and only if they match and satisfy the constraint, and fail the call if and only if they match with a proto map part left open |
| Overloads.RowsSoundIffGapFree | googlesql/analyzer/function_resolver.cc:642-726 | in a candidate every row is checked against, and made concrete as, the parameter the mapping names, and omitted rows lead to their own optional parameter, if and only if the signature has no gap |
| Overloads.CandidateConserves | googlesql/analyzer/function_resolver.cc:682-687 | the arguments of a candidate are those of the call plus the injected ones if and only if no name in the call belongs to a positional-only parameter; the checks on omitted rows hold in every candidate |
| Overloads.FindMatchingSignature | googlesql/analyzer/function_resolver.cc:843-1047 | an error is returned if and only if some overload fails the whole call; otherwise the result, its arguments and its mapping belong to the earliest candidate that no other beats; every other overload is a candidate or left exactly one message; without a candidate there is one message per overload |
| Overloads.ChosenChangesLeast | googlesql/analyzer/function_resolver.cc:1015-1030 | no candidate gives another type to fewer expressions than the chosen one, nor to as many less far, and then likewise for literals and untyped arguments; no earlier candidate is as good in all four |
| Overloads.ExactMatchWins | googlesql/analyzer/function_resolver.cc:1015-1030 | if some overload takes the arguments as they are, the chosen one does |
| FilterFields.LongestPrefixWins | googlesql/analyzer/filter_fields_path_validator.cc:66-110 | a path has the flag of its longest added prefix |
| FilterFields.FilterFieldsPathValidator.ValidateFieldPath | googlesql/analyzer/filter_fields_path_validator.cc:53-113 | a well-typed path is accepted if and only if it is neither a prefix of an earlier path nor equal to one and flips the flag of its longest added prefix; the trie then holds exactly the prefixes of the added paths with those flags, and flags alternate |
| FilterFields.FindIsEffective | googlesql/analyzer/filter_fields_path_validator.cc:66-110 | looking up any path in the trie gives the flag of its longest added prefix |
| FilterFields.ParentRetained | googlesql/analyzer/filter_fields_path_validator.cc:138-144 | a node with children always has something included in it |
| FilterFields.FilterFieldsPathValidator.RecursivelyValidateNode | googlesql/analyzer/filter_fields_path_validator.cc:126-154 | succeeds if and only if every node that declared fields reach keeps its required fields |
| FilterFields.TrieDecides | googlesql/analyzer/filter_fields_path_validator.cc:126-154 | that is so if and only if every required field of every retained message, at any depth that declared fields reach, is retained |
| FilterFields.FilterFieldsPathValidator.FinalValidation | googlesql/analyzer/filter_fields_path_validator.cc:115-124 | fails if and only if no path was added, or cleared required fields are not reset and one of them is cleared |
| FilterFields.KeptIffUnvisitedOk | googlesql/analyzer/filter_fields_path_validator.cc:134-152 | all required fields of all retained messages are retained if and only if the check succeeds and, behind extensions, the added paths keep the required fields of every message they pass |
| FilterFields.KeptWithoutExtensions | googlesql/analyzer/filter_fields_path_validator.cc:134-152 | the check is exact when no path goes on from an extension |
| FilterFields.ExtensionHidesRequired | googlesql/analyzer/filter_fields_path_validator.cc:134-152 | a path through an extension that clears a required field unnoticed |
| GraphMeasures.MeasureResolver.ResolveMeasure | googlesql/analyzer/graph_ddl_resolver.cc:2205-2322 | ends for every oracle; restores the visited set on every exit; keeps the resolved measures in a topological order; reports only real cycles, the depth limit only for a chain of more than 10 different unresolved measures, and the limit of attempts only for a measure with 20 or more unknown dependencies; succeeds under favourable conditions; resolves a measure over leaves if and only if fewer than 20 of them are unknown |
| GraphMeasures.MeasureResolver.ResolveAll | googlesql/analyzer/graph_ddl_resolver.cc:964-985 | success resolves exactly the measures of the list, none of which lies on a cycle; a reported cycle or exceeded limit is real; an honest oracle succeeds when no chain from a declared measure is longer than 10 measures and none has more than 19 dependencies |
| GraphMeasures.NoLongChainNoCycle | googlesql/analyzer/graph_ddl_resolver.h:124-125 | when no chain from a declared measure is longer than the depth limit, no cycle goes through a declared measure |
| Graphs.CyclesStayUnresolved | googlesql/analyzer/graph_ddl_resolver.cc:2218-2229 | a measure from which a cycle can be reached is in no topological order, hence never resolved |
| Windows.EachClauseOnce | googlesql/analyzer/analytic_function_resolver.cc:1401-1436 | in a legal chain each of PARTITION BY, ORDER BY and frame comes from at most one window, in that order from the far end |
| Windows.LegalIff | googlesql/analyzer/analytic_function_resolver.cc:1401-1436 | a chain is legal if and only if its windows are linked, only the last one partitions, at most one orders, and at most one, not before that one, has a frame |
| Windows.GroupingIffClauses | googlesql/analyzer/analytic_function_resolver.h:98-126 | there is a grouping window if and only if there is a PARTITION BY or an ORDER BY |
| Windows.GroupingOnChain | googlesql/analyzer/analytic_function_resolver.cc:1379-1383 | the grouping window is the first one on the chain with a PARTITION BY or ORDER BY of its own, and has the same PARTITION BY and ORDER BY as the chain |
| AnalyticFunctions.SameGroupingSameClauses | googlesql/analyzer/analytic_function_resolver.cc:445-460 | windows with the same grouping window have the same PARTITION BY and ORDER BY |
| AnalyticFunctions.AnalyticFunctionResolver.Extract | googlesql/analyzer/analytic_function_resolver.cc:1358-1399 | gives the flattening of the window's chain if and only if that chain exists, only its last window partitions, at most one orders, and at most one, not before that one, has a frame |
| AnalyticFunctions.AnalyticFunctionResolver.SetWindowClause | googlesql/analyzer/analytic_function_resolver.cc:154-179 | succeeds if and only if names are unique and every definition has a legal chain through definitions before it; each name then stands for the flattening of its chain |
| AnalyticFunctions.AnalyticFunctionResolver.DisableNamedWindowRefs | googlesql/analyzer/analytic_function_resolver.cc:185-190 | refuses references to named windows from then on and changes nothing else |
| AnalyticFunctions.AnalyticFunctionResolver.ResolveOverClause | googlesql/analyzer/analytic_function_resolver.cc:299-466 | a call is accepted if and only if its chain is legal, the function supports the window, the clauses can be resolved and the frame passes its checks; it gets one fresh column, which joins the group of its grouping window and agrees with the clauses of that group |
| AnalyticFunctions.AnalyticFunctionResolver.AddToGroup | googlesql/analyzer/analytic_function_resolver.cc:443-460 | the group a column joins, old or new, has the clauses of its window |
| AnalyticFunctions.SameGroupIffSameGrouping | googlesql/analyzer/analytic_function_resolver.cc:445-460 | two calls are in the same group if and only if their windows have the same grouping window |
| AnalyticFunctions.OneGroupPerCall | googlesql/analyzer/analytic_function_resolver.cc:457-460 | the column of each call is in exactly one place of one group |
| AnalyticFunctions.AnalyticFunctionResolver.AddColumn | googlesql/analyzer/analytic_function_resolver.cc:1313-1356 | gives a window expression its one column, fresh if it has to be computed |
| AnalyticFunctions.AnalyticFunctionResolver.ResolveClause | googlesql/analyzer/analytic_function_resolver.cc:1177-1192 | every expression of the clause has a column afterwards, and columns given before are kept |
| AnalyticFunctions.AnalyticFunctionResolver.ResolveGroup | googlesql/analyzer/analytic_function_resolver.cc:1121-1160 | the clauses of a group become the columns of their expressions |
| AnalyticFunctions.AnalyticFunctionResolver.CreateAnalyticScan | googlesql/analyzer/analytic_function_resolver.cc:1048-1119 | the output is the input plus every call's column once; the partitioning and ordering references of a group are to the input or the wrapper if and only if each bare reference in its clauses names a column of the input; no two expressions share a computed column; nothing remains pending |
| AnalyticFunctions.CorrelatedReference | googlesql/analyzer/analytic_function_resolver.cc:1335-1339 | a scan whose group refers to a column of the enclosing query |
| ExprMatching.EqualsIffSameRepresentative | googlesql/public/interval_value.h:207-210 | SQL equality of literals, which counts a month as 30 days and ignores the sign of a zero, is equality of representatives, hence an equivalence |
| ExprMatching.EqualIffSame | googlesql/analyzer/expr_matching_helpers.cc:116-357 | two expressions test equal if and only if they are the same up to fields without meaning and SQL equality of literals, and contain only supported, non-volatile nodes |
| ExprMatching.MarksIgnored | googlesql/analyzer/expr_matching_helpers.cc:157-171 | whether a column reference is correlated, whether a struct access was by position, and where a call occurs make no difference to the comparison |
| ExprMatching.TroubleIff | googlesql/analyzer/expr_matching_helpers.cc:116-357 | the answer is unknown if and only if, before any difference, the comparison comes upon two nodes of one kind and type that cannot be compared; it fails if and only if, before any difference, it comes upon the same call with as many but different collations |
| ExprMatching.ComparableIffNodes | googlesql/analyzer/expr_matching_helpers.cc:236-246 | an expression is comparable if and only if each of its nodes is of a supported kind, has no generic arguments and calls no volatile function |
| ExprMatching.ComparableDecided | googlesql/analyzer/expr_matching_helpers.cc:349-352 | the comparison of supported, non-volatile expressions is never unknown |
| ExprMatching.Symmetric | googlesql/analyzer/expr_matching_helpers.cc:116-357 | the whole answer, not only equality, is symmetric |
| ExprMatching.Transitive | googlesql/analyzer/expr_matching_helpers.cc:116-357 | equality is transitive |
| ExprMatching.ReflexiveIffComparable | googlesql/analyzer/expr_matching_helpers.cc:236-246 | an expression equals itself if and only if it is supported and not volatile throughout |
| ExprMatching.EqualMeansSameValue | googlesql/analyzer/expr_matching_helpers.cc:116-357 | equal expressions call no volatile function anywhere, and evaluate to the same value in every environment if and only if literals at the same place are exactly the same |
| ExprMatching.EqualIntervalsDiffer | googlesql/analyzer/expr_matching_helpers.cc:132-139 | `EXTRACT(MONTH FROM ...)` of `INTERVAL '1' MONTH` and of `INTERVAL '30' DAY` test equal and have different values |
| FieldPaths.SamePathSameHash | googlesql/analyzer/expr_matching_helpers.cc:464-526 | paths that match with columns compared have the same hash, for every hash function |
| FieldPaths.HashTellsAccesses | googlesql/analyzer/expr_matching_helpers.cc:464-526 | the hash depends on the kinds of the accesses, of their types, on the fields and on the column, and on nothing else |
| FieldPaths.UpdateItemsHashIffSameRoot | googlesql/analyzer/expr_matching_helpers.cc:800-806 | paths that match with columns left out hash equally under every hash function if and only if they start from the same column |
| FieldPaths.UpdateItemsMayHashDifferently | googlesql/analyzer/expr_matching_helpers.cc:800-806 | two columns that match as update items and hash differently |
| FieldPaths.SamePathSameValue | googlesql/analyzer/expr_matching_helpers.cc:742-836 | paths that match as expressions evaluate equally |
| FieldPaths.ExpressionIsStrictest | googlesql/analyzer/expr_matching_helpers.cc:742-836 | matching as expressions implies matching under every option |
| FieldPaths.SamePathIffShape | googlesql/analyzer/expr_matching_helpers.cc:742-836 | paths match if and only if they are simple and look the same under the option: FieldPath sees only the kinds of the types of proto and struct accesses, UpdateItemElement does not see the column |
| FieldPaths.ReflexiveIffSimple | googlesql/analyzer/expr_matching_helpers.cc:742-836 | a path matches itself if and only if it consists of proto, struct and JSON accesses over a column or an argument |
| FieldPaths.SamePathSymmetric | googlesql/analyzer/expr_matching_helpers.cc:742-836 | matching is symmetric under every option |
| FieldPaths.SamePathTransitive | googlesql/analyzer/expr_matching_helpers.cc:742-836 | matching is transitive under every option |
| FieldPathConflicts.TextIsPath | googlesql/analyzer/conflicting_field_paths_validator.cc:43-75 | a path starts another if and only if its text is that of the other or continues in it after a dot, and no name of one continues a name of the other past a dot after the same beginning |
| FieldPathConflicts.OverlapIff | googlesql/analyzer/conflicting_field_paths_validator.cc:107-146 | paths overlap if and only if their texts do and no name reads like a longer path |
| FieldPathConflicts.FieldTexts | googlesql/analyzer/conflicting_field_paths_validator.cc:65-75 | a declared field is rendered as its name and an extension as its full name in parentheses, which are plain and extension names |
| FieldPathConflicts.WellFormedNoClash | googlesql/analyzer/conflicting_field_paths_validator.cc:43-75 | plain names and extension names in parentheses never read like a longer path |
| FieldPathConflicts.DottedNameReported | googlesql/analyzer/conflicting_field_paths_validator.cc:43-49 | a field `a.b` and the field `b` of a field `a` have one text and are reported to overlap |
| FieldPathConflicts.SharesIffSameKey | googlesql/analyzer/conflicting_field_paths_validator.cc:50-64 | two paths go through the same oneof at any depth if and only if their outermost oneofs are the same |
| FieldPathConflicts.SharesIffKeyText | googlesql/analyzer/conflicting_field_paths_validator.cc:54-62 | two paths share a oneof if and only if the texts of their outermost oneofs are the same and no name on the way reads like a longer path |
| FieldPathConflicts.ConflictingFieldPathsValidator.Describe | googlesql/analyzer/conflicting_field_paths_validator.cc:40-75 | the loops build the text of the path and of its outermost oneof |
| FieldPathConflicts.ConflictingFieldPathsValidator.RecordOneofConflict | googlesql/analyzer/conflicting_field_paths_validator.cc:83-105 | reports a conflict if and only if an accepted path has an outermost oneof with the same text, and names such a path; without a report no oneof is shared |
| FieldPathConflicts.ConflictingFieldPathsValidator.RecordPathConflict | googlesql/analyzer/conflicting_field_paths_validator.cc:107-146 | reports exactly what the search finds, and names a stored text that overlaps |
| FieldPathConflicts.ConflictingFieldPathsValidator.AddFieldPath | googlesql/analyzer/conflicting_field_paths_validator.cc:37-81 | accepts a path unless a oneof text is shared or the search finds an overlap; no two accepted paths ever go through the same oneof; over a run the accepted texts are free of overlaps if and only if no text was ever hidden, then so are the paths, and the other way round when no name reads like a longer path |
| FieldPathConflicts.DetectedIffOverlap | googlesql/analyzer/conflicting_field_paths_validator.cc:110-129 | whatever the search finds overlaps; among texts free of overlaps it finds exactly the overlaps, except when a prefix is stored and a text inside the new one is too |
| FieldPathConflicts.AntichainStep | googlesql/analyzer/conflicting_field_paths_validator.cc:110-144 | a text that the search lets through keeps the stored texts free of overlaps if and only if they were and none inside it is hidden; a hidden one means that some text is a prefix of another away from a dot |
| FieldPathConflicts.AntichainIff | googlesql/analyzer/conflicting_field_paths_validator.cc:110-144 | paths are free of overlaps when their texts are, and only then if no name reads like a longer path |
| FieldPathConflicts.HiddenOverlapAccepted | googlesql/analyzer/conflicting_field_paths_validator.cc:116-129 | `ab` is accepted after `a` and `ab.c` |
| ColumnCycles.ColumnCycleDetector.VisitNewColumn | googlesql/analyzer/column_cycle_detector.cc:39-47 | succeeds if and only if the column is not being visited and the current column depends on it; a failure of the second kind leaves the column among the visited ones |
| ColumnCycles.ColumnCycleDetector.FinishCurrentColumn | googlesql/analyzer/column_cycle_detector.cc:49-60 | pops the current column; the visited set stays the set of the stack |
| ColumnCycles.ColumnCycleDetector.AddDependencyOn | googlesql/analyzer/column_cycle_detector.cc:62-94 | reports a cycle if and only if a new edge leads to a column being visited, and the reported columns hold a real cycle |
| ColumnCycles.FinishOrder | googlesql/analyzer/column_cycle_detector.cc:49-60 | finishing a column keeps the order topological if and only if it is new and its dependencies are finished |
| ColumnCycles.FinishOrderTopological | googlesql/analyzer/column_cycle_detector.cc:39-94 | after a run without errors the finish order is a topological order of all edges if and only if clients were disciplined, and then there is no cycle |
| ColumnCycles.CycleMissedWithoutDiscipline | googlesql/analyzer/column_cycle_detector.cc:71-94 | a run without discipline and without errors that records a cycle |

## Left out

- Lambda, relation, model, connection, descriptor, sequence and graph arguments of functions, graph element and graph path kinds, and function references.
- The fields of STRUCT types, and graph element, ROW and TABLE types, which no argument may have or contain where measures may not.
- Collation, annotations, type modifiers, literal conversion, and the coercion costs of single types, which are a parameter.
- The check that one function has no two signatures with lambdas, and argument overrides.
- Wording of messages, parse locations, stack-space checks, and logging; overload resolution counts messages only.
- Injected literals of ReorderArgumentExpressionsPerIndexMapping and its TVF arguments: the literals are a parameter of `ReorderExpressions`, and its checks on omitted rows are stated by `CandidateConserves` and `RowsSoundIffGapFree`.
- Untyped empty maps: comments of the source mention them, but no such argument category exists (`input_argument_type.h`, lines 344 to 358).
- ValidateFieldPath with an empty path, which flips the root; callers never pass one.
- Aliasing of trie nodes: nodes are owned by their parents and kept in one map.
- GeneralTrie: modelled as the set of stored texts with its longest-prefix and prefix queries.
- MATCH_RECOGNIZE windows, the contents of window frames, whose checks are a parameter, hints, and references to SELECT-list aliases in window clauses, which the resolver no longer creates.
- Access tracking of resolved nodes: a node with an unexpected non-default field is an error in the code and compares as equal here.
- The comparison of generic function arguments, which the code gives up on before it reaches them.
- AllPathsInExprHaveExpectedPrefixes, parent pointers, and collection of name paths.
- ValidateMeasureExpression and AddGraphProperty: their failures are part of the oracle's answer.
