# Verified model of query identity and answer acceptance

The repository answers business questions in two steps: a planner turns a
question into a query graph, and an answer writer turns result rows into text.
Two decisions carry the weight. *Is this still the same query?* is decided by a
fingerprint over a canonical form of the filter graph and of the plan. *May this
answer be shown?* is decided by number scanners, a contract on metric facts, a
claim verifier and a final gate. This project models both decisions in Dafny,
together with the state reducers and the stream reader that carry results to the
user, and proves what they promise for all inputs.

## How it is organised

| file | what it models |
|---|---|
| `Basics.dfy`, `Text.dfy`, `Ordering.dfy` | options, Python string functions, `sorted` with a key and permutations |
| `Json.dfy` | the JSON text that is hashed and sorted by, and its injectivity |
| `FilterGraph.dfy` | the filter-graph canonicaliser: a class with its shared path set, and its specification |
| `FilterMeaning.dfy` | what equal canonical forms mean: equivalence of filters and of the rows they select |
| `FilterCycles.dfy` | the cycle marker, for walks through group nodes |
| `FilterInvariance.dfy` | renaming of ids, order of nodes, order of children |
| `Dumps.dfy` | reading a plan's JSON dump, and the allow-list projections |
| `QueryFilters.dfy` | the execution contract of a query, its filter graph read from the dump |
| `MetricResolutions.dfy`, `FilterObligations.dfy` | the projections of metric resolutions, at every depth, and of filter obligations |
| `QueryContract.dfy` | the structural contract of a plan, the two fingerprints, and what equal fingerprints mean |
| `NumberScanner.dfy` | the two number scanners |
| `AnswerText.dfy` | calendar-date scrubbing and the tokens of an answer |
| `NumberText.dfy` | printing numbers and reading them back |
| `AnswerContract.dfy` | the contract on metric facts and the fact-only fallback text |
| `MarkdownTable.dfy` | table rows, written and read |
| `ClaimNumbers.dfy`, `ClaimVerifier.dfy` | derived numbers and the claim verifier |
| `ClaimTokens.dfy` | the dates, times and numbers that are extracted from a text |
| `ClaimRules.dfy`, `TrendRules.dfy`, `AnswerRules.dfy` | the rules of the verifier, of the direction check and of the cutting into claims, each spelled out |
| `WholeNumbers.dfy`, `ClaimContexts.dfy`, `ClaimBinding.dfy` | which part of a claim a number is checked in, for the verifier's own scanners |
| `ClaimExamples.dfy` | three answers and what becomes of them |
| `TrendClaims.dfy` | the check of claimed directions against the series of the facts |
| `AnswerSentences.dfy`, `AnswerClaims.dfy` | cutting an answer into sentences and tables, the claims they make, and the verifier on the whole answer |
| `AnswerGate.dfy`, `GateFallback.dfy` | the final gate, and the gate with the fact-only fallback |
| `RowMerge.dfy`, `RowKeys.dfy` | merging result rows of several tasks, and the keys they are matched on |
| `RowConservation.dfy`, `RowFilling.dfy` | what the merge of rows conserves, and what it adds and under which name |
| `TrendSync.dfy` | trend synchrony |
| `KeyNames.dfy`, `StateReducers.dfy` | key spelling, keyed capped lists, state updates |
| `StreamReader.dfy` | the event-stream reader |

Code that updates state in the source is a class or a method here
(`Canonicaliser`, `Row`, `Gate`, the scanners, the mergers); each is proved
against a specification function, and the laws are lemmas about that function.

Conventions: `float` and `Decimal` are `real`; text is `seq<char>`;
JSON numbers are kept as their literals; language policies, pattern scanners
outside the model and other services are function parameters, so the theorems
hold for every choice of them.

## Results that differ from what one would expect

- Merging in increments equals merging in one batch exactly when the distinct ids
  fit under the cap (`StateReducers.IncrementalIffIdsFit`). Beyond that, a dropped
  item that is written again comes back at the end
  (`StateReducers.IncrementalDiffersConcretely` shows it with a cap of 1).
- An update may leave a list over its cap by replacing it, and in no other way once
  the list has been under it (`StateReducers.CapIsBrokenExactly`): replacing
  `runtime_checkpoints` by nine items leaves nine, where the cap is eight
  (`StateReducers.ReplacementBreaksTheCap`).
- A number printed with no decimals loses significant zeros: 100.4 prints as `1`
  (`NumberText.NoDecimalsCounterexample`). It is read back within half a unit
  exactly when its rounded value does not end in 0 (`NumberText.NoDecimalsRoundTrip`).
- A percent form reads back as its value exactly for ratios: a value of size over 1
  is printed unscaled and read back as its hundredth (`NumberText.PercentRoundTrip`).
- A table row is read back exactly when no cell holds a bar, escaped or not
  (`MarkdownTable.RowRoundTrip`): the writer does not escape, and the cell `a|b` comes
  back as two (`MarkdownTable.BarSplitsTheCell`).
- The fact-only fallback is not accepted in every case: it passes exactly when the
  labels and time ranges it prints add no number that is not allowed
  (`AnswerContract.FallbackPasses`). A fact labelled `Top 50` with the value 100 has
  its fallback refused (`AnswerContract.FallbackIsRefused`).
- The claim verifier promises to check a number in the clause that states it
  (`answer_claims.py:1137-1143`), but it cuts clauses and segments at points and
  commas, so that 200.5 is stated in none. Such a number is checked against the whole
  claim, where the label of any clause vouches for it. With gmv = 100.5 and
  refund = 200.5, the answer `GMV 200.5；refund 100.5` passes
  (`ClaimExamples.SwappedDecimalsPass`); the same swap of whole numbers is refused
  (`ClaimExamples.SwappedWholeNumbersFail`). A number gets a clause exactly when it is
  close to the whole value of some digit run of the text (`ClaimBinding.ContextIsByValue`).
- A date or time needs no label at all: any fact at the same time vouches for it
  (`ClaimBinding.DateNeedsNoLabel`).
- A number that a comma joins to the day of a date is lost, because the number
  scanner reads both as one number and that number touches the date: of
  `2024-01-01,500` only the date is extracted (`ClaimExamples.FiveHundredIsLost`).
- A claim is not always what its sentence says. A decimal number at the start of a
  sentence is taken for a list number, and a minus sign for a bullet: `3.5% GMV` and
  `-5% GMV` are both checked as `5% GMV` (`AnswerSentences.DecimalIsTakenForListNumber`,
  `AnswerSentences.MinusIsTakenForBullet`). Digits are lost exactly with a list number
  that holds some (`AnswerSentences.DigitsAreLostExactly`).
- One negated phrase anywhere in a claim switches the check of directions off for all
  its clauses (`TrendClaims.TrendIsSupportedExactly`).
- Two columns of two tasks may be read as one series when a task id holds a colon
  (`TrendRules.ColonJoinsSeries`), and only then (`TrendRules.SeriesTellApart`).
- The final gate may return a text that has been rejected in one case only: when
  that text is the fixed safe text (`AnswerGate.OnlyCheckedTextIsReturned`).
- Merged rows need not hold a column under its own name: the alias of an earlier
  conflict may have taken it (`RowFilling.AliasTakesTheName`). A column that the row
  lacks stands under its name after a match when no such alias does
  (`RowFilling.MissingColumnIsFilled`).
- `snake_case_key` undoes `to_camel` exactly on lower-snake names whose later
  segments start with a letter (`KeyNames.SnakeAfterCamel`).
- Digits directly behind an ASCII letter or underscore are not found by either
  number scanner, and these are the only ones (`NumberScanner.DigitsFound`).

## Model

| member | source | states |
|---|---|---|
| Text.SpaceCharacters | python_backend/merchant_ai/services/answer_claims.py:357-363 | Blank are the twenty-nine characters that `str.isspace` accepts. |
| Text.CharacterClasses | python_backend/merchant_ai/services/answer_claims.py:200-231 | Word characters are ASCII letters, digits and the underscore; signs are plus and minus, date separators dash and slash. |
| Json.EncodeIsInjective | python_backend/merchant_ai/graph/query_graph_contract.py:401-402 | No two JSON values share the text that is sorted by and hashed, so a sort key or fingerprint input determines its payload. |
| Json.WriteIsPrefixFree | python_backend/merchant_ai/graph/query_graph_contract.py:454-455 | Two values followed by any delimited rest have the same text only if values and rests are the same. |
| Ordering.SortForgetsOrder | python_backend/merchant_ai/graph/query_graph_contract.py:220-226 | Sorting under an injective key gives equal lists exactly for rearrangements of the same items. |
| Ordering.StringLeExactly | python_backend/merchant_ai/graph/query_graph_contract.py:220-226 | Strings are in order by the code points where they differ first, and a string stands behind its beginnings. |
| FilterGraph.KeyIsInjective | python_backend/merchant_ai/graph/query_graph_contract.py:401-402 | Two canonical expressions with the same sort key are the same expression. |
| FilterGraph.CanonicalUnorderedValues | python_backend/merchant_ai/graph/query_graph_contract.py:445-451 | The dictionary loop returns the distinct values in the order of their encodings. |
| FilterGraph.CanonicalValuesAreSets | python_backend/merchant_ai/graph/query_graph_contract.py:445-451 | Canonical value lists are equal exactly for lists with the same elements. |
| FilterGraph.CanonicalValuesListElementsOnce | python_backend/merchant_ai/graph/query_graph_contract.py:445-451 | The canonical list has the same elements, each once, sorted, and canonicalising it again changes nothing. |
| FilterGraph.Canonicaliser.Visit | python_backend/merchant_ai/graph/query_graph_contract.py:345-390 | Terminates on every graph, cyclic ones included, leaves the path set as it found it, and returns the specified expression. |
| FilterGraph.Canonicaliser.VisitEach | python_backend/merchant_ai/graph/query_graph_contract.py:391-398 | The root-less case visits every known id and leaves the path set as it found it. |
| FilterGraph.BuildIndex | python_backend/merchant_ai/graph/query_graph_contract.py:336-341 | Nodes without an id are skipped and the first node of an id wins, in order of arrival. |
| FilterInvariance.FirstNodeWins | python_backend/merchant_ai/graph/query_graph_contract.py:337-341 | Of several nodes with the same id the first is indexed, and nodes without an id are not. |
| FilterInvariance.ChildrenInOrder | python_backend/merchant_ai/graph/query_graph_contract.py:386 | The children of a group are visited in the order in which they are listed, blank ids passed over. |
| FilterGraph.CanonicalFilterExpression | python_backend/merchant_ai/graph/query_graph_contract.py:330-398 | The whole canonicaliser, object and path set included, computes the specified canonical form. |
| FilterMeaning.VisitIsCanonOfUnfold | python_backend/merchant_ai/graph/query_graph_contract.py:343-390 | The walk equals unfolding the graph into a tree and then normalising the tree. |
| FilterMeaning.CanonIdentifies | python_backend/merchant_ai/graph/query_graph_contract.py:343-390 | Two expressions have the same normal form exactly when they are equal up to the order of and/or operands and the listing of in/not_in values, at every depth. |
| FilterMeaning.OperandOrderCounts | python_backend/merchant_ai/graph/query_graph_contract.py:383-390 | Two operands that are not the same filter may change places in an `and` and in an `or`, and in no other group. |
| FilterMeaning.OtherOperatorsKeepOrder | python_backend/merchant_ai/graph/query_graph_contract.py:383-390 | Under any other operator two groups have the same normal form exactly when they have as many operands and these are equivalent one by one. |
| FilterMeaning.ValueOrderCounts | python_backend/merchant_ai/graph/query_graph_contract.py:356-363 | Two different values may change places behind `in` and `not_in` and nowhere else, and only there does a repeated value count once. |
| FilterMeaning.NodeForms | python_backend/merchant_ai/graph/query_graph_contract.py:345-390 | An id on the path gives `cycle`, one that is not indexed `unknown_child`; a node without a type is a predicate, the type is read in any case, and any other type gives `node_type`. |
| FilterMeaning.PredicateFormIsExact | python_backend/merchant_ai/graph/query_graph_contract.py:352-380 | Two predicate nodes have the same form exactly when operator and values agree and, with bindings, the reference, the bound column, its kind and type and the resolved values. |
| FilterMeaning.ContractIdentifiesFilter | python_backend/merchant_ai/graph/query_graph_contract.py:330-398 | Two filter graphs have the same canonical form exactly when both have a root and their unfoldings are equivalent, or neither has one and the conjunctions of all their nodes are. |
| FilterMeaning.CanonIsIdempotent | python_backend/merchant_ai/graph/query_graph_contract.py:343-390 | Normalising a normal form changes nothing. |
| FilterMeaning.CanonIsEquivalent | python_backend/merchant_ai/graph/query_graph_contract.py:343-390 | The normal form is equivalent to the expression it came from. |
| FilterMeaning.EquivalentSelectSameRows | python_backend/merchant_ai/graph/query_graph_contract.py:343-390 | Equivalent expressions select the same rows, for every predicate semantics that treats in/not_in values as a set. |
| FilterMeaning.CanonicalFormKeepsMeaning | python_backend/merchant_ai/graph/query_graph_contract.py:330-398 | For every acyclic graph and every row, the canonical tree has the truth value that the node graph has. |
| FilterMeaning.SameFormSelectsSameRows | python_backend/merchant_ai/graph/query_graph_contract.py:176-186 | Two acyclic graphs with equal canonical forms select the same rows. |
| FilterCycles.MarkHasLasso | python_backend/merchant_ai/graph/query_graph_contract.py:346-347 | A cycle marker in the result comes with a walk through group nodes that returns to itself or to the current path. |
| FilterCycles.CycleMarkerIsExact | python_backend/merchant_ai/graph/query_graph_contract.py:343-390 | The marker appears exactly when a cycle through group nodes is reachable from the start node. |
| FilterCycles.UnmarkedForgetsPath | python_backend/merchant_ai/graph/query_graph_contract.py:343-390 | A node that is not flagged expands to the same expression wherever it is met, so a shared child is expanded and never flagged. |
| FilterCycles.AcyclicIffUnmarked | python_backend/merchant_ai/graph/query_graph_contract.py:343-390 | A graph can be ranked, that is, has no cycle, exactly when no node is ever flagged. |
| FilterInvariance.RootlessVisitOrder | python_backend/merchant_ai/graph/query_graph_contract.py:391-398 | Without a root, visiting the ids in any order gives the same sorted list. |
| FilterInvariance.RenamingChangesNothing | python_backend/merchant_ai/graph/query_graph_contract.py:330-398 | An injective renaming of node ids, children and root alike, leaves the canonical form as it is, with and without a root. |
| FilterInvariance.NodeOrderChangesNothing | python_backend/merchant_ai/graph/query_graph_contract.py:336-398 | Any permutation of a node list with distinct ids leaves the canonical form as it is. |
| FilterInvariance.ChildOrderChangesNothing | python_backend/merchant_ai/graph/query_graph_contract.py:365-390 | Permuting the children of any and/or groups, at any depth and at once, leaves the canonical form as it is. |
| FilterInvariance.SwappedOperands | python_backend/merchant_ai/graph/query_graph_contract.py:330-398 | Listing the two operands of a root group the other way round leaves the canonical form as it is exactly when the group is an `and` or an `or`, in whatever case, or both operands are the same filter. |
| FilterObligations.ProjectIsExact | python_backend/merchant_ai/graph/query_graph_contract.py:268-289 | Two obligations project alike exactly when they agree on the allow-list, the values of in/not_in as sets: prose, ids and off-list entries do not count, everything else does. |
| FilterObligations.ObligationContractIsExact | python_backend/merchant_ai/graph/query_graph_contract.py:220-226 | The contract sees obligations as an unordered collection of demands: equal exactly when a permutation pairs equal demands. |
| Dumps.DictIsInjective | python_backend/merchant_ai/graph/query_graph_contract.py:454-455 | Two dictionaries are written alike, keys in order, exactly when they are the same. |
| Dumps.ProjectFieldsIsExact | python_backend/merchant_ai/graph/query_graph_contract.py:483-485 | Two field projections are equal exactly when the sources agree on every listed field, an absent one counting as null. |
| Dumps.PartialProjectionIsExact | python_backend/merchant_ai/graph/query_graph_contract.py:469-480 | Two alias projections are equal exactly when under every canonical name both hold the same value or both hold nothing. |
| Dumps.GetOfDict | python_backend/merchant_ai/graph/query_graph_contract.py:483-485 | Of a dictionary, what stands under a name is read, and null where nothing does. |
| Dumps.FirstAliasWins | python_backend/merchant_ai/graph/query_graph_contract.py:474-480 | The first alias that the dictionary has decides, whatever stands under the later ones. |
| Dumps.ItemsAreRead | python_backend/merchant_ai/graph/query_graph_contract.py:246-250 | A list is read as its items and anything else as none; of these the dictionaries are kept, in order. |
| Dumps.FalseExactly | python_backend/merchant_ai/graph/query_graph_contract.py:351-355 | Counted as missing are exactly null, `False`, a number with a zero mantissa, and what is empty. |
| Dumps.TextForms | python_backend/merchant_ai/graph/query_graph_contract.py:339-353 | As a text, a string is read as it is, what is false as the empty text, and other scalars as Python prints them. |
| Dumps.OnlyDictionariesHold | python_backend/merchant_ai/graph/query_graph_contract.py:483-485 | Only a dictionary has entries, and it has one under a name exactly when one of its fields bears it. |
| QueryFilters.QueryContractIsExact | python_backend/merchant_ai/graph/query_graph_contract.py:292-314 | Two queries have the same execution contract exactly when result mode and limit are equal and their filter graphs, read under either spelling, are the same filter. |
| QueryFilters.LedgerContractIsExact | python_backend/merchant_ai/graph/query_graph_contract.py:317-327 | Two condition ledgers project alike exactly when auditor status and question hash are equal and their condition graphs are the same filter. |
| QueryFilters.NodeIsRead | python_backend/merchant_ai/graph/query_graph_contract.py:351-384 | A node written under its twelve names, in camel or in snake spelling, is read back as it was. |
| QueryFilters.GraphIsRead | python_backend/merchant_ai/graph/query_graph_contract.py:309-326 | The nodes and the root of a query, and those of a condition ledger, are what stands under their camel names or else their snake names. |
| QueryFilters.IteratedForms | python_backend/merchant_ai/graph/query_graph_contract.py:384-386 | Children are taken from the items of a list, the characters of a text or the keys of a dictionary, as Python iterates. |
| QueryFilters.RewritingKeepsFilter | python_backend/merchant_ai/graph/query_graph_contract.py:330-398 | Renaming nodes, listing nodes in another order and reordering the children of and/or groups each leave the filter of a dumped graph what it was. |
| QueryFilters.RewritingsKeepFilter | python_backend/merchant_ai/graph/query_graph_contract.py:330-398 | So does any number of these rewritings, one after the other. |
| QueryFilters.SameQuerySelectsSameRows | python_backend/merchant_ai/graph/query_graph_contract.py:292-314 | Rooted acyclic queries with equal execution contracts select the same rows. |
| MetricResolutions.ResolutionContractIsExact | python_backend/merchant_ai/graph/query_graph_contract.py:458-466 | Two metric resolutions project alike exactly when they agree on the first alias of every contract name, and so do their component metrics, pairwise and at every depth. |
| MetricResolutions.ComponentsAreRead | python_backend/merchant_ai/graph/query_graph_contract.py:461-465 | The component metrics are the dictionaries of the list under the camel name or else the snake name. |
| QueryContract.IntentIsExact | python_backend/merchant_ai/graph/query_graph_contract.py:231-251 | For any allow-lists, two intents project alike exactly when they agree on every listed entry, on their entity reference, time range, metric resolution and knowledge references, and their queries ask for the same. |
| QueryContract.EntityObligationIsExact | python_backend/merchant_ai/graph/query_graph_contract.py:254-265 | Two entity obligations project alike exactly when they agree on every listed entry and on their reference. |
| QueryContract.UnderstandingIsExact | python_backend/merchant_ai/graph/query_graph_contract.py:199-209 | Two question understandings project alike exactly when under every name of the table they hold the same, their query and their condition ledger compared as filters. |
| QueryContract.StructureIsExact | python_backend/merchant_ai/graph/query_graph_contract.py:176-228 | Two plan dumps have the same structure fingerprint text exactly when they agree on eight entries, each named in the statement together with every field let through below it: as many intents that agree one by one, filters up to equivalence, semantic obligations up to order, metric resolutions at every depth. Nothing else of a dump counts. |
| QueryContract.IntentListCounts | python_backend/merchant_ai/graph/query_graph_contract.py:211 | A plan that lists other intents has another text, unless the lists are of the same length and agree intent by intent. |
| QueryContract.OneEntryChanged | python_backend/merchant_ai/graph/query_graph_contract.py:19-40 | An intent with another value under one name outside its five parts differs from it exactly when the name is one of the twenty listed ones and the value is not what stood there. |
| QueryContract.RewritingKeepsStructure | python_backend/merchant_ai/graph/query_graph_contract.py:176-228 | Rewriting the filter graphs any number of times, reordering the semantic filter obligations, listing their value sets otherwise, and changing off-list fields, anywhere in a plan, leave the structure fingerprint text as it is. |
| QueryContract.SameStructureSelectsSameRows | python_backend/merchant_ai/graph/query_graph_contract.py:176-186 | Plans with the same structure fingerprint text have as many intents, and the rooted acyclic queries of every two of them select the same rows. |
| QueryContract.FullDecidesStructure | python_backend/merchant_ai/graph/query_graph_contract.py:163-228 | Plans with the same full fingerprint text have the same structure fingerprint text: no field excluded from the first is read by the second. |
| QueryContract.FullIsExact | python_backend/merchant_ai/graph/query_graph_contract.py:163-173 | Two plan dictionaries have the same full fingerprint text exactly when they hold the same under every name but the seven excluded ones. |
| NumberScanner.AsciiDigitEnd | python_backend/merchant_ai/services/answer_claims.py:68-83 | Returns the end of the digit run, cut at the maximum, or -1 when the run is shorter than the minimum. |
| NumberScanner.NumberMatches | python_backend/merchant_ai/services/answer_claims.py:200-231 | The cursor loop returns the specified spans: in bounds, ordered and disjoint. |
| NumberScanner.AnswerNumberTokens | python_backend/merchant_ai/services/answer.py:3217-3242 | The second, independently written loop returns the tokens of the same specification. |
| NumberScanner.BothScanners | python_backend/merchant_ai/services/answer.py:3217-3242 | The two scanners return the same tokens on every text: token i of one is the text under span i of the other. |
| NumberScanner.DigitsFound | python_backend/merchant_ai/services/answer_claims.py:200-231 | A digit lies in a span exactly when its digit run does not follow an ASCII letter or underscore, and then in only one. |
| NumberScanner.RunsFoundWhole | python_backend/merchant_ai/services/answer_claims.py:200-231 | Every maximal digit run lies wholly inside exactly one span, unless the character before it is an ASCII letter or underscore. |
| NumberScanner.TokensAreNumerals | python_backend/merchant_ai/services/answer_claims.py:200-231 | Every token is a numeral that fills its own scan. |
| NumberScanner.NumeralIsOneToken | python_backend/merchant_ai/services/answer_claims.py:200-231 | Scanning a numeral gives that numeral as its one token. |
| NumberScanner.TokensDistribute | python_backend/merchant_ai/services/answer.py:3217-3242 | The tokens of two texts around a neutral separator are the tokens of the one followed by those of the other. |
| NumberScanner.NumberExactly | python_backend/merchant_ai/services/answer_claims.py:200-231 | A number reaches over its digits and commas, a point with digits behind it and a percent sign, and no further. |
| AnswerText.FindDate | python_backend/merchant_ai/services/answer.py:3245-3272 | Decides whether a calendar date starts at the cursor, and where it ends. |
| AnswerText.ScrubAnswerCalendarDates | python_backend/merchant_ai/services/answer.py:3245-3272 | The in-place loop over the character list blanks exactly the dates and keeps every other character and the length. |
| AnswerText.OnlyDatesAreBlanked | python_backend/merchant_ai/services/answer.py:3245-3272 | A character outside every date is kept. |
| AnswerText.DateIsBlanked | python_backend/merchant_ai/services/answer.py:3245-3272 | A date that no earlier date reaches into is blanked from end to end. |
| AnswerText.ScrubDistributes | python_backend/merchant_ai/services/answer.py:3245-3272 | No date forms across a neutral separator: scrubbing distributes over it. |
| AnswerText.AnswerTokensDistribute | python_backend/merchant_ai/services/answer.py:3217-3272 | The numbers of an answer distribute over neutral separators, date scrubbing included. |
| AnswerText.StripKeepsTokens | python_backend/merchant_ai/services/answer.py:3217-3272 | White space around a text adds and removes no number. |
| AnswerText.DateExactly | python_backend/merchant_ai/services/answer.py:3243-3272 | A date is four digits, one or two and one or two, with a dash or a slash between them; nothing else is blanked. |
| NumberText.PrintReadRoundTrip | python_backend/merchant_ai/services/answer_formatting.py:53-57 | With at least one decimal, printing and reading back is within half a unit in the last place, trailing zeros stripped. |
| NumberText.PercentRoundTrip | python_backend/merchant_ai/services/answer_formatting.py:41-43 | The percent form reads back within half a unit in its last place exactly when the value is of size at most 1; any other value reads back as its hundredth. |
| NumberText.PrintedValueIsClose | python_backend/merchant_ai/services/answer.py:3275-3291 | With two or more decimals the value read back is always close to the one printed. |
| NumberText.NoDecimalsCounterexample | python_backend/merchant_ai/services/answer_formatting.py:53-57 | With no decimals 100.4 prints as `1` and reads back as 1. |
| NumberText.NoDecimalsRoundTrip | python_backend/merchant_ai/services/answer_formatting.py:53-57 | With no decimals a fractional value reads back within half a unit exactly when its rounded value does not end in 0. |
| NumberText.PrintedIsOneToken | python_backend/merchant_ai/services/answer.py:3217-3272 | A printed number is found in a text as one token, itself. |
| NumberText.RoundsExactly | python_backend/merchant_ai/services/answer_formatting.py:22-70 | A printed value is rounded to the nearest and, of two that are as near, to the even one. |
| NumberText.ReadsUnsigned | python_backend/merchant_ai/services/answer.py:3275-3287 | Digits are read as a whole number and, with one point before, among or behind them, as a decimal; a point alone is not read. |
| AnswerContract.UnsupportedAnswerNumbers | python_backend/merchant_ai/services/answer.py:3136-3152 | Reports exactly the numbers that are neither close to an allowed one nor small plain integers, each once. |
| AnswerContract.ReportedExactly | python_backend/merchant_ai/services/answer.py:3136-3205 | A token is reported exactly when it reads as a number far from every allowed one and is a percentage, is written with a point, or is of size ten or more. |
| AnswerContract.AllowedExactly | python_backend/merchant_ai/services/answer.py:3136-3205 | A number is allowed exactly when it is given from elsewhere, or some fact holds it, or prints it in one of its formatted values. |
| AnswerContract.VerifiedMetricFactsFallback | python_backend/merchant_ai/services/answer.py:3086-3108 | The loop with its seen set prints every combination of label, time range and value once, in order. |
| AnswerContract.TextOfOne | python_backend/merchant_ai/services/answer.py:3086-3108 | The first fact with a value stands below the fixed heading, on a line with its time range, its name and its value; without a value there is no text. |
| AnswerContract.TextOfOneMore | python_backend/merchant_ai/services/answer.py:3086-3108 | A further fact adds its line at the end, unless it has no value or a fact that prints the same has gone before. |
| AnswerContract.TokensOfFallback | python_backend/merchant_ai/services/answer.py:3086-3108 | The numbers in the fallback text are those of its time ranges, labels and values, in order; none forms across a separator. |
| AnswerContract.FactIsFound | python_backend/merchant_ai/services/answer.py:3111-3119 | Every fact with a formatted value is found in the fallback text. |
| AnswerContract.FactFoundExactly | python_backend/merchant_ai/services/answer.py:3111-3119 | An answer holds a fact exactly when it shows a number near to the value, or spells the formatted or the plain value, both normalised. |
| AnswerContract.KeptExactly | python_backend/merchant_ai/services/answer.py:3294-3301 | Blanks, commas of both widths, the currency character and the percent sign do not count when values are spelled. |
| AnswerContract.FallbackPasses | python_backend/merchant_ai/services/answer.py:3030-3108 | The fallback passes the contract exactly when the printed labels and time ranges add no number that is not allowed. |
| AnswerContract.FallbackPassesWithin | python_backend/merchant_ai/services/answer.py:3030-3108 | Between other lines, before and behind, the fallback passes exactly when it passes alone and those lines add no number that is not allowed. |
| AnswerContract.FallbackIsRefused | python_backend/merchant_ai/services/answer.py:3030-3108 | The fallback text of one fact, labelled `Top 50` with the value 100, does not pass. |
| AnswerContract.NumberIsFoundAgain | python_backend/merchant_ai/services/answer.py:3111-3119 | A value printed with two or more decimals is a token of the fallback text, and its reading is close to the fact. |
| MarkdownTable.SplitUnescapedPipes | python_backend/merchant_ai/services/answer_claims.py:331-346 | The loop with its escape flag splits at exactly the bars that no pending backslash escapes. |
| MarkdownTable.PipesRejoin | python_backend/merchant_ai/services/answer_claims.py:331-346 | Joining the pieces with bars gives every string back. |
| MarkdownTable.CellsOfRow | python_backend/merchant_ai/services/answer_claims.py:636-647 | Reading a written row yields the pieces of its padded cells, unescaped and stripped. |
| MarkdownTable.RowRoundTrip | python_backend/merchant_ai/services/answer.py:4468-4492 | A written row of trimmed cells is read back as those cells exactly when no cell holds a bar. |
| MarkdownTable.BarSplitsTheCell | python_backend/merchant_ai/services/answer.py:4468-4492 | The single cell `a&#124;b` is read back as the two cells `a` and `b`. |
| MarkdownTable.DividerIsSeparator | python_backend/merchant_ai/services/answer_claims.py:650-653 | The divider of a written table is recognised as a separator row, with one cell per column. |
| MarkdownTable.DataRowIsNoSeparator | python_backend/merchant_ai/services/answer_claims.py:322-328 | A written row with any character but dashes and colons in a cell is not taken for a divider. |
| AnswerRules.CellsExactly | python_backend/merchant_ai/services/answer_claims.py:636-647 | A line is a row of cells exactly when it starts with a bar and holds another. |
| AnswerRules.OpenRow | python_backend/merchant_ai/services/answer_claims.py:636-647 | A row whose last bar is missing is read as with it. |
| AnswerRules.DividerExactly | python_backend/merchant_ai/services/answer_claims.py:322-328 | A divider is three dashes or more, with a colon before or behind them or not. |
| ClaimNumbers.SupportedNumbers | python_backend/merchant_ai/services/answer_claims.py:972-1032 | Every number in the list is derivable from the rows of one column of one task, every derivable number is in it, and none twice. |
| ClaimNumbers.GroupFacts | python_backend/merchant_ai/services/answer_claims.py:973-978 | The dictionary holds, under each task and column, exactly the facts with numbers, in order. |
| ClaimNumbers.GroupExactly | python_backend/merchant_ai/services/answer_claims.py:973-978 | A group holds exactly the facts with a value of its task and column, in the order of the facts. |
| ClaimNumbers.GroupNumbers | python_backend/merchant_ai/services/answer_claims.py:980-1031 | The numbers of a group are exactly its window difference and rate, its published total, and the differences and rates of its neighbours. |
| ClaimNumbers.DedupeDerivedNumbers | python_backend/merchant_ai/services/answer_claims.py:1723-1734 | Keeps one of each kind, number and label list, and drops nothing else. |
| ClaimNumbers.DifferencesAddUp | python_backend/merchant_ai/services/answer_claims.py:987-1024 | The supported numbers hold, for every group, differences from each value to the next that add up to a window difference in the list, which leads from the first value to the last. |
| ClaimNumbers.RateLeadsToLast | python_backend/merchant_ai/services/answer_claims.py:995-1003 | Unless the first value of a group is zero, the supported numbers hold a window rate that leads from the first value to the last. |
| ClaimNumbers.TotalAddsUp | python_backend/merchant_ai/services/answer_claims.py:1005-1016 | The total of nothing is zero, of one fact its value, and of two lists the sum of their totals. |
| ClaimNumbers.TotalIsDerivableExactly | python_backend/merchant_ai/services/answer_claims.py:1005-1016 | A period total is derivable exactly of two facts or more, of which some have the policy `period_rollup` and all others none. |
| ClaimNumbers.WindowDeltaExactly | python_backend/merchant_ai/services/answer_claims.py:980-1003 | A window difference is exactly the last value minus the first, or its size. |
| ClaimNumbers.WindowRateExactly | python_backend/merchant_ai/services/answer_claims.py:980-1003 | A window rate is exactly the percentage of the first value, which is not zero, that leads to the last, or its size. |
| ClaimNumbers.NeighboursExactly | python_backend/merchant_ai/services/answer_claims.py:1017-1031 | Differences and rates between neighbours are exactly those from each value to the next. |
| ClaimNumbers.ClosenessExactly | python_backend/merchant_ai/services/answer_claims.py:1578-1580 | Two numbers are close exactly when they differ by at most 0.005 or by at most a millionth of the second. |
| ClaimNumbers.LabelsExactly | python_backend/merchant_ai/services/answer_claims.py:1126-1133 | The labels of a fact are exactly its label, its aliases and its column, normalised, blank ones apart. |
| ClaimNumbers.NormalLabelIsPlain | python_backend/merchant_ai/services/answer_claims.py:357-363 | A normalised label holds exactly the lowered characters that are no blank and none of nine marks. |
| ClaimVerifier.SplitOnCharacters | python_backend/merchant_ai/services/text_parsing.py:95-106 | The loop returns the specified pieces. |
| ClaimVerifier.PiecesKeepTheRest | python_backend/merchant_ai/services/text_parsing.py:95-106 | Splitting drops the separators and nothing else. |
| ClaimVerifier.ClausesHoldNoSeparator | python_backend/merchant_ai/services/answer_claims.py:349-354 | No clause holds a character it was split at. |
| ClaimVerifier.ClaimContextsForValue | python_backend/merchant_ai/services/answer_claims.py:1136-1163 | The contexts are exactly the clauses of the claim, each cut off after a segment that states the number. |
| ClaimVerifier.ContextIsOneClause | python_backend/merchant_ai/services/answer_claims.py:1136-1163 | A context, for a number that has one, holds no clause end: a label of another clause is not seen in it. |
| ClaimVerifier.FactIdsForValue | python_backend/merchant_ai/services/answer_claims.py:1078-1123 | Returns exactly the ids of the facts that back the number in the context. |
| ClaimVerifier.SupportedDerivedNumericToken | python_backend/merchant_ai/services/answer_claims.py:1350-1366 | Returns exactly the facts behind the listed numbers that back the token, only period totals when the clause asserts a value outright. |
| ClaimVerifier.DerivedNamesFacts | python_backend/merchant_ai/services/answer_claims.py:972-1032 | A derived number names at least one fact, and only facts that exist. |
| ClaimVerifier.SupportForValue | python_backend/merchant_ai/services/answer_claims.py:804-822 | A number is supported exactly when every context of it, or the whole claim when it has none, is backed by a fact, the question or a derivable number. |
| ClaimVerifier.SupportForClaim | python_backend/merchant_ai/services/answer_claims.py:790-832 | The reasons are exactly the trend failure and the numbers and entities that are not justified, and the ids returned are ids of facts when those of the trend check are. |
| ClaimVerifier.Verify | python_backend/merchant_ai/services/answer_claims.py:427-469 | For any list of claims, the answer passes exactly when every claim is justified; each claim is reported once, in order, with exactly the reasons against it, and the unsupported ones again. |
| ClaimVerifier.DirectValueIsNamed | python_backend/merchant_ai/services/answer_claims.py:1078-1123 | A context, be it the whole claim or part of a clause, that asserts a number outright backs it exactly when it holds the label of a fact with that value, or of a column with that published total, or when the question states the number. |
| ClaimRules.ValueExactly | python_backend/merchant_ai/services/answer_claims.py:1078-1108 | A fact has the value that is written exactly when it is near to it or, written in percent, when the hundredfold of a value between -1 and 1 is. |
| ClaimRules.NamedExactly | python_backend/merchant_ai/services/answer_claims.py:1111-1187 | A fact may vouch in a text with one of its labels; without one, exactly when no direct value is claimed, no other fact has the value, and the text holds no label and no column of another name. |
| ClaimRules.FactExactly | python_backend/merchant_ai/services/answer_claims.py:1078-1108 | A date or time is vouched for by the time of a fact, a number by the value and a name. |
| ClaimRules.QuestionExactly | python_backend/merchant_ai/services/answer_claims.py:1193-1208 | The question vouches for a date that it and the text name, and for a number that it names and that only gives context in the text. |
| ClaimRules.DerivedExactly | python_backend/merchant_ai/services/answer_claims.py:1350-1366 | A derived number vouches for a number near to it below one of its labels; for a direct value only a total does. |
| ClaimRules.SameNumberExactly | python_backend/merchant_ai/services/answer_claims.py:1166-1171 | Dates and times are the same when they mean the same time, numbers when they are near. |
| ClaimRules.EntityExactly | python_backend/merchant_ai/services/answer_claims.py:823-830 | An entity is accepted exactly when it is known or the value of a fact, whatever its case and the blanks around it. |
| ClaimRules.ContextGrows | python_backend/merchant_ai/services/answer_claims.py:1136-1163 | A number is checked in its segment and all segments of the clause before it, a comma between any two. |
| ClaimRules.CutCharacters | python_backend/merchant_ai/services/answer_claims.py:1136-1163 | A claim is cut at nine characters and a clause at two. |
| ClaimTokens.ExtractNumericTokens | python_backend/merchant_ai/services/answer_claims.py:698-722 | Extracts the times, the dates apart from them, and the numbers that touch neither and are in no formula, by position, each once. |
| ClaimTokens.DateMatches | python_backend/merchant_ai/services/answer_claims.py:112-120 | The cursor loop finds the specified dates, leftmost first. |
| ClaimTokens.DateTimeMatches | python_backend/merchant_ai/services/answer_claims.py:123-197 | The loop finds the dates that a well-formed time follows, each with its time and zone. |
| ClaimRules.TimeExactly | python_backend/merchant_ai/services/answer_claims.py:123-197 | A time is a blank or a T, one or two digits, a colon and two digits, seconds with up to six decimals or none, and a zone or none, with no digit behind it. |
| ClaimRules.OverlapExactly | python_backend/merchant_ai/services/answer_claims.py:775-776 | A number is left out for a date or time exactly when it shares a character with it. |
| ClaimRules.TemporalExactly | python_backend/merchant_ai/services/answer_claims.py:698-722 | Dates with a time count as such, and dates that share no character with one as dates. |
| ClaimRules.TokensExactly | python_backend/merchant_ai/services/answer_claims.py:698-722 | The tokens of a text are its dates, times and numbers in the order in which they start, each once. |
| ClaimTokens.DigitsExtracted | python_backend/merchant_ai/services/answer_claims.py:698-722 | A digit is extracted exactly when it lies in a date or time, or its run follows no ASCII letter or underscore and the number around it touches no date or time and no formula. |
| WholeNumbers.TokensAreRuns | python_backend/merchant_ai/services/answer_claims.py:200-231 | In a text without points and commas the tokens are exactly the digit runs that follow no ASCII letter or underscore, each with its sign and percent sign. |
| ClaimContexts.ContextExistsExactly | python_backend/merchant_ai/services/answer_claims.py:1136-1163 | A number gets a clause to be checked in exactly when some segment of the claim holds such a run, or a date, that is the same number and touches no date, time or formula of the segment. |
| ClaimContexts.RunGivesContext | python_backend/merchant_ai/services/answer_claims.py:1136-1163 | Read off the whole text, when it holds no date or formula: a number gets a clause exactly when some free digit run of the text is the same number. |
| ClaimContexts.WholeNumberHasContext | python_backend/merchant_ai/services/answer_claims.py:1136-1163 | A number of such a text without point and comma always gets a clause. |
| ClaimBinding.ContextIsByValue | python_backend/merchant_ai/services/answer_claims.py:1136-1171 | With the verifier's own scanners, a number of such a text, with or without point and comma, gets a clause exactly when it is within the tolerance of the value of some free digit run. |
| ClaimBinding.NumberIsBound | python_backend/merchant_ai/services/answer_claims.py:804-822 | When some segment states the number, it is supported exactly when it is bound in each clause that states it, up to that segment, by name where the clause asserts it outright; when none does, exactly when it is bound in the whole claim. |
| ClaimBinding.DateIsNoNumber | python_backend/merchant_ai/services/answer_claims.py:1583-1588 | A date or time is read as no number, so that only the rules for dates apply to it. |
| ClaimBinding.DateNeedsNoLabel | python_backend/merchant_ai/services/answer_claims.py:1078-1093 | A date or time is supported exactly when some fact, under whatever label, has the same normalised time, or it is a date that the question and every context hold. |
| ClaimExamples.LabelOfAnyClause | python_backend/merchant_ai/services/answer_claims.py:804-806 | A number close to no digit run of its claim is supported by every fact with its value whose label occurs anywhere in the claim. |
| ClaimExamples.SwappedDecimalsPass | python_backend/merchant_ai/services/answer_claims.py:1136-1163 | With gmv = 100.5 and refund = 200.5 the claim `GMV 200.5；refund 100.5` yields its two numbers and is justified, whatever the language policy and the question. |
| ClaimExamples.SwappedWholeNumbersFail | python_backend/merchant_ai/services/answer_claims.py:1136-1163 | With gmv = 100 and refund = 200 the 200 of `GMV 200；refund 100` is not justified unless the question states it. |
| ClaimExamples.TotalNeedsPolicy | python_backend/merchant_ai/services/answer_claims.py:1005-1016 | Over two days of 100 and 200, the direct claim `GMV 300` is justified exactly when the policy of the facts is `period_rollup`: with no policy the total is refused. |
| ClaimExamples.NumberBehindDateIsLost | python_backend/merchant_ai/services/answer_claims.py:698-722 | Of a date, a comma and three digits only the date is extracted; no digit behind the comma is. |
| ClaimExamples.FiveHundredIsLost | python_backend/merchant_ai/services/answer_claims.py:698-722 | `2024-01-01,500` yields `2024-01-01` and nothing else. |
| TrendClaims.TrendFactGroups | python_backend/merchant_ai/services/answer_claims.py:870-918 | The loops over rows and readings yield, for each task and column with two number facts or more, its readings in order of date and row. |
| TrendClaims.TrendDirectionSupport | python_backend/merchant_ai/services/answer_claims.py:835-867 | The loop over clauses and series, with its early ends, computes the specified verdict and ids. |
| TrendClaims.InTimeSorts | python_backend/merchant_ai/services/answer_claims.py:892-893 | The readings of a series are arranged by date and row, none lost and none added. |
| TrendClaims.SeriesIsExact | python_backend/merchant_ai/services/answer_claims.py:870-918 | A series reads exactly the number facts of one task and column, and at least two of them. |
| TrendClaims.TrendIsSupportedExactly | python_backend/merchant_ai/services/answer_claims.py:835-867 | A text passes exactly when it is negated or each clause that claims a direction means some series, and every series it means goes that way; the test for markers that comes first changes nothing. |
| TrendClaims.SupportedDirectionIsTrue | python_backend/merchant_ai/services/answer_claims.py:921-944 | In a text that passes and is not negated, every series a clause names goes the way the clause says, between the two readings that its days call for. |
| TrendClaims.OverallDirectionIsTrue | python_backend/merchant_ai/services/answer_claims.py:921-944 | Where the clause gives no days, that is from the first reading to the last: none is earlier than the one and none later than the other. |
| TrendClaims.TrendNamesFacts | python_backend/merchant_ai/services/answer_claims.py:835-867 | The ids reported, on success and on failure, are ids of facts. |
| TrendRules.DirectionExactly | python_backend/merchant_ai/services/answer_claims.py:962-969 | A clause that says flat claims no rise and no fall, and one that says up claims no fall. |
| TrendRules.MeantExactly | python_backend/merchant_ai/services/answer_claims.py:849-859 | A clause means the series that it names by a label; when it names none and there is only one, that one. |
| TrendRules.SeriesTellApart | python_backend/merchant_ai/services/answer_claims.py:881 | Readings of one task and column make one series, and of two make two, as long as no task id holds a colon. |
| TrendRules.ColonJoinsSeries | python_backend/merchant_ai/services/answer_claims.py:881 | With a colon in a task id two columns of two tasks make one series. |
| TrendRules.SeriesLabelsExactly | python_backend/merchant_ai/services/answer_claims.py:908-912 | A series bears the labels of all its readings. |
| TrendRules.DayExactly | python_backend/merchant_ai/services/answer_claims.py:871-892 | A reading has the day of the first date in the row of its task and row number, and none when there is none. |
| TrendRules.OrderExactly | python_backend/merchant_ai/services/answer_claims.py:898 | A series stands in the order of days and, on one day, of rows. |
| TrendRules.ComparedExactly | python_backend/merchant_ai/services/answer_claims.py:921-944 | With words for the day before, the first reading on the last day named that has one before it is compared with that one; else the last readings on the first and the last day; else the first reading with the last. |
| TrendRules.ClauseCompares | python_backend/merchant_ai/services/answer_claims.py:921-944 | A clause compares what its days and its words for the previous day, blanks apart, ask for. |
| TrendRules.DaysExactly | python_backend/merchant_ai/services/answer_claims.py:925 | The days of a clause are those of its dates, in order. |
| TrendRules.ExpectedExactly | python_backend/merchant_ai/services/answer_claims.py:935-944 | A series goes up, down or stays as the second compared reading is above, below or equal to the first. |
| TrendRules.ReasonExactly | python_backend/merchant_ai/services/answer_claims.py:844-867 | The reason names the direction that the first clause not to hold claims, or says that it means no series. |
| TrendRules.ReportedExactly | python_backend/merchant_ai/services/answer_claims.py:844-867 | A text that passes reports exactly the ends of the series that its clauses with a direction mean. |
| TrendRules.EndIdsExactly | python_backend/merchant_ai/services/answer_claims.py:902-905 | Reported of a series are its first and its last reading and the facts of their days. |
| AnswerSentences.FactualSentenceMatches | python_backend/merchant_ai/services/answer_claims.py:252-266 | The cursor loop finds the specified sentences, in order and disjoint. |
| AnswerSentences.SentencesCover | python_backend/merchant_ai/services/answer_claims.py:252-266 | Every character of a text but a line end lies in a sentence, and no line end does. |
| AnswerSentences.StripOrderedListPrefix | python_backend/merchant_ai/services/answer_claims.py:288-304 | The loops take off a list number with the blanks around it, or nothing. |
| AnswerSentences.DigitsAreKept | python_backend/merchant_ai/services/answer_claims.py:606-609 | The digits of a sentence are, in order, those of its list number and those of what becomes a claim. |
| AnswerSentences.DigitsAreLostExactly | python_backend/merchant_ai/services/answer_claims.py:606-609 | Cleaning a sentence loses digits exactly when its list number holds some. |
| AnswerSentences.DecimalIsTakenForListNumber | python_backend/merchant_ai/services/answer_claims.py:606-609 | Of the sentence `3.5% GMV` the claim is `5% GMV`. |
| AnswerSentences.MinusIsTakenForBullet | python_backend/merchant_ai/services/answer_claims.py:606-609 | Of the sentence `-5% GMV` the claim is `5% GMV`. |
| AnswerSentences.EntityMatches | python_backend/merchant_ai/services/answer_claims.py:234-249 | The nested loops find the specified entity tokens. |
| AnswerRules.LineBreaks | python_backend/merchant_ai/services/answer_claims.py:779-787 | A line ends at each of ten characters. |
| AnswerRules.FirstLine | python_backend/merchant_ai/services/answer_claims.py:779-787 | The first line ends at the first break, a carriage return with a line feed behind it being one. |
| AnswerRules.OneLineOnly | python_backend/merchant_ai/services/answer_claims.py:779-787 | A text without breaks is one line, and none when it is empty. |
| AnswerRules.SentencesAreWhole | python_backend/merchant_ai/services/answer_claims.py:252-275 | Every sentence reaches from behind one of six ends to the next one, which it holds unless it is a line feed. |
| AnswerRules.ListNumberExactly | python_backend/merchant_ai/services/answer_claims.py:288-304 | Digits at the start are taken off, with the blanks behind, exactly before a point, an enumeration comma or a closing parenthesis. |
| AnswerRules.BulletCharacters | python_backend/merchant_ai/services/answer_claims.py:606-617 | Taken off as bullets are blanks, dashes, stars, tabs and line ends. |
| AnswerRules.EntityExactly | python_backend/merchant_ai/services/answer_claims.py:234-249 | A word of letters, digits, underscores and dashes that starts with a letter is an entity exactly when a digit stands behind its third character. |
| AnswerClaims.FactualAnswerBody | python_backend/merchant_ai/services/answer_claims.py:779-787 | Keeps exactly the lines before the first heading of the rule evidence. |
| AnswerClaims.AppendProseClaims | python_backend/merchant_ai/services/answer_claims.py:606-617 | Appends the claims of the sentences of a text, in order. |
| AnswerClaims.MarkdownTableClaim | python_backend/merchant_ai/services/answer_claims.py:656-682 | The loop over cells computes the specified claim of a table row, or none. |
| AnswerClaims.ExtractAnswerClaims | python_backend/merchant_ai/services/answer_claims.py:569-603 | The loops over lines, rows and sentences return the specified claims, in order. |
| AnswerClaims.ProseIsClaimedExactly | python_backend/merchant_ai/services/answer_claims.py:606-617 | The claims of a text are exactly those of its sentences that hold a number, an entity or a direction of a known metric. |
| AnswerClaims.EveryNumberIsClaimed | python_backend/merchant_ai/services/answer_claims.py:606-617 | Every number extracted from a cleaned sentence is in the claim of that sentence. |
| AnswerClaims.EveryCellIsClaimed | python_backend/merchant_ai/services/answer_claims.py:656-682 | Every number of a table cell that does not just number its row is in the claim of the row. |
| AnswerClaims.EveryLineIsRead | python_backend/merchant_ai/services/answer_claims.py:569-603 | Every line of the body is prose or the header, divider or row of a table. |
| AnswerClaims.VerifyAnswer | python_backend/merchant_ai/services/answer_claims.py:427-469 | From the answer text on: it passes exactly when every claim extracted from it is justified, directions by the series of the facts. |
| AnswerClaims.PassingCoversProse | python_backend/merchant_ai/services/answer_claims.py:427-469 | When an answer passes, every number of every sentence of its prose is justified in that sentence, and so is every direction the sentence claims. |
| AnswerClaims.PassingCoversTables | python_backend/merchant_ai/services/answer_claims.py:427-469 | When an answer passes, every number of every table cell is justified in its row, unless it just numbers the row. |
| AnswerRules.HeadingExactly | python_backend/merchant_ai/services/answer_claims.py:779-787 | A heading of evidence is a line that starts with a listed heading and a colon, plain or full-width. |
| AnswerRules.KnownExactly | python_backend/merchant_ai/services/answer_claims.py:569-580 | The known names are exactly the columns, labels and aliases of the facts with a value, normalised. |
| AnswerRules.BusinessExactly | python_backend/merchant_ai/services/answer_claims.py:1341-1347 | Of the entities of a text, those count that are no known name. |
| AnswerRules.QualitativeExactly | python_backend/merchant_ai/services/answer_claims.py:620-633 | A sentence is claimed for its direction exactly when it says one, is not negated and holds a known name. |
| AnswerRules.SaysExactly | python_backend/merchant_ai/services/answer_claims.py:606-617 | A claim is made of a text exactly when it has a number, an entity or a direction of a known name. |
| AnswerRules.ClaimExactly | python_backend/merchant_ai/services/answer_claims.py:606-617 | The claim of a text lists its tokens and those of its entities that are no known name. |
| AnswerRules.BodyExactly | python_backend/merchant_ai/services/answer_claims.py:779-787 | What is checked of an answer are its lines up to the first heading of evidence, or all of them. |
| AnswerRules.PositionExactly | python_backend/merchant_ai/services/answer_claims.py:685-695 | A cell numbers its row exactly when its header, marks and blanks apart, is a position label and it reads as the number of the row. |
| AnswerRules.HeaderExactly | python_backend/merchant_ai/services/answer_claims.py:656-682 | A cell without a header is named by its column, counted from one. |
| AnswerRules.CellAdds | python_backend/merchant_ai/services/answer_claims.py:656-682 | Each cell that is not blank adds its header and itself, the numbers in it unless it numbers the row, and its entities. |
| AnswerRules.RowExactly | python_backend/merchant_ai/services/answer_claims.py:656-682 | A row is claimed exactly when its cells hold a number or an entity; the claim is its cells with their headers. |
| AnswerRules.TableExactly | python_backend/merchant_ai/services/answer_claims.py:569-603 | A table starts at a line of cells before a line of dividers and goes on while lines have cells that are not all dividers. |
| AnswerGate.Gate.Finalize | python_backend/merchant_ai/services/answer.py:1623-1751 | The loop with its seen set returns the first text that passes, without it making a difference; the recorded verdict is the one computed for the returned text, with the rejected claims of the draft. |
| AnswerGate.FirstPassingPasses | python_backend/merchant_ai/services/answer.py:1698-1733 | What the candidates yield is one of them that passes, or the safe text. |
| AnswerGate.OnlyCheckedTextIsReturned | python_backend/merchant_ai/services/answer.py:1672-1751 | A returned text has passed or is the safe text, and a draft that passes is returned. |
| AnswerGate.PassingTextIsFound | python_backend/merchant_ai/services/answer.py:1672-1751 | The returned text passes exactly when the draft, a candidate or the safe text passes. |
| AnswerGate.DraftHasNoInfluence | python_backend/merchant_ai/services/answer.py:1631-1634 | With an incomplete snapshot alignment neither the draft nor the fallback influences what is shown. |
| AnswerGate.PassingAnswerIsShown | python_backend/merchant_ai/services/answer.py:1678-1687 | With open evidence and a complete alignment, an answer that passes behind the guard is shown, whatever the fallback is. |
| AnswerGate.FallbackStandsIn | python_backend/merchant_ai/services/answer.py:1678-1687 | Without an answer, a fallback that passes behind the guard is shown. |
| AnswerGate.RefusedDraftGivesWay | python_backend/merchant_ai/services/answer.py:1688-1751 | After a refused draft the fallback, the deterministic answer and the fact-only answer are tried in this order, the latter two with the skeleton when a direct answer is blocked; then the fixed text is shown. |
| AnswerGate.ClosedGateShows | python_backend/merchant_ai/services/answer.py:1635-1675 | A blocking answer goes before everything but an incomplete alignment; a renderer of details shows one fixed text when there are rows and another when there are none. |
| AnswerGate.IncompleteAlignmentShows | python_backend/merchant_ai/services/answer.py:1631-1751 | With an incomplete alignment nothing but the notice about it is shown. |
| AnswerGate.WhoJudges | python_backend/merchant_ai/services/answer.py:1679-1684 | A text is judged, its disclosures apart, by the contract on metric facts where that applies and by the claim verifier otherwise; an incomplete alignment leaves the contract out. |
| GateFallback.FallbackSavesTheAnswer | python_backend/merchant_ai/services/answer.py:1672-1751 | The offered fact-only text, with the skeleton put before it and the notes of the guard behind it, passes exactly when labels, time ranges, skeleton and notes add no number that is not allowed; and then the gate returns a text that passes, whatever the draft says. |
| RowMerge.FirstMatchingRow | python_backend/merchant_ai/services/answer.py:4628-4647 | The nested loops return the specified match. |
| RowKeys.LastPieceIsLast | python_backend/merchant_ai/services/answer.py:4630-4636 | An entity key is what follows the last double underscore of a column name, or the whole name. |
| RowKeys.EntityKeysAreEntities | python_backend/merchant_ai/services/answer.py:4630-4636 | Rows are matched on entity keys only: last pieces of column names that name an identifier, a number or a name. |
| RowKeys.KeysGrow | python_backend/merchant_ai/services/answer.py:4630-4636 | A further column adds its entity as the last key exactly when it names one that is not there yet. |
| RowKeys.EntityNamesExactly | python_backend/merchant_ai/services/answer.py:5293-5300 | A name means an entity exactly when it is `id` or ends in `_id`, `_no` or `_name`, whatever its case and the blanks around it. |
| RowKeys.ValuesExactly | python_backend/merchant_ai/services/answer.py:4650-4660 | Under a key a row holds exactly the texts, not blank, of the columns that bear it, with a table in front or not. |
| RowKeys.NormalizedExactly | python_backend/merchant_ai/services/answer.py:4667-4668 | Cells are compared as stripped texts; null, a blank text and zero count for nothing. |
| RowKeys.FirstKeyFirstRow | python_backend/merchant_ai/services/answer.py:4637-4644 | The keys are tried in order: the match is the first row that shares a value under the first key that any row shares. |
| RowKeys.FirstSharingIsFirst | python_backend/merchant_ai/services/answer.py:4637-4644 | Under a key, no row before the one found shares a value with the base row, and that one does. |
| RowMerge.MatchIsExact | python_backend/merchant_ai/services/answer.py:4628-4647 | A match is found exactly when some row shares an entity value with the target, or is the only row while the target has no entity column; and the match is such a row. |
| RowMerge.RowEntityValues | python_backend/merchant_ai/services/answer.py:4650-4660 | Collects exactly the non-empty normalised values of the columns of a key, each once. |
| RowMerge.Row.Absorb | python_backend/merchant_ai/services/answer.py:4601-4614 | One column is merged as specified, and the row is unchanged when no change is reported. |
| RowMerge.VisitsCompose | python_backend/merchant_ai/services/answer.py:4593-4617 | Visiting two lists of tasks one after the other is visiting their concatenation. |
| RowMerge.MergeVisibleTaskRows | python_backend/merchant_ai/services/answer.py:4591-4618 | Returns the first 20 base rows in order, as new objects, each merged by two full passes; stopping after an idle pass is not seen, and no existing row is modified. |
| RowConservation.RowGrows | python_backend/merchant_ai/services/answer.py:4601-4614 | Merging one row loses no value, keeps every value under its name or an alias of it, and adds at most the values of that row. |
| RowConservation.StageGrows | python_backend/merchant_ai/services/answer.py:4591-4618 | Up to any visit the row only grows, by values of the rows that matched it as it was just before each visit. |
| RowConservation.StagesCarry | python_backend/merchant_ai/services/answer.py:4591-4618 | What a row holds at one visit it holds at every later one, under its name or an alias. |
| RowConservation.MergeConserves | python_backend/merchant_ai/services/answer.py:4591-4618 | Over both passes every non-empty value is kept, as often as before; every other value is one of a row that matched the row as it was just before that row filled it, by a value under an entity key of its own, which the result still shares, or as the lone row when there is no entity column. |
| RowFilling.ColumnIsMerged | python_backend/merchant_ai/services/answer.py:4601-4614 | Without a conflict the cell stands under its own name. On a conflict the old value moves under the table of the base task and the cell stands under the table of its own task, each where that name is free; every other name keeps its value. |
| RowFilling.MissingColumnIsFilled | python_backend/merchant_ai/services/answer.py:4601-4614 | A column that the row lacks, has empty or has with the same value stands under its own name after a match, unless the alias of a column before it took that name. |
| RowFilling.ValueArrives | python_backend/merchant_ai/services/answer.py:4601-4614 | Every value of a matched row arrives, unless at its turn its name is in conflict and no alias for it is free. |
| RowFilling.MergeFills | python_backend/merchant_ai/services/answer.py:4591-4618 | In either pass, every value of every row that matches is in the merged row, with that exception. |
| RowFilling.MergeFillsName | python_backend/merchant_ai/services/answer.py:4591-4618 | A column that the row lacks when a task is visited stands in it under its own name after the visit, if the row of that task matches and no alias takes the name. |
| RowFilling.AliasTakesTheName | python_backend/merchant_ai/services/answer.py:4601-4614 | With a base row x and another row x, t__x, the column t__x does not stand under its name after the merge. |
| RowFilling.ShopGetsItsRefund | python_backend/merchant_ai/services/answer.py:4591-4618 | A base row with shop S1 and gmv 5 and another with shop S1 and refund 2 become one row with all three. |
| TrendSync.AlignedTrendSyncAnalysis | python_backend/merchant_ai/services/answer.py:3612-3665 | The day loop counts the comparable and the matching days between the first and the last day of any series. |
| TrendSync.SeriesHoldsLastReading | python_backend/merchant_ai/services/answer.py:3618-3624 | A series has exactly the days that some point reads, each with the value of the last such point. |
| TrendSync.MatchingCountsDays | python_backend/merchant_ai/services/answer.py:3640-3657 | The matching counter is the number of days on which every series has both days and all rise, or all fall, or move one way together. |
| TrendSync.ComparableCountsDays | python_backend/merchant_ai/services/answer.py:3640-3644 | The comparable counter is the number of days on which every series has the day and the day before. |
| TrendSync.AnalysisIsOrdered | python_backend/merchant_ai/services/answer.py:3612-3665 | 0 <= matching <= comparable <= expected, and both rates lie between 0 and 1. |
| TrendSync.ComparableIsExpectedExactly | python_backend/merchant_ai/services/answer.py:3636-3644 | All expected intervals are comparable exactly when every series has every calendar day. |
| TrendSync.UpAndDownAreAny | python_backend/merchant_ai/services/answer.py:3645-3658 | Upward and downward matches together are at most the matches in any direction. |
| TrendSync.InStepOneWay | python_backend/merchant_ai/services/answer.py:3579-3602 | No series are judged in step upwards and downwards at once, and in step one way is in step. |
| TrendSync.RatesAreShares | python_backend/merchant_ai/services/answer.py:3612-3665 | Coverage is the share of comparable days in the expected ones, consistency that of matching days in the comparable ones. |
| TrendSync.JudgementInDays | python_backend/merchant_ai/services/answer.py:3579-3602 | Series are in step exactly when none is incomplete, at least two and at least half of the days are comparable and they match on at least four of five comparable days; common days are too few exactly when one of the former fails. |
| TrendSync.GroupOrderChangesNothing | python_backend/merchant_ai/services/answer.py:3612-3665 | Reordering the groups changes nothing in the analysis. |
| TrendSync.ScalesChangeNothing | python_backend/merchant_ai/services/answer.py:3612-3665 | Strictly increasing changes of scale, a different one for each series, change nothing in the analysis. |
| TrendSync.TurningSwapsUpAndDown | python_backend/merchant_ai/services/answer.py:3612-3665 | Passing each series through a strictly decreasing map swaps the upward and the downward analysis and keeps that for any direction. |
| KeyNames.SnakeCaseKey | python_backend/merchant_ai/graph/state.py:557-563 | The loop computes the specified key. |
| KeyNames.SnakeAfterCamel | python_backend/merchant_ai/models.py:18-20 | On names of lower-case letters, digits and underscores, the snake key of the camel name is the name exactly when it is a lower-snake identifier. |
| KeyNames.CamelAfterSnake | python_backend/merchant_ai/graph/state.py:557-563 | On names of letters and digits, the camel name of the snake key is the name exactly when it does not start with a capital. |
| StateReducers.MergeStateList | python_backend/merchant_ai/graph/state.py:515-526 | The dictionary loop computes the specified merge. |
| StateReducers.MergeIsSuffix | python_backend/merchant_ai/graph/state.py:515-526 | A merge has at most the cap and is a suffix of the uncapped merge. |
| StateReducers.MergeHoldsLastWritten | python_backend/merchant_ai/graph/state.py:515-526 | Every surviving id occurs once and carries the item last written under it. |
| StateReducers.KeyedKeepsFirstOrder | python_backend/merchant_ai/graph/state.py:515-526 | The items with an id stand in the order in which their ids were first written, however often they are rewritten. |
| StateReducers.MergingNothing | python_backend/merchant_ai/graph/state.py:515-526 | Merging nothing into a merged list changes nothing. |
| StateReducers.IncrementalIffIdsFit | python_backend/merchant_ai/graph/state.py:515-526 | Merging in increments equals merging in one batch, whatever comes later, exactly when the distinct ids so far fit under the cap. |
| StateReducers.IncrementalDiffersConcretely | python_backend/merchant_ai/graph/state.py:515-526 | With a cap of 1, writing a, then b, then a again leaves a in increments and b in one batch. |
| StateReducers.MergeAgentStateUpdate | python_backend/merchant_ai/graph/state.py:465-489 | The update replaces, deletes and reduces as specified, reducing each key against the state before the update. |
| StateReducers.ReducersExactly | python_backend/merchant_ai/graph/state.py:429-463 | Fourteen lists are merged by their id keys under their caps, and no other key is. |
| StateReducers.ListAfterUpdate | python_backend/merchant_ai/graph/state.py:465-489 | What one update leaves under a reducer key: the merge when it writes the key, else the replacement, nothing after a deletion, or the old list. |
| StateReducers.OtherKeyAfterUpdate | python_backend/merchant_ai/graph/state.py:465-489 | Under a key without a reducer new dictionary fields win over old ones and any other value replaces the old one; without a new value the key is deleted, replaced or left alone. |
| StateReducers.IdPreference | python_backend/merchant_ai/graph/state.py:529-546 | An item is known by its own id key, or else by the snake spelling of it, by `id`, `taskId`, `task_id`, `toolCallId` or `tool_call_id`, in this order. |
| StateReducers.RunsStayCapped | python_backend/merchant_ai/graph/state.py:465-489 | No run of updates pushes a reducer list over its cap unless an update replaces that list by a longer one, whatever happens to other lists. |
| StateReducers.CapIsBrokenExactly | python_backend/merchant_ai/graph/state.py:465-489 | One update leaves a list over its cap exactly when it leaves an over-long replacement there, or does not touch a list that was over before. |
| StateReducers.ReplacementBreaksTheCap | python_backend/merchant_ai/graph/state.py:446-489 | Replacing `runtime_checkpoints` by nine items leaves the list over its cap of eight, whatever the state. |
| StateReducers.RunIsOneMerge | python_backend/merchant_ai/graph/state.py:465-489 | A whole run of updates leaves what one merge of everything it wrote leaves, as long as the ids fit. |
| StreamReader.StreamChatRun | frontend/src/api/client.js:104-121 | However the network cuts the text, the caller observes what one split of the whole text gives. |
| StreamReader.ReadChunk | frontend/src/api/client.js:106-110 | One more chunk keeps the closed frames and only extends the open text. |
| StreamReader.BufferIsTheOpenText | frontend/src/api/client.js:106-110 | After any prefix the buffer holds no blank line, and frames joined with the buffer are the text read. |
| StreamReader.JsSpaceCharacters | frontend/src/api/client.js:114 | Blank around a payload are the twenty-five characters that `trim` removes. |
| StreamReader.RestAfterThrow | frontend/src/api/client.js:111-118 | Nothing that arrives after an error changes what was observed. |
| StreamReader.EventsArriveIntact | python_backend/merchant_ai/services/runs.py:598-602 | Whatever frames the server writes, and however they are cut, the caller receives exactly those events, in order, up to the first error. |
| StreamReader.CallerSeesAll | frontend/src/api/client.js:104-121 | When no frame is an error, the caller receives exactly the events written, in order, and the last one that says done is the completion. |
| StreamReader.CallerSeesFirstError | frontend/src/api/client.js:111-118 | When frame k is the first error, the caller receives the events up to and including it, and its message. |
| StreamReader.FirstStopEnds | frontend/src/api/client.js:111-118 | The first payload that does not go ends it: an error is delivered and thrown with its message, a text that does not parse is thrown and not delivered. |

## Left out

- FilterGraph: lower-casing of letters outside ASCII; lists and dictionaries where a text is expected are written as JSON, not as Python prints them, and a truthy value where a list is expected, at which Python would fail, counts as what iterating it gives or as empty.
- Json: floats are kept as their literals, so 1 and 1.0 are different values as in the JSON text; object fields are held in key order; the `default=str` rendering of non-JSON values does not arise after a JSON-mode dump.
- QueryContract: a plan is given as its JSON dump, so the defaults and aliases that the dump itself applies are not modelled; the hash function is not modelled, only its input.
- QueryContract.SameStructureSelectsSameRows: for queries with a root and an acyclic graph, as a cyclic graph has no meaning.
- FilterMeaning.CanonicalFormKeepsMeaning: stated for a root and an acyclic graph, because the source gives a cyclic graph an invalid marker and no meaning.
- FilterInvariance.RenamingChangesNothing: the renaming keeps the empty id, which the source reads as no id.
- NumberText: binary rounding of `float` is not modelled, numbers are reals; exponents, infinities and NaN are not read; the unit suffix, the currency and the integer formats of `format_metric_value_for_answer` are not modelled.
- AnswerContract.FallbackPasses: facts have a formatted value that is not blank after normalisation, as `format_metric_value_for_answer` yields for every numeric fact; numbers from result rows, trend sentence and question are a parameter.
- MarkdownTable.RowRoundTrip: cells are trimmed, since the reader strips every cell.
- ClaimVerifier: contextual number spans, direct-value markers and the normalised form of a date are parameters.
- ClaimVerifier.Verify: stated for any list of claims and any trend verdict; AnswerClaims.VerifyAnswer states it for the claims and the trend check of the source.
- TrendClaims: the markers of the language policy and the test for negated phrases are parameters.
- AnswerClaims: which characters count as numerals besides ASCII digits is a parameter; tokens and entities are ASCII, as their scanners require.
- AnswerSentences.DecimalIsTakenForListNumber: `str.isnumeric` does not accept the point.
- AnswerSentences.MinusIsTakenForBullet: nor the percent sign.
- ClaimVerifier.DirectValueIsNamed: for numbers; dates are matched by time alone, as ClaimBinding.DateNeedsNoLabel states.
- ClaimTokens: whether a number belongs to a system formula explanation is a parameter (`_sql_function_spans`, `_case_expression_spans`, `matching_parenthesis` and the contextual spans of such texts); digits outside ASCII before or behind a date.
- ClaimContexts.RunGivesContext: for texts without dates and formulas, because a time cut at its fraction is read differently in a segment; ClaimContexts.ContextExistsExactly covers every text, segment by segment.
- ClaimContexts.WholeNumberHasContext: for such texts too; `10:20:30.` behind a date yields three numbers in the text and a time in the segment.
- ClaimBinding.ContextIsByValue: for such texts too.
- ClaimBinding: `decimal_token` reads plain decimal notation; exponents and infinities, which no scanner yields, are not read.
- ClaimNumbers: the normalised policy and labels are computed, but a fact's decimal value and its temporal and entity forms are given.
- AnswerGate: the guard, the disclosure stripping, the skeleton and both verifiers are functions of the text; what they write to the run result besides the verdict is not modelled.
- RowMerge: the rows of the other tasks are values; the table prefix of a task is given; `str` of a number is a parameter; booleans and nested cells do not occur.
- TrendSync: reading a date or a number from a point is given as an optional value; the wording of the judgement is reduced to its four outcomes.
- StateReducers: a reducer key whose stored value is not a list, keys that are not text, and ids that are lists or dictionaries, which Python would print and the model writes as JSON.
- KeyNames: identifiers outside ASCII.
- StreamReader: `JSON.parse` is a parameter, null events and the request before the loop are not modelled; byte decoding is left to the decoder, whose outputs are the chunks.
- Language-model calls, prompts, skill matching, prose clean-up, suggestions and the daily report: heuristic text without a crisp specification.
- Web routes, authentication, databases, workers, settings, seed data and the user interface: input, output and wiring.
- Access decisions, context-window trimming, terminal status and the acceptance checklist: each is settled by reading one branch.
- `_legacy_project_semantic_query_nodes`: an unused compatibility path.
