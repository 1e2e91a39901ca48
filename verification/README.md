# Agent-governance kernels in Dafny

A model of the algorithmic kernels of an AI-governance platform: the evidence adapter around
Google ADK workflows and the control plane that ingests its events, the schema flattener of the
intervention editor and the provider that applies its paths, the incident benchmark (plan
canonicaliser, scorer, prompt padding), the layered graph drawing, and the console's version
selection, ranking, provider keys and small state machines. Each module states, for all inputs or
all runs, what its source promises, and where the source does not keep a promise gives the input
and the exact condition.

| modules | what they model |
|---|---|
| `Texts`, `Sorting`, `Grouping` | code-point texts, stripping, splitting, decimals; a stable sort; insertion-ordered groups |
| `JsonText`, `JsonGrammar`, `JsonRoundTrip`, `JsonPointer` | Python's `json` over code points; the texts that spell a value; RFC 6901 paths |
| `EvidenceAdapter`, `EvidenceProtocol`, `EvidenceSession`, `ControlPlane` | step derivation, every interleaving of nested calls, fail-open delivery, ingestion of what arrives |
| `SchemaFields`, `Perturbation` | the console's field list and the provider's operations on those fields |
| `DecisionScoring`, `PromptPadding` | plan canonicaliser, decision scorer, prompt padding |
| `GraphSides`, `GraphLayout` | sides depth by depth, integer coordinates |
| `AssetVersions`, `Leaderboard`, `ProviderKeys` | group-sort-pick, ranking and tie checks, key normalisation |
| `ProviderInstallations`, `GraphWorkspace`, `Transactions` | validate before create, query in step with state, finish once |

`dafny verify dfyconfig.toml` checks the whole project.

## How the results fit together

**Evidence, end to end.** A program of nested decorated calls (`EvidenceSession.Body`) is executed
by `Session`, which emits over a transport that may lose any request. `Wrapped` gives the caller the
bare function's outcome and state (as long as its steps can be derived) and attempts exactly the
events of the call tree. `EveryRunFollowsProtocol` shows that every interleaving of such trees passes
a small observer automaton, leaves each step in the phase its ending demands and keeps every call's
descendants between its own events; `ProtocolExactlyWhenLinked` that the linking condition is not
only sufficient; `WellNestedAllIsLinked` derives it from what the ADK contexts provide.
`SurvivorsExactly` says which events the control plane ends up with, for every pattern of lost
requests: exactly the *grounded* ones. `StoredWholeExactly` says for which forests nothing is refused,
and `SessionEvidence` joins all of these.

**Fields, end to end.** The console flattens a schema into leaf paths, the provider decodes the
paths and edits evidence there. `FlattenIsExactlyTheLeaves` and `PathRoundTrip` make the list exact
and the decoding faithful; prefix-freeness then gives `PerturbationOfLeaves`: operations on
different listed fields do not disturb one another or anything else.

**JSON, end to end.** `JsonGrammar` defines, apart from the reader, which texts spell a value: any white
space between tokens, any escapes, numbers and constants, repeated keys. `LoadsExactly` proves the
reader sound and complete for it. `ValueReadsBack` proves the printer against the reader, whatever text
follows. Plan canonicalisation and the scorer rest on both, so they are stated for every spelling.

## Where the source differs from what it says

- `EvidenceAdapter.BlankNameIsEmitted`: a node path such as `a. .` yields the step name `" "`, which
  the control plane refuses; `EmittedFieldsAcceptedExactly` gives the condition for one step and
  `EvidenceReachesControlPlane` for a whole forest.
- `EvidenceAdapter.SeparatorInsideIdentifierCollides`: U+001F inside an identifier lets two
  invocations share a step id; `PreHashUniqueExactly` gives the condition.
- `EvidenceSession.LoneSurrogateInterferes`: the step is derived outside the fail-open guard, so an
  identifier that does not encode as UTF-8 makes the decorated call raise where the bare one does not;
  `TransparentExactly` gives the condition.
- `ControlPlane.OrphanIsRefused`: a child of a function node that emitted nothing (undecorated, or
  without a resolvable name) is refused on every delivery; `StoredWholeExactly` gives the condition.
- `GraphSides.DescendingEdgeFallsLeft`: both arms of the conditional that picks the parent yield the
  edge's target, so a node below a right-side parent falls left unless the edge starts at the node;
  `SharesParentSideExactly` gives the condition.
- `GraphWorkspace.FractionalDepthEscapes`: a query with depth 4.5 is accepted and one expansion reaches
  5.5; `RunsKeepRangeExactly` gives the condition for all runs.
- `JsonRoundTrip.SurrogatePairIsLost`: with `ensure_ascii`, a high surrogate before a low one is read back
  as one character; `AsciiStringSurvivesExactly` gives the condition.
- `Leaderboard.ScatteredTieDisagrees`: the two tie checks disagree on a board whose equal scores do not
  stand together. The console does not receive such boards: those of the ranking service are sorted
  (`TieChecksAgreeOnRankings`). `TieChecksAgreeExactly` gives the condition.

## Model

| member | source | states |
|---|---|---|
| `EvidenceAdapter.PreHashInjective` | examples/google_adk/governed_workflow.py:340-345 | with invocation and run ids free of U+001F, the hashed text determines the (invocation, run, path) triple |
| `EvidenceAdapter.EmittedExactly` | examples/google_adk/governed_workflow.py:290-302 | a step is emitted exactly when the three identifiers strip to non-empty texts and a name is found |
| `EvidenceAdapter.StepIdentity` | examples/google_adk/governed_workflow.py:304-316 | the id is the prefix and the hash of the context's own three stripped identifiers; the attributes hold the run id, the path (256 characters each) and a non-negative attempt |
| `EvidenceAdapter.StepName` | examples/google_adk/governed_workflow.py:300 | the name is the explicit one, else the node's, else the last part of the path, to 256 characters |
| `EvidenceAdapter.LastPartExactly` | examples/google_adk/governed_workflow.py:348-354 | the fallback name is the last stretch of the path without slashes and dots, and there is none exactly when there is no such stretch |
| `EvidenceAdapter.ParentLinkExactly` | examples/google_adk/governed_workflow.py:319-337 | a step links to a parent exactly when the parent context has a node of type "FunctionNode" and three identifiers that strip to non-empty texts, and then to the id of those |
| `EvidenceAdapter.DerivableExactly` | examples/google_adk/governed_workflow.py:340-345 | deriving the step raises exactly when a surrogate is in a stripped identifier that is hashed: the function-node parent's, or, when a name is found, the context's own |
| `EvidenceAdapter.PreHashUniqueExactly` | examples/google_adk/governed_workflow.py:340-345 | among the identities contexts can give, the hashed text belongs to one triple only exactly when no part has U+001F between two characters that are not white space |
| `EvidenceAdapter.ReceivableExactly` | examples/google_adk/governed_workflow.py:382-386 | the identities contexts can give are exactly the triples of non-empty trimmed parts |
| `EvidenceAdapter.SeparatorInsideIdentifierCollides` | examples/google_adk/governed_workflow.py:340-345 | two different identities, all six parts as stripping leaves them, that share a step id under every hash |
| `EvidenceAdapter.StepIdInjective` | examples/google_adk/governed_workflow.py:340-345 | under a hash that does not collide on the two texts, step ids are equal exactly when the identities are |
| `EvidenceAdapter.KeyDeterminesStepAndLifecycle` | examples/google_adk/governed_workflow.py:151 | idempotency keys are equal exactly when step id and lifecycle are |
| `EvidenceAdapter.EmittedFieldsAcceptedExactly` | src/ai_governance/domain/agent_execution/agent_execution_event.py:75-94 | the control plane's field checks accept an emitted step exactly when its name is usable and its parent is another step |
| `EvidenceAdapter.BlankNameIsEmitted` | examples/google_adk/governed_workflow.py:348-354 | a context whose step is emitted under a blank name, and whose events the field checks refuse |
| `EvidenceProtocol.EveryRunFollowsProtocol` | examples/google_adk/governed_workflow.py:248-287 | every interleaving of a linked forest of calls: each step starts once, ends at most once with its ending's lifecycle, always inside an open parent, and ends in the phase its call demands; and every event of a call's descendants, linked or not, lies after its STARTED and, unless it escaped, before its terminal event |
| `EvidenceProtocol.RunsFollowProtocol` | examples/google_adk/governed_workflow.py:248-287 | the same from any protocol state in which the enclosing steps are open, touching only the forest's own steps |
| `EvidenceProtocol.RunsAreBracketed` | examples/google_adk/governed_workflow.py:270-283 | bracketing of all descendants, for every interleaving inside open enclosing steps |
| `EvidenceProtocol.ObserveShuffle` | examples/google_adk/governed_workflow.py:252-266 | interleaving two logs about different steps is observed as both effects together |
| `EvidenceProtocol.ProtocolExactlyWhenLinked` | examples/google_adk/governed_workflow.py:270-337 | whatever the endings, all interleavings follow the protocol exactly when ids are distinct and parent links lead to enclosing steps |
| `EvidenceProtocol.LinkedAllFromRuns` | examples/google_adk/governed_workflow.py:290-337 | if in every interleaving each start is new and links to a step heard of before, the forest is linked |
| `EvidenceProtocol.SequentialRunsEmit` | examples/google_adk/governed_workflow.py:270-285 | the log of the synchronous wrapper is one of the interleavings quantified over |
| `EvidenceProtocol.WellNestedAllIsLinked` | examples/google_adk/governed_workflow.py:290-337 | distinct separator-free identities whose function-node parents enclose them have, under a hash without collisions among them, distinct step ids, and each parent id is the enclosing step's own id |
| `EvidenceSession.Session.constructor` | examples/google_adk/governed_workflow.py:104-136 | the session is live exactly when the reply holds a non-blank execution id; otherwise it is the no-op session |
| `EvidenceSession.Session.Request` | examples/google_adk/governed_workflow.py:138-157 | an event is delivered unless its request is lost, and the caller sees an error unless it was delivered and acknowledged; the delivered log is the attempted log filtered by the requests that arrive |
| `EvidenceSession.Session.EmitSafely` | examples/google_adk/governed_workflow.py:370-379 | emits one event or none and never raises |
| `EvidenceSession.Session.Wrapped` | examples/google_adk/governed_workflow.py:270-283 | under every pattern of transport failures: the bare function's outcome and application state provided its steps can be derived, and exactly the events of the wrapped call tree attempted, its own being STARTED first and, last, COMPLETED for a value, FAILED for an exception, nothing for another exit |
| `EvidenceSession.Session.Instrumented` | examples/google_adk/governed_workflow.py:276-283 | STARTED, the nested events, then COMPLETED for a value, FAILED for an exception and nothing for another exit |
| `EvidenceSession.Session.EmitEnding` | examples/google_adk/governed_workflow.py:279-282 | on a live session with a step: COMPLETED after a value, FAILED after an exception, nothing after another exit |
| `EvidenceSession.Session.Execute` | examples/google_adk/governed_workflow.py:270-283 | whole programs: same outcome and state as without instrumentation where steps can be derived, all attempted events accounted for |
| `EvidenceSession.GovernedIsBare` | examples/google_adk/governed_workflow.py:270-283 | a program whose decorated calls can all derive their step means what it means without decoration |
| `EvidenceSession.DecorationInvisibleExactly` | examples/google_adk/governed_workflow.py:270-283 | a decorated call is indistinguishable from the bare one exactly when its step can be derived or the function raises that very error at once |
| `EvidenceSession.TransparentExactly` | examples/google_adk/governed_workflow.py:270-283 | decorating with a context and a name is invisible around every function and in every state exactly when the hashed identifiers encode |
| `EvidenceSession.LoneSurrogateInterferes` | examples/google_adk/governed_workflow.py:340-345 | a context whose invocation id is a lone surrogate: the bare function returns and the decorated one raises |
| `EvidenceSession.SurvivingArrive` | examples/google_adk/governed_workflow.py:370-379 | what a session delivered is what arrives under its failure pattern |
| `EvidenceSession.OutcomesTell` | examples/google_adk/governed_workflow.py:270-283 | in every linked program each decorated call's step ends completed when its function returned, failed when it raised, and open when it exited otherwise |
| `EvidenceSession.SessionEvidence` | examples/google_adk/governed_workflow.py:248-379 | from program to stored history: the run follows the protocol, each step ends in the phase that tells its function's outcome, the control plane stores exactly the grounded events, and, when every request arrives, all of them exactly when every name is usable |
| `ControlPlane.Execution.IngestEvent` | src/ai_governance/services/agent_execution_service.py:290-402 | what each reply means, in terms of the history: fields out of order; a completed execution; the key stored with an equal or another event; a transition the history does not allow; otherwise stored at the end, and only then does the history change |
| `ControlPlane.IngestExplained` | src/ai_governance/services/agent_execution_service.py:290-402 | the ingestion rule gives exactly those replies and keeps every key once |
| `ControlPlane.AllowedExactly` | src/ai_governance/services/agent_execution_service.py:697-769 | a transition is allowed exactly when the parent is known, a start is of an unknown step, and an end is of a step that started and has not ended |
| `ControlPlane.NothingAfterCompletion` | src/ai_governance/services/agent_execution_service.py:328-331 | once completed, an execution's history never changes, whatever is sent |
| `ControlPlane.Execution.Complete` | src/ai_governance/services/agent_execution_service.py:807-836 | completion closes the execution and leaves the history alone |
| `ControlPlane.EveryHistoryIsWellFormed` | src/ai_governance/services/agent_execution_service.py:697-769 | whatever clients send, every stored event has accepted fields and was allowed by its predecessors |
| `ControlPlane.HistoryShape` | src/ai_governance/services/agent_execution_service.py:697-769 | in every history a step has at most a start and then an end, and a parent's first event precedes its children's |
| `ControlPlane.SurvivorsExactly` | src/ai_governance/services/agent_execution_service.py:697-769 | for every protocol run and every loss pattern the stored history is exactly the grounded events in order: those that arrive with accepted fields and whose own and parent's starts are grounded |
| `ControlPlane.EverythingGrounded` | src/ai_governance/services/agent_execution_service.py:697-769 | without losses and with accepted fields every event is grounded |
| `ControlPlane.StoredWholeExactly` | src/ai_governance/services/agent_execution_service.py:697-769 | with nothing lost, every interleaving of a forest is stored whole exactly when the forest is linked and the fields of all its events are accepted |
| `ControlPlane.AllAcceptedExactlyWhenNamed` | src/ai_governance/domain/agent_execution/agent_execution_event.py:75-94 | in a linked forest the field checks accept everything exactly when every emitting call has a usable name |
| `ControlPlane.EvidenceReachesControlPlane` | src/ai_governance/services/agent_execution_service.py:290-402 | from ADK contexts, for every interleaving of a well-nested forest: the grounded events are stored, and with nothing lost all events are exactly when every emitting call has a usable name |
| `ControlPlane.OrphanIsRefused` | src/ai_governance/services/agent_execution_service.py:733-740 | in any history, and after any further requests that are not about the step a link names, the linking event is neither stored nor taken for a replay, under any key, and changes nothing |
| `ControlPlane.RedeliveryIsHarmless` | src/ai_governance/services/agent_execution_service.py:333-350 | sending stored events again, in any order and number, changes nothing |
| `ControlPlane.HistoryHasUniqueKeys` | src/ai_governance/repositories/in_memory/in_memory_agent_execution_repository.py:194-263 | no history holds one key twice |
| `JsonRoundTrip.StringReadsBack` | src/ai_governance/inspect_tasks.py:314-318 | parsing undoes printing for every text and both `ensure_ascii` settings, up to fusing of surrogate pairs |
| `JsonRoundTrip.ValueReadsBack` | src/ai_governance/inspect_tasks.py:166-176 | parsing undoes printing for numbers, constants, strings, arrays and objects with distinct keys, whatever follows (after a number or a constant, white space or punctuation) |
| `JsonRoundTrip.LoadsDumps` | src/ai_governance/inspect_tasks.py:296-318 | `loads` of `dumps` gives the value back |
| `JsonText.FuseKeepsExactlyPairFree` | src/ai_governance/inspect_tasks.py:166-176 | fusing keeps a text exactly when no high surrogate precedes a low one |
| `JsonRoundTrip.AsciiStringSurvivesExactly` | src/ai_governance/inspect_tasks.py:166-176 | a text survives `ensure_ascii` exactly under that condition |
| `JsonRoundTrip.SurrogatePairIsLost` | src/ai_governance/inspect_tasks.py:166-176 | every high and low surrogate pair is read back as one code point |
| `JsonGrammar.LoadsExactly` | src/ai_governance/inspect_tasks.py:296-298 | `json.loads` accepts exactly the texts that spell a value, with any white space and escapes, and gives exactly that value |
| `JsonGrammar.ValueReads` | src/ai_governance/inspect_tasks.py:296-298 | every spelling of a value, in front of anything that may follow it, is read as that value |
| `JsonGrammar.ValueSound` | src/ai_governance/inspect_tasks.py:296-298 | whatever is read was spelled, up to the rest |
| `JsonGrammar.StringReads` | src/ai_governance/inspect_tasks.py:296-298 | raw, short, unit and surrogate-pair escapes are read as the characters they spell |
| `JsonGrammar.NumberReads` | src/ai_governance/inspect_tasks.py:296-298 | a number is taken whole, up to the first character it could not go on with |
| `JsonRoundTrip.PrintIsDocument` | src/ai_governance/inspect_tasks.py:314-318 | printing gives one of the spellings of the value read back |
| `JsonRoundTrip.PrintedCharacter` | src/ai_governance/inspect_tasks.py:314-318 | which spelling the printer chooses for each character, with and without `ensure_ascii`; with it the text is ASCII |
| `JsonGrammar.LastValueWins` | src/ai_governance/inspect_tasks.py:296-298 | of repeated keys the last value counts |
| `DecisionScoring.PlanCanonicalisationIsIdempotent` | src/ai_governance/inspect_tasks.py:294-318 | whatever is returned holds one to three trimmed steps, reads back as them, and is accepted again and returned unchanged |
| `DecisionScoring.CanonicalPlanIsFixed` | src/ai_governance/inspect_tasks.py:294-318 | every plan of one to three trimmed acceptable steps is a fixed point |
| `DecisionScoring.PlanAcceptedExactly` | src/ai_governance/inspect_tasks.py:294-313 | a text is accepted exactly when it spells an object whose "steps" are one to three texts of at most 240 characters that are not blank |
| `DecisionScoring.EverySpellingOfAPlan` | src/ai_governance/inspect_tasks.py:294-318 | whatever the spelling, the stripped texts of the steps are returned in order |
| `DecisionScoring.NormalisesExactlyDecisions` | src/ai_governance/inspect_tasks.py:235-257 | a value normalises exactly when it is an object with the four keys, the listed severities, decisions and owners in upper case, and at least one code |
| `Sorting.SortsAgreeExactly` | src/ai_governance/inspect_tasks.py:246 | sorted lists are equal exactly when the items are the same multiset |
| `DecisionScoring.ScorePassesExactly` | src/ai_governance/inspect_tasks.py:260-274 | the scorer passes exactly when both texts read as decisions with equal upper-cased fields and equal multisets of upper-cased codes; otherwise it names an output that is no JSON, a target that is no JSON, an output that states no decision, or a difference, in this order |
| `DecisionScoring.EverySpellingScores` | src/ai_governance/inspect_tasks.py:260-274 | the way output and target are spelled does not matter |
| `DecisionScoring.TargetReadsBack` | src/ai_governance/inspect_tasks.py:166-176 | a printed target reads back as its four members |
| `DecisionScoring.TargetKeysAreSorted` | src/ai_governance/inspect_tasks.py:166-176 | the target's keys are printed in code-point order |
| `DecisionScoring.PrintedTargetScoresItself` | src/ai_governance/inspect_tasks.py:166-176 | a printed valid target scores as correct against itself with its codes in any order |
| `PromptPadding.WordsOfConcatenation` | src/ai_governance/inspect_tasks.py:227 | words add up over concatenation at white space |
| `PromptPadding.RecordsAreDistinct` | src/ai_governance/inspect_tasks.py:216-230 | no two records have the same text |
| `PromptPadding.RecordsCycle` | src/ai_governance/inspect_tasks.py:227-231 | the templates are taken in their order, again and again |
| `PromptPadding.DetailExactly` | src/ai_governance/inspect_tasks.py:205-212 | the detail is the evidence up to its third, sixth or eighth full stop (or all of it), with the full stops dropped, and one full stop |
| `PromptPadding.PaddingGrows` | src/ai_governance/inspect_tasks.py:227-231 | more records mean strictly more words |
| `PromptPadding.LeastPaddingBounds` | src/ai_governance/inspect_tasks.py:227-231 | the least padding is unique and overshoots the target by less than its last record |
| `PromptPadding.Pad` | src/ai_governance/inspect_tasks.py:226-232 | the loop ends with the base followed by the least number of records that reaches the target |
| `PromptPadding.IncidentPrompt` | src/ai_governance/inspect_tasks.py:179-232 | the opening stays a prefix; the short band is never padded; every other band reaches its target (250, 500, 1000, 4600 and 10000 words) with the least padding |
| `JsonPointer.TokenRoundTrip` | console/components/agent-runtime/InterventionPolicyManagement.tsx:310 | RFC 6901 section 4 decoding undoes the two-pass escape of every name, and no escaped name contains a slash |
| `JsonPointer.EscapeIsCharacterwise` | console/components/agent-runtime/InterventionPolicyManagement.tsx:310 | the escape goes character by character: "~0" for a tilde, "~1" for a slash, all others as they are |
| `JsonPointer.PathRoundTrip` | src/ai_governance/services/evidence_interventions.py:403-408 | the provider reads back exactly the names the console wrote |
| `SchemaFields.FlattenIsExactlyTheLeaves` | console/components/agent-runtime/InterventionPolicyManagement.tsx:306-316 | one field for each leaf and no other, with paths of which none is a token-wise prefix of another |
| `SchemaFields.ListedFieldDescribesItsDefinition` | console/components/agent-runtime/InterventionPolicyManagement.tsx:306-316 | walking `properties` along a listed path's tokens reaches the definition whose type and label are listed |
| `SchemaFields.ListedFieldSays` | console/components/agent-runtime/InterventionPolicyManagement.tsx:311-312 | the listed type is the definition's own non-blank "type" text, or "value"; the label its non-blank "title" text, or the name with underscores turned into spaces |
| `SchemaFields.LeavesArePrefixFree` | console/components/agent-runtime/InterventionPolicyManagement.tsx:313-314 | no leaf lies above another |
| `SchemaFields.LeafWalks` | console/components/agent-runtime/InterventionPolicyManagement.tsx:307-309 | every leaf is reached by walking `properties` and has no definitions below it |
| `Perturbation.ApplyFrame` | src/ai_governance/services/evidence_interventions.py:349-418 | an accepted operation leaves at its path the given value, the number plus the delta or the number times the scale, within the bounds, or removes it, and changes nothing at any place neither above nor below |
| `Perturbation.LeafOperation` | src/ai_governance/services/evidence_interventions.py:349-418 | an accepted operation on a listed field whose enclosing objects exist leaves every other listed field as it was, whatever the evidence lacks elsewhere |
| `Perturbation.PerturbationOfLeaves` | src/ai_governance/services/evidence_interventions.py:160-163 | a whole perturbation of different listed fields: each operation acts on its field's original value, all other fields keep theirs; only the fields operated on need their enclosing objects |
| `Perturbation.AnsweredExactly` | src/ai_governance/services/evidence_interventions.py:349-400 | a removal is accepted exactly when there is something to remove; a change exactly when it asks for a value within the bounds; it breaks exactly when a given value that is no number meets a bound, and is refused otherwise |
| `Perturbation.NumbersChange` | src/ai_governance/services/evidence_interventions.py:367-393 | on a listed number, a delta adds and a scale multiplies when the result fits the bounds, and is refused exactly when it does not |
| `Perturbation.ListItemSet` | src/ai_governance/services/evidence_interventions.py:397-400 | items of a list are counted from its start or backwards from its end; any other index breaks |
| `Perturbation.SetAccepted` | src/ai_governance/services/evidence_interventions.py:364-366 | an unbounded SET is accepted wherever the path's objects exist |
| `GraphSides.GroupByDepth` | console/components/graph/GraphExplorer.tsx:317-323 | each depth's nodes in input order, and the depths ascending |
| `Grouping.GroupBy` | console/components/graph/GraphExplorer.tsx:317-321 | a map from each key to its items in order, with the keys in order of first appearance |
| `GraphSides.SidesByEntity` | console/components/graph/GraphExplorer.tsx:365-407 | every positive-depth node gets exactly one side, the one defined depth by depth |
| `GraphSides.SideOfNode` | console/components/graph/GraphExplorer.tsx:377-404 | the map lookup gives that side because shallower sides are set and the node's own is not |
| `GraphSides.RootIs` | console/components/graph/GraphExplorer.tsx:409-415 | the root is the first node at depth zero, or the first node |
| `GraphSides.SideBySharedEdge` | console/components/graph/GraphExplorer.tsx:379-391 | the first edge an entity shares with the root decides its side: right when the root is its source |
| `GraphSides.SideByEdgeUp` | console/components/graph/GraphExplorer.tsx:392-403 | without one, the first edge to the depth above gives the side of its target when it starts at the entity, and left otherwise |
| `GraphSides.RightHasChain` | console/components/graph/GraphExplorer.tsx:377-404 | a node is on the right exactly when parent edges, each starting at the deeper node, lead from it to a node whose first edge with the root comes from the root |
| `GraphSides.ChainDescends` | console/components/graph/GraphExplorer.tsx:377-404 | along such a chain every node is on the right, each has an edge to the next, one depth shallower, and the root has an edge to the last |
| `GraphSides.SharesParentSideExactly` | console/components/graph/GraphExplorer.tsx:400-403 | exactly when a node shares its parent's side |
| `GraphSides.DescendingEdgeFallsLeft` | console/components/graph/GraphExplorer.tsx:400-403 | a three-node chain whose last node falls left of a right-side parent |
| `GraphLayout.SortProperties` | console/components/graph/GraphExplorer.tsx:332-334 | the layer's order holds the same nodes, by weight, and nodes of equal weight keep their order |
| `GraphLayout.LayerFollowsKinds` | console/components/graph/GraphExplorer.tsx:332-334 | in a layer an earlier kind of the order stands before a later one, and unlisted kinds come last |
| `GraphLayout.KindsInOrder` | console/components/graph/GraphExplorer.tsx:417-434 | the twelve kinds in their order, each once |
| `GraphLayout.RootsAreCentred` | console/components/graph/GraphExplorer.tsx:353-358 | roots stand in one column, 116 apart, centred on zero |
| `GraphLayout.SidesMirror` | console/components/graph/GraphExplorer.tsx:340-359 | the two sides mirror each other about the root column, 320 for each depth, with rows centred on zero |
| `GraphLayout.LayerSteps` | console/components/graph/GraphExplorer.tsx:347-359 | a layer fills columns of six, 220 apart, with rows 116 apart |
| `Sorting.SortIsStable` | console/components/graph/GraphExplorer.tsx:332-334 | items that tie keep their order |
| `GraphLayout.LayoutNodes` | console/components/graph/GraphExplorer.tsx:316-363 | every node gets its place, nothing else does, on the side defined depth by depth |
| `GraphLayout.OverlapExactlyWhenCrowded` | console/components/graph/GraphExplorer.tsx:340-359 | two nodes share coordinates exactly when a side is crowded: layers 11k depths apart, the nearer one overflowing into the farther one's columns with rows that line up |
| `GraphLayout.ConsoleGraphsDoNotOverlap` | console/components/graph/GraphExplorer.tsx:316-363 | distinct coordinates for all depths up to 11, and for up to 100 nodes at any depths |
| `AssetVersions.CompareIsTotalPreorder` | console/components/assets/AssetsPage.tsx:73-76 | the comparator is a total preorder for valid dates |
| `AssetVersions.HeadIsEarliestUnbeaten` | console/components/assets/AssetsPage.tsx:68 | the head of a sorted group is its earliest unbeaten member |
| `AssetVersions.SelectLogicalAssets` | console/components/assets/AssetsPage.tsx:65-69 | one item for each key in order of first appearance, each the earliest of its group that none beats |
| `AssetVersions.SelectedIsBest` | console/components/assets/AssetsPage.tsx:73-76 | no item of its key has a better status than the selected one (active, frozen, draft, deprecated, others), none of equal status is newer, none of equal status and date has a higher version |
| `AssetVersions.SelectedIsFirst` | console/components/assets/AssetsPage.tsx:68 | of the items of its key, status and date, those before the selected one have lower versions |
| `AssetVersions.SelectedKeys` | console/components/assets/AssetsPage.tsx:65-69 | each selected item comes from the input and has its position's key |
| `AssetVersions.SelectionIsUnique` | console/components/assets/AssetsPage.tsx:65-69 | that description determines the result |
| `AssetVersions.SelectionIsIdempotent` | console/components/assets/AssetsPage.tsx:65-69 | selecting from a selection changes nothing |
| `ProviderKeys.NormalisedIsNormalForm` | console/components/experiments/ExperimentDetailPage.tsx:1974-1978 | normalised ids are letters and digits joined by single underscores |
| `ProviderKeys.KeyIsIdempotent` | console/components/experiments/ExperimentDetailPage.tsx:1973-1989 | the key of a key is the key, for every text |
| `ProviderKeys.KeyExactly` | console/components/experiments/ExperimentDetailPage.tsx:1979-1988 | exactly which normal forms share the keys "custom", "openai" and "anthropic"; any other is its own key |
| `ProviderKeys.NormaliseKeeps` | console/components/experiments/ExperimentDetailPage.tsx:1974-1978 | normalising keeps the letters and digits of the lower-cased name in order |
| `ProviderKeys.CustomProvidersHaveCustomKey` | console/components/assets/ManagedAssetForm.tsx:84-86 | every custom provider id the form builds has the key "custom", empty slugs included |
| `ProviderInstallations.StepKeepsConsistent` | console/components/assets/AssetRegistryPage.tsx:105-118 | every handler keeps: a held fingerprint belongs to a validated payload with nothing cleared since |
| `ProviderInstallations.RunKeepsConsistent` | console/components/assets/AssetRegistryPage.tsx:105-155 | every interleaving of handlers and replies keeps it |
| `ProviderInstallations.EveryCreateWasValidated` | console/components/assets/AssetRegistryPage.tsx:133-155 | each create request serialises like a validated payload, with no failed validation or reset between |
| `ProviderInstallations.PayloadExactly` | console/components/assets/AssetRegistryPage.tsx:126-131 | a payload is built exactly when the form is complete, and which form field goes to which payload field |
| `ProviderInstallations.Component.ApplyTemplate` | console/components/assets/AssetRegistryPage.tsx:109-118 | the four template fields are taken over, the others kept, and the validation is cleared |
| `ProviderInstallations.Component.ValidateConnection` | console/components/assets/AssetRegistryPage.tsx:144-147 | the payload of a complete form is sent; an incomplete one clears the validation |
| `ProviderInstallations.Component.OnValidationReply` | console/components/assets/AssetRegistryPage.tsx:106 | a success records the fingerprint of the payload it answers, however late; a failure clears; the form stays |
| `ProviderInstallations.Component.Submit` | console/components/assets/AssetRegistryPage.tsx:133-142 | a request goes out exactly for a complete form whose payload serialises as the held fingerprint, carries the form's fields, and was validated since the last clearing |
| `ProviderInstallations.Component.OnCreateReply` | console/components/assets/AssetRegistryPage.tsx:105 | a successful create empties name, settings and secrets and clears the validation; a failed one changes neither |
| `GraphWorkspace.QueryRoundTripExactly` | console/components/graph/GraphWorkspace.tsx:40-45 | for a depth that `Number` reads back: the written query restores the view always and the request exactly when its identifiers are trimmed and non-empty and its depth is in range |
| `GraphWorkspace.EmptyQueryRoundTrip` | console/components/graph/GraphWorkspace.tsx:40-45 | without a request the view alone is restored |
| `GraphWorkspace.ReadIsCanonical` | console/components/graph/GraphWorkspace.tsx:85 | whatever the query, a request read from it is canonical |
| `GraphWorkspace.ReadExactly` | console/components/graph/GraphWorkspace.tsx:85 | what other parameters are read as: a missing or odd depth as one or the nearer end of the range, any other direction as both, any other flag as false |
| `GraphWorkspace.StepStaysInStep` | console/components/graph/GraphWorkspace.tsx:46-60 | each handler keeps query and state in step and the depth a whole number in range |
| `GraphWorkspace.RunStaysInStep` | console/components/graph/GraphWorkspace.tsx:46-60 | so does every sequence of handlers |
| `GraphWorkspace.StartIsInStep` | console/components/graph/GraphWorkspace.tsx:30-31 | a query whose depth is whole starts the workspace in step |
| `GraphWorkspace.RunsKeepRangeExactly` | console/components/graph/GraphWorkspace.tsx:46-60 | from a depth in range, every sequence of handlers keeps the range exactly when there is no request or its depth is a whole number |
| `GraphWorkspace.ExpansionsEscape` | console/components/graph/GraphWorkspace.tsx:60 | from every fractional depth repeated expansion passes the maximum |
| `GraphWorkspace.DigitsRoundTrip` | console/components/graph/GraphWorkspace.tsx:43 | one-digit numerals read back the depths one to five |
| `GraphWorkspace.FractionalDepthEscapes` | console/components/graph/GraphWorkspace.tsx:60 | a query with depth 4.5 and one expansion leave the range |
| `GraphWorkspace.Workspace.constructor` | console/components/graph/GraphWorkspace.tsx:30-31 | the initial state is read from the query |
| `GraphWorkspace.Workspace.LoadRequest` | console/components/graph/GraphWorkspace.tsx:46 | the request is shown in the same view and written to the query; in step for canonical requests of whole depth |
| `GraphWorkspace.Workspace.ResetRequest` | console/components/graph/GraphWorkspace.tsx:47 | no request, the same view, in step |
| `GraphWorkspace.Workspace.SwitchView` | console/components/graph/GraphWorkspace.tsx:48 | the new view with the same request, in the query too; in step if it was |
| `GraphWorkspace.Workspace.ExpandRequest` | console/components/graph/GraphWorkspace.tsx:60 | one hop more below depth five, the same view; in step if it was |
| `GraphWorkspace.Workspace.ExploreFromEntity` | console/components/graph/GraphWorkspace.tsx:60 | the entity at depth one with the other settings kept, if a request is loaded |
| `Transactions.Context.CommitOnce` | src/ai_governance/transactions.py:32-36 | calls the connection only while unfinished; finished only by a call that does not raise |
| `Transactions.Context.RollbackOnce` | src/ai_governance/transactions.py:38-42 | likewise for rollback |
| `Transactions.FinishesOnce` | src/ai_governance/transactions.py:28-42 | over every sequence of writes, commits and rollbacks that may raise: at most one finish succeeds, none is called after it, and durable is the initial state plus, for a commit, exactly the writes before it |
| `Transactions.FinishedStaysDurable` | src/ai_governance/transactions.py:32-42 | after a finish nothing becomes durable and the connection is asked nothing more |
| `Leaderboard.RankingIsRanked` | src/ai_governance/services/experiments/ranking_service.py:149-168 | every candidate once, by descending score and among equal scores by descending id, rank equal to position plus one |
| `Texts.LeqExactly` | src/ai_governance/services/experiments/ranking_service.py:157-163 | ids and codes compare by code point: a text comes before another that it begins, or by the first place where they part |
| `Leaderboard.TieChecksAgreeExactly` | console/components/experiments/ExperimentDetailPage.tsx:1776-1778 | on boards of two or more the two tie checks agree exactly when the second entry is level with the first or no later one is |
| `Leaderboard.TieChecksAgreeWhenAdjacent` | console/components/experiments/ExperimentLifecycle.tsx:40-43 | on boards of two or more where equal scores stand together, a unique winner is the absence of a top tie |
| `Leaderboard.ScatteredTieDisagrees` | console/components/experiments/ExperimentDetailPage.tsx:1776-1778 | a board, unlike those the ranking service makes, on which the two checks contradict each other |
| `Leaderboard.TieChecksAgreeOnRankings` | console/components/experiments/ExperimentLifecycle.tsx:40-43 | they agree on every board of the ranking service |
| `Leaderboard.ShownRankIsFirstPlace` | console/components/experiments/ExperimentDetailPage.tsx:1780-1791 | in whatever order the scores stand, with ranks by position every entry shows one plus the position at which its score first occurs, so all entries of one score show one rank |
| `Leaderboard.ShownRankIsCompetitionRank` | console/components/experiments/ExperimentDetailPage.tsx:1780-1791 | on a ranked board the shown rank is one plus the number of better entries |
| `Leaderboard.RecommendedExactly` | console/components/experiments/ExperimentLifecycle.tsx:94-203 | a recommendation is reported exactly for a loaded, completed experiment without failed runs, at least two candidates and no top tie, and then the winner is unique |
| `Leaderboard.VerdictsExactly` | console/components/experiments/ExperimentLifecycle.tsx:117-164 | when no unique winner, a missing comparison or a needed review is reported |

## Left out

- React rendering, styling, dialogs, caching, selection and inspector state, and Keycloak: user interface around the modelled handlers.
- Transport, OAuth and HTTP: a request's fate is a parameter; an exit that is not an `Exception` raised inside the transport itself is not modelled.
- SHA-256 is a parameter with digests of 64 digits, assumed to have no collision among the identities at hand.
- Context attributes whose getters raise: attributes are present or missing.
- EvidenceSession.Session.Execute: programs are sequential; concurrent siblings are covered for logs, in `EvidenceProtocol`, and not for application state.
- ControlPlane.Execution.IngestEvent: tenancy, authorisation, other event types, tool-call conflicts, lateness labels, sequence numbers, timestamps and two writers racing between the lookup and the save are not modelled; the attributes travel inside the step.
- EvidenceAdapter.EmittedFieldsAcceptedExactly: the checks of the source kind and of prohibited attribute names are not modelled; the adapter's are constants that pass them.
- JsonRoundTrip.ValueReadsBack: numbers and constants are kept as lexemes; Python's recursion and integer-digit limits are not modelled.
- DecisionScoring.ScorePassesExactly: `str.upper` and `str` of a value that is not a text are parameters.
- Texts of the console are sequences of Unicode scalar values: JavaScript's lone surrogates are not modelled. Step names with lone surrogates are modelled as the adapter handles them, not how the HTTP libraries encode or refuse them.
- PromptPadding.IncidentPrompt: record templates, opening, evidence and closing sentences are parameters, so the bounds hold for every summary; an unknown length band is not modelled.
- Perturbation.ApplyFrame: paths lead through objects, as the listed ones do; list indices are modelled in the operation but not in the frame, since different tokens can name one index. The provider edits a private deep copy in place; it is modelled on values, so sharing inside one evidence value is not captured. `allowed_values`, `int` of a token beyond a parameter, schema validation and digests are not modelled; numbers are reals.
- SchemaFields.FlattenIsExactlyTheLeaves: the order in which `Object.entries` lists integer-like names is taken as the schema's own order.
- GraphLayout.LayoutNodes: entity ids are unique and depths are naturals, which the model assumes.
- AssetVersions.SelectLogicalAssets: the locale-aware version comparison is a parameter assumed to be a total preorder and dates are integers, since an invalid date makes the comparator intransitive.
- ProviderKeys.KeyIsIdempotent: lower-casing is a parameter applied character by character; the alias table is a finite map without JavaScript's prototype lookup.
- ProviderInstallations.EveryCreateWasValidated: `JSON.parse` and `JSON.stringify` are parameters.
- GraphWorkspace.QueryRoundTripExactly: `Number` and `String` are parameters of which only the depth at hand is assumed to read back; percent-encoding is the browser's.
- GraphWorkspace.RunStaysInStep: loaded requests carry trimmed identifiers and whole depths in range, as entities and the depth selector provide; other requests are loaded as they are.
- Leaderboard.RankingIsRanked: scores are reals, and the error for an experiment without candidates is not modelled.
- The rest of the back end (jobs, replay, policies, approvals, projections), the task and solver registration, configuration and sample data: easy members or other state machines than the ones chosen.
