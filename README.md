# Bedrock agent chat front end: a Dafny model

This project models the logic of a Streamlit chat front end for an Amazon
Bedrock agent. There are two pieces.

- **`app.py`.** The page runs the agent's answer through a small pipeline before it shows it:
  - an optional JSON envelope from Titan-based agents is unwrapped;
  - Titan's `%[n]%` citation markers are rewritten to superscripts;
  - one locator per citation key is collected, first reference wins;
  - a reference list sorted by integer key is appended.

  The sidebar groups the agent's trace events into numbered steps and labels each retrieved reference "Citation [k] - Reference N".
- **`services/auth.py`.** This keeps a small login state in the browser session (login, logout, and a 60-minute idle timeout). It also checks a verified Google identity against an allowlist of domains.

The modules follow the program:

| module | file | what |
|---|---|---|
| `Common` | `common.dfy` | `Option`, `Result` and `Crash` (the Python exceptions the code can raise), digit strings, `str(n)`, substring search, `str.split` |
| `Envelope` | `envelope.dfy` | the JSON-envelope decision |
| `Markers` | `markers.dfy` | the `%\[(\d+)\]%` rewrite, specified by a scanner proved to be the unique leftmost non-overlapping reading |
| `Citations` | `citations.dfy` | location-type dispatch, keying, the first-wins loop, the sort by `int(key)` and the trailing list |
| `Trace` | `trace.dfy` | grouping trace events by trace id and numbering the steps across phases |
| `CitationPanel` | `citation_panel.dfy` | the sidebar's per-key "Reference N" counter |
| `ChatSession` | `session.dfy` | the session record (`st.session_state`), its fill-if-missing initialisation, and the handling of one chat turn |
| `Auth` | `auth.dfy` | the auth state machine, and the allowed-domain check |

Python exceptions are modelled as results: `Fail(KeyError(k))`, `Fail(IndexError)`, `Fail(TypeError)` and `Fail(NameError(n))`.

- An exception that ends the Streamlit run becomes a failed result.
- An exception the code catches, as `verify_oauth_token` does, becomes the value the handler returns.

Each loop of the source is a `method` whose `ensures` ties its result to a specification function. The properties are proved about that function.

Facts the model settles:

- **Timeout.** It is 60 minutes and strict: exactly 60 minutes after the last activity the session is still valid. The comment at `services/auth.py:81` says 30 minutes.
- **Titan mode.** It is switched on by the literal substring `%[X]%` in the instruction, as `app.py:122` tests. It is not switched on by a digit marker.
- **Sort.** `sorted` is stable. Keys with the same integer value, such as "3" and "03", keep their insertion order.
- **Key types.** In sequential mode the reply keys are integers (`i + 1`) and the sidebar keys are strings (`f"{i + 1}"`). In Titan mode both are the collected digit strings.

## Model

| member | source | states |
|---|---|---|
| Envelope.Unwrap | app.py:116-124 | with both `instruction` and `result` the text is `result` and Titan style is on exactly when `%[X]%` occurs in the instruction; otherwise (no envelope or a decode error) the text is unchanged and Titan style is off |
| Envelope.HasEnvelope | app.py:119-120 | the answer decoded as a JSON object with both `instruction` and `result` |
| Markers.MarkerAt | app.py:139 | a recognised match is `%[`, a non-empty digit run, `]%` at the start of the text |
| Markers.ScanRender | app.py:139 | the scanner's cut puts the text back together unchanged, so text outside the matches is preserved |
| Markers.ScanCanonical | app.py:139 | the scanner's cut is leftmost and non-overlapping: every marker is a real match and no plain character starts one |
| Markers.ScanUnique | app.py:139 | every leftmost non-overlapping cut of a text is the scanner's cut |
| Markers.Scan | app.py:139 | the cut the search makes, left to right: a `%[digits]%` match at the current position is one marker piece and is skipped whole, any other character is one plain piece |
| Markers.Superscripted | app.py:136-139 | the text the substitution returns: plain characters unchanged, each marker with digits `d` replaced by `<sup>[d]</sup>` |
| Markers.MarkerDigits | app.py:134-135 | the digit strings of the markers in encounter order, as `citation_nums.append` collects them |
| Markers.RewriteMarkers | app.py:132-139 | the rewritten text and the collected list come from a canonical cut of the input: each match `%[d]%` becomes `<sup>[d]</sup>` and the list holds the digit strings `d` in encounter order |
| Markers.MarkerDigitsAreDigits | app.py:134-135 | every collected entry of a canonical cut is a non-empty digit string |
| Markers.RewriteCollectsDigits | app.py:132-139 | every entry the rewrite collects is a non-empty digit string, so `int(key)` at the sort accepts it |
| Markers.ScanWithoutPercent | app.py:139 | a cut whose plain characters contain no `%` is the scan of its text |
| Markers.ScanShape | app.py:139 | an answer of the form `a %[d1]% b %[d2]% c %[d3]%` (one space between each plain character and the marker beside it, none after the last marker; `a`, `b`, `c` not `%`, each `d` a non-empty digit string) is cut into its plain characters and its three markers |
| Markers.ScanExample | app.py:139 | the cut of "A %[3]% B %[3]% C %[7]%" has the markers 3, 3 and 7 in place |
| Markers.RewriteExample | app.py:132-139 | "A %[3]% B %[3]% C %[7]%" collects ["3", "3", "7"] |
| Citations.FlattenIndex | app.py:143-144 | the j-th reference of group g is reference number n + j of the flattened sequence, n being the number of references in the earlier groups |
| Citations.Flatten | app.py:143-144 | all retrieved references, group by group and within a group in order, as the nested loops visit them |
| Citations.LocatorField | app.py:150-168 | a field is read for exactly the eight known location types |
| Citations.Resolve | app.py:150-168 | an unknown type is reported with its tag, a known type yields the one field of its location record, and a missing record or field is a `KeyError` |
| Citations.ResolveTable | app.py:151-166 | CONFLUENCE, SALESFORCE, SHAREPOINT and WEB read `url`; CUSTOM reads `id`; KENDRA and S3 read `uri`; SQL reads `query` |
| Citations.KeyAt | app.py:145-147 | the key of reference i is `i + 1` in sequential mode, and `citation_nums[i]` in Titan mode, failing with `IndexError` past its end |
| Citations.HasKey | app.py:148 | `citation_num in citation_locs.keys()`: some entry has the key |
| Citations.LocateStep | app.py:145-168 | one pass of the inner loop body for reference `i`: its key, or `IndexError` in Titan mode past the markers; a key already present leaves the entries alone; otherwise a known type appends the key with its locator, an unknown type adds nothing, and a missing location record or field is a `KeyError` |
| Citations.Locate | app.py:141-169 | `citation_locs` after the nested loop: the step applied to the flattened references in order, `i` counting every reference, the first exception ending the loop |
| Citations.SequentialKeyOf | app.py:141-169 | in sequential mode the j-th reference of group g gets key n + j + 1, n being the number of references in the earlier groups |
| Citations.SequentialKeysExample | app.py:141-169 | groups of 2 and 1 references get keys 1, 2, 3 in group order |
| Citations.LocateFailurePersists | app.py:141-169 | an exception at some reference ends the loop: later references do not change the outcome |
| Citations.LocateKeepsFound | app.py:148-168 | after the loop every reference's key is present unless its type is unknown, so the counter `i` advances over duplicates and unknown types alike |
| Citations.LocateFirstWins | app.py:148-168 | the keys are distinct, and each entry's locator comes from the first reference with that key whose type is known; earlier references with that key all had unknown types; the entries are in first-seen order |
| Citations.LocateUnknownOnly | app.py:167-168 | a successful loop over references of unknown types only adds no entry (that such a loop does not stop is Citations.LocateSucceeds) |
| Citations.LocateFailsWithoutMarker | app.py:147-157 | in Titan mode, more references than collected markers fails: `IndexError` at the first reference past the markers, unless an earlier reference's missing field raises `KeyError` first |
| Citations.LocateCrashes | app.py:141-169 | the loop raises only `IndexError` or the `KeyError` of a missing field; with no field missing, only `IndexError` |
| Citations.LocateIndexErrorWithoutMarker | app.py:147 | in Titan mode with no field missing, more references than markers is exactly an `IndexError` |
| Citations.LocateSucceeds | app.py:141-169 | the loop succeeds when every known-type reference has its field and, in Titan mode, there is a marker for every reference |
| Citations.LocateValidKeys | app.py:170 | every collected key has an integer value when the markers are digit strings |
| Citations.CollectGroup | app.py:144-169 | the inner loop over one group's references continues the specification from the state it is given |
| Citations.CollectLocations | app.py:141-169 | the nested loop builds exactly the specified key-to-locator entries, or the exception it raises |
| Citations.KeyValueOfText | app.py:170 | `int` of a key's text is the key's integer value |
| Citations.KeyValue | app.py:170 | `int(item[0])`: the integer of a sequential key, the decimal value of a Titan digit string |
| Citations.KeyText | app.py:175 | `f"{citation_num}"`: the decimal text of a sequential key, a Titan key's digits as collected |
| Citations.InsertByValue | app.py:170 | the entry inserted after every entry whose integer key is not larger, the step of a stable insertion sort |
| Citations.SortByValue | app.py:170 | `sorted(..., key=lambda item: int(item[0]))` as a stable insertion sort of the entries |
| Citations.SortPermutes | app.py:170 | sorting keeps every entry: the result is a permutation |
| Citations.SortSorted | app.py:170 | the sorted entries ascend by integer key |
| Citations.SortStable | app.py:170 | entries with equal integer keys keep their relative order, as Python's `sorted` does |
| Citations.SortExample | app.py:170 | retrieval keys 5, 1, 3 are listed 1, 3, 5 |
| Citations.ReferenceLine | app.py:175 | the line `\n<br>[key] locator` of one entry |
| Citations.ReferenceLines | app.py:174-175 | the lines of the entries, concatenated in their order |
| Citations.ReferenceLinesSplit | app.py:174-175 | the list holds each entry's line `\n<br>[k] loc` in place, after those of the entries before it |
| Citations.WithReferenceList | app.py:170-175 | the result is the answer text, a newline and the lines of a list of the entries that is a permutation of them, ascends by integer key and keeps the order of entries with equal keys; the answer text is a proper prefix of it |
| Citations.AppendReferenceList | app.py:173-175 | the loop appends `\n` and then one `\n<br>[k] loc` line per entry, in order |
| Trace.FirstPresent | app.py:215-222 | the first info key of the declared order that the event has, or none when it has none |
| Trace.TraceTypesMap | app.py:184-188 | `trace_types_map` in declared order: Pre-Processing (`preGuardrailTrace`, `preProcessingTrace`), Orchestration (`orchestrationTrace`), Post-Processing (`postProcessingTrace`, `postGuardrailTrace`) |
| Trace.InfoTypes | app.py:190-194 | `trace_info_types_map`: the info keys of the three processing trace types in declared order (`PreProcessingInfo`, `OrchestrationInfo`, `PostProcessingInfo`), none for the guardrail types |
| Trace.Find | app.py:218 | the position of an id in the dictionary, absent exactly when the id is not a key |
| Trace.InfoId | app.py:217 | `trace[trace_info_type]["traceId"]`: the id of an object member; an object without `traceId` is a `KeyError`, and a string member a `TypeError` (a string indexed by a string) |
| Trace.GuardrailId | app.py:224-225 | `trace["traceId"]` as a dictionary key: a missing id is a `KeyError`, an object id a `TypeError` (unhashable) |
| Trace.EventKey | app.py:213-224 | the id an event is grouped under: for an info type, the id of the first of its info keys the event has, or none (the event is dropped); for any other type, its own `traceId`; errors as for the two reads above |
| Trace.AppendTo | app.py:218-221 | a new id is added at the end with the one event; an existing id keeps its place and gets the event appended |
| Trace.Assign | app.py:224-229 | `trace_steps[trace_id] = [...]`: an existing id keeps its place and its items are replaced; a new id goes at the end |
| Trace.AddEvent | app.py:213-229 | one pass of the event loop: an info type appends the event under its id, any other type replaces its id's items by the event wrapped as `{trace_type: trace}`, a dropped event changes nothing, and a failed read is the exception |
| Trace.Grouped | app.py:209-229 | `trace_steps` after the loop over one trace type's events: the pass applied to the events in order, the first exception ending the loop |
| Trace.FindInfoKey | app.py:215-222 | the loop with `break` finds the first info key present |
| Trace.GroupedFailsIff | app.py:211-229 | the grouping fails exactly when some event lacks its `traceId` or has an id of the wrong kind |
| Trace.GroupedMeaning | app.py:209-229 | the dictionary's ids are the events' kept ids in first-seen order, and each id's items are the events with that id: all of them in order for info types, the last one wrapped as `{traceType: event}` for guardrail types |
| Trace.GroupedSteps | app.py:209-229 | the step ids are distinct and each step holds what the reference definition says for its id |
| Trace.DroppedEvent | app.py:213-222 | an event of an info type that carries none of its info keys is dropped |
| Trace.GroupTraceEvents | app.py:209-229 | the loop over one trace type's events builds exactly the specified dictionary |
| Trace.GroupedFailurePersists | app.py:211-229 | an exception at some event ends the loop |
| Trace.PhaseStepsNumbered | app.py:232-237 | the steps of a phase are numbered consecutively from the counter's value |
| Trace.PhaseStepsAbsent | app.py:205-208 | a phase none of whose trace types is present has no steps |
| Trace.AnyPresentIff | app.py:205-208 | `has_trace` is set exactly when some trace type of the phase is a key of the trace |
| Trace.AnyPresent | app.py:205-208 | `has_trace` after the loop over a phase's trace types: one of them is a key of the trace |
| Trace.GroupsByType | app.py:206-229 | the grouping of each trace type present in the trace, computed from that type's events |
| Trace.TypeGroups | app.py:206-209 | the groups of one trace type; a type absent from the trace contributes none |
| Trace.Numbered | app.py:232-237 | one step per id of a grouping, in the dictionary's order, numbered consecutively from the counter |
| Trace.PhaseSteps | app.py:206-237 | the steps of one phase: for each of its trace types in order, one step per id of that type's grouping (none when the type is absent), numbered on from the counter |
| Trace.PhaseViewOf | app.py:201-239 | one phase of the sidebar: its header, whether one of its trace types is present (otherwise "None" is shown), and its steps |
| Trace.Views | app.py:200-239 | the sidebar for a list of phases in order, one counter shared by all and advanced by each phase's steps |
| Trace.PhaseViewFacts | app.py:201-239 | a phase's view carries its header, shows "None" exactly when none of its trace types is present (and then has no steps), and numbers its steps on from the counter |
| Trace.ViewsHeaders | app.py:201-202 | one view per phase, in the order of the phases, each under its phase's header |
| Trace.ViewsNumbered | app.py:200-237 | over the three phases in order, the steps are numbered 1, 2, 3, … by one shared counter |
| Trace.ViewsNone | app.py:205-239 | a phase shows "None" exactly when none of its trace types is present, and then it has no steps |
| Trace.RenderPhase | app.py:205-237 | the loop over a phase's trace types yields its steps, `has_trace`, and the counter advanced by one per step |
| Trace.NumberSteps | app.py:232-237 | the loop over the dictionary's ids appends one step per id, numbered on from the counter, and advances the counter by the number of ids |
| Trace.RenderPhases | app.py:200-239 | the loop over any list of phases, with the counter starting at 1, yields exactly the specified views |
| Trace.ViewsFailurePersists | app.py:200-239 | an exception in one phase ends the trace section |
| Trace.RenderTrace | app.py:196-239 | the loop over the phases yields exactly the specified views |
| CitationPanel.PanelKey | app.py:247-249 | the sidebar key of reference i is the string of `i + 1`, or `citation_nums[i]` in Titan mode, failing past its end |
| CitationPanel.GroupCited | app.py:245-258 | the references of one citation, each paired with that citation's `generatedResponsePart` |
| CitationPanel.AllCited | app.py:245-258 | the references of all citations in loop order, each with its own citation's generated part |
| CitationPanel.Count | app.py:250-253 | `unique_citation_counts` after one more reference with key `k`: 1 for a new key, one more for a seen key |
| CitationPanel.LabelStep | app.py:246-262 | one pass of the inner loop: the key of reference `i` (or `IndexError` past the stored markers in Titan mode), its count updated, and the label `Citation [k] - Reference N` with the group's generated part and the reference |
| CitationPanel.Labels | app.py:244-263 | the labels and the counts after the loop over all references in order, the first exception ending it |
| CitationPanel.PanelOf | app.py:241-265 | "None" without citations, otherwise the labels of all references |
| CitationPanel.LabelsFollow | app.py:244-263 | one label per reference, in order, each with its key, its group's generated part and its reference |
| CitationPanel.LabelsCount | app.py:250-254 | `unique_citation_counts` holds for each key the number of labels with it, and each label's N is one more than the number of earlier labels with its key |
| CitationPanel.ReferenceNumbers | app.py:250-254 | N is at least 1 and strictly increases over the labels of one key |
| CitationPanel.SequentialAllFirst | app.py:247-254 | in sequential mode every key occurs once, so every label says "Reference 1" |
| CitationPanel.LabelsFailWithoutMarker | app.py:249 | in Titan mode, more references than stored markers is an `IndexError` |
| CitationPanel.LabelsCrashes | app.py:245-263 | the only exception the panel raises is `IndexError` at a key past the stored markers |
| CitationPanel.LabelsFailurePersists | app.py:245-263 | an exception at some reference ends the panel |
| CitationPanel.CountReference | app.py:250-253 | the count of the key is set to 1 or incremented, so it is at least 1 |
| CitationPanel.LabelReference | app.py:246-254 | one pass of the inner loop: the key of reference i, its count, and the label, or `IndexError` in Titan mode past the stored markers |
| CitationPanel.LabelGroup | app.py:246-263 | the inner loop over a group's references continues the specification |
| CitationPanel.RenderCitations | app.py:241-265 | the section is "None" without citations, and otherwise the specified labels |
| ChatSession.CitedBlock | app.py:127-175 | the block fails exactly when the key loop does; it stores the collected markers; its text is the (rewritten) answer followed by the reference list of the collected entries, sorted stably by integer key |
| ChatSession.CollectedMarkers | app.py:128-139 | `citation_nums` as the block leaves it: the digit strings the Titan rewrite collects, empty in sequential mode |
| ChatSession.TitanSucceeds | app.py:138-170 | Titan mode succeeds when there are at least as many markers as references and no known-type field is missing |
| ChatSession.SequentialSucceedsBlock | app.py:141-171 | sequential mode succeeds when no known-type field is missing, and stores an empty `citation_nums` |
| ChatSession.ProcessReply | app.py:112-175 | without citations the unwrapped text is shown unmodified; otherwise the reply exists exactly when the citation block succeeds, and its text and markers are the block's; Titan style is the envelope's. It uses the corrected block of "## Findings": with the block as written, Titan mode fails on every response with a reference (ChatSession.TitanAsWrittenFails) |
| ChatSession.AddCitations | app.py:127-175 | the citation block with its loops computes exactly the specified reply block |
| ChatSession.CitedBlockAsWritten | app.py:132-147 | as written, Titan mode with any marker raises `NameError` in `replace_citation`; sequential mode agrees with the intended block |
| ChatSession.TitanAsWrittenFails | app.py:132-147 | as written, Titan mode fails on every response with a reference |
| ChatSession.TitanDiscrepancy | app.py:132-147 | with a marker per reference the intended block succeeds while the written one raises `NameError` |
| ChatSession.Session.InitSessionState | app.py:35-48 | each of the six keys is set to its default only when missing; an initialised session is left unchanged |
| ChatSession.Session.ResetSession | app.py:89-90 | "Reset Q&A Session" on an initialised session changes nothing |
| ChatSession.Session.HandleTurn | app.py:98-179 | the user's message is appended first; on success the processed answer is appended and the citations, trace and (with citations) `citation_nums` are stored; on an exception only the user's message and the Titan flag change. It uses the corrected block of "## Findings": with the block as written, a Titan turn with a reference always ends in the exception (ChatSession.TitanAsWrittenFails) |
| ChatSession.Session.ShowTrace | app.py:182-239 | the trace section is the specified views of the stored trace |
| ChatSession.Session.ShowCitations | app.py:241-265 | the citation section is the specified panel of the stored citations |
| Auth.CheckAuthSpec | services/auth.py:73-90 | not authenticated: false and nothing changes; authenticated and idle more than 60 minutes: false and the initial state; otherwise (including no recorded activity) true and the last activity becomes now |
| Auth.TimeoutMicros | services/auth.py:84 | `timedelta(minutes=60)` in microseconds |
| Auth.InitialRecord | services/auth.py:67-71 | the initial `auth_state`: not authenticated, no user, no last activity |
| Auth.Expired | services/auth.py:82-84 | more than 60 minutes since the last activity; exactly 60 minutes is not expired |
| Auth.CheckAll | services/auth.py:73-90 | `check_auth` called at each of the times in turn, the state carried from one call to the next; true when every call returned true |
| Auth.LoginSpec | services/auth.py:92-96 | authenticated, with the user and the last activity set to now |
| Auth.OperationsKeepConsistent | services/auth.py:64-104 | init, check, login and logout keep "authenticated implies a user and a last activity" |
| Auth.SixtyMinutesStillValid | services/auth.py:82-86 | exactly 60 minutes idle is still valid |
| Auth.JustOverSixtyMinutesExpires | services/auth.py:82-86 | one microsecond over 60 minutes expires and resets the state |
| Auth.ActiveSessionStaysValid | services/auth.py:73-90 | checks each within 60 minutes of the previous activity keep the session valid indefinitely, the last one recorded |
| Auth.ResetStaysOut | services/auth.py:78-79 | from the initial state every check fails and changes nothing until a login |
| Auth.LoginAgain | services/auth.py:92-96 | a second login only refreshes the user and the time |
| Auth.AuthState.constructor | services/auth.py:67-71 | a new state is not authenticated, with no user and no activity |
| Auth.AuthStore.InitAuthState | services/auth.py:64-71 | an initial state is created only when none exists; an existing one is kept |
| Auth.AuthStore.Logout | services/auth.py:98-104 | the state is replaced by a fresh initial one, whatever it was, so logout is idempotent |
| Auth.AuthStore.Login | services/auth.py:92-96 | the stored state is overwritten in place as specified |
| Auth.AuthStore.CheckAuth | services/auth.py:73-90 | creates the state if missing, then returns and leaves exactly what the specification says |
| Auth.AllowedDomains | services/auth.py:17 | the comma-separated entries, which rejoin to the configuration and contain no comma |
| Auth.Restricted | services/auth.py:50 | `self.allowed_domains and self.allowed_domains[0]`: the list is non-empty and its first entry is not empty |
| Auth.VerifyIdentity | services/auth.py:43-62 | an identity is returned exactly when the token verified, an email is present, and (when the list restricts) the email has a second `@`-part that is a listed entry; its name defaults to "User" and its picture may be absent |
| Auth.DomainOfAddress | services/auth.py:51 | `email.split('@')[1]` of `local@domain…` is `domain` |
| Auth.AllowlistDecides | services/auth.py:50-53 | with a restricting list, `local@domain` is accepted exactly when `domain` is a listed entry, compared as written |
| Auth.AllowlistNeedsAt | services/auth.py:51 | with a restricting list, an address without `@` is refused |
| Auth.EmptyConfigAcceptsAll | services/auth.py:17 | an empty configuration gives `['']`, which accepts every identity with an email |
| Auth.ConfiguredListRestricts | services/auth.py:50 | a configuration whose first entry is non-empty restricts |

## Left out

- Streamlit rendering is left out, because it is presentation only. This covers titles, columns, expanders, `st.markdown`/`st.code`, `st.rerun` and the login page. The model stops at the values these widgets would show.
- `bedrock_agent_runtime.invoke_agent` is not part of this model; it is a network call. Its response is an input of `HandleTurn`.
- `json.loads(output_text, strict=False)` is an input of type `Option<map<string, string>>`. `None` stands for a `JSONDecodeError`. Two JSON cases are left out:
  - a non-object top level, and a `TypeError` from the `in` test on it;
  - non-string `instruction` and `result` values.
- `json.dumps` pretty-printing of trace events and citations is left out, because it is a library call. The model keeps the objects that would be printed.
- The regular-expression engine is replaced by a hand-written scanner. That scanner is proved to be the unique leftmost, non-overlapping reading.
  - `\d` is taken as ASCII digits. Python also matches other Unicode decimal digits.
- Markers.RewriteMarkers: the rewritten text of the example answer is not computed concretely. Only its collected list is.
- Trace events are maps whose members are strings or objects of strings, which is all the grouping reads. Other JSON values are left out.
- The `logger.warning` for an unknown location type (app.py:168) is left out, since it is logging only. The model keeps its effect on the loop: no entry is added.
- Citations are typed records (`CitationGroup`, `RetrievedReference`, `Location`). They cannot represent a citation without `retrievedReferences`, a reference without `location` or a location without `type`. Each of those is a `KeyError` at app.py:144, 150 and 246. A missing `generatedResponsePart`, a `KeyError` at app.py:257, cannot be represented either, nor a non-string one. Nor can a locator field whose value is not a string, which the f-strings at app.py:152-166 would pass through `str()`. A location that lacks its type's record or field is modelled, as a `KeyError`.
- Citations.KeyValue: `int()` of any digit string is its value. Python 3.11 and later, and the 3.10.7 and later security releases, raise `ValueError` at app.py:170 for a string of more than 4300 digits; a Titan marker that long is not modelled as a failure.
- Google OAuth is left out, since these are foreign calls and network I/O. This covers `create_oauth_flow`, the token fetch, `id_token.verify_oauth2_token` and the `auth_callback` page. A failed verification is the `None` input of `VerifyIdentity`.
  - Auth.VerifyIdentity: the `st.error` message on failure is not modelled.
- `GoogleWorkspaceAuth.__init__`'s checks of the client id and secret are left out; they are configuration only.
- Logging, YAML and dotenv configuration and the environment variables of `app.py:13-32` are left out, because they are configuration.
- `uuid.uuid4()` is an injected session id.
- `datetime.now()` is an injected clock in microseconds.
  - Auth.AuthStore.CheckAuth: `check_auth` reads the clock twice (`services/auth.py:83` and `:89`). The model uses one reading for both.
- `main()` (`app.py:267-288`) only calls the modelled operations in sequence. That sequence is left out: auth init, session init, login from the callback, the auth check, and the page.
- The welcome name and picture in the sidebar are left out, because they are presentation.

## Findings

| source | as written | input that shows it | evidently intended | confidence | as-written member | corrected member |
|---|---|---|---|---|---|---|
| app.py:128-147 | `replace_citation` declares `global citation_nums`, but the list is a local of `render_main_app` and no module-level `citation_nums` exists. The first match raises `NameError`; with no match the local list stays empty and `citation_nums[0]` raises `IndexError`. | a Titan envelope whose instruction contains `%[X]%`, with result "A %[1]%" and one retrieved reference | the collected list holds the matched digit strings in encounter order and keys the references; `IndexError` only when there are more references than markers | not executed | ChatSession.CitedBlockAsWritten (with ChatSession.TitanAsWrittenFails, ChatSession.TitanDiscrepancy) | ChatSession.CitedBlock |
