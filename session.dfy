/** One turn of the chat (app.py:35-48, 92-180): the session record that
    Streamlit keeps between runs, its fill-if-missing initialisation, and
    the post-processing of the agent's answer before it is stored and shown.

    The agent call itself is not modelled: its response is an input. */
module ChatSession {
  import opened Common
  import opened Envelope
  import opened Markers
  import opened Citations
  import opened Trace
  import opened CitationPanel

  datatype Role = User | Assistant

  /** `{"role": ..., "content": ...}`. */
  datatype Message = Message(role: Role, content: string)

  /** What `invoke_agent` returns. */
  datatype AgentResponse = AgentResponse(outputText: string, citations: seq<CitationGroup>, trace: TracePayload)

  // ---------------------------------------------------------------------
  // The citation block (app.py:127-175), as meant
  // ---------------------------------------------------------------------

  /** The answer text after the citation block, and the list it stores as
      `citation_nums`. */
  datatype CitedText = CitedText(text: string, citationNums: seq<string>)

  /** The digit strings the rewrite collects in Titan mode, none otherwise. */
  function CollectedMarkers(text: string, titan: bool): seq<string> {
    if titan then RewriteMarkers(text).1 else []
  }

  /** The block for a response with citations: the markers rewritten in
      Titan mode, the keys and locators collected, and the reference list
      appended in ascending key order. */
  function CitedBlock(text: string, groups: seq<CitationGroup>, titan: bool): (r: Result<CitedText>)
    ensures r.Fail? <==> Locate(Flatten(groups), titan, CollectedMarkers(text, titan)).Fail?
    ensures r.Ok? ==> r.value.citationNums == CollectedMarkers(text, titan)
    ensures r.Ok? ==>
      var body := if titan then RewriteMarkers(text).0 else text;
      |r.value.text| > |body| && r.value.text[..|body|] == body
    ensures r.Ok? ==>
      var body := if titan then RewriteMarkers(text).0 else text;
      ListsInKeyOrder(r.value.text, body, Locate(Flatten(groups), titan, CollectedMarkers(text, titan)).value)
    ensures r.Ok? ==>
      var body := if titan then RewriteMarkers(text).0 else text;
      var nums := CollectedMarkers(text, titan);
      (RewriteCollectsDigits(text);
       LocateValidKeys(Flatten(groups), titan, nums);
       r.value.text == WithReferenceList(body, Locate(Flatten(groups), titan, nums).value))
  {
    var body := if titan then RewriteMarkers(text).0 else text;
    var nums := CollectedMarkers(text, titan);
    match Locate(Flatten(groups), titan, nums)
    case Fail(c) => Fail(c)
    case Ok(locs) =>
      RewriteCollectsDigits(text);
      LocateValidKeys(Flatten(groups), titan, nums);
      Ok(CitedText(WithReferenceList(body, locs), nums))
  }

  /** Titan mode succeeds when there are at least as many markers as
      references and every reference of a known type has its field. */
  lemma TitanSucceeds(text: string, groups: seq<CitationGroup>)
    requires |Flatten(groups)| <= |RewriteMarkers(text).1|
    requires forall i :: 0 <= i < |Flatten(groups)| ==> !Resolve(Flatten(groups)[i].location).MissingField?
    ensures CitedBlock(text, groups, true).Ok?
  {
    LocateSucceeds(Flatten(groups), true, RewriteMarkers(text).1);
  }

  /** Sequential mode succeeds whenever every reference of a known type has
      its field. */
  lemma SequentialSucceedsBlock(text: string, groups: seq<CitationGroup>)
    requires forall i :: 0 <= i < |Flatten(groups)| ==> !Resolve(Flatten(groups)[i].location).MissingField?
    ensures CitedBlock(text, groups, false).Ok?
    ensures CitedBlock(text, groups, false).value.citationNums == []
  {
    LocateSucceeds(Flatten(groups), false, []);
  }

  /** The reply as it is stored and shown. */
  datatype Reply = Reply(text: string, titanCitationStyle: bool, citationNums: Option<seq<string>>)

  /** The whole post-processing of one answer (app.py:112-175), with the
      corrected citation block (see `CitedBlockAsWritten` for the block as
      the code runs it). */
  function ProcessReply(outputText: string, parsed: ParsedJson, groups: seq<CitationGroup>): (r: Result<Reply>)
    ensures var u := Unwrap(outputText, parsed);
      && (|groups| == 0 ==> r == Ok(Reply(u.text, u.titanCitationStyle, None)))
      && (r.Ok? ==> r.value.titanCitationStyle == u.titanCitationStyle)
      && (|groups| > 0 ==> (r.Ok? <==> CitedBlock(u.text, groups, u.titanCitationStyle).Ok?))
      && (|groups| > 0 && r.Ok? ==> r.value.citationNums == Some(CollectedMarkers(u.text, u.titanCitationStyle)))
      && (|groups| > 0 && r.Ok? ==> r.value.text == CitedBlock(u.text, groups, u.titanCitationStyle).value.text)
  {
    var u := Unwrap(outputText, parsed);
    if |groups| == 0 then Ok(Reply(u.text, u.titanCitationStyle, None))
    else
      match CitedBlock(u.text, groups, u.titanCitationStyle)
      case Fail(c) => Fail(c)
      case Ok(ct) => Ok(Reply(ct.text, u.titanCitationStyle, Some(ct.citationNums)))
  }

  /** The citation block with its loops, on a response that has citations. */
  method AddCitations(text: string, groups: seq<CitationGroup>, titan: bool) returns (r: Result<CitedText>)
    ensures r == CitedBlock(text, groups, titan)
  {
    var outputText := text;
    var citationNums: seq<string> := [];
    if titan {
      var rewritten := RewriteMarkers(outputText);
      outputText, citationNums := rewritten.0, rewritten.1;
    }
    var citationLocs := CollectLocations(groups, titan, citationNums);
    if citationLocs.Fail? {
      return Fail(citationLocs.crash);
    }
    RewriteCollectsDigits(text);
    LocateValidKeys(Flatten(groups), titan, citationNums);
    var sorted := SortByValue(citationLocs.value);
    outputText := AppendReferenceList(outputText, sorted);
    r := Ok(CitedText(outputText, citationNums));
  }

  // ---------------------------------------------------------------------
  // The citation block as written
  // ---------------------------------------------------------------------

  /** The block as the code runs it: `replace_citation` declares
      `global citation_nums`, and no module-level `citation_nums` exists, so
      the first match raises `NameError`; with no match the local list stays
      empty and the first reference fails at `citation_nums[i]`. */
  function CitedBlockAsWritten(text: string, groups: seq<CitationGroup>, titan: bool): (r: Result<CitedText>)
    ensures titan && |RewriteMarkers(text).1| > 0 ==> r == Fail(NameError("citation_nums"))
    ensures !titan ==> r == CitedBlock(text, groups, false)
  {
    if titan && |RewriteMarkers(text).1| > 0 then Fail(NameError("citation_nums"))
    else
      match Locate(Flatten(groups), titan, [])
      case Fail(c) => Fail(c)
      case Ok(locs) =>
        LocateValidKeys(Flatten(groups), titan, []);
        Ok(CitedText(WithReferenceList(text, locs), []))
  }

  /** As written, Titan mode fails on every response with a retrieved
      reference, whatever its markers. */
  lemma TitanAsWrittenFails(text: string, groups: seq<CitationGroup>)
    requires |Flatten(groups)| > 0
    ensures CitedBlockAsWritten(text, groups, true).Fail?
  {
    if |RewriteMarkers(text).1| == 0 {
      LocateFailsWithoutMarker(Flatten(groups), []);
    }
  }

  /** The discrepancy: an answer with one marker per reference, all of
      whose references have their fields, is processed by the intended block
      and rejected by the block as written. */
  lemma TitanDiscrepancy(text: string, groups: seq<CitationGroup>)
    requires 0 < |Flatten(groups)| <= |RewriteMarkers(text).1|
    requires forall i :: 0 <= i < |Flatten(groups)| ==> !Resolve(Flatten(groups)[i].location).MissingField?
    ensures CitedBlock(text, groups, true).Ok?
    ensures CitedBlockAsWritten(text, groups, true) == Fail(NameError("citation_nums"))
  {
    TitanSucceeds(text, groups);
  }

  // ---------------------------------------------------------------------
  // `st.session_state`
  // ---------------------------------------------------------------------

  /** The chat part of `st.session_state`; a field is `None` while its key is
      missing. */
  class Session {
    var sessionId: Option<string>
    var messages: Option<seq<Message>>
    var citationNums: Option<seq<string>>
    var citations: Option<seq<CitationGroup>>
    var titanCitationStyle: Option<bool>
    var trace: Option<TracePayload>

    /** A fresh browser session: no key is set. */
    constructor ()
      ensures sessionId == None && messages == None && citationNums == None
      ensures citations == None && titanCitationStyle == None && trace == None
    {
      sessionId, messages, citationNums := None, None, None;
      citations, titanCitationStyle, trace := None, None, None;
    }

    predicate Initialized()
      reads this
    {
      && sessionId.Some? && messages.Some? && citationNums.Some?
      && citations.Some? && titanCitationStyle.Some? && trace.Some?
    }

    /** `init_session_state`: every missing key gets its default and every
      present key keeps its value; `freshId` stands for `str(uuid.uuid4())`. */
    method InitSessionState(freshId: string)
      modifies this
      ensures Initialized()
      ensures sessionId == if old(sessionId).Some? then old(sessionId) else Some(freshId)
      ensures messages == if old(messages).Some? then old(messages) else Some([])
      ensures citationNums == if old(citationNums).Some? then old(citationNums) else Some([])
      ensures citations == if old(citations).Some? then old(citations) else Some([])
      ensures titanCitationStyle == if old(titanCitationStyle).Some? then old(titanCitationStyle) else Some(false)
      ensures trace == if old(trace).Some? then old(trace) else Some(map[])
      ensures old(Initialized()) ==> unchanged(this)
    {
      var id, ms, nums, cs, titan, tr := sessionId, messages, citationNums, citations, titanCitationStyle, trace;
      if id.None? {
        id := Some(freshId);
      }
      if ms.None? {
        ms := Some([]);
      }
      if nums.None? {
        nums := Some([]);
      }
      if cs.None? {
        cs := Some([]);
      }
      if titan.None? {
        titan := Some(false);
      }
      if tr.None? {
        tr := Some(map[]);
      }
      sessionId, messages, citationNums, citations, titanCitationStyle, trace := id, ms, nums, cs, titan, tr;
    }

    /** The "Reset Q&A Session" button (app.py:89-90) calls
        `init_session_state` on a session that is already initialised, so
        it changes nothing. */
    method ResetSession(freshId: string)
      requires Initialized()
      modifies this
      ensures Initialized() && unchanged(this)
    {
      InitSessionState(freshId);
    }

    /** The chat-input block (app.py:98-180) on a response of the agent: the
        user's message is stored first and Titan style is decided; an
        exception in the citation block ends the run there, before the
        answer, the citations and the trace are stored. The block is the
        corrected `CitedBlock`; with `CitedBlockAsWritten` every Titan turn
        with a reference ends in that exception (`TitanAsWrittenFails`). */
    method HandleTurn(prompt: string, response: AgentResponse, parsed: ParsedJson) returns (r: Result<string>)
      requires Initialized()
      modifies this
      ensures Initialized() && sessionId == old(sessionId)
      ensures var reply := ProcessReply(response.outputText, parsed, response.citations);
        && titanCitationStyle == Some(Unwrap(response.outputText, parsed).titanCitationStyle)
        && messages == Some(old(messages).value + [Message(User, prompt)]
                            + (if reply.Ok? then [Message(Assistant, reply.value.text)] else []))
        && (reply.Ok? ==> r == Ok(reply.value.text))
        && (reply.Fail? ==> r == Fail(reply.crash))
        && (reply.Ok? ==> citations == Some(response.citations) && trace == Some(response.trace))
        && (reply.Fail? ==> citations == old(citations) && trace == old(trace))
        && citationNums == (if reply.Ok? && reply.value.citationNums.Some? then reply.value.citationNums else old(citationNums))
    {
      messages := Some(messages.value + [Message(User, prompt)]);
      titanCitationStyle := Some(false);
      var u := Unwrap(response.outputText, parsed);
      ghost var reply := ProcessReply(response.outputText, parsed, response.citations);
      var outputText := u.text;
      titanCitationStyle := Some(u.titanCitationStyle);
      if |response.citations| > 0 {
        var block := AddCitations(outputText, response.citations, u.titanCitationStyle);
        if block.Fail? {
          assert reply == Fail(block.crash);
          assert messages.value == old(messages).value + [Message(User, prompt)] + [];
          return Fail(block.crash);
        }
        assert reply == Ok(Reply(block.value.text, u.titanCitationStyle, Some(block.value.citationNums)));
        citationNums := Some(block.value.citationNums);
        outputText := block.value.text;
      } else {
        assert reply == Ok(Reply(outputText, u.titanCitationStyle, None));
      }
      messages := Some(messages.value + [Message(Assistant, outputText)]);
      citations := Some(response.citations);
      trace := Some(response.trace);
      r := Ok(outputText);
    }

    /** The trace section of the sidebar, from the stored trace. */
    method ShowTrace() returns (r: Result<seq<PhaseView>>)
      requires Initialized()
      ensures r == Views(GroupsByType(trace.value), TraceTypesMap, 1)
    {
      r := RenderTrace(trace.value);
    }

    /** The citations section of the sidebar, from the stored citations,
        Titan style and `citation_nums`. */
    method ShowCitations() returns (r: Result<Panel>)
      requires Initialized()
      ensures r == PanelOf(citations.value, titanCitationStyle.value, citationNums.value)
    {
      r := RenderCitations(citations.value, titanCitationStyle.value, citationNums.value);
    }
  }
}
