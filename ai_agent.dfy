/** The agent's guardrail and language router: the guardrail rejects code too short to analyse,
    and the router sends the state to one of five language experts, a generic expert, or the end
    of the graph when an error is set. */
module AiAgent {
  import opened Wrappers
  import opened PyStr

  /** One issue an expert reports. */
  datatype CodeIssue = CodeIssue(
    issueType: string,
    severity: string,
    lineNumber: int,
    description: string,
    fixSuggestion: string)

  /** An expert's analysis of one function. */
  datatype Analysis = Analysis(
    complexityEstimate: string,
    plainEnglishExplanation: string,
    issues: seq<CodeIssue>,
    qualityScore: int)

  /** The state the graph passes from node to node. */
  datatype AgentState = AgentState(
    code: string,
    language: string,
    functionName: string,
    analysis: Option<Analysis>,
    error: Option<string>,
    linterErrors: Option<seq<string>>)

  /** Python truthiness of an optional message: `None` and `""` are false. */
  predicate IsSet(message: Option<string>)
  {
    message.Some? && message.value != ""
  }

  const MinCodeLength := 5
  const TooShortMessage := "Input is too short or empty."

  // ---------------------------------------------------------------------------------------------
  // Guardrail

  /** The `error` the guardrail writes into the state: a message when the code is empty or has
      fewer than five characters once surrounding whitespace is stripped, else `None`. */
  function GuardrailNode(state: AgentState): (error: Option<string>)
    ensures error.Some? <==> |Strip(state.code)| < MinCodeLength
    ensures error.Some? ==> error == Some(TooShortMessage) && IsSet(error)
  {
    if state.code == "" || |Strip(state.code)| < MinCodeLength then Some(TooShortMessage) else None
  }

  /** Whitespace around the code never changes the guardrail's verdict. */
  lemma GuardrailIgnoresPadding(state: AgentState, w1: string, w2: string)
    requires AllSpace(w1) && AllSpace(w2)
    ensures GuardrailNode(state.(code := w1 + state.code + w2)) == GuardrailNode(state)
  {
    StripPadding(w1, state.code, w2);
  }

  /** Code that is only whitespace, or has fewer than five characters, is always rejected. */
  lemma GuardrailRejectsBlankOrShort(state: AgentState)
    requires AllSpace(state.code) || |state.code| < MinCodeLength
    ensures GuardrailNode(state) == Some(TooShortMessage)
  {
    if AllSpace(state.code) {
      StripAllSpace(state.code);
    } else {
      StripShape(state.code);
      var w1, w2 :| AllSpace(w1) && AllSpace(w2) && state.code == w1 + Strip(state.code) + w2;
      assert |Strip(state.code)| <= |state.code|;
    }
  }

  // ---------------------------------------------------------------------------------------------
  // Router

  /** The seven labels `route_language` can return. */
  datatype Route = PythonExpert | CppExpert | JsExpert | JavaExpert | CSharpExpert | GenericExpert | End

  /** The label string of each route, as the graph's edge table names it. */
  function Label(r: Route): (labelText: string)
    ensures labelText in {"python_expert", "cpp_expert", "js_expert", "java_expert", "csharp_expert", "generic_expert", "end"}
  {
    match r
    case PythonExpert => "python_expert"
    case CppExpert => "cpp_expert"
    case JsExpert => "js_expert"
    case JavaExpert => "java_expert"
    case CSharpExpert => "csharp_expert"
    case GenericExpert => "generic_expert"
    case End => "end"
  }

  /** Distinct routes have distinct labels, so a label names its route. */
  lemma LabelsAreDistinct(r1: Route, r2: Route)
    requires Label(r1) == Label(r2)
    ensures r1 == r2
  {
  }

  /** `route_language`: `end` when an error is set, else the expert for the lower-cased language,
      `generic_expert` for any language it does not know. */
  function RouteLanguage(state: AgentState): (r: Route)
    ensures r == End <==> IsSet(state.error)
  {
    if IsSet(state.error) then End
    else
      var lang := Lower(state.language);
      if lang == "python" then PythonExpert
      else if lang in ["cpp", "c++", "c"] then CppExpert
      else if lang in ["javascript", "js", "typescript", "ts"] then JsExpert
      else if lang == "java" then JavaExpert
      else if lang in ["c#", "csharp"] then CSharpExpert
      else GenericExpert
  }

  /** Independent statement of the router's mapping, as a table from lower-cased names. */
  const ExpertTable: map<string, Route> := map[
    "python" := PythonExpert,
    "cpp" := CppExpert, "c++" := CppExpert, "c" := CppExpert,
    "javascript" := JsExpert, "js" := JsExpert, "typescript" := JsExpert, "ts" := JsExpert,
    "java" := JavaExpert,
    "c#" := CSharpExpert, "csharp" := CSharpExpert
  ]

  /** Without an error the route is the table's entry for the lower-cased language, or the
      generic expert; so it depends on the language only through its lower-cased form. */
  lemma RouteFollowsTable(state: AgentState)
    requires !IsSet(state.error)
    ensures Lower(state.language) in ExpertTable ==> RouteLanguage(state) == ExpertTable[Lower(state.language)]
    ensures Lower(state.language) !in ExpertTable ==> RouteLanguage(state) == GenericExpert
  {
  }

  /** Spellings differing only in ASCII case reach the same route. */
  lemma RouteIsCaseInsensitive(s1: AgentState, s2: AgentState)
    requires IsSet(s1.error) == IsSet(s2.error)
    requires Lower(s1.language) == Lower(s2.language)
    ensures RouteLanguage(s1) == RouteLanguage(s2)
  {
  }

  /** Once the guardrail's error is in the state, the graph ends right after the guardrail
      exactly when the code is too short; otherwise the route depends on the language alone. */
  lemma GuardrailThenRoute(state: AgentState)
    ensures RouteLanguage(state.(error := GuardrailNode(state))) == End
        <==> |Strip(state.code)| < MinCodeLength
    ensures |Strip(state.code)| >= MinCodeLength ==>
              RouteLanguage(state.(error := GuardrailNode(state)))
                == (if Lower(state.language) in ExpertTable then ExpertTable[Lower(state.language)] else GenericExpert)
  {
    if |Strip(state.code)| >= MinCodeLength {
      RouteFollowsTable(state.(error := None));
    }
  }

  // ---------------------------------------------------------------------------------------------
  // Outcome of a run

  /** The check `run_agent` makes on the graph's final state: it raises the state's error when
      one is set, and otherwise returns the analysis. */
  function RunAgentOutcome(finalState: AgentState): (r: Result<Option<Analysis>, string>)
    ensures r.Failure? <==> IsSet(finalState.error)
    ensures r.Failure? ==> Some(r.error) == finalState.error
    ensures r.Success? ==> r.value == finalState.analysis
  {
    if IsSet(finalState.error) then Failure(finalState.error.value) else Success(finalState.analysis)
  }

  /** A state the guardrail rejected, if it reaches `run_agent` unchanged, fails with the
      guardrail's message. */
  lemma RejectedStateFails(state: AgentState)
    requires |Strip(state.code)| < MinCodeLength
    ensures RunAgentOutcome(state.(error := GuardrailNode(state))) == Failure(TooShortMessage)
  {
  }
}
