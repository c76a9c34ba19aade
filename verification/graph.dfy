/** The compiled graph: router node, conditional edge table from the
    router's `"next"` value to a handler node, the handler, then the
    printer. The run is strictly linear and runs exactly one handler. */
module Graph {
  import opened Wrappers
  import opened Router
  import opened Nodes

  /** The router node: it leaves the record alone and only names the next
      node, which is always a key of the edge table. */
  function RouterNode(s: AgentState): (next: string)
    ensures next in Edges
    ensures Parse(next) == Some(Route(s.inputText))
  {
    Name(Route(s.inputText))
  }

  /** The mapping given to `add_conditional_edges`: router value to node name. */
  const Edges: map<string, string> :=
    map["math" := "math", "summarizer" := "summarizer",
        "translator" := "translator", "fallback" := "fallback"]

  /** The handler nodes registered with `add_node`, looked up by name. */
  function InvokeNode(name: string, llm: Backend, s: AgentState): (r: Option<AgentState>)
    ensures r.Some? <==> Parse(name).Some?
    ensures r.Some? ==> r.value.lastNode == name && r.value.inputText == s.inputText
  {
    if name == "math" then Some(MathNode(llm, s))
    else if name == "summarizer" then Some(SummarizerNode(llm, s))
    else if name == "translator" then Some(TranslatorNode(llm, s))
    else if name == "fallback" then Some(FallbackNode(llm, s))
    else None
  }

  /** Every edge leads to a registered handler node, and the table sends
      each label's name to the node of the same name. */
  lemma {:induction false} EdgesComplete(l: Label)
    ensures Name(l) in Edges && Edges[Name(l)] == Name(l)
    ensures forall next :: next in Edges ==> Parse(Edges[next]).Some?
  {
  }

  /** `app.invoke({"input_text": text, "result": "", "last_node": ""})`:
      `None` would mean the graph reached a node it does not have. */
  function Run(llm: Backend, text: string): Option<AgentState> {
    var start := AgentState(text, "", "");
    var next := RouterNode(start);
    match InvokeNode(Edges[next], llm, start)
    case None => None
    case Some(handled) => Some(PrinterNode(handled))
  }

  /** Invoking the node a label names runs that label's handler: the record
      keeps its input, holds the answer to the label's prompt and is tagged
      with the label's name. */
  lemma {:induction false} InvokeByLabel(l: Label, llm: Backend, s: AgentState)
    ensures InvokeNode(Name(l), llm, s) == Some(AgentState(s.inputText, llm(Prompt(l, s.inputText)), Name(l)))
  {
    match l
    case Math =>
      assert InvokeNode("math", llm, s) == Some(MathNode(llm, s));
    case Summarizer =>
      assert InvokeNode("summarizer", llm, s) == Some(SummarizerNode(llm, s));
    case Translator =>
      assert InvokeNode("translator", llm, s) == Some(TranslatorNode(llm, s));
    case Fallback =>
      assert InvokeNode("fallback", llm, s) == Some(FallbackNode(llm, s));
  }

  /** Every input runs to completion through exactly the handler its label
      names: the final record keeps the input, holds the backend's answer
      to that handler's prompt and is tagged with the router's label. */
  lemma {:induction false} RunFaithful(llm: Backend, text: string)
    ensures Run(llm, text) == Some(AgentState(text, llm(Prompt(Route(text), text)), Name(Route(text))))
  {
    var l := Route(text);
    var start := AgentState(text, "", "");
    assert RouterNode(start) == Name(l);
    EdgesComplete(l);
    InvokeByLabel(l, llm, start);
  }

  /** The label recorded in the final state identifies the handler that
      ran: it is a given label's name exactly when the router chose it. */
  lemma {:induction false} RunLabelIff(llm: Backend, text: string, l: Label)
    ensures Run(llm, text).Some?
    ensures Run(llm, text).value.lastNode == Name(l) <==> Route(text) == l
  {
    RunFaithful(llm, text);
    NameParseRoundTrip(l, Name(Route(text)));
  }
}
