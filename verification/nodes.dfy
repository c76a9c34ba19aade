/** The graph's state record and its handler nodes. Each handler derives a
    prompt from the ORIGINAL (not lower-cased) input, hands it to the
    text-generation backend once, and returns a record holding the input
    unchanged, the backend's answer verbatim and its own node name. */
module Nodes {
  import opened Text
  import opened Router

  /** `AgentState`: the input text, the backend's result and the name of
      the handler node that produced it. */
  datatype AgentState = AgentState(inputText: string, result: string, lastNode: string)

  /** `llm.invoke`: an opaque prompt-to-text function about whose output
      nothing is assumed. */
  type Backend = string -> string

  const MathPrefix := "Solve this: "
  const SummaryPrefix := "Summarize this: "
  const TranslatePrefix := "Translate this to English: "
  const FallbackPrefix := "Cannot identify action for: "

  /** The literals the summarizer and translator cut out of the input. */
  const SummaryMarker := "summarize:"
  const TranslateMarker := "translate"

  /** `text.replace(marker, "").strip()`. */
  function Cleaned(text: string, marker: string): string {
    Strip(ReplaceAll(text, marker, ""))
  }

  /** The prompt each label's handler sends, as a table over labels. */
  function Prompt(l: Label, text: string): string {
    match l
    case Math => MathPrefix + text
    case Summarizer => SummaryPrefix + Cleaned(text, SummaryMarker)
    case Translator => TranslatePrefix + Cleaned(text, TranslateMarker)
    case Fallback => FallbackPrefix + text
  }

  // ---------------------------------------------------------------------------
  // Handler nodes
  // ---------------------------------------------------------------------------

  function MathNode(llm: Backend, s: AgentState): (r: AgentState)
    ensures r.inputText == s.inputText
    ensures r.result == llm(Prompt(Math, s.inputText))
    ensures r.lastNode == Name(Math)
  {
    var expr := s.inputText;
    AgentState(expr, llm("Solve this: " + expr), "math")
  }

  function SummarizerNode(llm: Backend, s: AgentState): (r: AgentState)
    ensures r.inputText == s.inputText
    ensures r.result == llm(Prompt(Summarizer, s.inputText))
    ensures r.lastNode == Name(Summarizer)
  {
    var text := Strip(ReplaceAll(s.inputText, "summarize:", ""));
    AgentState(s.inputText, llm("Summarize this: " + text), "summarizer")
  }

  function TranslatorNode(llm: Backend, s: AgentState): (r: AgentState)
    ensures r.inputText == s.inputText
    ensures r.result == llm(Prompt(Translator, s.inputText))
    ensures r.lastNode == Name(Translator)
  {
    var text := Strip(ReplaceAll(s.inputText, "translate", ""));
    AgentState(s.inputText, llm("Translate this to English: " + text), "translator")
  }

  function FallbackNode(llm: Backend, s: AgentState): (r: AgentState)
    ensures r.inputText == s.inputText
    ensures r.result == llm(Prompt(Fallback, s.inputText))
    ensures r.lastNode == Name(Fallback)
  {
    AgentState(s.inputText, llm("Cannot identify action for: " + s.inputText), "fallback")
  }

  /** The printer node: it only observes the record and passes it on. */
  function PrinterNode(s: AgentState): (r: AgentState)
    ensures r == s
  {
    s
  }

  // ---------------------------------------------------------------------------
  // Prompt laws
  // ---------------------------------------------------------------------------

  /** The math and fallback prompts carry the input verbatim after a fixed
      prefix, so the input can be read back from the prompt. */
  lemma {:induction false} VerbatimPrompts(text: string)
    ensures Prompt(Math, text)[|MathPrefix|..] == text
    ensures Prompt(Fallback, text)[|FallbackPrefix|..] == text
  {
  }

  /** The summarizer and translator payloads have no whitespace at either
      end; input without the marker is only stripped. */
  lemma {:induction false} CleanedShape(text: string, marker: string)
    requires |marker| > 0
    ensures Trimmed(Cleaned(text, marker))
    ensures !Contains(text, marker) ==> Cleaned(text, marker) == Strip(text)
  {
    if !Contains(text, marker) {
      ReplaceAllAbsent(text, marker, "");
    }
  }

  /** Cleaning a payload a second time changes nothing as long as the first
      pass left no marker behind. The single-pass removal can leave one
      behind when two markers are nested; see `Scenarios.CleanedNotIdempotent`. */
  lemma {:induction false} CleanedStable(text: string, marker: string)
    requires |marker| > 0
    requires !Contains(ReplaceAll(text, marker, ""), marker)
    ensures Cleaned(Cleaned(text, marker), marker) == Cleaned(text, marker)
  {
    var once := Cleaned(text, marker);
    StripContains(ReplaceAll(text, marker, ""), marker);
    ReplaceAllAbsent(once, marker, "");
    StripIdempotent(ReplaceAll(text, marker, ""));
  }

  /** A marker, then whitespace, then trimmed text free of the marker:
      cleaning yields exactly that text. */
  lemma {:induction false} CleanedAfterMarker(marker: string, gap: string, body: string)
    requires |marker| > 0
    requires AllSpace(gap) && Trimmed(body)
    requires !Contains(gap + body, marker)
    ensures Cleaned(marker + gap + body, marker) == body
  {
    var rest := gap + body;
    assert marker + gap + body == marker + rest;
    ReplaceLeading(marker, rest, "");
    ReplaceAllAbsent(rest, marker, "");
    assert ReplaceAll(marker + gap + body, marker, "") == rest;
    assert AllSpace("");
    assert gap + body + "" == rest;
    StripUnique(gap, body, "");
  }
}
