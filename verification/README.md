# Agentic router: a Dafny model

This project models the routing and prompt-building core of `agentic_project.py`. The program is a LangGraph agent with a linear graph: router, then one handler, then printer.

- **Router.** `router_node` lower-cases the input and applies a first-match-wins chain:
  1. `"summarize"` gives `summarizer`.
  2. Any of `+ - * /` gives `math`.
  3. `"translate"` gives `translator`.
  4. Anything else gives `fallback`.
- **Handlers.** Each of the four handlers builds a prompt from the original input (not the lowered one) and asks a local language model once. It returns a record that holds:
  - the input, unchanged;
  - the model's answer;
  - its own node name.
- **Math and fallback prompts** embed the input verbatim.
- **Summarizer and translator prompts** first delete every occurrence of the literal `"summarize:"` or `"translate"` with Python's `str.replace`, then `strip()` the text.
- **Printer.** The printer node passes the record on unchanged.

The Dafny modules follow that structure:

- `Wrappers`: `Option`.
- `Text`: the Python `str` operations the core uses, which are
  - `lower()`;
  - the substring test `in` (a leftmost-occurrence search is defined alongside, only to state a reference definition of `replace`);
  - `replace(p, "")` as one left-to-right pass over non-overlapping occurrences, including Python's empty-pattern case;
  - `strip()`, with Python's `isspace` set of 29 code points.

  Each comes with a reference definition or characterisation and lemmas linking the two.
- `Router`: the `Label` datatype and `Route`. It also holds a reference definition (highest-ranked firing test) and the precedence, case and fallback laws.
- `Nodes`: the `AgentState` record, the prompt table `Prompt`, the four handlers, the printer, and laws about the cleaned payload.
- `Graph`: the router node, the conditional-edge table, the node registry and the whole run `Run`. It proves that every run goes through exactly the handler the router chose.
- `Scenarios`: the four inputs of the test runner, plus inputs at the edges of the rules.

The language model is a parameter `llm: string -> string`. Nothing is assumed about its output. The model only says that it is stored verbatim.

One might expect prompt derivation to be idempotent: removing the marker from already-cleaned text should give the same text. It is not, and the model follows the code.

- A single `replace` pass can join two halves of a nested marker into a fresh one. For example, `"summsummarize:arize:"` cleans to `"summarize:"` and then to `""`.
- `Scenarios.CleanedNotIdempotent` proves this counterexample.
- `Nodes.CleanedStable` proves idempotence under the hypothesis that the first removal leaves no marker behind.

The removal is not a single substring removal either: `str.replace` without a count removes every non-overlapping occurrence, not just the first, and that is what `Text.ReplaceAll` models.

## Model

| member | source | states |
|---|---|---|
| Text.LowerFixedIff | agentic_project.py:21 | `lower()` leaves no upper-case letter, and fixes a string exactly when it has none |
| Text.LowerIdempotent | agentic_project.py:21 | lower-casing twice is lower-casing once |
| Text.LowerSlice | agentic_project.py:21 | lower-casing commutes with taking a slice |
| Text.LowerConcat | agentic_project.py:21 | lower-casing distributes over concatenation |
| Text.ContainsIff | agentic_project.py:22 | `p in s` holds exactly when `p` occurs in `s` at some index |
| Text.OccursImpliesContains | agentic_project.py:22 | an occurrence at any index makes `p in s` true |
| Text.ContainsImpliesOccurs | agentic_project.py:22 | `p in s` yields an index where `p` occurs |
| Text.MissingCharNotContained | agentic_project.py:22 | a pattern with a character the text lacks is not in the text |
| Text.ContainsCharIff | agentic_project.py:25 | a one-character pattern is in the text exactly when that character is |
| Text.ContainsInfix | agentic_project.py:22 | an occurrence in a piece is an occurrence in anything built around it |
| Text.LowerContains | agentic_project.py:21-22 | an occurrence survives lower-casing as an occurrence of the lowered pattern |
| Text.Find | agentic_project.py:44 | the leftmost-occurrence search returns an occurrence with none before it, or none when there is no occurrence at all |
| Text.ReplaceLeading | agentic_project.py:44 | an occurrence at the start is replaced and the scan resumes after it |
| Text.ReplaceStep | agentic_project.py:44 | where no occurrence starts, one character is copied and the scan moves on |
| Text.ReplaceSkips | agentic_project.py:44 | text with no occurrence starting in it is copied unchanged ahead of the rest |
| Text.ReplaceAllViaFind | agentic_project.py:44 | the one-pass `replace` equals the reference definition `ReplaceRef` (find the leftmost occurrence, replace it, continue after its end) |
| Text.ReplaceAtFirst | agentic_project.py:44 | replacing from the first occurrence keeps the text before it and replaces that occurrence |
| Text.ReplaceAround | agentic_project.py:44 | occurrence-free text followed by an occurrence is copied, and the occurrence is replaced |
| Text.ReplaceAllAbsent | agentic_project.py:44 | text without the pattern comes back unchanged |
| Text.RemoveLength | agentic_project.py:44 | deleting a pattern never lengthens the text and strictly shortens it when the pattern occurs |
| Text.RemoveIdentityIff | agentic_project.py:44 | deleting a non-empty pattern is the identity exactly when the pattern does not occur |
| Text.ReplaceEmptyConcat | agentic_project.py:44 | with an empty pattern the two halves of a concatenation are replaced on their own, sharing one copy of the replacement; with `ReplaceEmptyPrefix` (the result starts with the replacement) and `ReplaceEmptyChar` (one character comes out framed by two copies) this fixes Python's result for every input |
| Text.ReplaceEmptyByEmpty | agentic_project.py:44 | `replace("", "")` is the identity, as in Python |
| Text.StripStart | agentic_project.py:44 | `lstrip()` returns a suffix that starts with non-whitespace, and everything it drops is whitespace |
| Text.StripEnd | agentic_project.py:44 | `rstrip()` returns a prefix that ends with non-whitespace, and everything it drops is whitespace |
| Text.Lead | agentic_project.py:44 | the length of the leading run of whitespace, which is followed by a non-whitespace character or the end |
| Text.Strip | agentic_project.py:44 | `strip()` returns the infix after the leading whitespace: it has no whitespace at either end and only whitespace follows it |
| Text.StripEndTrimmed | agentic_project.py:44 | `rstrip()` of text that starts with non-whitespace is trimmed at both ends |
| Text.StripStartAllSpace | agentic_project.py:44 | `lstrip()` of all-whitespace text is empty |
| Text.StripStartSkips | agentic_project.py:44 | `lstrip()` drops exactly a whitespace prefix in front of a non-whitespace character |
| Text.StripEndSkips | agentic_project.py:44 | `rstrip()` drops exactly a whitespace suffix behind a non-whitespace character |
| Text.StripUnique | agentic_project.py:44 | whatever whitespace surrounds a trimmed middle, `strip()` yields exactly that middle |
| Text.StripTrimmed | agentic_project.py:44 | text with no whitespace at either end is left alone by `strip()` |
| Text.StripIdempotent | agentic_project.py:44 | stripping twice is stripping once |
| Text.StripContains | agentic_project.py:44 | anything the stripped text contains, the original text contains |
| Router.Parse | agentic_project.py:20-33 | whatever name parses to a label is exactly that label's node name |
| Router.NameParseRoundTrip | agentic_project.py:20-33 | labels and node names are in one-to-one correspondence |
| Router.RouteIsFirstMatch | agentic_project.py:20-33 | the router picks a label exactly when that label's test fires on the lowered input and no earlier test does |
| Router.HasOperatorIff | agentic_project.py:25 | the `any(op in ...)` test fires exactly when some character is `+`, `-`, `*` or `/` |
| Router.SummarizeFirst | agentic_project.py:22-24 | "summarize" in the lowered input wins over every other test |
| Router.OperatorBeforeTranslate | agentic_project.py:25-30 | without "summarize", an operator wins over "translate" |
| Router.RouteCaseInsensitive | agentic_project.py:21 | inputs with the same lower-case form get the same label, and an input gets the label of its lower-case form |
| Router.OperatorCaseInsensitive | agentic_project.py:21-25 | whether the operator test fires does not depend on case |
| Router.FallbackIff | agentic_project.py:31-33 | the catch-all is chosen exactly when none of the six patterns occurs in the lowered input |
| Router.EmptyRoutesToFallback | agentic_project.py:31-33 | the empty input is handled by the catch-all |
| Nodes.MathNode | agentic_project.py:36-40 | keeps the input, stores the answer to `"Solve this: " + input` and is tagged `math` |
| Nodes.SummarizerNode | agentic_project.py:43-47 | keeps the input, stores the answer to `"Summarize this: "` plus the cleaned input and is tagged `summarizer` |
| Nodes.TranslatorNode | agentic_project.py:50-54 | keeps the input, stores the answer to `"Translate this to English: "` plus the cleaned input and is tagged `translator` |
| Nodes.FallbackNode | agentic_project.py:57-60 | keeps the input, stores the answer to `"Cannot identify action for: " + input` and is tagged `fallback` |
| Nodes.PrinterNode | agentic_project.py:63-66 | the printer returns the record it was given |
| Nodes.VerbatimPrompts | agentic_project.py:38 | the math prompt and the fallback prompt (line 58) give back the input after their fixed prefixes |
| Nodes.CleanedShape | agentic_project.py:44-45 | the summarizer and translator payloads (lines 44 and 51) have no whitespace at either end; input without the marker is only stripped |
| Nodes.CleanedStable | agentic_project.py:44 | cleaning a second time changes nothing when the first removal left no marker behind |
| Nodes.CleanedAfterMarker | agentic_project.py:44 | marker, whitespace, then trimmed marker-free text: cleaning yields exactly that text |
| Graph.RouterNode | agentic_project.py:20-33 | the router's `"next"` value is always a key of the edge table and names the label `Route` chooses |
| Graph.InvokeNode | agentic_project.py:71-76 | a node is found exactly for the four handler names; it keeps the input and is tagged with its own name |
| Graph.EdgesComplete | agentic_project.py:80-89 | every label's name is a key of the edge table and maps to the node of that name, and every target is a registered handler |
| Graph.InvokeByLabel | agentic_project.py:71-76 | invoking the node a label names runs that label's handler on that label's prompt |
| Graph.RunFaithful | agentic_project.py:78-94 | every run finishes with the original input, the answer to the chosen label's prompt and that label's name |
| Graph.RunLabelIff | agentic_project.py:80-94 | the final record names a label exactly when the router chose that label |
| Scenarios.StartsWithSummarize | agentic_project.py:22 | an input starting with "summarize" in any case is summarized |
| Scenarios.MarkerRoutesToSummarizer | agentic_project.py:22-24 | anything that starts with `summarize:` is summarized |
| Scenarios.QuietText | agentic_project.py:21-25 | lower-case text without operators or 'z' fires neither the summarize nor the math test |
| Scenarios.MarkerRoutesToTranslator | agentic_project.py:28-30 | such text that starts with `translate` is translated |
| Scenarios.MarkedPayload | agentic_project.py:44-45 | marker, space and trimmed payload with no further marker: the prompt carries exactly the payload |
| Scenarios.SummaryInput | agentic_project.py:43-47 | a `summarize:` input with a trimmed payload without 'z' is summarized with exactly that payload |
| Scenarios.SummaryScenario | agentic_project.py:102 | the first test input is summarized with prompt `"Summarize this: LangGraph helps orchestrate LLMs with nodes."` |
| Scenarios.MathScenario | agentic_project.py:103 | the second test input goes to math with prompt `"Solve this: 34 + 12 / 2"` |
| Scenarios.TranslateInput | agentic_project.py:50-54 | a `translate` input with a trimmed quiet payload without 't' is translated with exactly that payload |
| Scenarios.TranslateScenario | agentic_project.py:104 | the third test input is translated with prompt `"Translate this to English: bonjour le monde"` |
| Scenarios.FallbackScenario | agentic_project.py:105 | the fourth test input goes to the fallback with prompt `"Cannot identify action for: tell me a joke"` |
| Scenarios.CapitalisedRoute | agentic_project.py:21-24 | `"Summarize: x"` is summarized, because routing lowers the input |
| Scenarios.CleanedUntouched | agentic_project.py:44 | trimmed text without the marker passes through cleaning unchanged |
| Scenarios.CapitalisedKeptInPrompt | agentic_project.py:44-45 | the removal is case-sensitive, so `"Summarize: x"` stays whole in the prompt |
| Scenarios.UpperCaseTranslate | agentic_project.py:28 | `"TRANSLATE x"` is translated |
| Scenarios.CleanedNotIdempotent | agentic_project.py:44 | `"summsummarize:arize:"` cleans to `"summarize:"` and then to `""`: one `replace` pass is not idempotent |
| Scenarios.OneNestedRemoval | agentic_project.py:44 | one removal pass over the nested marker leaves exactly one marker |

## Left out

- `OllamaLLM` and `llm.invoke` (lines 17, 38, 45, 52, 58) are a call into a local model server. They become the parameter `llm`. The model does not cover failures, latency or nondeterminism of the server.
- The `print` and `logging` calls (lines 8, 23-32, 39, 46, 53, 59, 64-65) are output only. They do not affect the state, so the model drops them.
- `StateGraph`, `compile` and `app.invoke` (lines 69-97, 110) are library internals.
  - They are modelled only through the explicit edge table and node registry.
  - The router's `{"next": ...}` result is passed straight to the table. How the library carries a key that `AgentState` does not declare is not part of this model.
  - How often the library calls a node cannot be observed in a pure model. "Exactly one handler" is stated as: the run is router, table, one handler, printer.
- The `test()` loop (lines 100-112) is replaced by one lemma per test input. The summary input is written in its lemma as marker, space and payload, which is the same string; the translate input is given as the literal itself.
- Text.Lower: folds only ASCII `A`-`Z`. Python's `lower()` also folds other Unicode letters, which the model leaves out.
