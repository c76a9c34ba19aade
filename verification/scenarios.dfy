/** The four inputs of the repository's test runner, and a few inputs that
    show the edges of the routing and prompt rules. */
module Scenarios {
  import opened Wrappers
  import opened Text
  import opened Router
  import opened Nodes
  import opened Graph

  /** An input that starts with "summarize" in any mix of case is routed to
      the summarizer. */
  lemma {:induction false} StartsWithSummarize(text: string)
    requires IsPrefix("summarize", Lower(text))
    ensures Route(text) == Summarizer
  {
    assert Contains(Lower(text), "summarize");
  }

  /** Anything that begins with the summarizer's marker is routed to the summarizer. */
  lemma {:induction false} MarkerRoutesToSummarizer(rest: string)
    ensures Route(SummaryMarker + rest) == Summarizer
  {
    LowerConcat(SummaryMarker, rest);
    LowerFixedIff(SummaryMarker);
    assert IsPrefix("summarize", Lower(SummaryMarker + rest));
    StartsWithSummarize(SummaryMarker + rest);
  }

  /** Characters that neither change under lower-casing nor are operators,
      and that are not the 'z' every "summarize" holds. */
  predicate Quiet(c: char) {
    !IsUpper(c) && !IsOperatorChar(c) && c != 'z'
  }

  /** Text made of quiet characters is its own lower-case form and fires
      neither the summarizer's nor the math test. */
  lemma {:induction false} QuietText(text: string)
    requires forall i :: 0 <= i < |text| ==> Quiet(text[i])
    ensures Lower(text) == text
    ensures !Contains(text, "summarize") && !HasOperator(text)
  {
    assert NoUpper(text);
    LowerFixedIff(text);
    assert 'z' !in text;
    MissingCharNotContained(text, "summarize", 'z');
    HasOperatorIff(text);
  }

  /** Quiet text that begins with the translator's marker is routed to the
      translator. */
  lemma {:induction false} MarkerRoutesToTranslator(rest: string)
    requires forall i :: 0 <= i < |rest| ==> Quiet(rest[i])
    ensures Route(TranslateMarker + rest) == Translator
  {
    var text := TranslateMarker + rest;
    forall i | 0 <= i < |text| ensures Quiet(text[i]) {
      if i < |TranslateMarker| {
        assert text[i] == TranslateMarker[i];
      } else {
        assert text[i] == rest[i - |TranslateMarker|];
      }
    }
    QuietText(text);
    assert IsPrefix(TranslateMarker, text);
    assert Contains(text, TranslateMarker);
  }

  /** An input of the form marker, whitespace, payload where the payload is
      trimmed and the marker does not occur after the leading one: the
      handler's prompt carries exactly the payload. */
  lemma {:induction false} MarkedPayload(marker: string, text: string, body: string)
    requires |marker| > 0 && Trimmed(body)
    requires !Contains(" " + body, marker)
    requires text == marker + " " + body
    ensures Cleaned(text, marker) == body
  {
    assert AllSpace(" ");
    CleanedAfterMarker(marker, " ", body);
  }

  // ---------------------------------------------------------------------------
  // The test runner's four inputs
  // ---------------------------------------------------------------------------

  /** Any input of the form summarizer marker, space, trimmed payload
      without a 'z' is summarized, and the prompt carries the payload alone. */
  lemma {:induction false} SummaryInput(llm: Backend, text: string, body: string)
    requires Trimmed(body) && forall i :: 0 <= i < |body| ==> body[i] != 'z'
    requires text == SummaryMarker + " " + body
    ensures Route(text) == Summarizer
    ensures Prompt(Summarizer, text) == SummaryPrefix + body
    ensures Run(llm, text) == Some(AgentState(text, llm(SummaryPrefix + body), "summarizer"))
  {
    assert text == SummaryMarker + (" " + body);
    MarkerRoutesToSummarizer(" " + body);
    assert 'z' !in " " + body;
    MissingCharNotContained(" " + body, SummaryMarker, 'z');
    MarkedPayload(SummaryMarker, text, body);
    RunFaithful(llm, text);
  }

  lemma {:induction false} SummaryBodyChars(body: string)
    requires body == "LangGraph helps orchestrate LLMs with nodes."
    ensures Trimmed(body)
    ensures forall i :: 0 <= i < |body| ==> body[i] != 'z'
  {
  }

  /** The first test input, "summarize: LangGraph helps orchestrate LLMs
      with nodes.", written as the marker, a space and its payload: it is
      summarized, and the prompt carries the payload alone. */
  lemma {:induction false} SummaryScenario(llm: Backend, text: string, body: string)
    requires body == "LangGraph helps orchestrate LLMs with nodes."
    requires text == SummaryMarker + " " + body
    ensures Route(text) == Summarizer
    ensures Prompt(Summarizer, text) == SummaryPrefix + body
    ensures Run(llm, text) == Some(AgentState(text, llm(SummaryPrefix + body), "summarizer"))
  {
    SummaryBodyChars(body);
    SummaryInput(llm, text, body);
  }

  lemma {:induction false} MathChars(text: string)
    requires text == "34 + 12 / 2"
    ensures NoUpper(text) && 'z' !in text && text[3] == '+'
  {
  }

  /** The second test input: an arithmetic expression goes to the math
      handler and is sent verbatim after the prefix. */
  lemma {:induction false} MathScenario(llm: Backend, text: string)
    requires text == "34 + 12 / 2"
    ensures Route(text) == Math
    ensures Prompt(Math, text) == MathPrefix + text
    ensures Run(llm, text) == Some(AgentState(text, llm(MathPrefix + text), "math"))
  {
    MathChars(text);
    LowerFixedIff(text);
    MissingCharNotContained(text, "summarize", 'z');
    ContainsCharIff(text, '+');
    RunFaithful(llm, text);
  }

  /** Any input of the form translator marker, space, trimmed quiet
      payload without a 't' is translated, and the prompt carries the
      payload alone. */
  lemma {:induction false} TranslateInput(llm: Backend, text: string, body: string)
    requires Trimmed(body)
    requires forall i :: 0 <= i < |body| ==> Quiet(body[i]) && body[i] != 't'
    requires text == TranslateMarker + " " + body
    ensures Route(text) == Translator
    ensures Prompt(Translator, text) == TranslatePrefix + body
    ensures Run(llm, text) == Some(AgentState(text, llm(TranslatePrefix + body), "translator"))
  {
    var rest := " " + body;
    assert text == TranslateMarker + rest;
    forall i | 0 <= i < |rest| ensures Quiet(rest[i]) && rest[i] != 't' {
      if i > 0 {
        assert rest[i] == body[i - 1];
      }
    }
    MarkerRoutesToTranslator(rest);
    assert 't' !in rest;
    MissingCharNotContained(rest, TranslateMarker, 't');
    MarkedPayload(TranslateMarker, text, body);
    RunFaithful(llm, text);
  }

  lemma {:induction false} TranslateBodyChars(body: string)
    requires body == "bonjour le monde"
    ensures Trimmed(body)
    ensures forall i :: 0 <= i < |body| ==> Quiet(body[i]) && body[i] != 't'
  {
  }

  lemma {:induction false} TranslateInputShape(text: string, body: string)
    requires text == "translate bonjour le monde" && body == "bonjour le monde"
    ensures text == TranslateMarker + " " + body
  {
    assert TranslateMarker + " " == "translate ";
    assert "translate " + body == text;
  }

  /** The third test input is translated, and the prompt carries its
      payload alone. */
  lemma {:induction false} TranslateScenario(llm: Backend, text: string)
    requires text == "translate bonjour le monde"
    ensures Route(text) == Translator
    ensures Prompt(Translator, text) == TranslatePrefix + "bonjour le monde"
    ensures Run(llm, text) == Some(AgentState(text, llm(TranslatePrefix + "bonjour le monde"), "translator"))
  {
    var body := "bonjour le monde";
    TranslateInputShape(text, body);
    TranslateBodyChars(body);
    TranslateInput(llm, text, body);
  }

  lemma {:induction false} FallbackChars(text: string)
    requires text == "tell me a joke"
    ensures forall i :: 0 <= i < |text| ==> Quiet(text[i]) && text[i] != 'r'
  {
  }

  /** The fourth test input matches no test and goes to the catch-all,
      which sends it verbatim after its prefix. */
  lemma {:induction false} FallbackScenario(llm: Backend, text: string)
    requires text == "tell me a joke"
    ensures Route(text) == Fallback
    ensures Prompt(Fallback, text) == FallbackPrefix + text
    ensures Run(llm, text) == Some(AgentState(text, llm(FallbackPrefix + text), "fallback"))
  {
    FallbackChars(text);
    QuietText(text);
    assert 'r' !in text;
    MissingCharNotContained(text, "translate", 'r');
    RunFaithful(llm, text);
  }

  // ---------------------------------------------------------------------------
  // Edges of the rules
  // ---------------------------------------------------------------------------

  /** Routing ignores case: a capitalised "Summarize:" still reaches the
      summarizer. */
  lemma {:induction false} CapitalisedRoute(text: string)
    requires text == "Summarize: x"
    ensures Route(text) == Summarizer
  {
    assert text == "S" + "ummarize: x";
    LowerConcat("S", "ummarize: x");
    LowerFixedIff("ummarize: x");
    assert Lower("S") == "s";
    assert Lower(text) == SummaryMarker + " x";
    MarkerRoutesToSummarizer(" x");
    RouteCaseInsensitive(text, SummaryMarker + " x");
    LowerFixedIff(SummaryMarker + " x");
  }

  /** Trimmed text that does not contain the marker passes through
      cleaning untouched. */
  lemma {:induction false} CleanedUntouched(text: string, marker: string)
    requires |marker| > 0 && Trimmed(text) && !Contains(text, marker)
    ensures Cleaned(text, marker) == text
  {
    ReplaceAllAbsent(text, marker, "");
    StripTrimmed(text);
  }

  lemma {:induction false} CapitalisedChars(text: string)
    requires text == "Summarize: x"
    ensures Trimmed(text) && 's' !in text
  {
    assert forall i :: 0 <= i < |text| ==> text[i] != 's';
  }

  /** The summarizer's removal is case-sensitive: a capitalised
      "Summarize:" is left in the prompt. */
  lemma {:induction false} CapitalisedKeptInPrompt(text: string)
    requires text == "Summarize: x"
    ensures Cleaned(text, SummaryMarker) == text
    ensures Prompt(Summarizer, text) == SummaryPrefix + text
  {
    CapitalisedChars(text);
    MissingCharNotContained(text, SummaryMarker, 's');
    CleanedUntouched(text, SummaryMarker);
  }

  /** An upper-case keyword routes like its lower-case form. */
  lemma {:induction false} UpperCaseTranslate(text: string)
    requires text == "TRANSLATE x"
    ensures Route(text) == Translator
  {
    var lowered := TranslateMarker + " x";
    assert Lower(text) == lowered;
    assert NoUpper(lowered);
    LowerFixedIff(lowered);
    RouteCaseInsensitive(text, lowered);
    MarkerRoutesToTranslator(" x");
  }

  /** The single left-to-right pass of `replace` is not idempotent: removing
      the marker from the middle of a nested occurrence joins the two
      halves into a fresh one, which a second cleaning then removes. */
  lemma {:induction false} CleanedNotIdempotent(text: string)
    requires text == "summ" + SummaryMarker + "arize:"
    ensures Cleaned(text, SummaryMarker) == SummaryMarker
    ensures Cleaned(Cleaned(text, SummaryMarker), SummaryMarker) == ""
  {
    OneNestedRemoval(text);
    StripTrimmed(SummaryMarker);
    assert SummaryMarker == SummaryMarker + "";
    ReplaceLeading(SummaryMarker, "", "");
    StripTrimmed("");
  }

  lemma {:induction false} NoEarlyMarker(text: string)
    requires text == "summ" + SummaryMarker + "arize:"
    ensures forall i :: 0 <= i < 4 ==> !OccursAt(text, SummaryMarker, i)
  {
    assert text[4] != SummaryMarker[4];
    assert text[1] != SummaryMarker[0];
    assert text[2] != SummaryMarker[0];
    assert text[3] != SummaryMarker[0];
    forall i | 0 <= i < 4 ensures !OccursAt(text, SummaryMarker, i) {
      if i == 0 {
        assert text[0..10][4] == text[4];
      } else {
        assert text[i..i + 10][0] == text[i];
      }
    }
  }

  /** The tail left after the inner marker holds no marker. */
  lemma {:induction false} NestedTail()
    ensures ReplaceAll(SummaryMarker + "arize:", SummaryMarker, "") == "arize:"
  {
    ReplaceLeading(SummaryMarker, "arize:", "");
    MissingCharNotContained("arize:", SummaryMarker, 's');
    ReplaceAllAbsent("arize:", SummaryMarker, "");
  }

  lemma {:induction false} OneNestedRemoval(text: string)
    requires text == "summ" + SummaryMarker + "arize:"
    ensures ReplaceAll(text, SummaryMarker, "") == SummaryMarker
  {
    NoEarlyMarker(text);
    var after := SummaryMarker + "arize:";
    assert text == "summ" + after;
    ReplaceSkips("summ", after, SummaryMarker, "");
    NestedTail();
    SplicedMarker();
  }

  /** The two halves around the inner marker spell the marker. */
  lemma SplicedMarker()
    ensures "summ" + "arize:" == SummaryMarker
  {
  }
}
