/** The router node's classifier: an ordered, first-match-wins chain over
    the lower-cased input that picks exactly one of four handler labels. */
module Router {
  import opened Wrappers
  import opened Text

  datatype Label = Summarizer | Math | Translator | Fallback

  /** The node name the router reports for a label (the `"next"` value). */
  function Name(l: Label): string {
    match l
    case Summarizer => "summarizer"
    case Math => "math"
    case Translator => "translator"
    case Fallback => "fallback"
  }

  /** Inverse of `Name` on the four node names; `None` for any other string. */
  function Parse(name: string): (r: Option<Label>)
    ensures r.Some? ==> Name(r.value) == name
  {
    if name == "summarizer" then Some(Summarizer)
    else if name == "math" then Some(Math)
    else if name == "translator" then Some(Translator)
    else if name == "fallback" then Some(Fallback)
    else None
  }

  /** Names and labels are in one-to-one correspondence. */
  lemma NameParseRoundTrip(l: Label, name: string)
    ensures Parse(Name(l)) == Some(l)
    ensures Parse(name) == Some(l) <==> name == Name(l)
  {
  }

  /** `any(op in text for op in ["+", "-", "*", "/"])`. */
  predicate HasOperator(text: string) {
    Contains(text, "+") || Contains(text, "-") || Contains(text, "*") || Contains(text, "/")
  }

  predicate IsOperatorChar(c: char) {
    c == '+' || c == '-' || c == '*' || c == '/'
  }

  /** The label `router_node` chooses for an input. */
  function Route(text: string): Label {
    var lowered := Lower(text);
    if Contains(lowered, "summarize") then Summarizer
    else if HasOperator(lowered) then Math
    else if Contains(lowered, "translate") then Translator
    else Fallback
  }

  // ---------------------------------------------------------------------------
  // Reference definition: the highest-priority label whose test fires
  // ---------------------------------------------------------------------------

  /** Position of a label's test in the chain; lower is tried first. */
  function Rank(l: Label): nat {
    match l
    case Summarizer => 0
    case Math => 1
    case Translator => 2
    case Fallback => 3
  }

  /** The test that selects a label, applied to already lower-cased text. */
  predicate Fires(l: Label, lowered: string) {
    match l
    case Summarizer => Contains(lowered, "summarize")
    case Math => HasOperator(lowered)
    case Translator => Contains(lowered, "translate")
    case Fallback => true
  }

  /** The router picks a label exactly when that label's test fires on the
      lower-cased input and no test ranked before it does. */
  lemma RouteIsFirstMatch(text: string, l: Label)
    ensures Route(text) == l <==>
              Fires(l, Lower(text)) &&
              forall m :: Rank(m) < Rank(l) ==> !Fires(m, Lower(text))
  {
    var lowered := Lower(text);
    if Route(text) == l {
      forall m | Rank(m) < Rank(l) ensures !Fires(m, lowered) {
      }
    } else if Fires(l, lowered) {
      var chosen := Route(text);
      assert Rank(chosen) < Rank(l);
    }
  }

  /** An operator occurs in the text exactly when one of its characters is `+`, `-`, `*` or `/`. */
  lemma HasOperatorIff(text: string)
    ensures HasOperator(text) <==> exists i :: 0 <= i < |text| && IsOperatorChar(text[i])
  {
    ContainsCharIff(text, '+');
    ContainsCharIff(text, '-');
    ContainsCharIff(text, '*');
    ContainsCharIff(text, '/');
  }

  // ---------------------------------------------------------------------------
  // Precedence and case laws
  // ---------------------------------------------------------------------------

  /** "summarize" anywhere, in any case, wins over every other test. */
  lemma SummarizeFirst(text: string)
    requires Contains(Lower(text), "summarize")
    ensures Route(text) == Summarizer
  {
  }

  /** Without "summarize", an operator character wins over "translate". */
  lemma OperatorBeforeTranslate(text: string)
    requires !Contains(Lower(text), "summarize")
    requires HasOperator(Lower(text))
    ensures Route(text) == Math
  {
  }

  /** Two inputs with the same lower-case form get the same label; in
      particular an input and its lower-case form do. */
  lemma RouteCaseInsensitive(a: string, b: string)
    requires Lower(a) == Lower(b)
    ensures Route(a) == Route(b)
    ensures Route(Lower(a)) == Route(a)
  {
    LowerIdempotent(a);
  }

  /** Lowering changes no operator character, so whether the math test fires
      does not depend on case. */
  lemma OperatorCaseInsensitive(text: string)
    ensures HasOperator(Lower(text)) <==> HasOperator(text)
  {
    HasOperatorIff(text);
    HasOperatorIff(Lower(text));
    forall i | 0 <= i < |text|
      ensures IsOperatorChar(Lower(text)[i]) <==> IsOperatorChar(text[i])
    {
    }
  }

  /** The catch-all fires exactly when none of the six patterns occurs in
      the lower-cased input. */
  lemma FallbackIff(text: string)
    ensures Route(text) == Fallback <==>
              !Contains(Lower(text), "summarize") &&
              !Contains(Lower(text), "+") && !Contains(Lower(text), "-") &&
              !Contains(Lower(text), "*") && !Contains(Lower(text), "/") &&
              !Contains(Lower(text), "translate")
  {
  }

  /** The empty input fires no test and is handled by the catch-all. */
  lemma EmptyRoutesToFallback()
    ensures Route("") == Fallback
  {
  }
}
