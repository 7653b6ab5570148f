/**
 * The post-processing around EntityExtractor.extract: the prompt built around
 * the input text, the attention mask derived from the token ids, the span of
 * the decoded output that the pattern `\{.*\}` (with DOTALL) selects, and the
 * defaulting and fallback applied to the parsed JSON value.
 *
 * The tokenizer, the language model and its decoding are one function
 * `generate` from prompt to decoded output; the JSON decoder is a partial
 * function `parse`.
 */
module EntityExtraction {
  import opened Outcomes

  // The prompt's fixed parts and the test input below are written as
  // concatenations of short literals; each concatenation equals the single
  // literal of the source, character for character.

  /** The instruction that opens the prompt. */
  const Lead: string :=
    "Extract entities " + "and data types " + "in JSON format " + "based on this " + "input text:\n\n"

  /** The instruction that follows the input text. */
  const Instruction: string :=
    "\n\nOutput only " + "the result " + "as a JSON " + "object:\n"

  /** The one-shot example of the expected answer that closes the prompt. */
  const Example: string :=
    "{\"entities\": [{\"name\": \"NUMBER(38,0)\", " +
    "\"type\": \"DATA_TYPE\", " +
    "\"description\": \"Surrogate key numeric type\"}]}"

  /** The prompt: the lead, the text verbatim, the instruction, the example. */
  function Prompt(text: string): string
  {
    Lead + text + Instruction + Example
  }

  /** Recovers the input text from a prompt, if it has the prompt's shape. */
  function TextOf(prompt: string): Option<string>
  {
    var tail := Instruction + Example;
    if |prompt| >= |Lead| + |tail| && prompt[..|Lead|] == Lead && prompt[|prompt| - |tail|..] == tail
    then Some(prompt[|Lead|..|prompt| - |tail|])
    else None
  }

  /** The prompt starts with the lead, ends with the instruction and the
      example, and holds the text verbatim in between. */
  lemma PromptRoundTrip(text: string)
    ensures TextOf(Prompt(text)) == Some(text)
    ensures Prompt(text)[..|Lead|] == Lead
    ensures Prompt(text)[|Prompt(text)| - |Example|..] == Example
  {
    var p := Prompt(text);
    var tail := Instruction + Example;
    assert p == Lead + text + tail;
    assert p[..|Lead|] == Lead;
    assert p[|p| - |tail|..] == tail;
    assert p[|Lead|..|p| - |tail|] == text;
    assert p[|p| - |Example|..] == Example;
  }

  /** Different texts give different prompts. */
  lemma PromptInjective(a: string, b: string)
    requires Prompt(a) == Prompt(b)
    ensures a == b
  {
    PromptRoundTrip(a);
    PromptRoundTrip(b);
  }

  /** `input_ids != pad_token_id`, element by element. */
  function AttentionMask(ids: seq<int>, padId: int): (mask: seq<bool>)
    ensures |mask| == |ids|
    ensures forall i :: 0 <= i < |ids| ==> (mask[i] <==> ids[i] != padId)
  {
    if ids == [] then []
    else AttentionMask(ids[..|ids| - 1], padId) + [ids[|ids| - 1] != padId]
  }

  /** A padded encoding: the prompt's tokens followed by `n` pad ids. */
  function Padded(tokens: seq<int>, n: nat, padId: int): seq<int>
  {
    tokens + seq(n, _ => padId)
  }

  /** When the prompt's own tokens never use the pad id, the mask marks
      exactly the prompt's tokens and none of the padding. */
  lemma MaskOfPadded(tokens: seq<int>, n: nat, padId: int)
    requires padId !in tokens
    ensures AttentionMask(Padded(tokens, n, padId), padId) == seq(|tokens|, _ => true) + seq(n, _ => false)
  {
    var ids := Padded(tokens, n, padId);
    var mask := AttentionMask(ids, padId);
    var expected := seq(|tokens|, _ => true) + seq(n, _ => false);
    forall i | 0 <= i < |ids| ensures mask[i] == expected[i] {
      if i < |tokens| {
        assert ids[i] == tokens[i];
      } else {
        assert ids[i] == padId;
      }
    }
  }

  /** The first position of `c` in `s`. */
  function FirstIndex(s: string, c: char): (r: Option<nat>)
    ensures r.Some? ==> r.value < |s| && s[r.value] == c && forall j :: 0 <= j < r.value ==> s[j] != c
    ensures r.None? ==> forall j :: 0 <= j < |s| ==> s[j] != c
  {
    if s == [] then None
    else if s[0] == c then Some(0)
    else
      match FirstIndex(s[1..], c)
      case None => None
      case Some(k) => Some(k + 1)
  }

  /** The last position of `c` in `s`. */
  function LastIndex(s: string, c: char): (r: Option<nat>)
    ensures r.Some? ==> r.value < |s| && s[r.value] == c && forall j :: r.value < j < |s| ==> s[j] != c
    ensures r.None? ==> forall j :: 0 <= j < |s| ==> s[j] != c
  {
    if s == [] then None
    else if s[|s| - 1] == c then Some(|s| - 1)
    else LastIndex(s[..|s| - 1], c)
  }

  /** `s[i..j]` is a match of `\{.*\}` under DOTALL: an opening brace, any
      characters at all, a closing brace. */
  predicate IsBraceMatch(s: string, i: int, j: int)
  {
    0 <= i && i + 2 <= j <= |s| && s[i] == '{' && s[j - 1] == '}'
  }

  /** The bounds `[i, j)` of the span the search selects: from the first `{`
      to the last `}`, when that `}` comes after the `{`. */
  function BraceSpanBounds(s: string): (r: Option<(nat, nat)>)
    ensures r.Some? ==> r.value.0 + 2 <= r.value.1 <= |s|
  {
    match FirstIndex(s, '{')
    case None => None
    case Some(i) =>
      match LastIndex(s, '}')
      case None => None
      case Some(k) => if i < k then Some((i, k + 1)) else None
  }

  /** `re.search(r'\{.*\}', s, re.DOTALL)`: the matched text, if any. */
  function BraceSpan(s: string): Option<string>
  {
    match BraceSpanBounds(s)
    case None => None
    case Some((i, j)) => Some(s[i..j])
  }

  /** The span is what a regular-expression search returns: the match with
      the leftmost start and, from that start, the longest (greedy) end; and
      there is no span exactly when the pattern matches nowhere. */
  lemma {:induction false} BraceSpanIsLeftmostLongest(s: string)
    ensures BraceSpanBounds(s).None? <==> forall i, j :: !IsBraceMatch(s, i, j)
    ensures BraceSpanBounds(s).Some? ==>
            var (i, j) := BraceSpanBounds(s).value;
            && IsBraceMatch(s, i, j)
            && (forall i', j' :: IsBraceMatch(s, i', j') ==> i <= i')
            && (forall j' :: IsBraceMatch(s, i, j') ==> j' <= j)
  {
    match FirstIndex(s, '{')
    case None =>
    case Some(i) =>
      match LastIndex(s, '}')
      case None =>
      case Some(k) =>
        if i >= k {
          forall i', j' ensures !IsBraceMatch(s, i', j') {
            if 0 <= i' < |s| && s[i'] == '{' {
              assert i <= i';
            }
            if 1 <= j' <= |s| && s[j' - 1] == '}' {
              assert j' - 1 <= k;
            }
          }
          assert BraceSpanBounds(s).None?;
        } else {
          assert IsBraceMatch(s, i, k + 1);
        }
  }

  /** The span starts at the first `{` of the output and ends at its last `}`. */
  lemma SpanFromFirstOpenToLastClose(s: string)
    requires BraceSpanBounds(s).Some?
    ensures var (i, j) := BraceSpanBounds(s).value;
            && s[i] == '{' && (forall k :: 0 <= k < i ==> s[k] != '{')
            && s[j - 1] == '}' && (forall k :: j <= k < |s| ==> s[k] != '}')
            && BraceSpan(s) == Some(s[i..j])
  {
  }

  /** A decoded JSON value (`json.loads`). */
  datatype Json =
    | JNull
    | JBool(b: bool)
    | JNumber(literal: string)
    | JString(str: string)
    | JArray(items: seq<Json>)
    | JObject(fields: map<string, Json>)

  /** The JSON decoder: `None` when it raises. */
  type Parser = string -> Option<Json>

  /** The model's output text for a prompt: tokenization with padding and
      truncation, greedy generation and decoding, taken as one function. */
  type Generator = string -> string

  /** The pair `(entities, relationships)` that extract returns. */
  datatype Extraction = Extraction(entities: Json, relationships: Json)

  /** `([], [])`. */
  const NoExtraction: Extraction := Extraction(JArray([]), JArray([]))

  /** The object that the selected span decodes to, if there is a span and
      it decodes to an object; `data.get` raises on any other JSON value. */
  function ParsedObject(raw: string, parse: Parser): Option<map<string, Json>>
  {
    match BraceSpan(raw)
    case None => None
    case Some(span) =>
      match parse(span)
      case Some(JObject(fields)) => Some(fields)
      case _ => None
  }

  /** `data.get(key, [])`. */
  function Field(fields: map<string, Json>, key: string): Json
  {
    if key in fields then fields[key] else JArray([])
  }

  /** The part of extract that follows decoding: span selection, decoding,
      defaulting, and the collapse of every failure to `([], [])`. */
  function ExtractFromOutput(raw: string, parse: Parser): (r: Extraction)
    ensures BraceSpan(raw).None? ==> r == NoExtraction
    ensures BraceSpan(raw).Some? && parse(BraceSpan(raw).value).None? ==> r == NoExtraction
    ensures BraceSpan(raw).Some? && parse(BraceSpan(raw).value).Some? && !parse(BraceSpan(raw).value).value.JObject?
            ==> r == NoExtraction
    ensures ParsedObject(raw, parse).Some? ==>
            var fields := ParsedObject(raw, parse).value;
            && ("entities" !in fields ==> r.entities == JArray([]))
            && ("entities" in fields ==> r.entities == fields["entities"])
            && ("relationships" !in fields ==> r.relationships == JArray([]))
            && ("relationships" in fields ==> r.relationships == fields["relationships"])
    ensures r != NoExtraction ==>
            ParsedObject(raw, parse).Some? &&
            ("entities" in ParsedObject(raw, parse).value || "relationships" in ParsedObject(raw, parse).value)
  {
    match ParsedObject(raw, parse)
    case None => NoExtraction
    case Some(fields) => Extraction(Field(fields, "entities"), Field(fields, "relationships"))
  }

  /** If no `}` follows the first `{` of the output, extract returns `([], [])`
      whatever the decoder does. */
  lemma NoClosingBraceMeansNothing(raw: string, parse: Parser)
    requires forall i, k :: 0 <= i < k < |raw| && raw[i] == '{' ==> raw[k] != '}'
    ensures ExtractFromOutput(raw, parse) == NoExtraction
  {
    BraceSpanIsLeftmostLongest(raw);
    forall i, j ensures !IsBraceMatch(raw, i, j) {
    }
  }

  /** EntityExtractor.extract(text). */
  function Extract(text: string, generate: Generator, parse: Parser): (r: Extraction)
    ensures r == NoExtraction || ParsedObject(generate(Prompt(text)), parse).Some?
  {
    ExtractFromOutput(generate(Prompt(text)), parse)
  }

  lemma LeadIsBraceFree()
    ensures '{' !in Lead && '}' !in Lead
  {
    assert '{' !in "Extract entities " && '}' !in "Extract entities ";
    assert '{' !in "and data types " && '}' !in "and data types ";
    assert '{' !in "in JSON format " && '}' !in "in JSON format ";
    assert '{' !in "based on this " && '}' !in "based on this ";
    assert '{' !in "input text:\n\n" && '}' !in "input text:\n\n";
  }

  lemma InstructionIsBraceFree()
    ensures '{' !in Instruction && '}' !in Instruction
  {
    assert '{' !in "\n\nOutput only " && '}' !in "\n\nOutput only ";
    assert '{' !in "the result " && '}' !in "the result ";
    assert '{' !in "as a JSON " && '}' !in "as a JSON ";
    assert '{' !in "object:\n" && '}' !in "object:\n";
  }

  lemma ExampleIsBraced()
    ensures |Example| >= 2 && Example[0] == '{' && Example[|Example| - 1] == '}'
  {
  }

  /** The text before the example holds no brace when the input text holds none. */
  lemma BraceFreeBeforeExample(text: string)
    requires '{' !in text && '}' !in text
    ensures '{' !in Lead + text + Instruction && '}' !in Lead + text + Instruction
  {
    LeadIsBraceFree();
    InstructionIsBraceFree();
  }

  /** A braced middle part with no `{` before it and no `}` after it is
      exactly the span selected. */
  lemma SpanOfBracedMiddle(before: string, middle: string, after: string)
    requires '{' !in before && '}' !in after
    requires |middle| >= 2 && middle[0] == '{' && middle[|middle| - 1] == '}'
    ensures BraceSpan(before + middle + after) == Some(middle)
  {
    var s := before + middle + after;
    var a := |before|;
    var e := a + |middle|;
    assert s[a] == middle[0] && s[e - 1] == middle[|middle| - 1];
    assert forall j :: 0 <= j < a ==> s[j] == before[j];
    assert forall j :: e <= j < |s| ==> s[j] == after[j - e];
    assert FirstIndex(s, '{') == Some(a);
    assert LastIndex(s, '}') == Some(e - 1);
    assert s[a..e] == middle;
  }

  /** As written: the decoded output of a causal model begins with the echoed
      prompt. For a brace-free input text and a continuation with no `}`, the
      span the search selects is exactly the prompt's one-shot example. */
  lemma EchoedExampleIsSelected(text: string, continuation: string)
    requires '{' !in text && '}' !in text && '}' !in continuation
    ensures BraceSpan(Prompt(text) + continuation) == Some(Example)
  {
    BraceFreeBeforeExample(text);
    ExampleIsBraced();
    SpanOfBracedMiddle(Lead + text + Instruction, Example, continuation);
    assert Prompt(text) + continuation == (Lead + text + Instruction) + Example + continuation;
  }

  /** As written: whatever the model generates without a `}`, extract returns
      the entities of the prompt's own example, given a decoder that reads the
      example as an object with an `entities` key. */
  lemma {:induction false} EchoedExampleIsExtracted(text: string, continuation: string, generate: Generator, parse: Parser)
    requires '{' !in text && '}' !in text && '}' !in continuation
    requires generate(Prompt(text)) == Prompt(text) + continuation
    requires parse(Example).Some? && parse(Example).value.JObject? && "entities" in parse(Example).value.fields
    ensures Extract(text, generate, parse).entities == parse(Example).value.fields["entities"]
  {
    EchoedExampleIsSelected(text, continuation);
  }

  /** The input text of the source's own test driver. */
  const TestInput: string := "NUMBER(38,0) is " + "used for " + "Surrogate Keys."

  lemma TestInputIsBraceFree()
    ensures '{' !in TestInput && '}' !in TestInput
  {
    assert '{' !in "NUMBER(38,0) is " && '}' !in "NUMBER(38,0) is ";
    assert '{' !in "used for " && '}' !in "used for ";
    assert '{' !in "Surrogate Keys." && '}' !in "Surrogate Keys.";
  }

  /** The source's own test input holds no brace, so the example is selected
      for it whenever the model writes no `}`. */
  lemma TestInputSelectsExample(continuation: string)
    requires '}' !in continuation
    ensures BraceSpan(Prompt(TestInput) + continuation) == Some(Example)
  {
    TestInputIsBraceFree();
    EchoedExampleIsSelected(TestInput, continuation);
  }

  /** The part of a decoded output that the model generated: the output with
      the echoed prompt removed, or all of it when it does not echo the prompt. */
  function Continuation(prompt: string, raw: string): (c: string)
    ensures |prompt| <= |raw| && raw[..|prompt|] == prompt ==> prompt + c == raw
    ensures !(|prompt| <= |raw| && raw[..|prompt|] == prompt) ==> c == raw
  {
    if |prompt| <= |raw| && raw[..|prompt|] == prompt then
      assert raw == raw[..|prompt|] + raw[|prompt|..];
      raw[|prompt|..]
    else raw
  }

  /** Corrected extract: the span is searched for in the generated part only. */
  function ExtractAnswer(text: string, generate: Generator, parse: Parser): Extraction
  {
    var prompt := Prompt(text);
    ExtractFromOutput(Continuation(prompt, generate(prompt)), parse)
  }

  /** Corrected: when the output echoes the prompt, the result depends on the
      generated continuation alone; with no `}` in it, the result is
      `([], [])` rather than the example's entities. */
  lemma AnswerIgnoresEcho(text: string, continuation: string, generate: Generator, parse: Parser)
    requires generate(Prompt(text)) == Prompt(text) + continuation
    ensures ExtractAnswer(text, generate, parse) == ExtractFromOutput(continuation, parse)
    ensures '}' !in continuation ==> ExtractAnswer(text, generate, parse) == NoExtraction
  {
    var p := Prompt(text);
    assert (p + continuation)[..|p|] == p;
    assert (p + continuation)[|p|..] == continuation;
    if '}' !in continuation {
      NoClosingBraceMeansNothing(continuation, parse);
    }
  }
}
