/** The synthesis prompt: the original prompt, then one section per collected
    response holding the model's title and the first 500 characters of its
    answer, then a fixed instruction block. */
module Synthesis {
  import opened OrderedDict
  import opened Models

  /** How many characters of a response go into its section. */
  const ExcerptLimit: nat := 500

  /** The fixed instruction block that closes the prompt. It is a triple-quoted
      literal in the source, so every line after the first keeps the four
      spaces of the surrounding indentation, and the text ends in a newline
      followed by those four spaces. */
  const SynthesisTask: string :=
    "## Synthesis Task\n" +
    "    Review all responses above and:\n" +
    "    1. Identify common themes\n" +
    "    2. Note unique insights from each model\n" +
    "    3. Synthesize into unified perspective\n" +
    "    4. Highlight remaining questions or tensions\n" +
    "    "

  function Min(a: nat, b: nat): nat
  {
    if a <= b then a else b
  }

  /** Everything before the first section. */
  function Header(original: string): string
  {
    "# Synthesis Round\n\n" + ("## Original Prompt\n" + original + "\n\n") + "## Model Responses\n\n"
  }

  /** `response[:500]`. */
  function Excerpt(response: string): string
  {
    response[..Min(ExcerptLimit, |response|)]
  }

  /** The excerpt is a prefix of the response, never longer than 500
      characters: the whole response when it is no longer than that, its
      first 500 characters otherwise. */
  lemma ExcerptIsBoundedPrefix(response: string)
    ensures var e := Excerpt(response);
      && e <= response
      && |e| <= ExcerptLimit
      && (|response| <= ExcerptLimit ==> e == response)
      && (|response| > ExcerptLimit ==> |e| == ExcerptLimit)
  {
  }

  /** The section for one response; the marker `...` follows the excerpt
      whether or not anything was cut. */
  function Section(m: Model, response: string): string
  {
    "### " + m.Title() + "\n" + Excerpt(response) + "...\n\n"
  }

  /** The sections of all responses, in the dict's iteration order. */
  function Sections(responses: Dict<Model, string>): string
  {
    if responses == [] then ""
    else
      var last := responses[|responses| - 1];
      Sections(responses[..|responses| - 1]) + Section(last.0, last.1)
  }

  /** What `create_synthesis_prompt` returns. */
  function SynthesisPrompt(original: string, responses: Dict<Model, string>): string
  {
    Header(original) + Sections(responses) + SynthesisTask
  }

  /** `create_synthesis_prompt`: builds the text by appending to it. */
  method CreateSynthesisPrompt(original: string, responses: Dict<Model, string>) returns (prompt: string)
    ensures prompt == SynthesisPrompt(original, responses)
  {
    prompt := "# Synthesis Round\n\n";
    prompt := prompt + ("## Original Prompt\n" + original + "\n\n");
    prompt := prompt + "## Model Responses\n\n";
    for i := 0 to |responses|
      invariant prompt == Header(original) + Sections(responses[..i])
    {
      var (name, response) := responses[i];
      var section := "### " + name.Title() + "\n" + response[..if |response| <= 500 then |response| else 500] + "...\n\n";
      assert responses[..i + 1][..i] == responses[..i];
      ConcatAssoc(Header(original), Sections(responses[..i]), section);
      prompt := prompt + section;
    }
    assert responses[..|responses|] == responses;
    prompt := prompt + SynthesisTask;
  }

  /** The number of characters a section takes: `### `, the title, a newline,
      the excerpt and `...` with two newlines. */
  function SectionLength(m: Model, response: string): nat
  {
    10 + |m.Title()| + Min(ExcerptLimit, |response|)
  }

  /** The sum of the section lengths, summed from the front. */
  function TotalSectionLength(responses: Dict<Model, string>): nat
  {
    if responses == [] then 0
    else SectionLength(responses[0].0, responses[0].1) + TotalSectionLength(responses[1..])
  }

  /** A section is the title line, the response's first characters (all of
      them when it has at most 500), and the marker; it is never longer than
      516 characters. */
  lemma SectionShape(m: Model, response: string)
    ensures var s := Section(m, response);
      && |s| == SectionLength(m, response) <= 516
      && s[..4] == "### "
      && s[4..4 + |m.Title()|] == m.Title()
      && s[4 + |m.Title()|] == '\n'
      && s[5 + |m.Title()|..|s| - 5] <= response
      && (|response| <= ExcerptLimit ==> s[5 + |m.Title()|..|s| - 5] == response)
      && s[|s| - 5..] == "...\n\n"
  {
    var t := m.Title();
    var s := Section(m, response);
    var e := Excerpt(response);
    ExcerptIsBoundedPrefix(response);
    assert s == "### " + t + "\n" + e + "...\n\n";
    assert s[5 + |t|..|s| - 5] == e;
  }

  /** A section depends only on the first 500 characters of the response:
      whatever follows them never reaches the prompt. */
  lemma SectionIgnoresTail(m: Model, response: string, tail: string)
    requires |response| >= ExcerptLimit
    ensures Section(m, response + tail) == Section(m, response)
  {
    assert (response + tail)[..ExcerptLimit] == response[..ExcerptLimit];
  }

  lemma ConcatAssoc<T>(x: seq<T>, y: seq<T>, z: seq<T>)
    ensures (x + y) + z == x + (y + z)
  {
  }

  lemma Regroup(h: string, b: string, s: string, a: string, t: string)
    ensures h + (b + s + a) + t == (h + b) + s + (a + t)
  {
  }

  lemma InfixAt(u: string, s: string, v: string)
    ensures (u + s + v)[|u|..|u| + |s|] == s
  {
  }

  lemma Ends(u: string, v: string, t: string)
    ensures u <= u + v + t
    ensures (u + v + t)[|u + v|..] == t
  {
  }

  /** Building the sections of two dicts one after the other gives the
      sections of their concatenation. */
  lemma {:induction false} SectionsAppend(a: Dict<Model, string>, b: Dict<Model, string>)
    ensures Sections(a + b) == Sections(a) + Sections(b)
  {
    if b == [] {
      assert a + b == a;
    } else {
      var ab := a + b;
      var last := b[|b| - 1];
      assert ab[..|ab| - 1] == a + b[..|b| - 1];
      assert ab[|ab| - 1] == last;
      var s := Section(last.0, last.1);
      assert Sections(ab) == Sections(a + b[..|b| - 1]) + s;
      assert Sections(b) == Sections(b[..|b| - 1]) + s;
      SectionsAppend(a, b[..|b| - 1]);
      ConcatAssoc(Sections(a), Sections(b[..|b| - 1]), s);
    }
  }

  /** The sections take exactly the sum of their lengths. */
  lemma {:induction false} SectionsLength(responses: Dict<Model, string>)
    ensures |Sections(responses)| == TotalSectionLength(responses)
  {
    if responses != [] {
      var head := responses[0];
      assert responses == [head] + responses[1..];
      SectionsAppend([head], responses[1..]);
      assert [head][..0] == [];
      SectionShape(head.0, head.1);
      SectionsLength(responses[1..]);
    }
  }

  /** The prompt opens with the header naming the original prompt, closes
      with the instruction block, and its length is theirs plus the sections';
      without responses it is the header followed by the instruction block. */
  lemma SynthesisPromptFrame(original: string, responses: Dict<Model, string>)
    ensures var p := SynthesisPrompt(original, responses);
      && Header(original) <= p
      && |p| == |Header(original)| + TotalSectionLength(responses) + |SynthesisTask|
      && p[|p| - |SynthesisTask|..] == SynthesisTask
      && (responses == [] ==> p == Header(original) + SynthesisTask)
  {
    var h, body := Header(original), Sections(responses);
    SectionsLength(responses);
    Ends(h, body, SynthesisTask);
    if responses == [] {
      assert body == "";
      assert h + body == h;
    }
  }

  /** Where the section of the `i`-th response starts in the prompt. */
  function SectionOffset(original: string, responses: Dict<Model, string>, i: nat): nat
    requires i <= |responses|
  {
    |Header(original)| + |Sections(responses[..i])|
  }

  /** The section of every response stands in the prompt at its offset. */
  lemma SectionPlacement(original: string, responses: Dict<Model, string>, i: nat)
    requires i < |responses|
    ensures var p := SynthesisPrompt(original, responses);
      var s := Section(responses[i].0, responses[i].1);
      var k := SectionOffset(original, responses, i);
      k + |s| <= |p| && p[k..k + |s|] == s
  {
    var h, s := Header(original), Section(responses[i].0, responses[i].1);
    var before, after := Sections(responses[..i]), Sections(responses[i + 1..]);
    assert responses == responses[..i] + [responses[i]] + responses[i + 1..];
    SectionsAppend(responses[..i] + [responses[i]], responses[i + 1..]);
    SectionsAppend(responses[..i], [responses[i]]);
    assert [responses[i]][..0] == [];
    assert Sections(responses) == before + s + after;
    Regroup(h, before, s, after, SynthesisTask);
    InfixAt(h + before, s, after + SynthesisTask);
  }

  /** Sections follow the order of the dict: the section of an earlier entry
      ends before the section of a later one starts. */
  lemma SectionsInOrder(original: string, responses: Dict<Model, string>, i: nat, j: nat)
    requires i < j < |responses|
    ensures SectionOffset(original, responses, i) + |Section(responses[i].0, responses[i].1)|
            <= SectionOffset(original, responses, j)
  {
    assert responses[..j] == responses[..i] + [responses[i]] + responses[i + 1..j];
    SectionsAppend(responses[..i] + [responses[i]], responses[i + 1..j]);
    SectionsAppend(responses[..i], [responses[i]]);
    assert [responses[i]][..0] == [];
  }
}
