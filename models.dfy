/** The three model tags the session runner knows, the environment variable
    holding each vendor's credential, and the tag's title-cased form used in
    headings. */
module Models {

  datatype Model = Claude | Gpt | Gemini {

    /** The tag: the key in the response dict, the entry looked for in the
        requested list, and the stem of the response file's name. */
    function Name(): string
    {
      match this
      case Claude => "claude"
      case Gpt => "gpt"
      case Gemini => "gemini"
    }

    /** The environment variable whose value the adapter uses as its key. */
    function CredentialVar(): string
    {
      match this
      case Claude => "ANTHROPIC_API_KEY"
      case Gpt => "OPENAI_API_KEY"
      case Gemini => "GOOGLE_API_KEY"
    }

    /** `name.title()` for the tag (see TitleIsCapitalizedName). */
    function Title(): string
    {
      match this
      case Claude => "Claude"
      case Gpt => "Gpt"
      case Gemini => "Gemini"
    }
  }

  /** The order in which the runner considers the models. */
  const AllModels: seq<Model> := [Claude, Gpt, Gemini]

  /** The position of a model in `AllModels`. */
  function Rank(m: Model): (r: nat)
    ensures r < |AllModels| && AllModels[r] == m
  {
    match m
    case Claude => 0
    case Gpt => 1
    case Gemini => 2
  }

  predicate IsLowerAscii(c: char)
  {
    'a' <= c <= 'z'
  }

  predicate IsUpperAscii(c: char)
  {
    'A' <= c <= 'Z'
  }

  /** A word of lower-case ASCII letters only, such as every tag. */
  predicate IsLowerWord(s: string)
  {
    forall i :: 0 <= i < |s| ==> IsLowerAscii(s[i])
  }

  function UpperAscii(c: char): (u: char)
    ensures IsLowerAscii(c) ==> IsUpperAscii(u) && u as int - 'A' as int == c as int - 'a' as int
    ensures !IsLowerAscii(c) ==> u == c
  {
    if IsLowerAscii(c) then (c as int - 32) as char else c
  }

  function LowerAscii(c: char): (l: char)
    ensures IsUpperAscii(c) ==> IsLowerAscii(l) && l as int - 'a' as int == c as int - 'A' as int
    ensures !IsUpperAscii(c) ==> l == c
  {
    if IsUpperAscii(c) then (c as int + 32) as char else c
  }

  /** Every ASCII letter of `s` lower-cased. */
  function LowerAll(s: string): (r: string)
    ensures |r| == |s|
    ensures forall i :: 0 <= i < |s| ==> r[i] == LowerAscii(s[i])
  {
    if s == [] then [] else [LowerAscii(s[0])] + LowerAll(s[1..])
  }

  /** `str.title()` on one lower-case ASCII word: the result starts with an
      upper-case letter, continues in lower case, and lower-casing it gives
      the word back. */
  function Capitalize(s: string): (t: string)
    requires IsLowerWord(s)
    ensures |t| == |s|
    ensures s != [] ==> IsUpperAscii(t[0])
    ensures forall i :: 1 <= i < |t| ==> IsLowerAscii(t[i])
    ensures LowerAll(t) == s
  {
    if s == [] then [] else [UpperAscii(s[0])] + s[1..]
  }

  /** Each heading is the tag with its first letter upper-cased, which is
      what `str.title()` does to a single lower-case ASCII word. */
  lemma TitleIsCapitalizedName(m: Model)
    ensures m.Title() == Capitalize(m.Name())
  {
    var n := m.Name();
    assert IsLowerAscii(n[0]);
    assert UpperAscii(n[0]) == m.Title()[0];
  }

  /** Different models have different tags, and the tags never end in one
      another's `.md` file name. */
  lemma FileStemsDistinct(a: Model, b: Model)
    requires a != b
    ensures a.Name() != b.Name()
    ensures a.Name() + ".md" != b.Name() + ".md"
  {
    var fa, fb := a.Name() + ".md", b.Name() + ".md";
    if |fa| == |fb| {
      assert fa[1] != fb[1] || fa[0] != fb[0];
    }
  }
}
