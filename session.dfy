/** The decision part of `run_workshop_session`: which models are called,
    what the response dict holds afterwards, and which files are written with
    which text. The directory, the clock, the writes themselves and the
    adapters' network calls stay outside the model. */
module Session {
  import opened Wrappers
  import opened OrderedDict
  import opened Models
  import opened Synthesis

  /** The process environment: variable name to value. */
  type Env = map<string, string>

  /** The adapters `call_claude`, `call_gpt` and `call_gemini`, as one
      uninterpreted function from the model and the prompt to the reply. */
  type Adapter = (Model, string) -> string

  /** A written file: its name inside the session directory and its text. */
  type File = (string, string)

  /** `os.getenv(name)`. */
  function Getenv(env: Env, name: string): Option<string>
  {
    if name in env then Some(env[name]) else None
  }

  /** Python truthiness of what `os.getenv` returns: set and not empty. */
  predicate Truthy(v: Option<string>)
  {
    v.Some? && v.value != ""
  }

  /** The tags asked for: `None` stands for all three. */
  function Requested(models: Option<seq<string>>): seq<string>
  {
    if models.None? then ["claude", "gpt", "gemini"] else models.value
  }

  /** The guard in front of the call to `m`'s adapter. */
  predicate Calls(models: Option<seq<string>>, env: Env, m: Model)
  {
    m.Name() in Requested(models) && Truthy(Getenv(env, m.CredentialVar()))
  }

  /** The response dict after the guarded assignments for the first `k`
      models of the fixed order, where `called(m)` is the guard in front of
      `m`'s adapter and `reply(m)` what that adapter returns. */
  function Gathered(k: nat, called: Model -> bool, reply: Model -> string): Dict<Model, string>
    requires k <= |AllModels|
  {
    if k == 0 then []
    else
      var m := AllModels[k - 1];
      var earlier := Gathered(k - 1, called, reply);
      if called(m) then earlier + [(m, reply(m))] else earlier
  }

  /** Every entry gathered so far belongs to a model considered so far that
      passed its guard, and holds that model's reply; there is at most one
      entry per model considered. */
  lemma {:induction false} GatheredEntries(k: nat, called: Model -> bool, reply: Model -> string)
    requires k <= |AllModels|
    ensures |Gathered(k, called, reply)| <= k
    ensures forall e :: e in Gathered(k, called, reply) ==> Rank(e.0) < k && called(e.0) && e.1 == reply(e.0)
  {
    if k > 0 {
      GatheredEntries(k - 1, called, reply);
    }
  }

  /** The guarded assignment for the `k`-th model appends its entry exactly
      when the model is called. */
  lemma GatheredStep(k: nat, called: Model -> bool, reply: Model -> string)
    requires 0 < k <= |AllModels|
    ensures var m, earlier := AllModels[k - 1], Gathered(k - 1, called, reply);
      Gathered(k, called, reply) == if called(m) then Insert(earlier, m, reply(m)) else earlier
  {
    var m, earlier := AllModels[k - 1], Gathered(k - 1, called, reply);
    GatheredEntries(k - 1, called, reply);
    forall i | 0 <= i < |earlier|
      ensures Keys(earlier)[i] != m
    {
      assert earlier[i] in earlier;
    }
    InsertAbsent(earlier, m, reply(m));
  }

  /** Looking a model up after the first `k` guarded assignments finds its
      reply exactly when it is among them and passed its guard. */
  lemma {:induction false} GatheredGet(k: nat, called: Model -> bool, reply: Model -> string, m: Model)
    requires k <= |AllModels|
    ensures Get(Gathered(k, called, reply), m) == if Rank(m) < k && called(m) then Some(reply(m)) else None
  {
    if k > 0 {
      var last, earlier := AllModels[k - 1], Gathered(k - 1, called, reply);
      GatheredGet(k - 1, called, reply, m);
      assert m == last <==> Rank(m) == k - 1 by {
        assert AllModels[Rank(m)] == m;
      }
      if called(last) {
        GetAppend(earlier, last, reply(last), m);
      }
    }
  }

  /** The keys appear in the fixed order of the models. */
  predicate InFixedOrder(d: Dict<Model, string>)
  {
    forall i, j :: 0 <= i < j < |d| ==> Rank(d[i].0) < Rank(d[j].0)
  }

  /** The entries gathered so far are in the fixed order of the models. */
  lemma {:induction false} GatheredOrdered(k: nat, called: Model -> bool, reply: Model -> string)
    requires k <= |AllModels|
    ensures InFixedOrder(Gathered(k, called, reply))
  {
    if k > 0 {
      var last, earlier := AllModels[k - 1], Gathered(k - 1, called, reply);
      var d := Gathered(k, called, reply);
      GatheredOrdered(k - 1, called, reply);
      GatheredEntries(k - 1, called, reply);
      assert Rank(last) == k - 1 by {
        assert AllModels[Rank(last)] == last;
      }
      if called(last) {
        forall i, j | 0 <= i < j < |d| ensures Rank(d[i].0) < Rank(d[j].0) {
          assert d[i] == earlier[i] && d[i] in earlier;
        }
      }
    }
  }

  /** Guards that agree on every model gather the same dict. */
  lemma {:induction false} GatheredSameGuards(k: nat, a: Model -> bool, b: Model -> bool, reply: Model -> string)
    requires k <= |AllModels|
    requires forall m: Model :: a(m) == b(m)
    ensures Gathered(k, a, reply) == Gathered(k, b, reply)
  {
    if k > 0 {
      GatheredSameGuards(k - 1, a, b, reply);
    }
  }

  /** The response dict once every model has been considered. */
  function Responses(prompt: string, models: Option<seq<string>>, env: Env, call: Adapter): Dict<Model, string>
  {
    Gathered(|AllModels|, m => Calls(models, env, m), m => call(m, prompt))
  }

  function PromptFile(prompt: string): File
  {
    ("prompt.md", "# Workshop Prompt\n\n" + prompt)
  }

  function ResponseFile(m: Model, response: string): File
  {
    (m.Name() + ".md", "# " + m.Title() + " Response\n\n" + response)
  }

  /** The response files in the dict's iteration order. */
  function ResponseFiles(responses: Dict<Model, string>): (fs: seq<File>)
    ensures |fs| == |responses|
    ensures forall i :: 0 <= i < |responses| ==> fs[i] == ResponseFile(responses[i].0, responses[i].1)
  {
    if responses == [] then []
    else
      var last := responses[|responses| - 1];
      ResponseFiles(responses[..|responses| - 1]) + [ResponseFile(last.0, last.1)]
  }

  function SynthesisFile(prompt: string, responses: Dict<Model, string>): File
  {
    ("synthesis-prompt.md", SynthesisPrompt(prompt, responses))
  }

  /** Every file of the session, in the order they are written. */
  function SessionFiles(prompt: string, responses: Dict<Model, string>): seq<File>
  {
    [PromptFile(prompt)] + ResponseFiles(responses) + [SynthesisFile(prompt, responses)]
  }

  /** Lines 33-43 of `run_workshop_session`: the response dict, filled by
      one guarded assignment per model in the fixed order. */
  method CollectResponses(prompt: string, models: Option<seq<string>>, env: Env, call: Adapter)
    returns (responses: Dict<Model, string>)
    ensures responses == Responses(prompt, models, env, call)
  {
    var requested := if models.None? then ["claude", "gpt", "gemini"] else models.value;
    assert requested == Requested(models);
    assert AllModels[0] == Claude && AllModels[1] == Gpt && AllModels[2] == Gemini;
    ghost var called, reply := m => Calls(models, env, m), m => call(m, prompt);
    responses := [];
    GatheredStep(1, called, reply);
    if Claude.Name() in requested && Truthy(Getenv(env, Claude.CredentialVar())) {
      responses := Insert(responses, Claude, call(Claude, prompt));
    }
    GatheredStep(2, called, reply);
    if Gpt.Name() in requested && Truthy(Getenv(env, Gpt.CredentialVar())) {
      responses := Insert(responses, Gpt, call(Gpt, prompt));
    }
    GatheredStep(3, called, reply);
    if Gemini.Name() in requested && Truthy(Getenv(env, Gemini.CredentialVar())) {
      responses := Insert(responses, Gemini, call(Gemini, prompt));
    }
  }

  /** Lines 46-50 of `run_workshop_session`: one file per entry of the
      response dict, in its iteration order. */
  method ResponseFileTexts(responses: Dict<Model, string>) returns (files: seq<File>)
    ensures files == ResponseFiles(responses)
  {
    files := [];
    for i := 0 to |responses|
      invariant files == ResponseFiles(responses[..i])
    {
      var (modelName, response) := responses[i];
      var filename := modelName.Name() + ".md";
      assert responses[..i + 1][..i] == responses[..i];
      files := files + [(filename, "# " + modelName.Title() + " Response\n\n" + response)];
    }
    assert responses[..|responses|] == responses;
  }

  /** `run_workshop_session` without the directory, the clock and the console:
      the response dict and the files it writes, in the order it writes them. */
  method RunWorkshopSession(prompt: string, models: Option<seq<string>>, env: Env, call: Adapter)
    returns (responses: Dict<Model, string>, files: seq<File>)
    ensures responses == Responses(prompt, models, env, call)
    ensures files == SessionFiles(prompt, responses)
  {
    files := [("prompt.md", "# Workshop Prompt\n\n" + prompt)];
    responses := CollectResponses(prompt, models, env, call);
    var responseFiles := ResponseFileTexts(responses);
    files := files + responseFiles;
    var synthesisPrompt := CreateSynthesisPrompt(prompt, responses);
    files := files + [("synthesis-prompt.md", synthesisPrompt)];
  }

  /** The response dict holds an entry for a model exactly when the model
      was requested (all three when `models` is `None`) and its credential
      variable is set and not empty; the entry holds that adapter's reply. */
  lemma ResponseFor(prompt: string, models: Option<seq<string>>, env: Env, call: Adapter, m: Model)
    ensures var responses := Responses(prompt, models, env, call);
      && (m in Keys(responses) <==> m.Name() in Requested(models) && Truthy(Getenv(env, m.CredentialVar())))
      && Get(responses, m) == if Calls(models, env, m) then Some(call(m, prompt)) else None
  {
    GatheredGet(|AllModels|, m => Calls(models, env, m), m => call(m, prompt), m);
  }

  /** The keys of the response dict are a subsequence of claude, gpt,
      gemini: in that order and each at most once. */
  lemma ResponsesInFixedOrder(prompt: string, models: Option<seq<string>>, env: Env, call: Adapter)
    ensures var responses := Responses(prompt, models, env, call);
      |responses| <= |AllModels| && DistinctKeys(responses) && InFixedOrder(responses)
  {
    var responses := Responses(prompt, models, env, call);
    GatheredOrdered(|AllModels|, m => Calls(models, env, m), m => call(m, prompt));
    GatheredEntries(|AllModels|, m => Calls(models, env, m), m => call(m, prompt));
  }

  /** Without a list every model is requested, so each one is called
      exactly when its credential variable is set and not empty. */
  lemma DefaultRequestsAll(env: Env, m: Model)
    ensures Calls(None, env, m) <==> Truthy(Getenv(env, m.CredentialVar()))
  {
    match m
    case Claude => assert Requested(None)[0] == m.Name();
    case Gpt => assert Requested(None)[1] == m.Name();
    case Gemini => assert Requested(None)[2] == m.Name();
  }

  /** Tags other than the three are ignored, and a tag named twice counts
      once: adding such tags to the request changes nothing. */
  lemma UnknownAndRepeatedTagsIgnored(prompt: string, names: seq<string>, extra: seq<string>, env: Env, call: Adapter)
    requires forall x :: x in extra ==> x in names || x !in Requested(None)
    ensures Responses(prompt, Some(names + extra), env, call) == Responses(prompt, Some(names), env, call)
  {
    forall m: Model ensures m.Name() in names + extra <==> m.Name() in names {
      if m.Name() in extra {
        assert m.Name() in Requested(None);
      }
    }
    GatheredSameGuards(|AllModels|, m => Calls(Some(names + extra), env, m), m => Calls(Some(names), env, m),
                       m => call(m, prompt));
  }

  /** With no model both requested and credentialed (no credential set,
      or an empty request list) the dict is empty and the session holds
      only the prompt file and a synthesis prompt without sections. */
  lemma NothingCalled(prompt: string, models: Option<seq<string>>, env: Env, call: Adapter)
    requires forall m: Model :: !Calls(models, env, m)
    ensures Responses(prompt, models, env, call) == []
    ensures SessionFiles(prompt, []) ==
      [("prompt.md", "# Workshop Prompt\n\n" + prompt), ("synthesis-prompt.md", Header(prompt) + SynthesisTask)]
  {
    var responses := Responses(prompt, models, env, call);
    if responses != [] {
      ResponseFor(prompt, models, env, call, responses[0].0);
      assert false;
    }
    SynthesisPromptFrame(prompt, []);
  }

  /** Where each file stands in the session's list. */
  lemma SessionFilesAt(prompt: string, responses: Dict<Model, string>)
    ensures var files := SessionFiles(prompt, responses);
      && |files| == |responses| + 2
      && files[0] == PromptFile(prompt)
      && files[|responses| + 1] == SynthesisFile(prompt, responses)
      && forall i :: 0 <= i < |responses| ==> files[i + 1] == ResponseFile(responses[i].0, responses[i].1)
  {
    var rf := ResponseFiles(responses);
    var files := [PromptFile(prompt)] + rf + [SynthesisFile(prompt, responses)];
    forall i | 0 <= i < |responses| ensures files[i + 1] == rf[i] {
    }
  }

  /** No response file is named like the prompt or the synthesis file. */
  lemma ResponseFileNameFree(m: Model)
    ensures m.Name() + ".md" != "prompt.md"
    ensures m.Name() + ".md" != "synthesis-prompt.md"
  {
    assert (m.Name() + ".md")[0] != "prompt.md"[0];
    assert |m.Name() + ".md"| != |"synthesis-prompt.md"|;
  }

  /** The files of a session have distinct names: `prompt.md`, one
      `<tag>.md` per entry and `synthesis-prompt.md`. */
  lemma SessionFileNamesDistinct(prompt: string, responses: Dict<Model, string>)
    requires DistinctKeys(responses)
    ensures var files := SessionFiles(prompt, responses);
      && |files| == |responses| + 2
      && forall i, j :: 0 <= i < j < |files| ==> files[i].0 != files[j].0
  {
    var files := SessionFiles(prompt, responses);
    var n := |responses|;
    SessionFilesAt(prompt, responses);
    forall i, j | 0 <= i < j < |files| ensures files[i].0 != files[j].0 {
      if 1 <= i && j <= n {
        FileStemsDistinct(responses[i - 1].0, responses[j - 1].0);
      } else if 1 <= i <= n {
        ResponseFileNameFree(responses[i - 1].0);
      } else if 1 <= j <= n {
        ResponseFileNameFree(responses[j - 1].0);
      }
    }
  }

  /** A called model's file is in the session, named `<tag>.md`, with the
      heading `# <Title> Response` and the adapter's reply. */
  lemma ResponseFileWritten(prompt: string, models: Option<seq<string>>, env: Env, call: Adapter, m: Model)
    requires Calls(models, env, m)
    ensures ResponseFile(m, call(m, prompt)) in SessionFiles(prompt, Responses(prompt, models, env, call))
  {
    var responses := Responses(prompt, models, env, call);
    GatheredEntries(|AllModels|, m => Calls(models, env, m), m => call(m, prompt));
    ResponseFor(prompt, models, env, call, m);
    SessionFilesAt(prompt, responses);
    var i :| 0 <= i < |responses| && Keys(responses)[i] == m;
    assert responses[i] in responses;
    assert SessionFiles(prompt, responses)[i + 1] == ResponseFile(m, call(m, prompt));
  }

  /** No file named after a model that was not called is written. */
  lemma NoResponseFileUnlessCalled(prompt: string, models: Option<seq<string>>, env: Env, call: Adapter, m: Model)
    requires !Calls(models, env, m)
    ensures forall f :: f in SessionFiles(prompt, Responses(prompt, models, env, call)) ==> f.0 != m.Name() + ".md"
  {
    var responses := Responses(prompt, models, env, call);
    var files := SessionFiles(prompt, responses);
    GatheredEntries(|AllModels|, m => Calls(models, env, m), m => call(m, prompt));
    SessionFilesAt(prompt, responses);
    ResponseFileNameFree(m);
    forall i | 0 <= i < |files| ensures files[i].0 != m.Name() + ".md" {
      if 1 <= i <= |responses| {
        assert responses[i - 1] in responses;
        FileStemsDistinct(m, responses[i - 1].0);
      }
    }
  }

  /** The file names and the response file of the example below, spelled out. */
  lemma ClaudeAnswerFile()
    ensures ResponseFile(Claude, "answer") == ("claude.md", "# Claude Response\n\nanswer")
    ensures Gpt.Name() + ".md" == "gpt.md" && Gemini.Name() + ".md" == "gemini.md"
  {
    assert "claude" + ".md" == "claude.md";
    assert "gpt" + ".md" == "gpt.md";
    assert "gemini" + ".md" == "gemini.md";
    assert "# " + "Claude" + " Response\n\n" + "answer" == "# Claude Response\n\nanswer";
  }

  /** With only the Anthropic key set and an adapter answering `answer`,
      the session holds `claude.md` with `# Claude Response`, a blank line
      and `answer`, and no file for the other two models. */
  lemma ClaudeOnlySession(prompt: string, call: Adapter, key: string)
    requires key != "" && call(Claude, prompt) == "answer"
    ensures var files := SessionFiles(prompt, Responses(prompt, None, map["ANTHROPIC_API_KEY" := key], call));
      && ("claude.md", "# Claude Response\n\nanswer") in files
      && forall f :: f in files ==> f.0 != "gpt.md" && f.0 != "gemini.md"
  {
    var env := map["ANTHROPIC_API_KEY" := key];
    assert Getenv(env, Claude.CredentialVar()) == Some(key);
    assert Getenv(env, Gpt.CredentialVar()) == None by {
      assert Gpt.CredentialVar()[0] != "ANTHROPIC_API_KEY"[0];
    }
    assert Getenv(env, Gemini.CredentialVar()) == None by {
      assert Gemini.CredentialVar()[0] != "ANTHROPIC_API_KEY"[0];
    }
    DefaultRequestsAll(env, Claude);
    ResponseFileWritten(prompt, None, env, call, Claude);
    ClaudeAnswerFile();
    NoResponseFileUnlessCalled(prompt, None, env, call, Gpt);
    NoResponseFileUnlessCalled(prompt, None, env, call, Gemini);
  }
}
