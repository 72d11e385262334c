# Multi-model workshop session, modelled in Dafny

`scripts/multi-model-session.py` runs one "workshop session": it sends a
prompt to each of up to three hosted language models (Claude, GPT, Gemini)
whose API key is present in the environment, saves the prompt and every
answer as markdown, and assembles a "synthesis prompt" that quotes the first
500 characters of each answer for a follow-up round.

This project models the deterministic core of that script:

- `Models` — the three tags (`claude`, `gpt`, `gemini`) in the fixed order
  the runner tries them, each with its credential variable and the heading
  `str.title()` gives its tag.
- `OrderedDict` — a Python `dict` as a sequence of key/value pairs in
  insertion order; assignment replaces the value of a present key in place
  and appends an absent one.
- `Synthesis` — `create_synthesis_prompt`: the specification function
  `SynthesisPrompt` (header, one section per response, fixed task block),
  the method `CreateSynthesisPrompt` that builds the text with the
  source's loop and is proved equal to it, and lemmas about the result's
  shape, length, truncation and section order.
- `Session` — `run_workshop_session` with its effects as values. The
  environment is a map, the adapters are one function parameter
  `call(model, prompt)`, and the session directory is the sequence of
  `(file name, text)` pairs the runner writes, in the order it writes them.
  `Responses` and `SessionFiles` are the specification. The runner's
  three phases are methods proved against them: the guarded calls
  (`CollectResponses`), the per-response files (`ResponseFileTexts`) and the
  whole session (`RunWorkshopSession`).

## Model

| member | source | states |
|---|---|---|
| OrderedDict.InsertSemantics | scripts/multi-model-session.py:37-43 | after `d[k] = v` the key `k` maps to `v`, every other key keeps its value, and the key order is unchanged when `k` was present, with `k` appended otherwise |
| OrderedDict.InsertAbsent | scripts/multi-model-session.py:37-43 | assigning an absent key appends the pair at the end of the insertion order |
| OrderedDict.InsertKeepsDistinct | scripts/multi-model-session.py:37-43 | a dict never holds the same key twice, before or after an assignment |
| OrderedDict.GetAppend | scripts/multi-model-session.py:37-43 | looking up a key after appending a pair finds the earlier value, the appended one, or nothing |
| Models.Rank | scripts/multi-model-session.py:36-43 | each model has a position in the fixed order claude, gpt, gemini in which the runner tries them |
| Models.Capitalize | scripts/multi-model-session.py:49 | title-casing one lower-case ASCII word keeps its length, starts it with an upper-case letter, leaves every later letter lower-case, and lower-casing the result gives the word back |
| Models.TitleIsCapitalizedName | scripts/multi-model-session.py:49 | the heading used for each model is `str.title()` of its tag: `Claude`, `Gpt`, `Gemini` |
| Models.FileStemsDistinct | scripts/multi-model-session.py:47 | different models have different tags, so their response files have different names |
| Synthesis.ExcerptIsBoundedPrefix | scripts/multi-model-session.py:104 | `response[:500]` is a prefix of the response of at most 500 characters: the whole response when it is short, exactly 500 characters otherwise |
| Synthesis.CreateSynthesisPrompt | scripts/multi-model-session.py:97-114 | the loop builds exactly the synthesis prompt: header, one section per response in dict order, task block |
| Synthesis.SectionShape | scripts/multi-model-session.py:104 | a section is `### `, the titled tag, a newline, the excerpt and `...` plus a blank line; its length is 10 plus the title plus the excerpt, at most 516 |
| Synthesis.SectionIgnoresTail | scripts/multi-model-session.py:104 | characters after the 500th never reach the synthesis prompt |
| Synthesis.SectionsAppend | scripts/multi-model-session.py:103-104 | the sections of two dicts placed one after the other are the sections of the first followed by those of the second |
| Synthesis.SectionsLength | scripts/multi-model-session.py:103-104 | the section block is as long as the sum of the section lengths |
| Synthesis.SynthesisPromptFrame | scripts/multi-model-session.py:99-112 | the prompt starts with the header quoting the original prompt, ends with the task block, has the length header plus sections plus task, and with no responses is just header and task |
| Synthesis.SectionPlacement | scripts/multi-model-session.py:103-104 | the i-th response's section appears verbatim at its computed offset in the prompt |
| Synthesis.SectionsInOrder | scripts/multi-model-session.py:103-104 | the sections appear in the dict's order, each ending before the next begins |
| Session.GatheredEntries | scripts/multi-model-session.py:33-43 | after the first k guarded calls the dict has at most k entries, each from one of those models, whose guard held and whose value is its adapter's answer |
| Session.GatheredStep | scripts/multi-model-session.py:36-43 | each guarded step is the dict assignment when the guard holds and leaves the dict alone otherwise |
| Session.GatheredGet | scripts/multi-model-session.py:33-43 | after the first k guarded calls a model has an entry exactly when it is among them and its guard held, and the entry is its adapter's answer |
| Session.GatheredOrdered | scripts/multi-model-session.py:33-43 | the keys appear in the fixed order claude, gpt, gemini and are distinct |
| Session.GatheredSameGuards | scripts/multi-model-session.py:36-43 | guards that agree on every model give the same dict |
| Session.ResponseFiles | scripts/multi-model-session.py:46-50 | one response file per dict entry, in dict order, named after the tag and titled `# <Title> Response` |
| Session.CollectResponses | scripts/multi-model-session.py:33-43 | the three guarded calls build exactly the specified response dict |
| Session.ResponseFileTexts | scripts/multi-model-session.py:46-50 | the loop over the dict produces exactly the specified response files |
| Session.RunWorkshopSession | scripts/multi-model-session.py:22-54 | the session's responses and its files (prompt, one per response, synthesis prompt) are exactly the specified ones |
| Session.ResponseFor | scripts/multi-model-session.py:22-43 | a model has a response exactly when it is requested (all three by default) and its credential variable is set and not empty, and the response is its adapter's answer to the prompt |
| Session.ResponsesInFixedOrder | scripts/multi-model-session.py:33-43 | there are at most three responses, their keys are distinct and follow the fixed order |
| Session.DefaultRequestsAll | scripts/multi-model-session.py:22-23 | without a model list each model is called exactly when its credential is set and not empty |
| Session.UnknownAndRepeatedTagsIgnored | scripts/multi-model-session.py:36-43 | adding unknown tags or repeats of requested tags to the list changes nothing |
| Session.NothingCalled | scripts/multi-model-session.py:31-54 | with no model called the dict is empty and the session writes only the prompt file and a synthesis prompt made of header and task block |
| Session.SessionFilesAt | scripts/multi-model-session.py:31-54 | the files are the prompt file, then the response files at positions 1..n, then the synthesis prompt file |
| Session.ResponseFileNameFree | scripts/multi-model-session.py:47 | no response file is named `prompt.md` or `synthesis-prompt.md` |
| Session.SessionFileNamesDistinct | scripts/multi-model-session.py:31-54 | the session's file names are pairwise distinct, so no write overwrites another |
| Session.ResponseFileWritten | scripts/multi-model-session.py:46-50 | a model that is called gets a response file holding its answer under its heading |
| Session.NoResponseFileUnlessCalled | scripts/multi-model-session.py:46-50 | a model that is not called gets no response file |
| Session.ClaudeAnswerFile | scripts/multi-model-session.py:47-49 | Claude's file for the answer `answer` is `claude.md` holding `# Claude Response`, a blank line and `answer` |
| Session.ClaudeOnlySession | scripts/multi-model-session.py:22-50 | with only the Anthropic key set and the adapter answering `answer`, the session holds that `claude.md` and no file for GPT or Gemini |

## Left out

- The three adapters (`call_claude`, `call_gpt`, `call_gemini`, lines 62-95) call hosted APIs; they are one uninterpreted parameter `call(model, prompt)`, and their model identifiers and token limits are not part of this model.
- The timestamped session directory (lines 25-28) and `datetime.now()` are not modelled; the session is the sequence of file names and texts written into it.
- Writing the files, creating the directory and the three progress lines printed at the end (lines 56-58) are effects outside the model; `RunWorkshopSession` returns the files instead of the directory path.
- The command-line entry point (lines 116-124) with its usage message and exit code is not modelled.
- Exceptions raised by an adapter or by the filesystem abort the Python session; the model assumes every adapter call returns a string.
- The environment is a map from names to values; a variable set to the empty string counts as absent, as Python's truthiness of `os.getenv` has it.
- Models.Capitalize: covers only one lower-case ASCII word, which every tag is; on other ASCII input (`gPT`, several words) and on Unicode text `str.title()` differs, and that word-casing is not modelled.
- Synthesis.ExcerptIsBoundedPrefix: a Dafny `char` is a Unicode scalar value, so `Excerpt` cuts by code point exactly as `response[:500]` does; the only Python strings it does not cover are those holding lone surrogates (for example from `surrogateescape` decoding), which a Dafny string cannot hold.
- The dict's keys are the `Model` values rather than their tag strings; `Models.Name` maps one to the other, and `Models.FileStemsDistinct` shows the mapping is one-to-one.
