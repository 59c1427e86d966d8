# Langfuse prompt component: dynamic parameter fields

A Dafny model of the one piece of real logic in the Langfuse prompt component
of this flow-builder plugin package: how the component rebuilds its dynamic
form when the user sets the prompt key, and how it collects parameter values
when it builds the prompt.

- `Placeholders` (`placeholders.dfy`) models the scan that Python's
  `re.findall(r"\{(.*?)\}", text)` performs on a message template. `Extract` is the
  scanner. `CloseIndex` finds the lazy match's closing brace, which is the first
  `}` not preceded by a newline. `Decomposition` describes a findall result
  declaratively: the text is cut into gaps and `{name}` pieces, and no gap could
  have opened a match. `ExtractDecomposes` and `DecompositionUnique` prove that
  `Extract` produces such a decomposition and that it is the only one.
- `LangfusePrompt` (`langfuse_prompt.dfy`) models `update_build_config`.
  `BuildConfig` is the host's field table, which the method updates in place.
  `UpdateBuildConfig` keeps the source's loops: collecting placeholders and the
  full template, dropping the `param_` fields over a snapshot of the keys, and
  inserting one field per placeholder. It is proved equal to the pure
  specification `Update`. The lemmas then state what the source promises about
  `Update`: when it leaves the config unchanged, the exact set of parameter
  fields after regeneration, what stays unchanged, and idempotence.
- `PromptParams` (`prompt_params.dfy`) models the two dict comprehensions of
  `build_prompt` that gather the values passed to the template.
- `Wrappers` (`wrappers.dfy`) holds the `Option` type.

The remote prompt lookup is an input. `templates` is the list of template
strings of the fetched prompt's messages, in order. Python's
`field_value`/`field_name` become `Option<string>`, and the value is falsy when
it is `None` or `Some("")`. The model assumes that indexing the config at line
77 fails when it has no `langfuse_prompt_key` entry, before anything has been
changed; the model then returns the outcome `MissingPromptKeyField` and leaves
the config unchanged (see "## Left out"). On every other path the source
returns the config object it was given. The model's method instead returns an
`Outcome` that names the path taken, and the config object is the one it
updated.

The old parameter fields are removed at lines 79-82, which run only after the
early return at lines 73-74. So the code keeps stale fields from
a previous key whenever every placeholder of the new template already has its
field, for example when the template has no placeholders at all.
`StaleParamSurvives` exhibits the case.

## Model

| member | source | states |
|---|---|---|
| `Placeholders.CloseIndex` | src/backend/patri_components/patri_ai/LangfusePromptComponent.py:59 | a match found for the lazy `.*?}` ends at a `}` inside the scanned text |
| `Placeholders.CloseIndexFirst` | src/backend/patri_components/patri_ai/LangfusePromptComponent.py:59 | the match ends at the first `}` and has no newline before it; when there is no match, every `}` has a newline before it |
| `Placeholders.Extract` | src/backend/patri_components/patri_ai/LangfusePromptComponent.py:59-66 | captured names never contain `}` or a newline |
| `Placeholders.ExtractDecomposes` | src/backend/patri_components/patri_ai/LangfusePromptComponent.py:59-66 | the text is exactly the gaps and the `{name}` pieces of the extracted names, in order and without overlap, and no gap contains a `{` that could start a match |
| `Placeholders.DecompositionUnique` | src/backend/patri_components/patri_ai/LangfusePromptComponent.py:59-66 | any such decomposition has exactly the extracted names and gaps, so `Extract` returns what the leftmost, non-overlapping findall returns |
| `Placeholders.ReassembleGaps` | src/backend/patri_components/patri_ai/LangfusePromptComponent.py:59-66 | putting the gaps and `{name}` pieces back together reproduces the scanned text |
| `Placeholders.GapsOfOpenNothing` | src/backend/patri_components/patri_ai/LangfusePromptComponent.py:59-66 | every `{` the scan skips reaches a newline before any closing brace |
| `Placeholders.CloseAcrossNewline` | src/backend/patri_components/patri_ai/LangfusePromptComponent.py:59 | the search for a closing brace never crosses a newline |
| `Placeholders.ExtractAcrossNewline` | src/backend/patri_components/patri_ai/LangfusePromptComponent.py:59-70 | scanning `a + "\n" + b` finds the names of `a` followed by those of `b` |
| `Placeholders.ExampleDoubledBraces` | src/backend/patri_components/patri_ai/LangfusePromptComponent.py:59-66 | `{{a}}` yields the name `{a` |
| `Placeholders.ExampleEmptyName` | src/backend/patri_components/patri_ai/LangfusePromptComponent.py:59-66 | `{}` yields the empty name |
| `Placeholders.ExampleDuplicates` | src/backend/patri_components/patri_ai/LangfusePromptComponent.py:59-67 | a repeated placeholder is extracted each time |
| `Placeholders.ExampleNewline` | src/backend/patri_components/patri_ai/LangfusePromptComponent.py:59-66 | a newline between the braces prevents a match |
| `LangfusePrompt.ParamKeyInverse` | src/backend/patri_components/patri_ai/LangfusePromptComponent.py:81-93 | every key starting with `param_` is the parameter key of its suffix, so `param_` keys and names correspond one to one |
| `LangfusePrompt.ScanTemplates` | src/backend/patri_components/patri_ai/LangfusePromptComponent.py:61-70 | the loop collects the names of each template in order and builds `"\n" + t` over the templates, and the collected names are exactly the placeholders of the full text |
| `LangfusePrompt.FullTemplate` | src/backend/patri_components/patri_ai/LangfusePromptComponent.py:63-77 | the full text shown in the key's info (each template after a newline) has exactly the collected placeholders |
| `LangfusePrompt.AllFields` | src/backend/patri_components/patri_ai/LangfusePromptComponent.py:62-67 | the names collected over all templates, in order, never contain `}` or a newline |
| `LangfusePrompt.ParamDescriptor` | src/backend/patri_components/patri_ai/LangfusePromptComponent.py:85-90 | the field generated for a placeholder is named by a `param_` key whose suffix is the placeholder, is displayed as the placeholder, and has the info `Fill in the value for {name}` |
| `LangfusePrompt.IsTruthy` | src/backend/patri_components/patri_ai/LangfusePromptComponent.py:43 | the key value counts as set exactly when it is neither `None` nor the empty string |
| `LangfusePrompt.AllPresent` | src/backend/patri_components/patri_ai/LangfusePromptComponent.py:72-73 | the early-return test holds exactly when every collected name has its `param_` field |
| `LangfusePrompt.WithoutParams` | src/backend/patri_components/patri_ai/LangfusePromptComponent.py:79-82 | deleting the `param_` keys keeps exactly the other keys, with their fields unchanged |
| `LangfusePrompt.WithParams` | src/backend/patri_components/patri_ai/LangfusePromptComponent.py:84-93 | inserting the generated fields keeps every existing key and non-`param_` field, and gives each name its `param_` field with its generated descriptor |
| `LangfusePrompt.Regenerate` | src/backend/patri_components/patri_ai/LangfusePromptComponent.py:76-93 | the regenerated config has the prompt key with its info set to the full template, keeps every non-`param_` key, and has each collected name's generated field |
| `LangfusePrompt.Update` | src/backend/patri_components/patri_ai/LangfusePromptComponent.py:36-95 | the path taken: ignored exactly when another field changed or the value is falsy, up to date exactly when every collected name already has its field, regenerated exactly when a field is missing and the key entry exists; every path but regeneration leaves the config unchanged |
| `LangfusePrompt.AllFieldsCollects` | src/backend/patri_components/patri_ai/LangfusePromptComponent.py:64-67 | a name is collected if and only if some message template contains it |
| `LangfusePrompt.UpdateBuildConfig` | src/backend/patri_components/patri_ai/LangfusePromptComponent.py:36-95 | the in-place update leaves the config and outcome that `Update` specifies, on every path: ignored, up to date, missing key entry, regenerated |
| `LangfusePrompt.IgnoredLeavesConfig` | src/backend/patri_components/patri_ai/LangfusePromptComponent.py:42-44 | another field, or an empty or `None` value, leaves the config unchanged whatever the templates are |
| `LangfusePrompt.UpToDateLeavesConfig` | src/backend/patri_components/patri_ai/LangfusePromptComponent.py:72-74 | when every placeholder already has its `param_` field, the config is untouched, stale fields and the key's info included |
| `LangfusePrompt.NoPlaceholdersLeavesConfig` | src/backend/patri_components/patri_ai/LangfusePromptComponent.py:72-74 | templates without placeholders never change the config |
| `LangfusePrompt.NoFieldsCollected` | src/backend/patri_components/patri_ai/LangfusePromptComponent.py:64-67 | templates without placeholders contribute no names |
| `LangfusePrompt.StaleParamSurvives` | src/backend/patri_components/patri_ai/LangfusePromptComponent.py:72-74 | a `param_b` left from an earlier template survives when the template now has only `{a}` |
| `LangfusePrompt.WithParamsFields` | src/backend/patri_components/patri_ai/LangfusePromptComponent.py:85-93 | the insertion loop adds exactly one field per distinct name, with its generated descriptor, and leaves every other field as it was |
| `LangfusePrompt.RegeneratedParamFields` | src/backend/patri_components/patri_ai/LangfusePromptComponent.py:79-93 | after regeneration a `param_` key is present if and only if its suffix is a collected name, and each such field is named `param_f`, displayed as `f`, with info `Fill in the value for {f}` |
| `LangfusePrompt.RegeneratedKeepsOtherFields` | src/backend/patri_components/patri_ai/LangfusePromptComponent.py:76-82 | regeneration keeps every non-`param_` field as it was, except that the prompt key's info becomes the full template text |
| `LangfusePrompt.UpdateIdempotent` | src/backend/patri_components/patri_ai/LangfusePromptComponent.py:72-93 | a second identical call takes the early return and changes nothing |
| `LangfusePrompt.KeyChangeExample` | src/backend/patri_components/patri_ai/LangfusePromptComponent.py:72-93 | a key change to messages with `{a}` and `{b}` leaves exactly the fields `param_a` and `param_b`, and the old `param_old` is gone |
| `PromptParams.ParamsDict` | src/backend/patri_components/patri_ai/LangfusePromptComponent.py:104 | there is one entry for each input variable and no other; it holds the component's `param_` attribute for that variable, or the text `{p}` when there is no such attribute |
| `PromptParams.OriginalParams` | src/backend/patri_components/patri_ai/LangfusePromptComponent.py:105 | `None` entries are dropped and the rest kept; values with a `text` become that text, and plain strings stay as they are |
| `PromptParams.CollectParams` | src/backend/patri_components/patri_ai/LangfusePromptComponent.py:104-105 | a variable is passed if and only if it is an input variable whose `param_` attribute is not `None`; a missing attribute gives `{p}`; every value passed is a plain string |

## Left out

- The remote lookup `_fetch_langfuse_template` (LangfusePromptComponent.py:118-127) is a network call. Its result enters as the `templates` argument. The early return at lines 43-44 comes before the fetch at line 47, so on that path the model's result does not depend on `templates`.
- Unwrapping messages through the LangChain prompt types (lines 49-56) is library code. The model starts from the message template strings.
- `DefaultPromptField(...).to_dict()` (lines 86-90) comes from the host library. A field descriptor is reduced to `name`, `display_name` and `info`, so the host's other attributes of any field are not modelled.
- The order of the build config's keys is not modelled: a Python dict keeps insertion order, and the model uses a Dafny `map`.
- Field values of types other than a string or `None` are not modelled. Python truthiness is modelled only for those two.
- Attribute values in `build_prompt` are reduced to `None`, a plain string, or an object carrying `text`.
- The rest of `build_prompt` (lines 106-116) is not modelled: template invocation, message construction and the status update are library and host calls. So is its `async` form.
- `jinja_renderer.py` is not part of this model. JSON parsing, Jinja2 rendering and the host's output types are all library calls. Its own logic is limited to two things: it checks that the parsed variables form an object, and it re-raises library errors as `ValueError`. Modelling either would mean modelling those libraries.
- LangfusePrompt.UpdateBuildConfig: the host's `dotdict` (imported at line 8) is not part of this model. The model assumes that indexing it with a missing `langfuse_prompt_key` at line 77 raises, leaving the config as it was. If the host's dictionary instead answers a missing key with a fresh empty dictionary, the source would go on to rebuild the `param_` fields on that path. The path does not arise in practice, because `langfuse_prompt_key` is a declared input of the component (lines 19-30) and so always has an entry.
- The component's `inputs`/`outputs` declarations are host plugin schema, not behaviour.
