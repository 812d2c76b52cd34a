# Prompt-Enhancer utilities in Dafny

This project models the deterministic part of the Prompt-Enhancer helper module
`src/utils.py`. Prompt-Enhancer wraps a user's prompt in "prompt engineering
technique" instructions and sends them to a hosted chat model. The modelled pieces:

- `convert_newlines`: every newline becomes a Markdown hard line break (`"  \n"`).
  Module `Newlines`.
- `fetch_available_models`, after the listing call. The listing is an input of type
  `Option<seq<string>>`, where `None` is a failed call. The ids whose lowercase form
  contains `gpt` or `chat` are kept and sorted in place, greatest first. A failed
  listing returns the fixed five-model fallback list. Module `ModelCatalog`. The
  in-place `list.sort(reverse=True)` is an insertion sort on an `array<string>`.
- `apply_skill` and `apply_skills`, up to the (system, user) message pair they send.
  Module `Skills`.
  - The template mapping is a `map<string,string>` parameter.
  - The skill selection is a sequence of `(skill, toggled)` pairs in dictionary
    iteration order.
  - The prompt-template engine is a parameter `format(template, prompt)`.
  - A missing template identifier is a `Failure(KeyError(key))` result that carries
    the first identifier whose lookup fails, in the order the code looks them up.
  - No message pair exists on that path.
- The Python `str` operations these rely on: `lower()`, `in`, `<=` and `str(n)`.
  Module `Text`. `Wrappers` holds `Option` and `Result`.

One might expect every list `fetch_available_models` returns to be sorted in
non-increasing order. The code's fallback list is not in that order:
`"gpt-4o"` sorts before `"gpt-4o-mini"` but is listed first. The model follows the
code. `ModelCatalog.FallbackNotSortedDescending` proves the fallback is unsorted,
and the sortedness guarantee covers only a successful listing.

## Model

| member | source | states |
|---|---|---|
| `Newlines.ConvertNewlines` | src/utils.py:33-35 | the result is longer than the input by exactly two characters per newline |
| `Newlines.ConvertOneChar` | src/utils.py:34 | a newline becomes `"  \n"`; any other character is kept as it is |
| `Newlines.ConvertAppend` | src/utils.py:34 | converting a concatenation converts each part, so the rewrite is applied independently at every position |
| `Newlines.ConvertWithoutNewline` | src/utils.py:33-35 | a string with no newline is returned unchanged |
| `Newlines.ConvertKeepsNewlines` | src/utils.py:34 | the result has exactly as many newlines as the input |
| `Newlines.ConvertExample` | src/utils.py:33-35 | `"a\nb"` becomes `"a  \nb"` |
| `Newlines.ConvertNotIdempotent` | src/utils.py:34 | applying the conversion twice adds two more spaces before a newline, so it is not idempotent |
| `Newlines.RestoreConvert` | src/utils.py:33-35 | turning each `"  \n"` back into `"\n"`, scanning left to right, recovers the original input for every input |
| `Newlines.ConvertInjective` | src/utils.py:33-35 | two different prompts never convert to the same text |
| `Text.LowerChar` | src/utils.py:17 | definition: an ASCII capital becomes the letter 32 code points above it; every other character is kept |
| `Text.Lower` | src/utils.py:17 | definition: `s.lower()` applies `LowerChar` at every position |
| `Text.LowerLeavesNoCapital` | src/utils.py:17 | `lower()` keeps the length, leaves no ASCII capital, and changes only capitals |
| `Text.LowerAppend` | src/utils.py:17 | lowering a concatenation lowers each part |
| `Text.LowerCharIs` | src/utils.py:17 | a character lowers to a lowercase letter exactly when it is that letter or its capital |
| `Text.OccursAtLower` | src/utils.py:17 | a window of the lowered id equals a lowercase word exactly when that window of the id spells the word with each letter in either case |
| `Text.ContainsLower` | src/utils.py:17 | `word in s.lower()` holds exactly when `s` contains the word ignoring case, for any lowercase word |
| `Text.Contains` | src/utils.py:17 | definition: Python's `sub in s`, some index at which `sub` occurs in `s` |
| `Text.LexLe` | src/utils.py:19 | definition: Python's `a <= b` on strings, code point by code point, a proper prefix first |
| `Text.LowerIdempotent` | src/utils.py:17 | lowering twice gives the same result as lowering once |
| `Text.LexLeReflexive` | src/utils.py:19 | the string order used by the sort is reflexive |
| `Text.LexLeTotal` | src/utils.py:19 | any two strings are comparable |
| `Text.LexLeAntisymmetric` | src/utils.py:19 | two strings that are each less than or equal to the other are equal |
| `Text.LexLeTransitive` | src/utils.py:19 | the order is transitive |
| `Text.NatToString` | src/utils.py:71 | `str(idx+1)` is a non-empty string of decimal digits with no leading zero, one digit exactly for numbers below 10 |
| `Text.NatToStringValue` | src/utils.py:71 | the numeral denotes the number it was made from |
| `Text.NatToStringInjective` | src/utils.py:71 | different line numbers give different numerals |
| `ModelCatalog.Fallback` | src/utils.py:24 | definition: the five fallback ids, in the order the code lists them |
| `ModelCatalog.IsChatModel` | src/utils.py:17 | definition: the lowercase id contains "gpt" or "chat" |
| `ModelCatalog.IsChatModelCaseInsensitive` | src/utils.py:17 | an id passes the filter exactly when some window of it spells "gpt" or "chat" with each letter in either case |
| `ModelCatalog.IsChatModelIgnoresCase` | src/utils.py:17 | the filter gives the same answer for an id and for its lowercase form |
| `ModelCatalog.ChatModels` | src/utils.py:17 | every chat-model id is kept as often as it is listed; every other id is dropped |
| `ModelCatalog.ChatModelsExact` | src/utils.py:17 | an id is in the filtered list if and only if it is listed and its lowercase form contains "gpt" or "chat" |
| `ModelCatalog.SwapWithPrevious` | src/utils.py:19 | one exchange of the sort swaps two neighbouring elements, leaves the rest of the array unchanged and keeps its elements |
| `ModelCatalog.InsertDescending` | src/utils.py:19 | one sorting step extends the non-increasing prefix by one element. It keeps the array's elements and leaves the unsorted part alone |
| `ModelCatalog.SortDescending` | src/utils.py:19 | after the in-place sort, the array is in non-increasing order and is a permutation of its old contents |
| `ModelCatalog.FetchAvailableModels` | src/utils.py:9-24 | a failed listing gives exactly the five fallback ids, in their order. A successful listing gives a non-increasing permutation of the filtered ids, and an id is returned if and only if it was listed and passes the filter |
| `ModelCatalog.SortedDescendingUnique` | src/utils.py:17-20 | two non-increasing lists with the same elements are equal, so a successful result is fully determined by the listing |
| `ModelCatalog.FallbackAreChatModels` | src/utils.py:24 | every fallback id would pass the chat-model filter |
| `ModelCatalog.FallbackNotSortedDescending` | src/utils.py:19-24 | the fallback list is not in the order a successful listing is returned in |
| `Skills.SingleDirectiveKey` | src/utils.py:40-43 | the English directive is chosen if and only if English is asked for at position 1. The default directive is chosen if and only if English is not asked for. No directive is chosen if and only if English is asked for at another position |
| `Skills.MultipleDirectiveKey` | src/utils.py:61-64 | the multi-skill path always picks one directive, the one the single-skill path picks at position 1 |
| `Skills.FirstMissing` | src/utils.py:39-45 | it finds the first identifier in lookup order that the mapping lacks, and every identifier before it is present; it is absent exactly when all identifiers are present |
| `Skills.ApplySkill` | src/utils.py:38-52 | it fails exactly when one of `system`, the chosen directive or the skill template is missing, and reports the first missing one. Otherwise the system message is the system template plus the English directive (English at position 1), plus the default directive (not English), or alone (English at a later position). The user message is the filled skill template |
| `Skills.Enabled` | src/utils.py:66 | a skill is kept if and only if it is toggled on in the selection, and nothing is added |
| `Skills.EnabledAppend` | src/utils.py:66 | the kept skills of a longer selection are those of its first part followed by those of the rest, so selection order is preserved |
| `Skills.EnabledOne` | src/utils.py:66 | one entry contributes its skill if it is toggled on and nothing otherwise |
| `Skills.SkillLine` | src/utils.py:71 | definition: the line `f"{idx+1}. {skill}: {template}\n"` |
| `Skills.NumberedLines` | src/utils.py:69-71 | definition: the lines the loop appends for a list of skills and their templates, numbered consecutively from a given number |
| `Skills.NumberedLinesSplit` | src/utils.py:69-71 | the numbering continues across a split: the second part's lines start where the first part's numbering stopped |
| `Skills.NumberedLinesAppend` | src/utils.py:69-71 | each loop step appends exactly one line, `"<n>. <skill>: <text>\n"`, numbered one past the previous lines |
| `Skills.NumberedLinesAt` | src/utils.py:69-71 | the line of the k-th enabled skill (counting from 0) carries the number k+1; the lines before and after it come in order |
| `Skills.Instruction` | src/utils.py:67-72 | the composite instruction starts with the header line and ends with the closing block, whose last part is `"[original]\n{prompt}\n[improved]\n"` |
| `Skills.ComposeInstruction` | src/utils.py:67-72 | the loop fails exactly when an enabled skill has no `<skill>_simpler` template, and reports the first such skill's key. Otherwise it yields the header, one numbered line per enabled skill in order, and the closing block |
| `Skills.ApplySkills` | src/utils.py:59-80 | it fails exactly when `system_multiple`, the directive or one enabled skill's `<skill>_simpler` template is missing, and reports the first missing one in lookup order. Otherwise the system message is the multi-skill template with exactly one directive, and the user message is the filled composite instruction |
| `Skills.EnabledExample` | src/utils.py:66 | the selection {A: on, B: off, C: on} enables exactly A and C, in that order |
| `Skills.InstructionExample` | src/utils.py:67-72 | for the enabled skills A and C the composite instruction is the header, then `"1. A: <text>\n"` and `"2. C: <text>\n"`, then the closing block |

## Left out

- The listing call `openai.Model.list()` and the assignment of the global `openai.api_key` (src/utils.py:12-13) are network access and library state. The call's outcome is the `listing` parameter.
- A malformed listing response that raises while the ids are extracted (src/utils.py:15) is folded into `None`, which covers every failure.
- The `print` of the error (src/utils.py:23) is output only and is not modelled.
- `load_model` (src/utils.py:27-30) reads an environment variable and constructs a foreign client. It is not part of this model.
- `llm.invoke` and `response.content` (src/utils.py:54-56, 82-84) are a remote call. The model stops at the constructed message pair, and a failing call is not modelled.
- `PromptTemplate.from_template` / `format` (src/utils.py:46-47, 74-75) come from a library whose rules are not visible here: brace escaping, other placeholders, and the errors it can raise. They are the uninterpreted parameter `format`, and the model claims nothing about how the prompt is substituted. The composite instruction is stated before substitution.
- The template texts in `src/prompts` are not part of this model. The mapping is an arbitrary parameter.
- `Text.Lower`: only ASCII capitals are lowercased. Python's `lower()` also maps non-ASCII capitals. None of those maps to one of the letters of "gpt" or "chat", so the filter's answer does not depend on them.
- `Skills.ApplySkill`: `lang_eng` is a `bool` and `order_num` an `int`. Python's truthiness of other values, and comparisons such as `1.0 == 1`, are not modelled.
- The skill-selection dictionary is a sequence of pairs. The model does not require its keys to be distinct, as a dictionary's keys are.
