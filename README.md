# Symptom checker core, modelled in Dafny

The system is a small Flask service (`app.py`). It takes a description of symptoms with
an age and a gender and asks a Gemini model for an analysis laid out under six `### `
headings. It cuts the answer into six named sections with a regular expression and
stores every analysis at the front of a JSON history file. This project models that core
and proves properties about it:

- **The answer parser** (`parse_gemini_response`).
  - `Scanner` writes out by hand what `re.findall(r"###\s(.*?)\n(.*?)(?=\n###\s|$)", text, re.DOTALL)` returns. The lazy groups, the lookahead and Python's `$` (which also matches before a final newline) are modelled exactly.
  - `Sections` holds the six-entry dict that starts with the fallback text, the `if/elif` chain of substring tests on the stripped, upper-cased heading, and the loop that overwrites entries. The loop is a method, proved against a specification function.
  - `Text` holds `str.strip`, `str.upper`, `str.isspace` and `in` on strings, for ASCII.
- **The answer layout** (`Template`). It renders any sequence of `### heading` sections and proves that parsing a well-formed layout reads every section back. Well-formed means every heading is one line, no section text holds a newline followed by `###` and a whitespace character, and every section but the last ends its text with a newline. Without these conditions the read-back fails: a sub-heading line `### Note` inside a section's text cuts it in two, and `"### A\nx### B\ny"` reads back as one section.
- **The prompt** (`Prompt`).
  - `SYSTEM_PROMPT`, character for character, as its instructions followed by the six-section layout.
  - The f-string that appends the user's age, gender and symptoms.
- **The request checks of `check_symptoms`** (`Validation`, over the decoded JSON body of `Json`). They keep Python's truthiness and lazy `or`, and the exceptions that `in`, subscripting and `.strip()` raise on a body of the wrong shape.
- **The history** (`History`).
  - A `HistoryLog` class holding the in-memory list, with `Load` (a missing or corrupt file gives `[]`) and `Prepend` (`insert(0, …)`).
  - The file's state is abstract: missing, corrupt, unreadable, or a decoded document.
- **The two JSON routes** (`Handlers`). `CheckSymptoms` gets the model call, the text an f-string makes of a number or container, and the clock as parameters. It returns the response together with the history file after the request. `GetHistory` is the read-only route.

Where `app.py` is narrower than what it sets out to do, the model follows the code:

- `get_history` answers with an empty list only when the file is missing or is not valid JSON. Any other read error escapes the route (status 500), and a document that is not a list is returned as it is.
- `check_symptoms` answers 400 only for the failures its own tests catch. Some bodies make it raise before any answer is built:
  - a truthy number or bool body, where `in` raises (`0`, `0.0` and `false` are falsy and get the 400 answer first);
  - a list or str body that passes the membership tests, where subscripting raises;
  - a dict whose `symptoms` is not a str, where `.strip()` raises.

## Model

| member | source | states |
|---|---|---|
| Text.StripSpec | app.py:71-72 | `strip()` keeps a contiguous part of the text whose removed ends are whitespace and whose own ends are not; it is empty exactly when the text is blank |
| Text.StripDropsFinalNewline | app.py:72 | a final newline never changes what `strip()` keeps |
| Text.ContainsIff | app.py:73-84 | `needle in haystack` holds exactly when the needle occurs at some index |
| Text.UpperKeeps | app.py:71 | `upper()` leaves a text without lower-case letters unchanged |
| Scanner.MatchHere | app.py:68-69 | a match starts at the front exactly when a marker `###` plus whitespace is followed later by a newline; it consumes at least the marker, its header is one line and its body holds no newline-plus-marker |
| Scanner.MatchHereContents | app.py:68-69 | the header of a match is the text from after the marker up to the first newline; the body runs from after that newline to the first position where the lookahead `\n###\s` or `$` holds, and the match consumes exactly up to there |
| Scanner.BodyEnd | app.py:68 | the lazy body group ends at the first position where the lookahead `\n###\s` or `$` succeeds |
| Scanner.FindAllShape | app.py:68-69 | every pair `findall` returns has a one-line header and a body in which no heading starts on a later line |
| Scanner.FindAllEmptyIff | app.py:68-69 | `findall` returns nothing exactly when the pattern matches at no position |
| Scanner.FindAllSkips | app.py:68-69 | positions where no match starts are passed over without changing the result |
| Scanner.FindAllSkipsHashFree | app.py:68-69 | text without `#` in front of the rest adds no pair |
| Sections.Initial | app.py:60-67 | the dict starts with exactly the six keys, each holding the fallback text |
| Sections.KeyInjective | app.py:60-67 | the six keys are distinct |
| Sections.ChainRank | app.py:73-84 | the chain lists the six entries once each, in the order of the `if/elif` tests |
| Sections.ClassifySpec | app.py:73-84 | the chain picks an entry whose phrase occurs in the heading and whose earlier entries' phrases do not, and picks none exactly when no phrase occurs |
| Sections.ClassifyPicks | app.py:73-84 | conversely, an entry whose phrase occurs while no earlier phrase does is the one picked |
| Sections.PhraseSelects | app.py:73-84 | a heading that is exactly an entry's phrase selects that entry; no earlier phrase of the chain occurs in a later one |
| Sections.ApplyEffect | app.py:70-84 | one pair sets only the entry its heading selects, to the stripped body, and leaves every other key as it was |
| Sections.ApplyAllKeys | app.py:70-84 | the loop never adds or removes a key |
| Sections.NeverSetKeepsValue | app.py:70-84 | an entry that no pair selects keeps its starting value |
| Sections.LastSetterWins | app.py:70-84 | when several pairs select an entry, the last of them in text order decides its value |
| Sections.ApplyMatches | app.py:70-84 | the loop over the pairs computes the fold `ApplyAll` of the pairs in order |
| Sections.ParseGeminiResponse | app.py:59-85 | the function's result is `Parse` of the text |
| Sections.ParseEntries | app.py:59-85 | for every text, the result has exactly the six keys; an entry no heading selects holds the fallback, any other the stripped body of the last heading that selects it |
| Sections.ParseWithoutHeadings | app.py:59-85 | a text where the pattern matches nowhere (empty, or without `###`) gives the fallback in all six entries |
| Template.SectionMatch | app.py:68 | on a rendered section the match takes the heading as header and the section text without its final newline as body |
| Template.BreakInside | app.py:68 | inside a section's text, the lookahead `\n###\s` can only succeed where the text itself holds a newline-plus-marker |
| Template.FindAllRender | app.py:68-69 | `findall` on a well-formed layout returns one pair per section, in order |
| Template.StripDropFinalNewline | app.py:72 | dropping the newline before the next heading does not change the stripped body |
| Template.RenderedPairs | app.py:68-84 | each pair of a rendered layout goes to the entry its section's heading selects, with the section's stripped text |
| Template.ParseRendered | app.py:59-85 | the round trip from layout to dict: each entry gets the stripped text of the last section whose heading selects it, and the fallback when no heading does |
| Template.ParsePhraseLayout | app.py:59-85 | an answer laid out as the system prompt asks, with the six phrases as headings in chain order, gives every entry the stripped text of its own section |
| Template.PhraseHeadingSelects | app.py:73-84 | a section headed by an entry's phrase selects that entry and no other |
| Prompt.LayoutSelects | app.py:32-56 | each heading of a layout built from entries selects the entry it was built from and no other |
| Prompt.TemplateHeadingsSelect | app.py:32-56 | the layout in `SYSTEM_PROMPT` has one section per entry, in chain order, and each of its headings selects its own entry |
| Prompt.ComposeInjective | app.py:107 | with a one-line age and gender, two prompts are equal exactly when their three user fields are |
| Prompt.ComposeFrame | app.py:107 | the prompt starts with the system prompt and ends with the symptoms as given |
| Json.Member | app.py:96 | `key in data` raises exactly for `None`, a bool or a number, and tests the keys of a dict |
| Json.Subscript | app.py:99-101 | `data[key]` answers exactly for a dict holding the key, with its value |
| Validation.NotConfiguredFirst | app.py:93-94 | without a configured model every request gets status 500 and the configuration message, whatever its body |
| Validation.AcceptedIff | app.py:92-104 | the checks let a request through exactly when the model is configured and the body is a dict with a non-blank str `symptoms` and truthy `age` and `gender`, and then pass on the body's own values |
| Validation.DictOutcomes | app.py:95-104 | for a dict body: a crash exactly when the fields are present and `symptoms` is not a str; a 400 rejection exactly when the dict is empty, lacks a field, or holds a blank symptoms or a falsy age or gender; the missing-fields message exactly when a field is absent |
| Validation.NonDictOutcomes | app.py:95-101 | a body that is not a dict never passes; a falsy one gets the 400 missing-fields answer; a truthy number or bool, or a list or str that passes the membership tests, makes the handler raise |
| History.Loaded | app.py:111-115 | reading the file raises exactly when it is unreadable for a reason other than missing or corrupt; missing or corrupt gives `[]` |
| History.Record | app.py:116-122 | the record holds exactly the keys symptoms, age, gender, analysis and timestamp: the submitted symptoms text as it was sent, the decoded age and gender, the parsed sections as strings and the given timestamp |
| History.Saved | app.py:123-124 | reading back a written list gives that list |
| History.HistoryLog.Load | app.py:111-116 | the log takes the file's list when what was read is a list; otherwise the request fails and the log is unchanged |
| History.HistoryLog.Prepend | app.py:116-122 | `insert(0, record)`: the record is first, the length grows by one and the earlier entries follow in order |
| History.HistoryLog.Store | app.py:123-124 | the file written from the log reads back as the log's entries |
| History.StoreTwice | app.py:111-124 | two records stored one after the other into a missing file read back newest first |
| Handlers.Formatted | app.py:107 | how the f-string writes the age and the gender: a str as it is, a bool as True or False, None as None, anything else as `show` writes it |
| Handlers.CheckSymptoms | app.py:91-128 | a rejected or crashing request leaves the file unchanged with the check's answer; a failed model call, an unreadable file or a non-list document answer 500 with the processing message and leave the file unchanged; otherwise the file becomes the new record followed by the old entries and the answer is the parsed sections |
| Handlers.GetHistory | app.py:130-137 | the route raises exactly on an unreadable file; a missing or corrupt file shows `[]`, a decoded document is shown as it is |
| Handlers.HistoryAfterRecord | app.py:116-137 | after a record is stored, the history route shows that record followed by everything it showed before, in order |

## Left out

- The Gemini set-up and call: the model's configuration is a boolean, and `generate_content(...).text` is the parameter `ask`, which returns the answer text or a failure.
- Flask routing, `request.get_json()`'s own rejection of bodies that are not JSON, `jsonify`'s serialisation, the `index` page and `app.run`: the body arrives decoded, and a response is a status with a decoded JSON value.
- File I/O and the JSON text: the file is an abstract state; writing a list and reading it back is taken to give the same list (key order, number formatting and `indent=4` are not modelled). A failing write, which would leave a truncated file, is not modelled.
- Handlers.Formatted: Python's `str()` of a number, list or dict is the parameter `show`; only str, bool and `None` are written out.
- The clock: the timestamp string is a parameter.
- `print` of errors, and concurrent requests racing on the history file.
- Text.IsSpace: Unicode whitespace and Unicode case mapping are left out; whitespace is ASCII whitespace, and `upper()` maps ASCII letters only.
- Json.Json: NaN and infinities, and the distinction between JSON integers and floats (a number is a real).
- Prompt.TemplateSections: the layout is not checked character by character to be well formed (no newline-plus-marker in the placeholder texts, no marker in the instructions). So `Template.ParseRendered` is proved for every well-formed layout but is not instantiated on `SYSTEM_PROMPT` itself.
- Prompt.BuildPrompt: injectivity and framing are proved for the prompt built on any system text (`Prompt.Compose`). They are not restated for `SYSTEM_PROMPT` itself, which is that case.
