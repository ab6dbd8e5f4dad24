# Vocabulary study helper: the pure core of `main.py`

The program is a small web app for studying vocabulary. It loads a JSON word
list, lets the learner pick a word, and then does two things. It asks a local
text-generation service for an image description and renders that
description with a diffusion model. It also asks the service for an example
sentence and has that sentence spoken by a text-to-speech service. Almost all
of it is glue between a UI framework and outside services. This project
models the part that is pure logic:

- **the word-list loader** (`load_words`). A JSON document of records, each a
  `word` plus a list of `translations`, is stable-sorted by word. Each record
  becomes the display line `"word: translation"`, using the first
  translation. Any failure (unreadable file, bad JSON, a missing field, an
  empty translations list) turns the whole result into the empty list;
- **the selection parser**. Both handlers read the chosen display line back
  with `split(':')[0].strip()` and `split(':')[1].strip()`. A line without a
  colon raises at the second index;
- **the two handlers** `generate_image` and `generate_sentence_audio`. Each
  returns early on a blank selection and falls back to an empty result when
  parsing or a service call raises. The model also covers their two prompt
  templates and the fixed model names, render settings and voice;
- **the lazily built model handle** `get_flux_instance`. It constructs the
  global diffusion-model handle on first use and returns that same handle on
  every later call. A constructor call that raises leaves the global unset,
  so the next call tries again.

Modules follow those parts:

- `Wrappers`: the `Option` type.
- `Text`: Python's `str.strip()`, `str.split(sep)`, `join` and string `<`.
- `Vocabulary`: the records and `load_words`.
- `Selection`: the colon-split parser and its round trip with the display
  format.
- `Prompts`: the two templates.
- `Flux`: the singleton.
- `Handlers`: the two button handlers.

Calls to outside services are not modelled as code. Each handler takes the
service's answer as a parameter, with `None` meaning the call raised. The
image handler also takes whether the model constructor returns or raises if
it is called, and whether the memory clean-up before rendering returns. It
returns the list of service calls it made along with its result, so "no
further work" can be stated as "no calls".

## Model

| member | source | states |
|---|---|---|
| `Text.IsSpace` | main.py:53-54 | the characters `str.isspace()` accepts and `strip()` removes: TAB, LF, VT, FF, CR, the separators U+1C to U+1F, SPACE, U+85, U+A0, U+1680, U+2000 to U+200A, U+2028, U+2029, U+202F, U+205F and U+3000 |
| `Text.Strip` | main.py:53-54 | `strip()` returns a slice of its input that neither starts nor ends with whitespace (Python's `isspace` set), and only whitespace lies before and after that slice |
| `Text.StripShapeUnique` | main.py:53-54 | only one string has that shape, so the description fully determines `strip()` |
| `Text.StripFixedIffBare` | main.py:53-54 | `strip()` leaves a string unchanged if and only if it has no whitespace at either end |
| `Text.StripIdempotent` | main.py:53-54 | stripping twice is the same as stripping once |
| `Text.StripSpacePrefix` | main.py:53-54 | leading whitespace added in front of a string does not change its stripped form (the blank after the display colon disappears) |
| `Text.IndexOf` | main.py:53-54 | the first position of a character, or the length when the character is absent: nothing before that position is the character, and the character is at it when it is inside the string |
| `Text.IndexOfAbsent` | main.py:53-54 | the position is the length if and only if the character does not occur |
| `Text.Split` | main.py:53-54 | `split(':')` gives at least one piece |
| `Text.SplitPiecesFree` | main.py:53-54 | no piece of `split(':')` contains a colon |
| `Text.SplitJoin` | main.py:53-54 | joining the pieces of `split(':')` with colons gives back the line |
| `Text.SplitCount` | main.py:53-54 | `split(':')` gives exactly one more piece than the line has colons, so a colon-free line gives one piece and indexing `[1]` fails |
| `Text.SplitUnique` | main.py:53-54 | any cut into colon-free pieces that joins back to the input equals `split`'s result |
| `Text.SplitAtFirst` | main.py:53-54 | piece 0 is the text before the first colon; a piece 1 exists if and only if the line contains a colon; the remaining pieces are the split of the text after the first colon |
| `Text.Less` | main.py:25 | Python's `a < b` on `str`: compare code points from the left, the first difference decides, and a proper prefix comes first |
| `Text.LessIrreflexive` | main.py:25 | no string sorts before itself under Python's `<` |
| `Text.LessTransitive` | main.py:25 | string `<` is transitive |
| `Text.LessTotal` | main.py:25 | any two different strings are ordered one way or the other |
| `Text.LessAsymmetric` | main.py:25 | two strings are never each below the other |
| `Vocabulary.EntryOf` | main.py:25-27 | the lookups `item['word']` and `item['translations'][0]['translation']` of one record: absent when any of them would raise |
| `Vocabulary.Display` | main.py:27 | the display line of an entry: the word, a colon and a blank, then the translation |
| `Vocabulary.Entries` | main.py:27 | the word and first translation of every record, in document order; absent if and only if some record lacks `word`, `translations`, a first translation or its `translation` |
| `Vocabulary.InsertSorted` | main.py:25 | inserting an entry into a word-sorted list keeps it sorted |
| `Vocabulary.InsertPerWord` | main.py:25 | an inserted entry comes before the entries that already share its word, and the order of all other entries is unchanged |
| `Vocabulary.SortByWord` | main.py:25 | the sorted list has the same entries with the same multiplicities, and is ascending by word under string `<` |
| `Vocabulary.SortByWordStable` | main.py:25 | the sort is stable: for every word, the entries with that word keep their input order |
| `Vocabulary.SortedPerWordUnique` | main.py:25 | two word-sorted lists with the same entries per word, in the same order, are equal |
| `Vocabulary.StableSortUnique` | main.py:25 | every stable sort by word gives the same list, so the model's sort agrees with the library's |
| `Vocabulary.LoadWords` | main.py:20-32 | an unreadable document, or one with any malformed record, gives `[]`; otherwise there is one line per record; a non-empty result is never partial |
| `Vocabulary.LoadWordsInWordOrder` | main.py:25-27 | when every record is well formed, line i is `word + ": " + translation` of the i-th entry of any stable sort of the records by word |
| `Vocabulary.LoadWordsPermutes` | main.py:25-27 | the lines are exactly the records' display lines, each used once, only reordered |
| `Vocabulary.MapSeqPermute` | main.py:27 | formatting a permutation of the records gives a permutation of their lines |
| `Vocabulary.AppleExample` | main.py:20-32 | the one-record document with "apple" and "苹果" loads as `["apple: 苹果"]` |
| `Selection.ParseSelection` | main.py:53-54 | the parse fails if and only if the line has no colon (the `[1]` index raises). Otherwise the word is the stripped text before the first colon, and the translation is the stripped text between the first and second colons. Lines 113-114 do the same |
| `Selection.ParsedWordBeforeColon` | main.py:113 | when the word part has no colon, the parse succeeds and returns the stripped word, whatever follows the colon |
| `Selection.DisplayFirstColon` | main.py:53 | in a line built at line 27 from a colon-free word, the first colon is the one the format adds |
| `Selection.ParseDisplay` | main.py:53-54 | parsing a line built at line 27 from a colon-free word gives the stripped word and the translation cut at its own first colon, then stripped |
| `Selection.ColonInWordBreaksRoundTrip` | main.py:53 | a colon inside the word moves the split into the word, so the parsed word comes back shorter than the original |
| `Selection.DisplayRoundTrip` | main.py:53-54 | parsing the line built at line 27 gives back exactly (word, translation) if and only if neither field contains a colon and neither has whitespace at either end |
| `Selection.SortedLinesParseInOrder` | main.py:53-54 | the lines of a word-sorted list of clean entries parse back to those entries, in ascending word order |
| `Selection.LoadedLinesParseInOrder` | main.py:25-27 | every line loaded from clean records parses, and the parsed words are ascending |
| `Prompts.ImagePrompt` | main.py:57 | the description prompt is a fixed lead, then the word, a fixed middle, the translation and a fixed close, each at its stated offset |
| `Prompts.SentencePrompt` | main.py:117 | the sentence prompt is a fixed lead, then the word, then a fixed close |
| `Prompts.SentencePromptInjective` | main.py:117 | different words give different sentence prompts |
| `Prompts.TemplateInjective` | main.py:57 | a lead-word-middle-translation-close template is one-to-one when the middle starts with a character the words never contain |
| `Prompts.ImagePromptInjective` | main.py:57 | when the words contain no single quote, the description prompt determines both the word and the translation |
| `Flux.GetFluxInstance` | main.py:37-45 | when the global is set, the call returns its handle, does not run the constructor and changes nothing. When it is unset, the call runs the constructor once: if it returns, the "schnell" handle at quantization 4 is stored and returned; if it raises, nothing is returned and the global stays unset. The global afterwards holds what was returned, and a reachable state stays reachable |
| `Flux.SetSlotIsStable` | main.py:40-45 | once the global is set, any number of further calls return that handle, never run the constructor and leave the global unchanged |
| `Flux.CallsFromUnset` | main.py:40-45 | from an unset global, each call runs the constructor until the first one that returns. The calls before it get nothing, and that call and every later one return the handle it built, which the global then keeps |
| `Flux.ConstructedAtMostOnce` | main.py:35-45 | from process start, the handle is built successfully at most once. Every call up to the first one whose constructor returns runs the constructor again and gets nothing; that call and every later call return the same handle, and the constructor never runs after it |
| `Handlers.IsBlank` | main.py:50-51 | `not selected_word`: no selection, or the empty string |
| `Handlers.GenerateImage` | main.py:47-105 | a blank selection returns `None` with no calls. A line without a colon also makes no call. Otherwise the first call asks "llama2" for the description prompt. The model handle is fetched if and only if that answer arrives. The render call (seed 2, 1 step, 384×384) happens if and only if the handle is obtained, either already set or built now, and the memory clean-up before it returns. An image comes back if and only if the text service, the handle, the clean-up and the renderer all succeed. A raising constructor returns `None` and leaves the global unset |
| `Handlers.GenerateSentenceAudio` | main.py:107-126 | a blank selection returns `("", None)` with no calls. A line without a colon also makes no call. Otherwise "mistral" is asked for the sentence prompt, and the speech call with the default voice happens if and only if an answer arrives. The result is either `(answer, path)`, when both services succeed, or `("", None)` |
| `Handlers.NoColonDoesNothing` | main.py:53-54 | a selection without a colon makes either handler return its empty result with no service call and the model handle untouched |
| `Handlers.SentenceIgnoresTranslation` | main.py:113-118 | the sentence handler parses the translation but never uses it: lines with the same colon-free word behave identically |
| `Handlers.LoadedLineDrivesPrompts` | main.py:53-57 | choosing a clean loaded line asks the text service about exactly that word and translation (and that word alone for the sentence) |
| `Handlers.CleanLineSentence` | main.py:107-123 | for a clean loaded line, when both services answer, the handler shows exactly the service's sentence and the synthesised file. It makes exactly the chat call and then the speech call |
| `Handlers.SessionBuildsModelAtMostOnce` | main.py:35-105 | across any sequence of image requests, a stored handle stays the global for the rest of the session, and the handle the global holds is always the one the most recent constructor call returned, so it is built successfully at most once; failed constructions leave the global unset |

## Left out

- The UI. The widget layout, the event wiring, `app.launch` and
  `update_word_list` (main.py:129-185) are framework plumbing. The last of
  these only adds a `None` guard that yields an empty list, the same as a
  failed load.
- File access and JSON parsing (main.py:23-24). The document is modelled as
  already parsed. A `None` document covers an unreadable file, invalid JSON
  and a top level that is not an array, because each of these ends in `[]`.
  A record that is not an object behaves like one without `word`.
- JSON values other than strings in `word` and `translation` are not
  modelled. For example, numeric words sort and format without error in the
  source. Here a field is either a string or missing.
- The source sorts the raw records and then reads their fields. The model
  first extracts each record's word and first translation, then sorts. The
  output is the same: the sort key is the same word, and a missing field
  empties the result in both orders.
- Python's `sorted` is TimSort. The model sorts by insertion. It is proved
  to agree with every stable sort by word (`Vocabulary.StableSortUnique`).
- The text-generation service (`ollama.chat`, main.py:58, main.py:118) is
  represented by its answer, passed in as a parameter. A missing
  `message`/`content` key counts as a failed call.
- The renderer (`flux.generate_image`), the memory clean-up (`gc.collect`,
  `clear_memory`) and the image normalisation (main.py:66-96) are foreign
  library code with unknown object shapes. The clean-up is represented
  only by whether it returns or raises. The rendered, normalised picture
  is an opaque parameter.
- Speech synthesis (`text_to_speech`, `edge_tts`, `asyncio.run`,
  main.py:13-18, main.py:121) is an asynchronous network call that writes a
  temporary file. The file path it returns is a parameter.
- A Python `str` can hold a lone surrogate code point (for example from
  the JSON escape `"\ud800"`), but a Dafny `char` cannot. Such strings are
  outside the model; no result on other strings is affected.
- Why `Flux1.from_alias` raises is not modelled. Each call to it is
  represented only by whether it returns or raises.
- Diagnostic output (`print`, `traceback.print_exc`) has no effect on the
  results.
