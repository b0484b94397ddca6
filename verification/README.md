# solvacaptcha core in Dafny

`solva_captcha` (in `__init__.py`) solves an audio reCAPTCHA with a browser
driver. It opens the challenge, switches to the audio challenge, records and
transcribes the audio prompt, types the transcript into the response field and
clicks "Verify". Almost everything it does is delegated to collaborators: the
browser driver, the iframe crawler, the audio recorder and the speech-to-text
model. This project models the two pieces of sequential logic that the function
contributes itself.

* `transcript.dfy`, module `Transcript`: the post-processing at the end of
  `get_text_from_audio`. The segment texts are deduplicated on their raw text,
  keeping the first occurrence (pandas `drop_duplicates(subset="text")`). Each
  is stripped, and they are joined with single spaces. Every run of characters
  that are neither word characters nor whitespace becomes a space. Every
  whitespace run becomes one space, and the ends are stripped. `Normalize` is
  that chain. `NormalizeIsJoinedWords` proves that it equals a reference
  definition: the maximal runs of word characters of the distinct raw segments,
  in order of first occurrence, joined by single spaces. The shape of the
  answer, what it keeps and its idempotence follow from that.
* `selection.dfy`, module `Selection`: one pass of the element search. Four
  stages repeat that search inside `while not didweclick`: open the challenge,
  choose audio, type the answer, verify. A pass walks the crawler's iframe
  identifiers and skips those that do not contain `captchatitle`. Inside each
  remaining iframe it walks the elements and tries its action on every element
  that matches the stage's selector. It swallows every exception and stops at
  the first action that succeeds. The browser is given as data. A `Frame` holds
  an identifier and the element list, or None when `switch_to` or
  `find_elements` raised. An `Element` holds the attribute value, or None when
  reading it raised or returned None. It also holds whether the scroll and
  click (or `send_keys`) succeed. `SelectionPass` is a method with two nested
  loops, `continue` and `break`, as in the source. It returns the element acted
  on (`didweclick` is "it is Some") and the trace of the elements it tried.

Python's `\w` and `\s` are fixed to an ASCII approximation.
`IsWordChar` is `[A-Za-z0-9_]`. `IsSpace` covers `\t`, `\n`, `\v`, `\f`, `\r`,
U+001C to U+001F and the space. These are the ASCII characters that `\s` and
`str.strip()` treat as whitespace.

## Model

| member | source | states |
|---|---|---|
| `Transcript.DedupSpec` | __init__.py:184 | `Dedup`: deduplication keeps exactly the texts of the input. Each is kept once. They appear in the order of their first occurrence, so the first occurrence of each distinct raw text is kept and relative order is preserved |
| `Transcript.DuplicateAfterStrip` | __init__.py:184 | texts are compared before stripping: the segments `w` and `" " + w` both survive, and the answer is `w w` |
| `Transcript.SkipRunSpec` | __init__.py:187 | `SkipRun`: the leading half of `strip()` (and the run skip of `re.sub`) drops a prefix. That prefix holds only characters of the class, and all of them |
| `Transcript.StripTrailingSpec` | __init__.py:187 | `StripTrailing`: the trailing half of `strip()` drops a suffix. That suffix holds only whitespace, and all of it |
| `Transcript.WordsOfStrip` | __init__.py:184 | `Strip`: `str.strip()` keeps the words of a segment, in order |
| `Transcript.WordsOfJoinSpaces` | __init__.py:183-185 | `JoinSpaces`: the words of `" ".join(parts)` are the words of the parts, one part after another |
| `Transcript.ReplaceRunsShape` | __init__.py:186-187 | `ReplaceRuns`: after `re.sub(P+, " ", s)` the only character of class P left is the space. No two such characters are adjacent, and every other character comes from `s` |
| `Transcript.WordsOfReplaceRuns` | __init__.py:186-187 | `ReplaceRuns`: both substitutions keep the maximal runs of word characters, in order |
| `Transcript.Normalize` | __init__.py:183-188 | the answer holds no character that is neither a word character nor whitespace. Its only whitespace is the space, no two spaces are adjacent, and it has no whitespace at either end |
| `Transcript.CleanIsNormal` | __init__.py:186-187 | `Clean`: lines 186-187 always produce word characters separated by single spaces, with no space at either end |
| `Transcript.CleanIsJoinedWords` | __init__.py:186-187 | `Clean`: lines 186-187 compute exactly the maximal runs of word characters of their input, joined by single spaces |
| `Transcript.NormalizeIsJoinedWords` | __init__.py:183-188 | the answer equals the words of the distinct raw segments, in first-occurrence order, joined by single spaces |
| `Transcript.CleanIdempotent` | __init__.py:186-187 | `Clean`: applying the two substitutions and the strip twice gives the same result as applying them once |
| `Transcript.NormalizeIsFixpoint` | __init__.py:183-188 | lines 186-187 leave the answer unchanged. Feeding the answer back as a single segment also returns it unchanged |
| `Transcript.CleanKeepsWordChars` | __init__.py:186-187 | `Clean`: removing the spaces from the cleaned text gives exactly the word characters of the input, in order |
| `Transcript.WordCharsOfJoined` | __init__.py:183-185 | `StripEach`, `JoinSpaces`: stripping and joining with spaces keeps the word characters of the segments, in order |
| `Transcript.NormalizeKeepsWordChars` | __init__.py:183-187 | removing the spaces from the answer gives exactly the word characters of the joined, stripped, deduplicated segments. These are the word characters of the deduplicated raw segments, in order |
| `Transcript.NormalizeEmptyIff` | __init__.py:183-187 | the answer is empty if and only if no segment contains a word character |
| `Selection.ContainsIff` | __init__.py:204 | `Contains`: the `captchatitle not in iframe` and `marker in attribute` tests are the substring relation: true exactly when the needle occurs at some position |
| `Selection.SelectionPass` | __init__.py:223-246 | the pass (and its copies at 199-220, 286-309 and 312-334) tries its action only on elements of iframes whose identifier contains the title and that it could enter. Each such element matches the selector (for stage 1, any `span`; otherwise the attribute could be read and contains the marker). It tries them in iframe-then-element order and skips none. Every try before the last failed. It reports a click exactly when the last try succeeded, and that element is the first candidate whose action succeeds. With no click, no candidate's action succeeds |

## Left out

- `IsWordChar`, `IsSpace`: Python's Unicode-aware `\w` and `\s` are reduced to ASCII. Non-ASCII letters, which Python keeps as word characters, are treated as punctuation and replaced by a space. Non-ASCII whitespace such as U+00A0 is also treated as punctuation rather than collapsed as whitespace.
- `Dedup`: pandas compares the `text` column of a data frame. Missing values (NaN) and the other columns are not modelled; segments are plain strings.
- The transcription call (`transcribe_audio`, lines 159-182): it is an opaque speech-to-text model working on audio and floats. Its output is the input `rows` of `Normalize`.
- Audio recording, the `kthread` background thread, the shared `isdone` flag and the stage-3 loop that polls it and clicks "play" (lines 135-147, 248-281): this is concurrency and device I/O. That loop never sets `didweclick`, so it is not a copy of the selection pass.
- `get_wav_tmp`, `tempfile` and `touch` (lines 149-156): file-system I/O.
- The `Iframes` crawler (lines 190-197) and `driver.switch_to.default_content()` (line 200): the crawler's traversal is not part of this model. Its result is the `frames` input.
- The Selenium calls `switch_to`, `find_elements`, `get_attribute`, `location_once_scrolled_into_view`, `click` and `send_keys`: these are browser I/O. They appear only as the data in `Frame` and `Element`. The tag name each stage passes to `find_elements` selects which elements a frame holds, so it is not a separate parameter.
- The retry loop `while not didweclick` (lines 199, 223, 286, 312): it repeats passes with no bound and never ends when nothing matches, so only one pass is modelled. Each pass re-reads the page, so passes are independent calls of `SelectionPass`.
- `time.sleep`, `sleep` and the `print` at line 137: timing and console output only.
- The module's default `captchatitle`, the default selector markers, the CSS tag names and the `outerHTML` attribute name are not fixed in the model: `SelectionPass` takes the title and the `Selector` as parameters, so every stage and every configuration is covered by the same contract.
- Deduplication is on the raw segment texts, as the code does. Fragments that become equal only after stripping or cleaning are not merged (`DuplicateAfterStrip`).
