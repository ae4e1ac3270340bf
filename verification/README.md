# Transcriber text helpers in Dafny

The transcriber pulls meeting recordings from a job queue. It transcribes them
with `whisper-cli`, summarises the transcript with `llama-cli`, and posts both
back. Almost all of `main.py` is I/O. Two of its functions are pure string
logic, and this project models and proves those two:

- `clean_llama_output` (module `LlamaOutput`) takes the summary out of the
  noisy standard output of `llama-cli`. It drops everything up to and
  including the first `(truncated)`. It then drops everything from the first
  `[ Prompt:` onward. Finally it strips surrounding whitespace. It never fails,
  and its `prompt` argument is unused.
- `extract_drive_file_id` (module `DriveUrl`) gets a Google Drive file id from
  a shared link. It tries three rules in order:
  the text after the first `id=`, up to the next `&`, the next `id=`, or the
  end; the path component after the first component `d`; and as a fallback
  the second-to-last `/`-component. The fallback raises `IndexError` when the
  link has no `/`.

Module `Strings` holds the Python `str` operations these functions use:

- `in` is `Contains`;
- `find` is `IndexOf`, where `None` stands for Python's `-1`;
- `split` with a separator is `Split`, whose inverse is `Join`;
- `strip()` is `Strip`. It uses Python's own whitespace set (`str.isspace`), not just ASCII blanks.

A string is a `seq<char>` of Unicode scalar values.

Some facts about `clean_llama_output` that are easy to get wrong:

- It cuts at the FIRST `(truncated)`. A later `(truncated)` that comes before the `[ Prompt:` footer survives into the summary (`LlamaOutput.FirstPassKeepsSecondMarker`). One that comes after the footer is cut away with it (`LlamaOutput.MarkerAfterFooterCut`).
- It is not idempotent: a second `(truncated)` that survives one pass is cut by the next one (`LlamaOutput.NotIdempotent`).
- It never raises. Blank output gives `""` (`LlamaOutput.BlankOutputGivesEmpty`).
- It recognises exactly one start marker, `(truncated)`. If that marker is absent it keeps the text from the start. There is no list of other start markers and no fallback to text after an input-echo label such as `Transcript:`.
- It recognises exactly one end marker, the `[ Prompt:` footer. An exit banner of an interactive session is not cut.
- It does not remove terminal control codes or spinner glyphs, does not collapse inner whitespace, and does not remove an echoed prompt. Its `prompt` argument is unused (`LlamaOutput.PromptIgnored`).

## Model

| member | source | states |
|---|---|---|
| `LlamaOutput.CleanLlamaOutput` | main.py:108-128 | `clean_llama_output` itself, composed as strip after the end cut after the start cut. It has no contract of its own. What it promises is stated by `LlamaOutput.CleanContract` and by the reference description `LlamaOutput.CleanIsStrippedWindow`. |
| `LlamaOutput.CutStart` | main.py:116-120 | The start cut keeps a suffix of its input. When `(truncated)` occurs, the suffix excludes at least the marker. When it does not occur, the input is kept whole. `LlamaOutput.CutStartAt` pins the cut to just after the first occurrence. |
| `LlamaOutput.CutStartAt` | main.py:116-120 | If `a` is just after the first `(truncated)`, or `a` is 0 and there is none, the start cut leaves exactly the text from `a`. |
| `LlamaOutput.CutEnd` | main.py:122-126 | The end cut keeps a prefix of its input that never contains `[ Prompt:`. When the marker occurs, it occurs right where the prefix ends. When it does not occur, the input is kept whole. |
| `LlamaOutput.CutEndAt` | main.py:122-126 | If `m` is the first occurrence of `[ Prompt:`, or `m` is the length of a text without one, the end cut leaves exactly the first `m` characters. |
| `LlamaOutput.CleanContract` | main.py:108-128 | The summary is a contiguous piece of the raw output, so it is never longer than the raw output. It never contains `[ Prompt:`. It has no whitespace at either end. The function is total: no input makes it fail. |
| `LlamaOutput.NoMarkersOnlyStrips` | main.py:114-128 | If the raw output contains neither `(truncated)` nor `[ Prompt:`, the summary is the raw output stripped of surrounding whitespace. |
| `LlamaOutput.AfterFirstTruncation` | main.py:117-120 | If `(truncated)` occurs, the summary lies inside the text strictly after its first occurrence. |
| `LlamaOutput.CleanIsStrippedWindow` | main.py:114-128 | This is a reference description by marker positions. The window starts at `a`, just after the first `(truncated)`, or at 0 if there is none. It runs for `m` characters, up to the first `[ Prompt:` after that start, or to the end of the text. The summary is that window, stripped. |
| `LlamaOutput.EveryOutputHasWindow` | main.py:114-128 | The reference description covers every input: every raw output has such a window, and the summary is that window, stripped. |
| `LlamaOutput.PayloadStartExists` | main.py:116-120 | Every raw output has a payload start. |
| `LlamaOutput.PayloadEndExists` | main.py:122-126 | Every text has a payload end. |
| `LlamaOutput.WholePayloadKept` | main.py:114-128 | Suppose the text after the first `(truncated)` (or the whole text, if there is none) has no `[ Prompt:` and no whitespace at either end. Then the summary is exactly that text. |
| `LlamaOutput.PromptIgnored` | main.py:108-128 | Two calls with the same raw output and different prompts give the same summary. |
| `LlamaOutput.BlankOutputGivesEmpty` | main.py:128 | Raw output that is all whitespace gives the empty summary. No error is raised. |
| `LlamaOutput.FirstPassKeepsSecondMarker` | main.py:116-128 | Only the first `(truncated)` is cut. For characters x and y that are not whitespace and not `[`, `(truncated)x(truncated)y` cleans to `x(truncated)y`. |
| `LlamaOutput.MarkerAfterFooterCut` | main.py:116-128 | A `(truncated)` after the footer does not survive. For a character x that is not whitespace and not `[`, `(truncated)x[ Prompt:(truncated)` cleans to `x`. |
| `LlamaOutput.NotIdempotent` | main.py:117-128 | Cleaning an already cleaned output can change it. Take characters x and y that are not whitespace and not `[`, with x not `(`. Then `(truncated)x(truncated)y` cleans to `x(truncated)y`, and that cleans to `y`. |
| `DriveUrl.ExtractDriveFileId` | main.py:37-46 | The extraction fails exactly when the link has neither `id=` nor `/`. An id taken by the query rule has no `&` and no `id=`. An id taken by the path rule or the fallback has no `/`. |
| `DriveUrl.PathOrFallback` | main.py:41-46 | On the `/`-components of a link without `id=`, the rules fail exactly when there are fewer than two components. Any id they return is one of the components. |
| `DriveUrl.QueryId` | main.py:40 | Given the text after the first `id=`, `.split("id=")[1].split("&")[0]` takes a prefix of it. That prefix holds no `&` and no `id=`, and it is followed by `&`, by `id=`, or by the end of the text. |
| `DriveUrl.SecondToLast` | main.py:46 | `parts[-2]` succeeds exactly when there are at least two parts. Its result is the part with exactly one part after it. |
| `DriveUrl.QueryRule` | main.py:39-40 | If `id=` first occurs at position i, the id starts right after it. It runs up to the nearest following `&`, the next `id=`, or the end of the link, whichever comes first. |
| `DriveUrl.PathRule` | main.py:41-45 | If the link has no `id=` and the first component equal to `d` is not the last component, the id is the component right after that first `d`. |
| `DriveUrl.FallbackRule` | main.py:41-46 | If the link has no `id=`, has a `/`, and has no `d` component followed by another component, the id is the second-to-last component. That component has no `/`, starts the link or follows a `/`, and is followed by `/` and then a last component that has no `/`. |
| `DriveUrl.IndexOfElem` | main.py:42-43 | `parts.index("d")` returns the position of the first component equal to `d`. |
| `Strings.IsSpace` | main.py:128 | The set of characters that `strip()` with no arguments removes, which is Python's `str.isspace`. It holds U+0009 to U+000D, U+001C to U+0020, U+0085, U+00A0, U+1680, U+2000 to U+200A, U+2028, U+2029, U+202F, U+205F and U+3000. This is a definition with no contract of its own. `Strings.Strip` is stated in terms of it. |
| `Strings.Contains` | main.py:39 | Python's `pat in s` holds exactly when `pat` occurs at some position of `s`. This is a definition with no contract of its own. `Strings.IndexOf` connects it to `find`, and `Strings.Split` connects it to `split`. |
| `Strings.IndexOf` | main.py:118-119 | `find` returns the leftmost occurrence of the pattern, and it finds one exactly when the pattern occurs (Python's `in`). |
| `Strings.Split` | main.py:40-41 | `split` gives at least one part. Joining the parts with the separator gives back the original text. No part contains the separator. There is more than one part exactly when the separator occurs. The first part ends at the first occurrence of the separator. |
| `Strings.Strip` | main.py:128 | `strip()` gives a contiguous piece of its input. Only whitespace lies outside that piece, and the piece has no whitespace at either end. |

## Left out

- `get_next_job` and `submit_results` (main.py:28-34, 176-186): these are HTTP calls to the job backend through `requests`. The endpoint and key come from the environment (main.py:9-10).
- `download_audio` (main.py:51-78): this downloads with `gdown`, probes and transcodes with `ffmpeg`, and deletes a file. All of it is I/O and foreign processes. Its one use of the modelled core is the call to `extract_drive_file_id`.
- `transcribe_with_whisper` (main.py:81-105): this runs `whisper-cli` as a subprocess and reads its output file.
- `summarize_with_llama` (main.py:132-173): this runs `llama-cli` as a subprocess with a 600-second timeout. It shortens the transcript with the library function `textwrap.shorten`, whose whitespace-collapsing rules are not part of this model. It then hands the output to `clean_llama_output`, which is modelled.
- `process_all_jobs` (main.py:189-212): this is the outer loop, with a catch-all `except` and `time.sleep`.
- The binary and model paths and the download directory (main.py:12-25) are configuration and file-system setup.
- Segmentation, parallel fan-out, consolidation and result ordering are not modelled. None of them appears in `main.py`, so the model has nothing to follow.
- Python strings may hold lone surrogate code points. A Dafny `char` is a Unicode scalar value, so such strings are not represented.
