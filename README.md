# Image text extractor: the text post-processing, in Dafny

The application takes an uploaded image, separates it into colour layers with
OpenCV, runs Tesseract OCR on each layer and turns the recognised text into a
dictionary of fields. This project models the part of that pipeline that is
plain code over strings and dictionaries, and proves what it guarantees:

- **Line filter** (`extract_text_by_color`, `randapp/views.py`): the OCR text is
  split on `'\n'`, every line is stripped of whitespace, and the lines longer
  than one character are kept in order (module `LineFilter`).
- **Key/value reconciler** (`extract_and_format_text`, `randapp/views.py`): the
  lines recognised in red are keys, cleaned with `strip().rstrip(':')` and
  inserted with the value `""`; a cursor then walks the keys and hands each
  black line that is not itself a key to the key under the cursor; finally the
  entries whose value is still empty are dropped (module `Reconciler`).
- **Colon parser** (end of `process_image`, `randapp/utils/image_processing.py`):
  every line holding a `':'` is cut at its first colon, and the stripped halves
  are stored as key and value; a later line with the same key overwrites the
  value (module `ColonParser`).

Supporting modules: `Text` gives the Python string built-ins the code relies
on (`str.isspace`, `strip()`, `rstrip(chars)`, `split('\n')`,
`split(':', 1)`) plus a `Join` that the code does not call and that serves only
to state the split/join round trips, `OrderedDict` gives an insertion-ordered Python `dict` (a
sequence of distinct keys plus a map, with `d[k] = v` as `Put`), and `Seqs`
holds generic sequence facts (first index, filtering, distinctness).

The four loops of the source (`views.py:84`, `views.py:106`, `views.py:116`
and `image_processing.py:50`) are methods with `while`/`for` loops
(`LineFilter.FilterLines`, `Reconciler.InsertKeys`, `Reconciler.PairValues`,
`ColonParser.ParseText`), each proved equal to a specification function. The
properties are proved about those functions. The dict comprehension at
`views.py:124` is the function `Reconciler.DropEmpty`. The dictionaries are
local values that the loops reassign; no other code holds a reference to
them, so they are modelled as values and not as objects.

Whitespace is Python's `str.isspace()` set: U+0009–U+000D, U+001C–U+0020,
U+0085, U+00A0, U+1680, U+2000–U+200A, U+2028, U+2029, U+202F, U+205F and
U+3000.

A key is cleaned with `strip().rstrip(':')`. That removes every trailing colon and does
not trim the whitespace left in front of them, so `"Name :"` becomes `"Name "`
(`Reconciler.CleanKeyColons`).

## Model

| member | source | states |
|---|---|---|
| Text.Strip | randapp/views.py:85 | `strip()` returns a string with no whitespace at either end, no longer than its input |
| Text.StripParts | randapp/views.py:85 | the input is leading whitespace, then the stripped result, then trailing whitespace |
| Text.StripPadded | randapp/views.py:85 | a trimmed string padded with whitespace on either side strips back to itself |
| Text.StripTrimmed | randapp/views.py:85 | `strip()` leaves a trimmed string unchanged, so it is idempotent |
| Text.StripKeeps | randapp/utils/image_processing.py:53 | `strip()` removes only whitespace: every other character, the colon included, keeps its count |
| Text.RStrip | randapp/views.py:108 | `rstrip(chars)` returns a prefix of the input, drops only characters of `chars`, and the result does not end in one of them |
| Text.Split | randapp/views.py:84 | `split('\n')` returns at least one piece and no piece holds the separator |
| Text.JoinSplit | randapp/utils/image_processing.py:50 | joining the pieces of a split with the separator gives back the text |
| Text.SplitJoin | randapp/utils/image_processing.py:50 | splitting a join of separator-free pieces gives back the pieces |
| Text.SplitFirst | randapp/utils/image_processing.py:52 | `split(':', 1)` on a line with a colon: the line is the first part, a colon and the second part, and the first part has no colon |
| Text.SplitFirstOf | randapp/utils/image_processing.py:52 | the two parts are determined: `k + ':' + v` with no colon in `k` splits into `(k, v)` |
| OrderedDict.Put | randapp/views.py:110 | `d[k] = v`: `k` now maps to `v`, every other entry is unchanged, an existing key keeps its position and a new key is appended |
| OrderedDict.PutAllDomain | randapp/utils/image_processing.py:53 | after a sequence of assignments a key is present exactly when some assignment used it |
| OrderedDict.PutAllSize | randapp/utils/image_processing.py:53 | a sequence of assignments yields no more keys than assignments |
| OrderedDict.PutAllFrom | randapp/utils/image_processing.py:53 | every stored pair is one of the assignments |
| OrderedDict.PutAllLastWins | randapp/utils/image_processing.py:53 | the last assignment to a key decides its value |
| OrderedDict.PutAllDistinct | randapp/views.py:106-110 | assignments to distinct keys are stored in their own order |
| OrderedDict.PutAllFirstOrder | randapp/views.py:110 | keys are ordered by their first assignment |
| LineFilter.Filtered | randapp/views.py:84-87 | every kept line is trimmed and at least two characters long, and there are no more kept lines than pieces |
| LineFilter.KeptPositions | randapp/views.py:83-89 | the kept lines come from strictly increasing positions of the split text, so the output keeps the original order |
| LineFilter.FilteredAt | randapp/views.py:84-87 | the j-th kept line is the stripped piece at the j-th kept position |
| LineFilter.KeptExactly | randapp/views.py:86 | a piece is kept exactly when its stripped form is longer than one character |
| LineFilter.FilterLines | randapp/views.py:83-89 | the loop returns the filtered lines of `text.split('\n')`; each is trimmed and at least two characters long |
| Reconciler.CleanKey | randapp/views.py:108 | a cleaned key is empty or neither ends in `':'` nor starts with whitespace |
| Reconciler.CleanKeyColons | randapp/views.py:108 | every trailing colon is removed, and whitespace before the colons is kept |
| Reconciler.CleanKeyColon | randapp/views.py:108 | a trimmed key written with one trailing colon cleans back to the key |
| Reconciler.InsertKeys | randapp/views.py:105-110 | the first loop yields the dictionary of the non-empty cleaned keys, each mapped to `""` |
| Reconciler.KeyTable | randapp/views.py:106-110 | after the first loop `keys` has no duplicates, a key is present exactly when it is a non-empty cleaned red line, and its value is `""` |
| Reconciler.KeyTableOrder | randapp/views.py:106-113 | `keys` lists the keys in the order of their first red line |
| Reconciler.RedKeys | randapp/views.py:106-110 | every stored key is non-empty, does not end in `':'`, does not start with whitespace, and is the cleaned form of some red line |
| Reconciler.DistinctKeyOrder | randapp/views.py:106-113 | distinct non-empty cleaned keys are stored in their own order |
| Reconciler.NonKeys | randapp/views.py:117-119 | the lines the cursor hands out are exactly the black lines that are not keys, in order |
| Reconciler.Paired | randapp/views.py:116-121 | the second loop never changes the key list or the key set |
| Reconciler.PairedAt | randapp/views.py:116-121 | the j-th key holds the j-th non-key black line when the cursor reached it, and keeps its old value otherwise |
| Reconciler.PairedStep | randapp/views.py:116-121 | one black line changes only `keys[cursor]`, and only when the cursor is in range and the line is not a key; otherwise nothing changes |
| Reconciler.CursorStep | randapp/views.py:117-121 | the cursor advances by exactly one when a non-key line meets a key left to fill, and stays put otherwise |
| Reconciler.PairValuesStep | randapp/views.py:116-121 | one turn of the loop, in the loop's own test: assignment and advance, or no change at all |
| Reconciler.PairValues | randapp/views.py:113-121 | the loop's dictionary is `Paired`, and its cursor ends at `min(len(keys), number of non-key black lines)`, so it stays within `0..len(keys)` |
| Reconciler.DropEmpty | randapp/views.py:124 | exactly the entries with a non-empty value remain, with their values unchanged |
| Reconciler.DropEmptyOrder | randapp/views.py:124 | the remaining entries keep their relative order |
| Reconciler.DropEmptyPrefix | randapp/views.py:124 | when exactly the first `n` keys hold a value, those `n` keys remain |
| Reconciler.ReconcilePairs | randapp/views.py:103-126 | the reconciler returns a valid ordered dictionary with no empty value |
| Reconciler.ReconcileShape | randapp/views.py:103-126 | with non-empty value lines, the result holds the first `min(len(keys), n)` keys, in order, and the j-th key maps to the j-th black line that is not a key |
| Reconciler.PairedShape | randapp/views.py:113-124 | the same for any dictionary whose values are all still empty |
| Reconciler.FilledPrefix | randapp/views.py:116-124 | the keys that survive the final filter are a prefix of the key order |
| Reconciler.FilledExactly | randapp/views.py:116-124 | with non-empty value lines, a key ends up with a non-empty value exactly when the cursor reached it |
| Reconciler.ExtractAndFormatText | randapp/views.py:99-126 | from the two OCR texts: no empty value, and the j-th key maps to the j-th filtered black line that is not a key |
| Reconciler.NonKeysAll | randapp/views.py:117-120 | when no black line is a key, every black line is handed out |
| Reconciler.Zip | randapp/views.py:103-126 | distinct keys and non-key values pair up position by position, as far as both last |
| Reconciler.ZipAll | randapp/views.py:103-126 | with at least as many values as keys, every key is filled in order |
| Reconciler.TwoPairs | randapp/views.py:103-126 | two keys and two non-key values give the two pairs |
| Reconciler.OneKeyLeftOver | randapp/views.py:117-121 | with one key, a second value line is dropped once the cursor is exhausted |
| Reconciler.OneKeySkipped | randapp/views.py:119 | a value line equal to a key is skipped without advancing the cursor |
| Reconciler.ExampleNameAge | randapp/views.py:99-126 | keys `Name:`, `Age:` with `John Smith`, `34` give `{"Name": "John Smith", "Age": "34"}` |
| Reconciler.ExampleLeftOver | randapp/views.py:99-126 | key `Name:` with `John`, `Smith` gives `{"Name": "John"}` |
| Reconciler.ExampleSkipsKey | randapp/views.py:99-126 | key `Name:` with `Name`, `John` gives `{"Name": "John"}` |
| Reconciler.NoKeysNoResult | randapp/views.py:103-126 | without keys the result is `{}`, whatever the values |
| ColonParser.ParseLine | randapp/utils/image_processing.py:52-53 | a line is cut at its first colon: the key holds no colon, key and value are trimmed, and the value keeps every other colon |
| ColonParser.ParseLineOf | randapp/utils/image_processing.py:52-53 | round trip: a trimmed colon-free key and a trimmed value written as `k:v` parse back to `(k, v)` |
| ColonParser.ParseLeadingColon | randapp/utils/image_processing.py:52-53 | a line starting with `':'` gives the empty key and the stripped rest as its value; `ColonParser.ParsedEntry` states that such a key is stored like any other |
| ColonParser.ParseLaterColons | randapp/utils/image_processing.py:52 | only the first colon separates: `a: b:c` gives key `a` and value `b:c` |
| ColonParser.Entries | randapp/utils/image_processing.py:50-53 | the loop performs no more assignments than there are lines |
| ColonParser.EntriesCount | randapp/utils/image_processing.py:50-51 | one assignment per line that holds a colon |
| ColonParser.EntriesFrom | randapp/utils/image_processing.py:50-53 | every assignment comes from a line that holds a colon |
| ColonParser.EntriesOf | randapp/utils/image_processing.py:50-53 | every line that holds a colon contributes its assignment |
| ColonParser.ParseText | randapp/utils/image_processing.py:49-55 | the loop returns the dictionary built by the assignments of the colon lines, in order |
| ColonParser.ParsedEntry | randapp/utils/image_processing.py:49-55 | a key is stored exactly when some colon line yields it; stored keys have no colon, keys and values are trimmed, and each pair comes from a line |
| ColonParser.ParsedSize | randapp/utils/image_processing.py:50-53 | there are no more entries than lines holding a colon |
| ColonParser.LinesLastWins | randapp/utils/image_processing.py:53 | when several lines give the same key, the last one's value wins |
| ColonParser.ParsedOrder | randapp/utils/image_processing.py:53 | a key keeps the position of the first line that gave it |
| ColonParser.EntriesRender | randapp/utils/image_processing.py:50-53 | entries written one per line as `k:v` are read back as the same entries |
| ColonParser.RenderParse | randapp/utils/image_processing.py:49-55 | round trip: the text of `k:v` lines parses to the dictionary those entries build |

## Left out

- Image loading, resizing and colour conversion (`cv2.imread`, `cv2.resize`, `cv2.cvtColor`) are calls into OpenCV over pixel buffers and are not modelled.
- The HSV colour masks, dilation, median blur, mask compositing, Otsu thresholding, denoising and Canny edge detection are OpenCV calls and are not modelled.
- The width computed from the aspect ratio and the skew correction (`minAreaRect`, angle normalisation, rotation matrix, `warpAffine`) are floating-point image work and are not modelled.
- `pytesseract.image_to_string` is an external OCR engine; its output is an input string of the model (`redOcr`, `blackOcr`, `text`).
- The Tesseract executable path and the `TESSDATA_PREFIX` setting are process-wide configuration and are not modelled.
- The Django views `home` and `upload_image`, file storage, URL handling, JSON and template responses, the catch-all exception handler and URL routing (`randapp/urls.py`) are request plumbing and are not modelled.
- The insertion-ordered dictionaries are modelled as values that the loops reassign, not as shared mutable objects; the source never aliases them, so nothing is lost.
- Strings are sequences of characters; encodings and Unicode normalisation are not modelled.
