# NIK extraction from OCR'd identity-card images

`ocr_batch_nik.py` walks a folder of card images. For each one it:

- reads the image and skips it if it cannot be decoded;
- preprocesses it and runs OCR on it;
- cleans the OCR text line by line (`”—` read back as `:`; on lines that
  carry the `NIK` label, `D` read as `0` and `?` read as `7`; blank lines
  dropped);
- appends a transcript section `===== <file name> =====` to `all_results`;
- appends one `{"file", "nik"}` record to `nik_results` for every 16-digit
  run the pattern `\b\d{16}\b` finds in the cleaned lines joined by line
  breaks.

This project models that core in Dafny. It has four modules:

- `Text` models the Python string operations the script relies on:
  `str.isspace` with its full character table, `strip`, `in`,
  `split("\n")` and `"\n".join`. It proves their round trips.
- `LineNormalizer` models the per-line clean-up (`CleanLine`) and the
  normalisation loop (`NormalizeLines`, a method with a loop, proved
  against the function `Normalized`).
- `NikMatcher` models `re.findall(r"\b\d{16}\b", ...)`:
  - `FindFrom`/`FindAll` are the left-to-right, non-overlapping search that
    returns the matched text.
  - `ScanFrom` is the same search reporting positions, as `re.finditer`
    would.
  - A word boundary is a word character on exactly one side, with the ends
    of the text counting as non-word.
- `Batch` models the loop over the images:
  - Decoding and OCR are inputs: each `Image` carries its file name and
    either `None` (the decoder failed) or `Some(text)` (what the OCR
    engine returned).
  - `ProcessImages` is the loop and `ProcessImage` its body.
  - They are proved against the functions `Transcript` and `Records`,
    which fold one image's contribution (`SectionsOf`, `RecordsOf`) over
    the images in order.

## Model

| member | source | states |
|---|---|---|
| Text.TrimLeftSpec | ocr_batch_nik.py:82 | `lstrip` removes exactly a whitespace prefix: the rest is a suffix of the input and starts with a non-space character |
| Text.TrimRightSpec | ocr_batch_nik.py:82 | `rstrip` removes exactly a whitespace suffix: the rest is a prefix of the input and ends with a non-space character |
| Text.StripEmptyIff | ocr_batch_nik.py:82 | `word.strip()` is empty (the line is dropped) if and only if every character of the line is Python whitespace |
| Text.SplitPieces | ocr_batch_nik.py:77 | `split("\n")` yields at least one piece, and no piece holds a line break |
| Text.JoinSplit | ocr_batch_nik.py:77 | joining the pieces of `split("\n")` with `"\n"` gives back the original text |
| Text.SplitJoin | ocr_batch_nik.py:86 | splitting the `"\n"` join of one or more break-free lines gives back those lines |
| Text.SplitBreakFree | ocr_batch_nik.py:77 | a text without a line break splits into one piece, itself |
| Text.SplitPrefix | ocr_batch_nik.py:77 | splitting `a + "\n" + b`, for break-free `a`, gives `a` followed by the pieces of `b` |
| LineNormalizer.ReplaceCharAt | ocr_batch_nik.py:81 | a one-character `replace` keeps the length and rewrites exactly the positions that held the old character |
| LineNormalizer.ReplaceQuoteDashRemovesAll | ocr_batch_nik.py:78-79 | after `replace("”—", ":")` no `”—` is left in the line |
| LineNormalizer.ReplaceQuoteDashHead | ocr_batch_nik.py:78-79 | the first character of the result is `:` when the line starts with `”—`, and the line's first character otherwise |
| LineNormalizer.ReplaceQuoteDashLength | ocr_batch_nik.py:78-79 | the result is shorter than the line by exactly the number of occurrences replaced |
| LineNormalizer.ReplaceQuoteDashColons | ocr_batch_nik.py:78-79 | each occurrence becomes exactly one `:`: the colon count grows by the number of occurrences |
| LineNormalizer.ReplaceQuoteDashKeeps | ocr_batch_nik.py:78-79 | the count of every character other than `:`, `”` and `—` is unchanged |
| LineNormalizer.CountQuoteDashIff | ocr_batch_nik.py:78 | the line has an occurrence to replace if and only if `"”—" in word`; without one, the replacement leaves the line unchanged |
| LineNormalizer.RestoreReplaced | ocr_batch_nik.py:78-79 | on a line with no `:` to begin with, turning every `:` back into `”—` restores the original line |
| LineNormalizer.ReplaceQuoteDashLabel | ocr_batch_nik.py:78-80 | the replacement neither creates nor destroys the `NIK` label, so the label test sees the same answer before and after it |
| LineNormalizer.ReplaceQuoteDashNoNew | ocr_batch_nik.py:78-79 | the replacement introduces no character other than `:` |
| LineNormalizer.ReplaceCharContains | ocr_batch_nik.py:80-81 | replacing `a` by `b` keeps or loses an occurrence of a text containing neither `a` nor `b` (such as `NIK`) exactly as before |
| LineNormalizer.FixDigitsAt | ocr_batch_nik.py:81 | `replace("D", "0").replace("?", "7")` keeps the length and maps each character by D→0, ?→7, others unchanged |
| LineNormalizer.CleanLineSteps | ocr_batch_nik.py:78-81 | the guarded clean-up equals the digit fix applied after the unguarded `”—` replacement on labelled lines, and the replacement alone otherwise |
| LineNormalizer.CleanLineNoQuoteDash | ocr_batch_nik.py:78-81 | a cleaned line holds no `”—` and is shorter than the raw line by exactly the number of occurrences replaced |
| LineNormalizer.CleanLineLabelled | ocr_batch_nik.py:80-81 | a line carrying `NIK` keeps the label, loses every `D` and `?`, keeps the length of the replaced line, and maps each position by D→0, ?→7 |
| LineNormalizer.CleanLineUnlabelled | ocr_batch_nik.py:80-81 | a line without `NIK` is only `”—`-replaced and keeps all its `D` and `?` characters |
| LineNormalizer.CleanLineChars | ocr_batch_nik.py:78-81 | cleaning introduces no character other than `:`, `0` and `7` |
| LineNormalizer.KeptIndices | ocr_batch_nik.py:82-83 | the positions of surviving lines lie within the lines seen and strictly increase |
| LineNormalizer.NormalizeLines | ocr_batch_nik.py:76-83 | the loop's `normalized_lines` is `Normalized(Split(text))` |
| LineNormalizer.NormalizedLines | ocr_batch_nik.py:76-83 | there are never more kept lines than split lines, and every kept line is non-blank and free of `”—` |
| LineNormalizer.NormalizedOrder | ocr_batch_nik.py:76-83 | the kept lines are exactly the cleaned lines at `KeptIndices`, in order: nothing is reordered, merged or invented |
| LineNormalizer.KeptIndexIff | ocr_batch_nik.py:82-83 | a split line is kept if and only if its cleaned form is not blank |
| LineNormalizer.KeptIndicesIff | ocr_batch_nik.py:82-83 | the same for all split lines at once |
| LineNormalizer.NormalizedNoLineBreaks | ocr_batch_nik.py:77-83 | no kept line holds a line break |
| NikMatcher.ScanFromSound | ocr_batch_nik.py:89-90 | the search reports only positions where `\b\d{16}\b` matches |
| NikMatcher.ScanFromOrdered | ocr_batch_nik.py:89-90 | reported matches are in increasing order and do not overlap |
| NikMatcher.ScanFromComplete | ocr_batch_nik.py:89-90 | every position where the pattern matches is reported |
| NikMatcher.NoMatchInside | ocr_batch_nik.py:89 | no match can start strictly inside another match |
| NikMatcher.FindFromScan | ocr_batch_nik.py:90 | `findall` returns, match by match, the sixteen characters at the positions the search reports |
| NikMatcher.FindAllShape | ocr_batch_nik.py:89-90 | every found NIK is sixteen digits taken from the text, with a non-word character or the edge of the text on both sides |
| NikMatcher.MatchEdges | ocr_batch_nik.py:89 | the neighbours of a match are not word characters |
| NikMatcher.MatchStartsIff | ocr_batch_nik.py:89-90 | a position is reported if and only if the pattern matches there |
| NikMatcher.ExactRunFound | ocr_batch_nik.py:89-90 | a 16-digit run bounded by non-word characters or the edges is found |
| NikMatcher.GluedRunNotFound | ocr_batch_nik.py:89-90 | a 16-character window glued to a word character (inside a longer digit run, or next to a letter or `_`) is never reported; a run of 15 or fewer digits is never found either, since every find is sixteen digits (FindAllShape) |
| NikMatcher.MatchAtTransfer | ocr_batch_nik.py:89 | whether the pattern matches depends only on the sixteen characters and on whether their neighbours are word characters |
| NikMatcher.MatchAtBeforeBreak | ocr_batch_nik.py:90 | a candidate inside the first line matches in the joined text exactly when it matches in that line |
| NikMatcher.FindTail | ocr_batch_nik.py:90 | no match starts within sixteen characters before a line break |
| NikMatcher.FindBeforeBreak | ocr_batch_nik.py:90 | the search over `a + "\n" + b` finds the matches of `a` and then continues after the break |
| NikMatcher.MatchAtSuffix | ocr_batch_nik.py:90 | after a non-word character, matches in the suffix are matches in the whole text |
| NikMatcher.FindSuffix | ocr_batch_nik.py:90 | from just after a non-word character, the search finds what the search of the suffix finds |
| NikMatcher.FindAllAcrossBreak | ocr_batch_nik.py:90 | the matches of two lines joined by a break are the first line's followed by the second's: no match spans a line break |
| NikMatcher.FindAllJoin | ocr_batch_nik.py:90 | `findall` over the joined cleaned lines is the concatenation, line by line, of each line's matches |
| Batch.TagAt | ocr_batch_nik.py:92-93 | one record per found NIK, in match order, each naming the image's file |
| Batch.ProcessImage | ocr_batch_nik.py:59-93 | one pass of the loop body appends the image's section and its records, or nothing when it did not decode |
| Batch.ProcessImages | ocr_batch_nik.py:56-93 | `all_results` and `nik_results` after the loop are `Transcript(images)` and `Records(images)` |
| Batch.CollectPrefix | ocr_batch_nik.py:56 | what the loop has appended after the first `n` images depends only on those images |
| Batch.CollectAppend | ocr_batch_nik.py:56 | running the loop on past the end of `a` into `b` appends what `b`'s images add |
| Batch.CollectConcat | ocr_batch_nik.py:56 | the loop over `a + b` appends what the loop over `a` appends, then what the loop over `b` appends |
| Batch.TranscriptAppend | ocr_batch_nik.py:56-86 | `all_results` is the in-order concatenation of the images' sections |
| Batch.RecordsAppend | ocr_batch_nik.py:56-93 | `nik_results` is the in-order concatenation of the images' records |
| Batch.SkippedImageTranscript | ocr_batch_nik.py:59-62 | an image that fails to decode adds no section: the transcript is as if it were absent |
| Batch.SkippedImageRecords | ocr_batch_nik.py:59-62 | an image that fails to decode adds no record |
| Batch.SectionPerDecodedImage | ocr_batch_nik.py:59-86 | there is exactly one section per decoded image |
| Batch.OneImage | ocr_batch_nik.py:86-93 | a single decoded image yields exactly its section, and records matching its NIKs one to one, in match order, tagged with its file name |
| Batch.RecordsWellFormed | ocr_batch_nik.py:89-93 | every record holds sixteen digits and names a decoded image among those processed |
| Batch.RecordsPerLine | ocr_batch_nik.py:90-93 | an image's records are found line by line over its cleaned lines |
| Batch.ImageLinesBreakFree | ocr_batch_nik.py:77-83 | an image's cleaned lines hold no line break |
| Batch.JoinAppendEmpty | ocr_batch_nik.py:86 | appending `"\n"` to a join is joining with one more, empty, line |
| Batch.SectionReadsBack | ocr_batch_nik.py:86 | splitting a section on line breaks gives back its header, its cleaned lines (one empty line when there are none) and the empty piece after the closing break |

## Left out

- Image preprocessing is not modelled: `auto_rotate` (lines 15-30), `sharpen_image` (lines 33-37), and the grayscale conversion and threshold (lines 69-70). They are floating-point image operations.
- The OCR call (line 73) is not modelled. Its output is an input of the model: `Image.ocr`.
- Decoding (`cv2.imread`, line 59) is an input too: `None` stands for an image that could not be decoded.
- The model assumes every decoded image yields a text. In the script, an exception from preprocessing or `image_to_string` (lines 65-73, no `try`) ends the whole run before lines 96-106 write anything; `Image.ocr` is only `None` or `Some(text)`, so the model cannot express that outcome.
- The folder checks and the image search (lines 40-46) are not modelled. They are file-system I/O. The model takes the image list as given and in the order `glob` returned it.
- Writing `hasil_ocr.txt` and `nik_list.csv` (lines 96-106) is file I/O and is not modelled. Neither are the progress messages printed throughout.
- IsDigit, IsWordChar: `\d` and `\w` are ASCII only, while Python 3's `str` patterns accept all Unicode decimal digits and alphanumerics. The model and the script agree on ASCII text. They differ in both directions otherwise:
  - Next to a non-ASCII letter or digit, the model sees a word boundary that Python does not. The model then reports a match the script rejects: in `"1234567890123456é"` the model finds the run and the script finds nothing.
  - A run containing non-ASCII decimal digits (such as U+0660..U+0669) is matched by the script and not by the model.
- Batch.RecordsWellFormed: every record holding sixteen ASCII digits (`IsNik`) holds for the script only on OCR text whose digits and letters are ASCII; otherwise the script can report runs with other Unicode digits.
- IsSpace: the whitespace table is `str.isspace` for the characters listed; it is exact for Python 3 and has no locale dependence to model.
- Batch.ProcessImage is a method of its own. The script does this work inline in its loop body, which changes only the structure, not the result.
