# Redaction Machine: a Dafny model of its redaction pipeline

The Redaction Machine is a small web app. It takes typed text or uploaded
documents and asks Presidio's analyzer to find personal data of the selected
categories. Presidio's anonymizer then replaces what was found. The app shows
a Markdown preview with every replaced span in bold, and offers the redacted
text for download: one `.txt` file for a single input, or an archive of
`.txt` files for several.

This project models the sequential logic of that script and proves its
properties. Presidio's analyzer and anonymizer, and the document
partitioner, are parameters of the model. Their algorithms are not part of it.

- `PyStr.dfy`: Python's slice semantics (`s[i:j]`, `s[:k]`, `s[k:]`). Negative
  bounds count from the end and every bound is clamped, so a slice never fails.
- `Records.dfy`: the analyzer's detections, the anonymizer's items, and the
  per-text record `{text, items}`.
- `Redaction.dfy`: the category guard `run_redaction` and the loop that fills
  `text_results`. The analyzer and the anonymizer are partial functions that
  the model assumes only on a non-empty category list and a non-empty
  detection list. Dafny checks every application of a partial function, so
  the model verifies only because the guard never calls the analyzer with no
  categories. For the same reason the loop never calls the anonymizer when
  nothing was detected.
- `Preview.dfy`: `bold_redacted_items`, the positional splicing loop, with its
  specification `BoldAll`. It also has `Wrapped`, a reference definition of
  the intended preview that uses no positional editing. The lemmas show that
  the loop matches `Wrapped` when the items come right to left without
  overlap. A concrete counterexample shows the preview going wrong when they
  come left to right.
- `Extraction.dfy`: how `texts` is built. In text mode it holds the typed text
  under "raw_input". In upload mode each file's non-empty element texts are
  joined, each followed by a newline, and a later file replaces an earlier
  file with the same name.
- `Submission.dfy`: what the "Redact" button produces. That is a warning for no
  input, a single download and a preview for one text, or an archive for
  several. Every download is named `<key>.txt`.

## Model

| member | source | states |
|---|---|---|
| `PyStr.Slice` | app.py:85 | a Python slice never fails and is never longer than the string; with bounds inside the string it is the ordinary slice |
| `Redaction.RunRedaction` | app.py:46-50 | an empty category list yields no detections, and the analyzer is not applied to it (its precondition is only required for non-empty lists); otherwise the analyzer's answer is returned |
| `Redaction.RedactText` | app.py:97-106 | one pass of the batch loop: with no categories, or when nothing is detected, the entry is exactly the original text with no items, and the anonymizer is never applied to an empty detection list |
| `Redaction.RedactBatch` | app.py:93-106 | after the loop `text_results` has exactly the keys of `texts`, each holding that text's entry; texts with no detections keep their original text with no items |
| `Preview.BoldRedactedItems` | app.py:81-86 | the loop's result is `BoldAll` of the items in list order; with no items the text is returned unchanged |
| `Preview.SpliceInBounds` | app.py:85 | one in-bounds splice makes the string 4 characters longer, keeps `text[:start]` and `text[end:]` (the latter shifted by 4), and puts `**` + `text[start:end]` + `**` in between |
| `Preview.SpliceFrame` | app.py:85 | a splice inside a prefix leaves everything after the prefix untouched |
| `Preview.BoldLength` | app.py:81-86 | when every item lies inside the original text, the preview is `len(text) + 4 * len(items)` long, in any order |
| `Preview.BoldFrame` | app.py:82-85 | splicing items that all lie inside a prefix never changes what follows the prefix |
| `Preview.Descending` | app.py:82-85 | the order the loop needs: right to left, no overlap, touching allowed; it implies every item lies inside the text |
| `Preview.DescendingIsPairwise` | app.py:82-85 | that order, defined item by item, is the same as the pairwise condition: every later item ends at or before the start of every earlier one |
| `Preview.Wrapped` | app.py:81-86 | reference preview built without positional editing: the marked text before the rightmost span, that span between markers, then the rest; 4 characters longer per span |
| `Preview.BoldDescendingIsWrapped` | app.py:81-86 | with items right to left without overlap, the loop produces exactly the reference preview |
| `Preview.WrappedSpanAt` | app.py:82-85 | in the reference preview every original span appears between `**` markers, shifted right by 4 for each span to its left |
| `Preview.BoldWrapsEverySpan` | app.py:81-86 | the loop itself wraps every original span exactly once, at that shifted position, when the items come right to left |
| `Preview.AscendingOrderMisplaces` | app.py:82-85 | the loop does not sort: spans [0,1) and [2,3) of "abcd" given left to right give "\*\*\*\*a\*\*\*\*bcd", so "a" is wrapped twice and "c" not at all |
| `Extraction.FileText` | app.py:69-72 | the accumulated file text is the join of the element texts: each non-empty one followed by a newline, in element order |
| `Extraction.JoinAppend` | app.py:70-72 | joining distributes over concatenation of element lists |
| `Extraction.JoinEmptyIff` | app.py:71-72 | a file's text is empty exactly when every element's text is empty |
| `Extraction.JoinEndsWithNewline` | app.py:71-72 | a non-empty file text ends with a newline |
| `Extraction.CollectTexts` | app.py:62-73 | the upload loop yields the dictionary obtained by storing each file's joined text under its name, in upload order |
| `Extraction.TextsOfKeys` | app.py:62-73 | the keys of `texts` are exactly the names of the uploaded files |
| `Extraction.TextsOfLastWins` | app.py:73 | under a name shared by several files, `texts` holds the text of the last of them |
| `Extraction.GatherTexts` | app.py:53-73 | text mode gives `{"raw_input": text}`; upload mode gives the upload loop's dictionary |
| `Submission.OutputName` | app.py:117-128 | a download name is the key followed by ".txt" |
| `Submission.OutputNameInjective` | app.py:126-128 | distinct keys get distinct download names |
| `Submission.NamesOfSize` | app.py:126-128 | a set of keys has exactly as many download names as keys |
| `Submission.ArchiveEntries` | app.py:124-128 | the archive has one entry per result, named `<key>.txt` and holding that result's text, and no other entry, so names never collide |
| `Submission.Submit` | app.py:88-135 | no input gives only a warning; one text gives a download named `<key>.txt` with the redacted text and a preview of it; two or more give an archive with one `<key>.txt` entry per text |

## Left out

- Presidio's `AnalyzerEngine.analyze`, `get_supported_entities` and `AnonymizerEngine.anonymize` are foreign library calls. They are parameters here. Sorting of spans, overlap resolution, the replacement operators and the recomputation of item offsets all happen inside the anonymizer, so the model does not present them as the app's behaviour.
- Reading the anonymizer result back through JSON (app.py:105) is folded into the anonymizer parameter, which returns the `{text, items}` record directly.
- Document partitioning, the temporary file and reading the uploaded bytes (app.py:63-68) are file I/O. The partitioner is a parameter that gives the element texts of a file. An element whose text is empty contributes nothing, as in the script.
- The Streamlit UI is not modelled: title, sidebar radio and multiselect, session-state defaults, the button and the progress bar (app.py:13-42, 79, 94, 108). The selected categories are a parameter. The warning and `st.stop()` for no input become the `NothingToRedact` outcome. The progress bar is not advanced for texts with no detections, because of the `continue`; that only affects the display.
- Building the zip archive, `BytesIO`, the download buttons, their MIME types and the random UUID in the archive's name (app.py:124-135) are I/O and randomness. The archive is modelled as a map from entry name to entry text.
- Redaction.RedactBatch: visits the keys of `texts` in an unspecified order, whereas Python visits them in insertion order. The resulting dictionary is the same either way. Only the progress bar depends on the order.
- The confidence score of a detection is carried but never interpreted. It is a float, and the script never reads it.
- The script has no short-circuit for whitespace-only text and does not isolate per-text failures with error markers. It computes no summary statistics, does not validate the selected categories, and adds no numbered suffixes to colliding archive names. None of these is modelled. Archive names cannot collide anyway, as `Submission.ArchiveEntries` shows.
