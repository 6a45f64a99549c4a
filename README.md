# Certificate renamer: a Dafny model of its matching core

The program walks a folder of certificate PDFs, one at a time, and renames each one to the
roll number of the student it names. It loads a roster spreadsheet and finds the header row
and the name and roll-number columns by searching for them. It normalises names by
lower-casing them, deleting the honorifics "mr.", "ms." and "mrs." and collapsing
whitespace. It pulls a name out of the first page's text with a fixed anchor phrase and a
regular expression, and suggests the roster name that scores best against it. The operator
confirms or corrects the suggestion. The confirmed name is looked up in the roster, and the
file is renamed to `<roll>.pdf`.

This project models that core in Dafny, one module per component:

- `pystr.dfy` (`PyStr`): the Python string built-ins the core uses, over ASCII: `lower`,
  `in`, `replace(p, "")`, `split()`, `" ".join`, `strip`, `split('\n')`.
- `normalizer.dfy` (`Normalizer`): `normalize`.
- `schema.dfy` (`SchemaDetector`): the header-row search and roster construction of
  `load_excel_with_flexible_headers`.
- `matcher.dfy` (`FuzzyMatcher`): `get_best_match`. Its loop is a method, proved against
  a reference definition of the winner.
- `extractor.dfy` (`TextExtractor`, `ExtractorExample`): the text half of
  `extract_name_from_pdf`. The regular expression is matched by hand, and the matcher is
  proved sound and complete with respect to the pattern.
- `session.dfy` (`RenamerSession`): the session state (file list, current index, name box,
  suggestion line, renames done) as a class, with `load_next_pdf` and `rename_and_next`.
- `wrappers.dfy` (`Wrappers`): `Option` and `Result`.

Some behaviours of the code are easy to get wrong when reading it, and the model keeps them:

- Normalisation is not idempotent, and its output can still hold an honorific:
  `Normalizer.NormalizeNotIdempotent` shows that "mmr.r." normalises to "mr.", which
  normalises to "". Idempotence is proved only for names with no honorific in them.
- A confirmed name that matches several roster rows is not rejected: the first matching row
  is used (line 94).
- The new file name is always `<roll>.pdf` with a lower-case `.pdf`, whatever the letter case
  of the original extension (line 96).
- A roster sheet too short for a header row does not count as a sheet without the columns:
  `read_excel` is called with header rows 0 to 9 in turn, and a header row past the end of
  the sheet makes that call raise, which the model reports as `ReadFailed`.

## Model

| member | source | states |
|---|---|---|
| `Normalizer.Normalize` | manual_certificate_renamer.py:15 | `normalize`: lower-case, delete "mr.", "ms.", "mrs." in that order, split on whitespace, join with one space, strip. Its properties are the lemmas `NormalizeCanonical`, `NormalizeIdempotentWithoutHonorifics` and `NormalizeNotIdempotent`. |
| `Normalizer.NormalizeCanonical` | manual_certificate_renamer.py:15 | A normalised name has no leading or trailing whitespace and no whitespace other than ' '. It never has two spaces in a row, and it is the single-space join of its own `split()` tokens. |
| `Normalizer.NormalizeIdempotentWithoutHonorifics` | manual_certificate_renamer.py:15 | If the lower-cased name contains none of "mr.", "ms.", "mrs.", normalising twice equals normalising once. |
| `Normalizer.NormalizeNotIdempotent` | manual_certificate_renamer.py:15 | Without that condition idempotence fails: "mmr.r." normalises to "mr.", and normalising again gives "". |
| `PyStr.RemoveAllAbsent` | manual_certificate_renamer.py:15 | `replace(p, "")` leaves a string that does not contain `p` unchanged. |
| `PyStr.SplitJoin` | manual_certificate_renamer.py:15 | `split()` of the single-space join of whitespace-free, non-empty tokens gives back those tokens. |
| `SchemaDetector.IsHeader` | manual_certificate_renamer.py:23 | The test of line 23: some label mentions "name" and some label mentions "roll". `LoadWithFlexibleHeaders` states what the search does with it. |
| `SchemaDetector.FirstLabel` | manual_certificate_renamer.py:29-30 | The chosen column is the first label whose lower-cased text contains the key; no earlier label does. |
| `SchemaDetector.LoadWithFlexibleHeaders` | manual_certificate_renamer.py:18-33 | It succeeds exactly when some header row below 10 that the sheet has shows a "name" label and a "roll" label. It then returns the smallest such row, with the first "name" label and the first "roll" label as columns. It builds one record per data row, in order: the normalised name cell and the roll cell as a string. Otherwise it fails: `SchemaNotFound` when all ten rows were tried, `ReadFailed(n)` when the sheet has only `n < 10` header candidates. |
| `FuzzyMatcher.FirstBest` | manual_certificate_renamer.py:36-42 | The winner of the scan is the first position holding the highest score, and that score is positive. With no winner, every name scores 0. |
| `FuzzyMatcher.BestMatch` | manual_certificate_renamer.py:35-45 | A returned name is in the list, scores at least the threshold and above 0, and no name scores higher. No earlier name scores as high (earliest maximum wins). `None` is returned exactly when every name scores below the threshold or 0, so an empty list gives `None`. |
| `FuzzyMatcher.GetBestMatch` | manual_certificate_renamer.py:35-45 | The loop that keeps `best_score`/`best_match` and updates them only on a strictly greater score returns `BestMatch`. |
| `TextExtractor.MatchAt` | manual_certificate_renamer.py:84 | A match tried at start `p` starts there and ends on the '(' that closes the pattern. |
| `TextExtractor.MatchAtSound` | manual_certificate_renamer.py:84 | Every match `MatchAt` finds is a match of `inform\s+(mr\.\|ms\.\|mrs\.)?\s*([a-z\s]+)\(`: "inform", at least one whitespace character, an optional honorific, optional whitespace, then a non-empty `[a-z\s]` name group immediately followed by '('. |
| `TextExtractor.MatchAtComplete` | manual_certificate_renamer.py:84 | Wherever the pattern matches at a start position, `MatchAt` finds a match there. |
| `TextExtractor.SearchFrom` | manual_certificate_renamer.py:84 | A match found searching from `p` is the match `MatchAt` finds at some start position at or after `p`. |
| `TextExtractor.SearchFromLeftmost` | manual_certificate_renamer.py:84 | When `MatchAt` succeeds at some position `i >= p`, the search from `p` finds a match starting no later than `i`. |
| `TextExtractor.Search` | manual_certificate_renamer.py:84 | `re.search` over the whole line. `SearchIsLeftmost` states its meaning. |
| `TextExtractor.ParseLine` | manual_certificate_renamer.py:84-86 | The normalised name group of the line's match, or nothing. `ExtractFromTextSound`, `ExtractFromTextComplete` and `ExtractorExample.Example` state what it yields. |
| `TextExtractor.SearchIsLeftmost` | manual_certificate_renamer.py:84 | As with `re.search`, the match found is a match of the pattern, and no match of the pattern starts further left. No match is found only when the pattern matches nowhere in the line. |
| `TextExtractor.FirstAnchorLine` | manual_certificate_renamer.py:82 | The line chosen is the first line containing "we are glad to inform". There is none exactly when no line contains it. |
| `TextExtractor.ExtractFromText` | manual_certificate_renamer.py:82-87 | When no line contains the anchor phrase, nothing is extracted. |
| `TextExtractor.ExtractFromTextSound` | manual_certificate_renamer.py:82-87 | An extracted name comes from the first line that contains the anchor. It is the normalised name group of the leftmost match of the pattern in that line. |
| `TextExtractor.ExtractName` | manual_certificate_renamer.py:73-87 | A document whose text could not be read yields no name. |
| `TextExtractor.ExtractFromTextComplete` | manual_certificate_renamer.py:82-87 | Once the first line holding the anchor is fixed, a name is extracted exactly when the pattern matches somewhere in that line. A later line holding the anchor is never tried. |
| `PyStr.SplitLinesJoin` | manual_certificate_renamer.py:82 | Joining the pieces of `split('\n')` with '\n' gives back the text. |
| `ExtractorExample.Example` | manual_certificate_renamer.py:84-86 | The line "we are glad to inform mr. john doe (certificate)" yields "john doe". |
| `RenamerSession.PdfFiles` | manual_certificate_renamer.py:50 | The files kept are exactly the listing's names that end in ".pdf" in any letter case. |
| `RenamerSession.PdfFilesAppend` | manual_certificate_renamer.py:50 | Filtering the concatenation of two listings gives the concatenation of their filtered lists, so the files keep the listing's order and multiplicity. |
| `RenamerSession.PdfFilesSingle` | manual_certificate_renamer.py:50 | A one-name listing keeps its name exactly when the name ends in ".pdf" in any letter case. |
| `RenamerSession.TargetName` | manual_certificate_renamer.py:96 | The new file name is the roll number followed by a lower-case ".pdf", so the roll number can be read back from it and it is itself a PDF name. |
| `RenamerSession.Suggest` | manual_certificate_renamer.py:114-125 | "Could not extract" is shown exactly when the extraction is absent or empty. An auto-suggested name is a non-empty roster name that reaches the threshold and that no roster name outscores. "No confident match" means every non-empty name reaching the threshold scores 0 or is beaten in the scan by an empty name. |
| `RenamerSession.SuggestFor` | manual_certificate_renamer.py:114-125 | The steps of lines 115-125 (the truth test on the extraction, the `get_best_match` scan and the truth test on its result) produce exactly `Suggest`. |
| `RenamerSession.SelectionFor` | manual_certificate_renamer.py:118-124 | The name box after loading: the auto-suggested name, or empty (lines 118, 121, 124). `Session.LoadNextPdf` states when each applies. |
| `RenamerSession.FirstNamed` | manual_certificate_renamer.py:92-94 | The row used is the first roster row whose name equals the normalised selection. When there is none, no row has that name. |
| `RenamerSession.ConfirmRosterName` | manual_certificate_renamer.py:91-94 | Confirming a roster name that came from a cell without honorifics always finds a row, at or before that name's own row. |
| `RenamerSession.Session.constructor` | manual_certificate_renamer.py:47-51 | The session starts at index 0 with no renames and the PDF files of the listing. It is over at once when there are none. Otherwise it shows the first document's suggestion. |
| `RenamerSession.Session.LoadNextPdf` | manual_certificate_renamer.py:105-126 | It ends the session exactly when the index has reached the number of files. Otherwise the name box and suggestion line show `Suggest` of the extracted name against the roster names with threshold 90. |
| `RenamerSession.Session.Select` | manual_certificate_renamer.py:60-61 | The name box holds what the operator typed or picked. |
| `RenamerSession.Session.RenameAndNext` | manual_certificate_renamer.py:89-103 | If the normalised selection names a roster row, the session has a current file and the rename succeeds, exactly one rename is recorded: the current file to `<roll of the first such row>.pdf`. The index then goes up by 1 and the next document is loaded, or the session ends with the name box and suggestion line unchanged. Otherwise (`MatchError`; `RenameFailed` when line 95 or the rename raises) nothing changes. Throughout, the session holds one rename per document passed, in order, and has ended exactly when the index equals the number of files. |

## Left out

- The tkinter window, labels, combobox, message boxes, `mainloop` and `print` (lines 53-66, 98-100, 107-111, 128-133): user interface only. The progress label on line 111 is not modelled.
- `open_pdf` and `os.startfile` (lines 67-71): an external viewer. Its failure only shows a message.
- `fitz.open` and `get_text` (lines 74-80): a foreign PDF library. The first page's text is an input, and `None` stands for a document that could not be read.
- `pd.read_excel` and pandas itself (lines 21, 31-32): each candidate header row's sheet is an input, with labels and cells already converted to strings. dtype conversion, `NaN` rendering and duplicate-label mangling are not modelled.
- `rapidfuzz.fuzz.ratio` (line 39): a foreign function. It is a parameter returning a real number in [0, 100]; float rounding is not modelled.
- `os.listdir` order, `os.makedirs`, `os.path.join` with the folder names, and the real `os.rename` (lines 49-50, 95-97). The listing is an input, and renames are recorded as (file name, new file name) pairs without folder prefixes. The outcome of the rename is a boolean input of `RenameAndNext`.
- Unicode: `lower()` and the whitespace set of `split()`, `strip()` and `\s` are modelled for ASCII only. The whitespace set is space, tab, line feed, vertical tab, form feed, carriage return and 0x1C-0x1F.
- A press of "Rename & Next" after the normal end: `root.quit()` runs inside the button's callback, so the window closes and no further press happens. Only with an empty listing, where `root.quit()` runs before `root.mainloop()`, does the window stay open; `RenameAndNext` models such a press as raising on line 95 and changing nothing.
- `TextExtractor.MatchAt`: the match is written in closed form. Its comment argues that this is what the backtracking regex engine finds first at a start position. Its soundness (`MatchAtSound`) and completeness (`MatchAtComplete`) are proved against the pattern, but which decomposition it picks is not proved against a general regex engine, since none is modelled.
- `TextExtractor.ExtractName`: states only the unreadable-document case itself. What a readable page yields is stated by `ExtractFromText`, `ExtractFromTextSound` and `ExtractFromTextComplete` on the lower-cased text.
