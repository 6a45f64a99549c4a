/**
 * The renaming session (manual_certificate_renamer.py, lines 47-51 and 89-132): the list of
 * certificate files, the index of the one on screen, the operator's selection in the name box,
 * the suggestion message, and the renames done so far. The window, the message boxes and the
 * PDF viewer are external; the page text of each document and the outcome of the file-system
 * rename are inputs of the methods that need them.
 */
module RenamerSession {
  import opened Wrappers
  import opened PyStr
  import opened Normalizer
  import opened SchemaDetector
  import opened FuzzyMatcher
  import opened TextExtractor

  /** The suggestion line under the name box: empty before the first document, or one of the
      three messages of lines 119, 122 and 125. */
  datatype Suggestion = NoSuggestion | AutoSuggested(name: string) | NoConfidentMatch | CouldNotExtract

  /** One rename: a file of the certificates folder moved to a name in the output folder. */
  datatype Rename = Rename(source: string, target: string)

  /** What one press of "Rename & Next" did. */
  datatype ConfirmOutcome =
    | Renamed(target: string)  // the file was renamed and the session moved on
    | MatchError               // the selection names no roster row (line 100)
    | RenameFailed             // line 95 or the file-system rename raised; nothing moves on

  /** The roster's 'Name' column, `df['Name']`. */
  function Names(records: seq<Record>): seq<string> {
    seq(|records|, k requires 0 <= k < |records| => records[k].name)
  }

  /** The name ends in ".pdf" in any letter case. */
  predicate IsPdfName(f: string) {
    |f| >= 4 && Lower(f)[|f| - 4..] == ".pdf"
  }

  /** Line 50: the PDF files of the folder listing, in listing order. */
  function PdfFiles(listing: seq<string>): (r: seq<string>)
    ensures |r| <= |listing|
    ensures forall f :: f in r <==> f in listing && IsPdfName(f)
  {
    if |listing| == 0 then []
    else if IsPdfName(listing[0]) then [listing[0]] + PdfFiles(listing[1..])
    else PdfFiles(listing[1..])
  }

  /** Filtering a listing distributes over concatenation, so the PDF files keep the listing's
      order and multiplicity. */
  lemma {:induction false} PdfFilesAppend(a: seq<string>, b: seq<string>)
    ensures PdfFiles(a + b) == PdfFiles(a) + PdfFiles(b)
    decreases |a|
  {
    if |a| == 0 {
      assert a + b == b;
    } else {
      assert (a + b)[1..] == a[1..] + b;
      PdfFilesAppend(a[1..], b);
    }
  }

  /** A one-name listing keeps its name exactly when it is a PDF name. */
  lemma PdfFilesSingle(f: string)
    ensures PdfFiles([f]) == if IsPdfName(f) then [f] else []
  {
    assert [f][1..] == [];
  }

  /** `f"{roll}.pdf"` (line 96): the extension is always lower-case ".pdf". */
  function TargetName(roll: string): (t: string)
    ensures |t| == |roll| + 4 && t[..|roll|] == roll && t[|roll|..] == ".pdf"
    ensures IsPdfName(t)
  {
    roll + ".pdf"
  }

  /** Lines 114-125: the suggestion for an extracted name. An extraction that is absent or empty
      is a failed one; a best match that is the empty name is as good as none. */
  function Suggest(extracted: Option<string>, names: seq<string>, score: Scorer, threshold: real): (s: Suggestion)
    ensures !s.NoSuggestion?
    ensures s.CouldNotExtract? <==> extracted.None? || extracted.value == ""
    ensures s.AutoSuggested? ==>
      && s.name in names
      && s.name != ""
      && score(extracted.value, s.name) >= threshold
      && forall j :: 0 <= j < |names| ==> score(extracted.value, names[j]) <= score(extracted.value, s.name)
    ensures s.NoConfidentMatch? ==>
      forall j :: 0 <= j < |names| && names[j] != "" && score(extracted.value, names[j]) >= threshold ==>
        || score(extracted.value, names[j]) == 0.0
        || exists i :: 0 <= i < |names| && names[i] == "" && Beats(score(extracted.value, names[i]), i, score(extracted.value, names[j]), j)
  {
    if extracted.None? || extracted.value == "" then CouldNotExtract
    else
      match BestMatch(extracted.value, names, score, threshold)
      case Some(m) => if m != "" then AutoSuggested(m) else NoConfidentMatch
      case None => NoConfidentMatch
  }

  /** Lines 115-125 as executed: the scan of `get_best_match` and the two truth tests. */
  method SuggestFor(extracted: Option<string>, names: seq<string>, score: Scorer, threshold: real) returns (s: Suggestion)
    ensures s == Suggest(extracted, names, score, threshold)
  {
    if extracted.Some? && extracted.value != "" {
      var best := GetBestMatch(extracted.value, names, score, threshold);
      if best.Some? && best.value != "" {
        s := AutoSuggested(best.value);
      } else {
        s := NoConfidentMatch;
      }
    } else {
      s := CouldNotExtract;
    }
  }

  /** A score `a` at position `i` wins the scan over a score `b` at position `j`. */
  predicate Beats(a: real, i: nat, b: real, j: nat) {
    a > b || (a == b && i < j)
  }

  /** The name box after a document is loaded: the suggested name, or empty. */
  function SelectionFor(s: Suggestion): string {
    if s.AutoSuggested? then s.name else ""
  }

  /** `df[df['Name'] == name].iloc[0]`, as an index: the first roster row with that name. */
  function FirstNamed(records: seq<Record>, name: string): (r: Option<nat>)
    ensures r.Some? ==>
      && r.value < |records|
      && records[r.value].name == name
      && forall j :: 0 <= j < r.value ==> records[j].name != name
    ensures r.None? ==> forall j :: 0 <= j < |records| ==> records[j].name != name
  {
    if |records| == 0 then None
    else if records[0].name == name then Some(0)
    else
      match FirstNamed(records[1..], name)
      case None => None
      case Some(k) => Some(k + 1)
  }

  /** `t` is the file name some roster row's roll number gives. */
  ghost predicate IsRollTarget(records: seq<Record>, t: string) {
    exists j :: 0 <= j < |records| && t == TargetName(records[j].roll)
  }

  /** Confirming a name picked from the name box, which lists the roster's names, finds that
      name's first row, provided the name came from a cell without honorifics. */
  lemma ConfirmRosterName(records: seq<Record>, k: nat, cell: string)
    requires k < |records| && records[k].name == Normalize(cell)
    requires HonorificFree(cell)
    ensures FirstNamed(records, Normalize(records[k].name)).Some?
    ensures FirstNamed(records, Normalize(records[k].name)).value <= k
  {
    NormalizeIdempotentWithoutHonorifics(cell);
  }

  class Session {
    const roster: seq<Record>
    const pdfFiles: seq<string>
    const score: Scorer
    var currentIndex: nat
    var selection: string
    var suggestion: Suggestion
    var finished: bool
    var renames: seq<Rename>

    /** One rename per document passed, in order, each to a roll number's file name. */
    ghost predicate Consistent()
      reads this`currentIndex, this`renames
    {
      && currentIndex <= |pdfFiles|
      && |renames| == currentIndex
      && forall k :: 0 <= k < |renames| ==>
           renames[k].source == pdfFiles[k] && IsRollTarget(roster, renames[k].target)
    }

    /** The session has ended exactly when every document has been passed. */
    ghost predicate Valid()
      reads this`currentIndex, this`renames, this`finished
    {
      Consistent() && (finished <==> currentIndex == |pdfFiles|)
    }

    /** The name box and the suggestion line show what the document with this page text gives. */
    ghost predicate Presents(page: Option<string>)
      reads this`selection, this`suggestion
    {
      && suggestion == Suggest(ExtractName(page), Names(roster), score, FuzzyThreshold)
      && selection == SelectionFor(suggestion)
    }

    /** Lines 47-51 and 132: the session takes the PDF files of the folder listing and starts
        at the first one, whose page text is `firstPage`. */
    constructor (roster: seq<Record>, listing: seq<string>, score: Scorer, firstPage: Option<string>)
      ensures Valid()
      ensures this.roster == roster && pdfFiles == PdfFiles(listing) && this.score == score
      ensures currentIndex == 0 && renames == []
      ensures finished <==> |pdfFiles| == 0
      ensures !finished ==> Presents(firstPage)
    {
      this.roster := roster;
      this.pdfFiles := PdfFiles(listing);
      this.score := score;
      currentIndex := 0;
      selection := "";
      suggestion := NoSuggestion;
      finished := false;
      renames := [];
      new;
      LoadNextPdf(firstPage);
    }

    /** `load_next_pdf` (lines 105-126): ends the session after the last document, otherwise
        extracts a name from the current document's page text and suggests a roster name. */
    method LoadNextPdf(page: Option<string>)
      requires Consistent() && !finished
      modifies this`selection, this`suggestion, this`finished
      ensures Valid()
      ensures finished <==> currentIndex >= |pdfFiles|
      ensures !finished ==> Presents(page)
      ensures finished ==> selection == old(selection) && suggestion == old(suggestion)
    {
      if currentIndex >= |pdfFiles| {
        finished := true;
        return;
      }
      var shown := SuggestFor(ExtractName(page), Names(roster), score, FuzzyThreshold);
      suggestion := shown;
      selection := SelectionFor(shown);
    }

    /** The operator types or picks a name in the name box. */
    method Select(name: string)
      modifies this`selection
      ensures selection == name
    {
      selection := name;
    }

    /** `rename_and_next` (lines 89-103): looks the normalised selection up in the roster; on
        a hit, renames the current document to the first matching row's roll number and loads
        the next document (whose page text is `nextPage`). `renameSucceeds` is the outcome of
        the file-system rename; when it raises, nothing moves on. A press after the last
        document (possible only when there were no documents, since the window then stays
        open) finds no current file on line 95, which raises in the same way. */
    method RenameAndNext(renameSucceeds: bool, nextPage: Option<string>) returns (outcome: ConfirmOutcome)
      requires Valid()
      modifies this
      ensures Valid()
      ensures outcome ==
        match FirstNamed(roster, Normalize(old(selection)))
        case None => MatchError
        case Some(k) =>
          if renameSucceeds && !old(finished) then Renamed(TargetName(roster[k].roll)) else RenameFailed
      ensures outcome.Renamed? ==>
        && !old(finished)
        && renames == old(renames) + [Rename(pdfFiles[old(currentIndex)], outcome.target)]
        && currentIndex == old(currentIndex) + 1
        && (finished <==> currentIndex == |pdfFiles|)
        && (!finished ==> Presents(nextPage))
        && (finished ==> selection == old(selection) && suggestion == old(suggestion))
      ensures !outcome.Renamed? ==>
        && renames == old(renames) && currentIndex == old(currentIndex) && finished == old(finished)
        && selection == old(selection) && suggestion == old(suggestion)
    {
      var selected := Normalize(selection);
      var row := FirstNamed(roster, selected);
      if row.None? {
        return MatchError;
      }
      if !renameSucceeds || finished {
        return RenameFailed;
      }
      var target := TargetName(roster[row.value].roll);
      renames := renames + [Rename(pdfFiles[currentIndex], target)];
      currentIndex := currentIndex + 1;
      outcome := Renamed(target);
      LoadNextPdf(nextPage);
    }
  }
}
