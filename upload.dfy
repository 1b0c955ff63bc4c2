/** The spreadsheet upload: the file-name test of utils/excel_upload.py, the
    question filter applied to the first column, and the single-section survey
    the upload route builds from what survives. */
module Upload {
  import opened Schema
  import opened Text
  import opened Admin

  /** A cell of the first column: empty (pandas' NaN) or the text `str()` gives for it. */
  datatype Cell = Missing | Text(text: string)

  /** The text after the last dot. */
  function AfterLastDot(name: string): (r: string)
    requires '.' in name
    ensures '.' !in r
    ensures |r| < |name| && name[|name| - |r| - 1] == '.' && r == name[|name| - |r|..]
  {
    if name[|name| - 1] == '.' then []
    else
      var init := name[..|name| - 1];
      assert '.' in init by {
        var k :| 0 <= k < |name| && name[k] == '.';
        assert init[k] == '.';
      }
      AfterLastDot(init) + [name[|name| - 1]]
  }

  /** `check_if_excel_file`: there is a dot, and the text after the last one,
      lower-cased, is `xlsx` or `xls`. */
  function IsExcelFile(name: string): bool {
    if '.' !in name then false
    else Lower(AfterLastDot(name)) in {"xlsx", "xls"}
  }

  /** The file is accepted exactly when some dot is followed by a dot-free extension
      that lower-cases to `xlsx` or `xls`. */
  lemma IsExcelFileSpec(name: string)
    ensures IsExcelFile(name) <==>
      exists i :: 0 <= i < |name| && name[i] == '.' && '.' !in name[i + 1..] && Lower(name[i + 1..]) in {"xlsx", "xls"}
  {
    if '.' in name {
      var r := AfterLastDot(name);
      var i := |name| - |r| - 1;
      assert name[i + 1..] == r;
    }
  }

  lemma ExcelAccepted()
    ensures IsExcelFile("Data.XLSX") && IsExcelFile("old.Xls")
  {
    assert AfterLastDot("Data.XLSX") == "XLSX";
    assert Lower("XLSX") == "xlsx";
    assert AfterLastDot("old.Xls") == "Xls";
    assert Lower("Xls") == "xls";
  }

  lemma ExcelRejected()
    ensures !IsExcelFile("data.xlsx.zip") && !IsExcelFile("name.") && !IsExcelFile("xlsx")
  {
    assert AfterLastDot("data.xlsx.zip") == "zip";
    assert AfterLastDot("name.") == "";
    assert '.' !in "xlsx";
  }

  /** The question a cell contributes: its stripped text, unless the cell is empty,
      strips to nothing, or reads `nan`. */
  function KeptQuestion(cell: Cell): Option<string> {
    match cell
    case Missing => None
    case Text(s) =>
      var t := Strip(s);
      if t == [] || t == "nan" then None else Some(t)
  }

  /** What `f` yields for each element, in order, skipping the elements it yields nothing for. */
  function Collect<A, B>(s: seq<A>, f: A -> Option<B>): seq<B> {
    if s == [] then []
    else
      var last := f(s[|s| - 1]);
      Collect(s[..|s| - 1], f) + (if last.Some? then [last.value] else [])
  }

  /** The questions of a first column, in row order. */
  function KeptQuestions(cells: seq<Cell>): seq<string> {
    Collect(cells, KeptQuestion)
  }

  /** `process_excel_file`'s row loop. */
  method ProcessRows(cells: seq<Cell>) returns (questions: seq<string>)
    ensures questions == KeptQuestions(cells)
  {
    questions := [];
    for i := 0 to |cells|
      invariant questions == KeptQuestions(cells[..i])
    {
      assert cells[..i + 1][..i] == cells[..i];
      var text := if cells[i].Missing? then "nan" else cells[i].text;
      text := Strip(text);
      if cells[i].Missing? || text == [] || text == "nan" {
        continue;
      }
      questions := questions + [text];
    }
    assert cells[..|cells|] == cells;
  }

  lemma CollectLast<A, B>(s: seq<A>, f: A -> Option<B>, t: B)
    requires s != []
    ensures t in Collect(s, f) <==> t in Collect(s[..|s| - 1], f) || f(s[|s| - 1]) == Some(t)
  {
  }

  lemma {:induction false} CollectIndex<A, B>(s: seq<A>, f: A -> Option<B>, t: B)
    ensures t in Collect(s, f) <==> exists k :: 0 <= k < |s| && f(s[k]) == Some(t)
  {
    if s != [] {
      var init, last := s[..|s| - 1], s[|s| - 1];
      CollectIndex(init, f, t);
      CollectLast(s, f, t);
      if t in Collect(init, f) {
        var k :| 0 <= k < |init| && f(init[k]) == Some(t);
        assert s[k] == init[k];
      } else if f(last) != Some(t) {
        forall k | 0 <= k < |s|
          ensures f(s[k]) != Some(t)
        {
          if k < |init| {
            assert s[k] == init[k];
          }
        }
      }
    }
  }

  /** An element is collected exactly when `f` yields it for some element of the input. */
  lemma {:induction false} CollectMembers<A, B>(s: seq<A>, f: A -> Option<B>, t: B)
    ensures t in Collect(s, f) <==> exists a :: a in s && f(a) == Some(t)
  {
    CollectIndex(s, f, t);
    if t in Collect(s, f) {
      var k :| 0 <= k < |s| && f(s[k]) == Some(t);
      assert s[k] in s;
    } else {
      forall a | a in s
        ensures f(a) != Some(t)
      {
        var k :| 0 <= k < |s| && s[k] == a;
      }
    }
  }

  lemma {:induction false} CollectLength<A, B>(s: seq<A>, f: A -> Option<B>)
    ensures |Collect(s, f)| <= |s|
  {
    if s != [] {
      CollectLength(s[..|s| - 1], f);
    }
  }

  lemma {:induction false} CollectAppend<A, B>(a: seq<A>, b: seq<A>, f: A -> Option<B>)
    ensures Collect(a + b, f) == Collect(a, f) + Collect(b, f)
  {
    if b != [] {
      var init := b[..|b| - 1];
      CollectAppend(a, init, f);
      assert (a + b)[..|a + b| - 1] == a + init;
      assert (a + b)[|a + b| - 1] == b[|b| - 1];
    } else {
      assert a + b == a;
    }
  }

  /** A question is kept exactly when some cell strips to it and it is neither empty
      nor `nan`; every kept question is stripped, and there are never more than rows. */
  lemma KeptQuestionsSpec(cells: seq<Cell>)
    ensures |KeptQuestions(cells)| <= |cells|
    ensures forall t :: t in KeptQuestions(cells) <==>
      exists c :: c in cells && c.Text? && t == Strip(c.text) && t != [] && t != "nan"
    ensures forall t :: t in KeptQuestions(cells) ==> Stripped(t)
  {
    CollectLength(cells, KeptQuestion);
    forall t
      ensures t in KeptQuestions(cells) <==>
        exists c :: c in cells && c.Text? && t == Strip(c.text) && t != [] && t != "nan"
      ensures t in KeptQuestions(cells) ==> Stripped(t)
    {
      CollectMembers(cells, KeptQuestion, t);
      if t in KeptQuestions(cells) {
        var c :| c in cells && KeptQuestion(c) == Some(t);
        StripSpec(c.text);
      }
    }
  }

  /** Rows keep their order: the questions of two stacked sheets are the two lists one after the other. */
  lemma KeptQuestionsAppend(a: seq<Cell>, b: seq<Cell>)
    ensures KeptQuestions(a + b) == KeptQuestions(a) + KeptQuestions(b)
  {
    CollectAppend(a, b, KeptQuestion);
  }

  const DefaultTitle: string := "EACTS Consensus Survey"
  const DefaultSectionTitle: string := "Questions"

  /** The uploaded file as the route sees it: its name and its first column. */
  datatype UploadedFile = UploadedFile(filename: string, firstColumn: seq<Cell>)

  datatype UploadOutcome = NoFile | NoFileSelected | InvalidFileType | NoQuestionsFound | Uploaded(survey: DraftSurvey)

  /** The single section "Questions", numbered 1, holding the questions numbered from 1. */
  function UploadSection(questions: seq<string>): DraftSection {
    DraftSection(1, DefaultSectionTitle, "", seq(|questions|, i requires 0 <= i < |questions| => DraftQuestion(i + 1, questions[i])))
  }

  /** `upload_survey`'s decisions, in the order the route takes them. */
  function UploadSurvey(file: Option<UploadedFile>, form: AdminForm): UploadOutcome {
    match file
    case None => NoFile
    case Some(f) =>
      if f.filename == [] then NoFileSelected
      else if !IsExcelFile(f.filename) then InvalidFileType
      else
        var questions := KeptQuestions(f.firstColumn);
        if |questions| == 0 then NoQuestionsFound
        else Uploaded(DraftSurvey(Get(form, TitleField, DefaultTitle), Get(form, DescriptionField, ""), [UploadSection(questions)]))
  }

  /** The route's `enumerate` loop that numbers the questions. */
  method NumberQuestions(questions: seq<string>) returns (numbered: seq<DraftQuestion>)
    ensures numbered == UploadSection(questions).questions
  {
    numbered := [];
    for i := 0 to |questions|
      invariant |numbered| == i
      invariant forall k :: 0 <= k < i ==> numbered[k] == DraftQuestion(k + 1, questions[k])
    {
      numbered := numbered + [DraftQuestion(i + 1, questions[i])];
    }
  }

  /** An upload succeeds exactly when a named spreadsheet yields at least one
      question; the survey then has one section whose questions are the kept rows,
      in row order, numbered 1, 2, 3, ... */
  lemma UploadSpec(file: Option<UploadedFile>, form: AdminForm)
    ensures UploadSurvey(file, form).Uploaded? <==>
      file.Some? && file.value.filename != [] && IsExcelFile(file.value.filename) && |KeptQuestions(file.value.firstColumn)| > 0
    ensures UploadSurvey(file, form).Uploaded? ==>
      var d := UploadSurvey(file, form).survey;
      var kept := KeptQuestions(file.value.firstColumn);
      && |d.sections| == 1 && d.sections[0].number == 1 && d.sections[0].title == DefaultSectionTitle
      && |d.sections[0].questions| == |kept|
      && (forall i :: 0 <= i < |kept| ==> d.sections[0].questions[i] == DraftQuestion(i + 1, kept[i]))
      && (TitleField !in form ==> d.title == DefaultTitle)
  {
  }
}
