/** The editing helpers of the create-question dialog: the list of test
    cases, the per-language starter code, and the image-URL field. The form
    rendering, file picking and the upload request are left out. */
module CreateQuestionDialog {
  import opened Wrappers
  import opened Text
  import QuestionController

  /** One row of the test-case editor. */
  datatype TestCaseDraft = TestCaseDraft(input: string, expectedOutput: string)

  /** The two editable fields of a row. */
  datatype TestCaseField = InputField | ExpectedOutputField

  /** The dialog's state: the chosen difficulty and topics, the starter
      code per language and the test cases. */
  datatype Draft = Draft(difficulty: string, topics: seq<string>, defaultCode: map<string, string>,
                         testCases: seq<TestCaseDraft>)

  const Languages := ["python", "javascript", "java"]

  const EmptyTestCase := TestCaseDraft("", "")

  /** The dialog as it opens: difficulty Easy, no topics, no test cases,
      and empty starter code for each of the three languages. */
  function InitialDraft(): (d: Draft)
    ensures d.difficulty == "Easy" && d.topics == [] && d.testCases == []
    ensures d.defaultCode.Keys == set l | l in Languages
    ensures forall l | l in d.defaultCode :: d.defaultCode[l] == ""
  {
    Draft("Easy", [], map["python" := "", "javascript" := "", "java" := ""], [])
  }

  /** `handleAddTestCase`: one empty row appended at the end. */
  function AddTestCase(cases: seq<TestCaseDraft>): (r: seq<TestCaseDraft>)
    ensures |r| == |cases| + 1
    ensures r[..|cases|] == cases && r[|cases|] == EmptyTestCase
  {
    cases + [EmptyTestCase]
  }

  /** `handleRemoveTestCase`: `filter((_, i) => i !== index)`. The row at
      `index` goes and the others keep their order; an index outside the
      list removes nothing. */
  function RemoveTestCase(cases: seq<TestCaseDraft>, index: int): (r: seq<TestCaseDraft>)
    ensures 0 <= index < |cases| ==> r == cases[..index] + cases[index + 1..]
    ensures !(0 <= index < |cases|) ==> r == cases
    decreases |cases|
  {
    if cases == [] then []
    else (if index == 0 then [] else [cases[0]]) + RemoveTestCase(cases[1..], index - 1)
  }

  /** Removing a row after adding one gives back the list. */
  lemma AddThenRemoveLast(cases: seq<TestCaseDraft>)
    ensures RemoveTestCase(AddTestCase(cases), |cases|) == cases
  {
  }

  /** The value of one field of a row. */
  function FieldOf(t: TestCaseDraft, field: TestCaseField): string {
    match field
    case InputField => t.input
    case ExpectedOutputField => t.expectedOutput
  }

  /** `handleTestCaseChange`: the named field of row `index` takes the new
      value. An index outside the list makes `updatedTestCases[index]`
      undefined and the handler throws before any state change; that is
      `None` here. */
  function ChangeTestCase(cases: seq<TestCaseDraft>, index: int, field: TestCaseField, value: string): (r: Option<seq<TestCaseDraft>>)
    ensures r.Some? <==> 0 <= index < |cases|
    ensures r.Some? ==> |r.value| == |cases|
    ensures r.Some? ==> FieldOf(r.value[index], field) == value
    ensures r.Some? ==> forall f | f != field :: FieldOf(r.value[index], f) == FieldOf(cases[index], f)
    ensures r.Some? ==> forall i | 0 <= i < |cases| && i != index :: r.value[i] == cases[i]
  {
    if 0 <= index < |cases| then
      var t := cases[index];
      var updated := match field
        case InputField => t.(input := value)
        case ExpectedOutputField => t.(expectedOutput := value);
      Some(cases[index := updated])
    else None
  }

  /** `handleDefaultCodeChange`: only the given language's code changes. */
  function ChangeDefaultCode(code: map<string, string>, language: string, value: string): (r: map<string, string>)
    ensures r.Keys == code.Keys + {language}
    ensures r[language] == value
    ensures forall l | l in code && l != language :: r[l] == code[l]
  {
    code[language := value]
  }

  /** A code change keeps the three languages' keys and nothing else. */
  lemma DefaultCodeKeepsLanguages(d: Draft, language: string, value: string)
    requires d.defaultCode.Keys == set l | l in Languages
    requires language in Languages
    ensures ChangeDefaultCode(d.defaultCode, language, value).Keys == set l | l in Languages
  {
  }

  /** The image-URL field on submit: split on ',' with each part trimmed. */
  function ImageParts(field: string): (r: seq<string>)
    ensures |r| >= 1
    ensures forall i | 0 <= i < |r| :: ',' !in r[i] && Trimmed(r[i])
    ensures NonSpace(Join(r, ",")) == NonSpace(field)
  {
    var parts := Split(field, ',');
    TrimAllCommaFree(parts);
    NonSpaceJoinTrimAll(parts, ",");
    JoinSplit(field, ',');
    TrimAll(parts)
  }

  /** Trimming comma-free parts leaves them comma-free and trimmed. */
  lemma TrimAllCommaFree(parts: seq<string>)
    requires forall i | 0 <= i < |parts| :: ',' !in parts[i]
    ensures forall i | 0 <= i < |parts| :: ',' !in TrimAll(parts)[i] && Trimmed(TrimAll(parts)[i])
  {
    forall i | 0 <= i < |parts|
      ensures ',' !in TrimAll(parts)[i]
    {
      TrimKeepsAbsent(parts[i], ',');
    }
  }

  /** The parts are the comma-separated entries, trimmed: rejoining them
      gives the field back when its entries carry no surrounding blanks. */
  lemma ImagePartsRejoin(field: string)
    requires forall i | 0 <= i < |Split(field, ',')| :: Trimmed(Split(field, ',')[i])
    ensures Join(ImageParts(field), ",") == field
  {
    var parts := Split(field, ',');
    forall i | 0 <= i < |parts| ensures TrimAll(parts)[i] == parts[i] {
      TrimOfTrimmed(parts[i]);
    }
    assert TrimAll(parts) == parts;
    JoinSplit(field, ',');
  }

  /** A blank image field still yields one part, an empty URL, which the
      question service drops as blank. */
  lemma BlankImageFieldSendsNothing()
    ensures ImageParts("") == [""]
    ensures QuestionController.NonBlank(ImageParts("")) == []
  {
    assert Split("", ',') == [""];
    assert Trim("") == "";
    assert TrimAll([""]) == [""];
  }
}
