/** The edit-question dialog's form state: topics and images are edited as
    one comma-separated string each, built from the question's lists when
    the dialog opens and split back into lists on submit. */
module EditQuestionDialog {
  import opened Wrappers
  import opened Text

  /** The stored question as the dialog receives it; absent optional
      fields are `None`. */
  datatype Question = Question(title: Option<string>, description: Option<string>, topic: seq<string>,
                               difficulty: Option<string>, input: Option<string>, expectedOutput: Option<string>,
                               images: Option<seq<string>>, leetcodeLink: Option<string>)

  /** The form: every field is a string. */
  datatype Form = Form(title: string, description: string, topic: string, difficulty: string, input: string,
                       expectedOutput: string, images: string, leetcodeLink: string)

  /** The form fields by `name`. */
  datatype FieldName = Title | Description | Topic | Difficulty | Input | ExpectedOutput | Images | LeetcodeLink

  /** `value || fallback` for a string that may be undefined. */
  function Or(value: Option<string>, fallback: string): (r: string)
    ensures value.Some? && value.value != "" ==> r == value.value
    ensures value.None? || value.value == "" ==> r == fallback
  {
    if value.Some? && value.value != "" then value.value else fallback
  }

  /** The list as the dialog shows it. */
  function Shown(xs: seq<string>): string {
    Join(xs, ", ")
  }

  /** The form as the dialog opens on `question` (or on none). Lists are
      shown joined by ", ", and the difficulty falls back to Easy. */
  function InitialForm(question: Option<Question>): (f: Form)
    ensures question.None? ==> f == Form("", "", "", "Easy", "", "", "", "")
    ensures question.Some? ==> f.topic == Shown(question.value.topic)
    ensures question.Some? && question.value.images.Some? ==> f.images == Shown(question.value.images.value)
    ensures question.Some? && question.value.images.None? ==> f.images == ""
    ensures question.Some? ==> f.difficulty == Or(question.value.difficulty, "Easy")
    ensures f.difficulty != ""
    ensures question.Some? ==> var q := question.value;
      && f.title == (if q.title.Some? then q.title.value else "")
      && f.description == (if q.description.Some? then q.description.value else "")
      && f.input == (if q.input.Some? then q.input.value else "")
      && f.expectedOutput == (if q.expectedOutput.Some? then q.expectedOutput.value else "")
      && f.leetcodeLink == (if q.leetcodeLink.Some? then q.leetcodeLink.value else "")
  {
    match question
    case None => Form("", "", "", "Easy", "", "", "", "")
    case Some(q) =>
      Form(Or(q.title, ""), Or(q.description, ""), Shown(q.topic), Or(q.difficulty, "Easy"),
           Or(q.input, ""), Or(q.expectedOutput, ""),
           if q.images.Some? then Shown(q.images.value) else "", Or(q.leetcodeLink, ""))
  }

  /** The value of a named form field. */
  function Get(f: Form, name: FieldName): string {
    match name
    case Title => f.title
    case Description => f.description
    case Topic => f.topic
    case Difficulty => f.difficulty
    case Input => f.input
    case ExpectedOutput => f.expectedOutput
    case Images => f.images
    case LeetcodeLink => f.leetcodeLink
  }

  /** `handleInputChange`: the named field takes the value, and no other
      field changes. */
  function InputChange(f: Form, name: FieldName, value: string): (r: Form)
    ensures Get(r, name) == value
    ensures forall n | n != name :: Get(r, n) == Get(f, n)
  {
    match name
    case Title => f.(title := value)
    case Description => f.(description := value)
    case Topic => f.(topic := value)
    case Difficulty => f.(difficulty := value)
    case Input => f.(input := value)
    case ExpectedOutput => f.(expectedOutput := value)
    case Images => f.(images := value)
    case LeetcodeLink => f.(leetcodeLink := value)
  }

  /** `handleTopicChange`: the new selection is stored shown as text. */
  function TopicChange(f: Form, selection: seq<string>): (r: Form)
    ensures r == InputChange(f, Topic, Shown(selection))
  {
    f.(topic := Shown(selection))
  }

  /** A form field's list on submit: split on ',' and each part trimmed. */
  function Parts(s: string): (r: seq<string>)
    ensures |r| >= 1
    ensures forall i | 0 <= i < |r| :: Trimmed(r[i])
    ensures NonSpace(Join(r, ",")) == NonSpace(s)
  {
    NonSpaceJoinTrimAll(Split(s, ','), ",");
    JoinSplit(s, ',');
    TrimAll(Split(s, ','))
  }

  /** The topic and image lists the dialog submits. */
  function SubmittedLists(f: Form): (r: (seq<string>, seq<string>))
    ensures r.0 == Parts(f.topic) && r.1 == Parts(f.images)
  {
    (Parts(f.topic), Parts(f.images))
  }

  /** Showing a list and splitting it back returns it, for a non-empty list
      whose entries have no comma and no surrounding blanks. */
  lemma ShownPartsRoundTrip(xs: seq<string>)
    requires |xs| >= 1
    requires forall i | 0 <= i < |xs| :: ',' !in xs[i] && Trimmed(xs[i])
    ensures Parts(Shown(xs)) == xs
  {
    JoinSplitTrimRoundTrip(xs);
  }

  /** Opening the dialog and submitting it unchanged returns the question's
      topics, and its images when there are any. */
  lemma UnchangedSubmitKeepsLists(q: Question)
    requires |q.topic| >= 1 && forall i | 0 <= i < |q.topic| :: ',' !in q.topic[i] && Trimmed(q.topic[i])
    requires q.images.Some? && |q.images.value| >= 1
    requires forall i | 0 <= i < |q.images.value| :: ',' !in q.images.value[i] && Trimmed(q.images.value[i])
    ensures SubmittedLists(InitialForm(Some(q))) == (q.topic, q.images.value)
  {
    ShownPartsRoundTrip(q.topic);
    ShownPartsRoundTrip(q.images.value);
  }

  /** An empty list does not survive: it comes back as one empty entry. */
  lemma EmptyListComesBackBlank()
    ensures Parts(Shown([])) == [""]
  {
    assert Split("", ',') == [""];
  }
}
