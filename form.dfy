/**
 * The entry form of the log selector: its fields, the two logging modes, the values
 * read out of the widgets on Save, and the prioritised check of required fields.
 */
module Form {
  import opened Text

  /** The widgets of `self.fields`, in the order they are created. */
  datatype Field =
    | ReferenceNumber  // "Reference Number", an entry
    | MainIssue        // "Main Issue", a multi-line text box
    | ActionTaken      // "Action Taken", a multi-line text box
    | PcNumber         // "PC#", an entry, multiple mode only
    | Role             // "Role", a combo box, multiple mode only
    | ComputerName     // "Computer Name", an entry; leaving it triggers auto-fill
    | ModelType        // "Computer Model/Type", an entry
    | SerialNumber     // "Computer Serial Number", an entry
    | Oem              // "Computer OEM", a combo box
    | Os               // "Computer OS", a combo box

  /** The "Single logs" / "Multiple logs" radio buttons. */
  datatype Mode = Single | Multiple

  function FieldOrder(): seq<Field> {
    [ReferenceNumber, MainIssue, ActionTaken, PcNumber, Role, ComputerName, ModelType, SerialNumber, Oem, Os]
  }

  function AllFields(): set<Field> {
    {ReferenceNumber, MainIssue, ActionTaken, PcNumber, Role, ComputerName, ModelType, SerialNumber, Oem, Os}
  }

  /** Every field is listed in both. */
  lemma EveryField(f: Field)
    ensures f in AllFields() && f in FieldOrder()
  {
    match f
    case ReferenceNumber =>
    case MainIssue =>
    case ActionTaken =>
    case PcNumber =>
    case Role =>
    case ComputerName =>
    case ModelType =>
    case SerialNumber =>
    case Oem =>
    case Os =>
  }

  /** The widget contents: one string per field. In a text box, the text without Tk's final newline. */
  type Contents = map<Field, string>

  predicate Complete(fields: Contents) {
    fields.Keys == AllFields()
  }

  /** Every widget empty, as at start-up and after Clear. */
  function BlankForm(): Contents { map f | f in AllFields() :: "" }

  /** The multi-line text boxes, the only fields whose value is stripped on Save. */
  predicate IsMultiLine(f: Field) {
    f == MainIssue || f == ActionTaken
  }

  /** The dictionaries `single_log_fields` and `multiple_log_fields`. */
  function RequiredFields(mode: Mode): seq<Field> {
    match mode
    case Single =>
      [ReferenceNumber, MainIssue, ActionTaken, ComputerName, ModelType, SerialNumber, Oem, Os]
    case Multiple =>
      [ReferenceNumber, MainIssue, ActionTaken, PcNumber, Role, ComputerName, ModelType, SerialNumber, Oem, Os]
  }

  /** A widget's value as Save reads it: an entry or combo box as it is, a text box as Tk returns it (with a final newline) and then stripped. */
  function ReadValue(fields: Contents, f: Field): (v: string)
    requires Complete(fields)
    ensures v == if IsMultiLine(f) then Strip(fields[f]) else fields[f]
  {
    if IsMultiLine(f) then
      StripIgnoresTrailingNewline(fields[f]);
      Strip(fields[f] + "\n")
    else fields[f]
  }

  /** The `data` dictionary of Save: the values of the mode's fields only. */
  function ReadData(mode: Mode, fields: Contents): (data: Contents)
    requires Complete(fields)
    ensures forall f :: f in data <==> f in RequiredFields(mode)
    ensures forall f | f in data :: data[f] == ReadValue(fields, f)
  {
    map f | f in RequiredFields(mode) :: ReadValue(fields, f)
  }

  /** `data.get(label, '')`. */
  function Get(data: Contents, f: Field): string {
    if f in data then data[f] else ""
  }

  /** The labels of the empty values, in dictionary order (the list `empty_fields`). */
  function EmptyFields(data: Contents, order: seq<Field>): (e: seq<Field>)
    requires forall f | f in order :: f in data
    ensures forall f :: f in e <==> f in order && data[f] == ""
    ensures |e| <= |order|
  {
    if order == [] then []
    else
      var rest := EmptyFields(data, order[1..]);
      if data[order[0]] == "" then [order[0]] + rest else rest
  }

  function MainIssueEmpty(): string { "Main Issue field is empty" }
  function ActionTakenEmpty(): string { "Action Taken field is empty" }
  function SomeFieldsEmpty(): string { "Some fields are empty" }

  /** The outcome of the checks before writing: go ahead, or the warning shown to the operator. */
  datatype Verdict = Accepted | Rejected(message: string)

  /**
   * The three checks of Save, in order: Main Issue, then Action Taken, then every
   * field of the mode.
   */
  function Validate(mode: Mode, data: Contents): (v: Verdict)
    requires forall f | f in RequiredFields(mode) :: f in data
    ensures v.Accepted? <==> forall f | f in RequiredFields(mode) :: data[f] != ""
    ensures v == Rejected(MainIssueEmpty()) <==> data[MainIssue] == ""
    ensures v == Rejected(ActionTakenEmpty()) <==> data[MainIssue] != "" && data[ActionTaken] == ""
    ensures v == Rejected(SomeFieldsEmpty()) <==>
      data[MainIssue] != "" && data[ActionTaken] != "" && exists f | f in RequiredFields(mode) :: data[f] == ""
  {
    if data[MainIssue] == "" then Rejected(MainIssueEmpty())
    else if data[ActionTaken] == "" then Rejected(ActionTakenEmpty())
    else
      var empty := EmptyFields(data, RequiredFields(mode));
      if empty != [] then
        assert empty[0] in empty;
        Rejected(SomeFieldsEmpty())
      else Accepted
  }

  /** PC# and Role play no part in the single mode's checks, and the multiple mode accepts only what the single mode accepts. */
  lemma ModeDecidesPcAndRole(data: Contents, pc: string, role: string)
    requires forall f | f in RequiredFields(Multiple) :: f in data
    ensures Validate(Single, data) == Validate(Single, data[PcNumber := pc][Role := role])
    ensures Validate(Multiple, data).Accepted? <==>
      Validate(Single, data).Accepted? && data[PcNumber] != "" && data[Role] != ""
  {
    var other := data[PcNumber := pc][Role := role];
    assert forall f | f in RequiredFields(Single) :: other[f] == data[f];
  }

  /** A widget Save treats as empty: a text box holding only whitespace, any other widget holding nothing. */
  predicate Blank(fields: Contents, f: Field)
    requires Complete(fields)
  {
    if IsMultiLine(f) then AllSpace(fields[f]) else fields[f] == ""
  }

  /** A value Save reads is empty exactly when its widget is blank. */
  lemma ReadBlank(mode: Mode, fields: Contents)
    requires Complete(fields)
    ensures forall f | f in RequiredFields(mode) :: f in ReadData(mode, fields)
    ensures forall f | f in RequiredFields(mode) :: ReadData(mode, fields)[f] == "" <==> Blank(fields, f)
  {
    var data := ReadData(mode, fields);
    forall f | f in RequiredFields(mode) ensures data[f] == "" <==> Blank(fields, f) {
      assert data[f] == ReadValue(fields, f);
    }
  }

  /** The checks of Save in terms of what the operator typed. */
  lemma ValidateFields(mode: Mode, fields: Contents)
    requires Complete(fields)
    ensures var v := Validate(mode, ReadData(mode, fields));
      && (v == Rejected(MainIssueEmpty()) <==> Blank(fields, MainIssue))
      && (v == Rejected(ActionTakenEmpty()) <==> !Blank(fields, MainIssue) && Blank(fields, ActionTaken))
      && (v.Accepted? <==> forall f | f in RequiredFields(mode) :: !Blank(fields, f))
      && (v == Rejected(SomeFieldsEmpty()) <==>
            !Blank(fields, MainIssue) && !Blank(fields, ActionTaken)
            && exists f | f in RequiredFields(mode) :: Blank(fields, f))
  {
    ReadBlank(mode, fields);
    assert MainIssue in RequiredFields(mode) && ActionTaken in RequiredFields(mode);
  }
}
