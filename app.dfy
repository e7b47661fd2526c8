/**
 * The log selector window: the mode it is in, the contents of its widgets and the
 * inventory table it has loaded, and what its buttons and the Computer Name entry do
 * to them. Message boxes become returned values, the popup a `choice` argument, and
 * the file system and the clock parameters.
 */
module LogApp {
  import opened Wrappers
  import opened Text
  import opened Form
  import opened Inventory
  import opened Autofill
  import opened HtmlLog

  // ---------------------------------------------------------------- the timestamp

  /** A moment as `datetime.now()` returns it, to the second. */
  datatype Moment = Moment(date: Date, hour: int, minute: int, second: int)

  predicate ValidMoment(m: Moment) {
    ValidDate(m.date) && 0 <= m.hour < 24 && 0 <= m.minute < 60 && 0 <= m.second < 60
  }

  /** `now.strftime("%Y-%m-%d %H:%M:%S")`. */
  function TimeStamp(m: Moment): (ts: string)
    requires ValidMoment(m)
    ensures |ts| == 19
    ensures ts[4] == '-' && ts[7] == '-' && ts[10] == ' ' && ts[13] == ':' && ts[16] == ':'
  {
    Pad4(m.date.year) + "-" + Pad2(m.date.month) + "-" + Pad2(m.date.day)
    + " " + Pad2(m.hour) + ":" + Pad2(m.minute) + ":" + Pad2(m.second)
  }

  /** Where each padded number sits in a timestamp built from pieces of the right widths. */
  lemma StampLayout(y: string, mo: string, d: string, h: string, mi: string, se: string)
    requires |y| == 4 && |mo| == 2 && |d| == 2 && |h| == 2 && |mi| == 2 && |se| == 2
    ensures var ts := y + "-" + mo + "-" + d + " " + h + ":" + mi + ":" + se;
      && ts[0] == y[0] && ts[1] == y[1] && ts[2] == y[2] && ts[3] == y[3]
      && ts[5] == mo[0] && ts[6] == mo[1] && ts[8] == d[0] && ts[9] == d[1]
      && ts[11] == h[0] && ts[12] == h[1] && ts[14] == mi[0] && ts[15] == mi[1]
      && ts[17] == se[0] && ts[18] == se[1]
  {
  }

  /** The digits of a timestamp are the moment's year, month, day, hour, minute and second. */
  lemma TimeStampReads(m: Moment)
    requires ValidMoment(m)
    ensures var ts := TimeStamp(m);
      && (forall k | 0 <= k < 19 && k !in {4, 7, 10, 13, 16} :: IsDigit(ts[k]))
      && 1000 * DigitValue(ts[0]) + 100 * DigitValue(ts[1]) + 10 * DigitValue(ts[2]) + DigitValue(ts[3]) == m.date.year
      && 10 * DigitValue(ts[5]) + DigitValue(ts[6]) == m.date.month
      && 10 * DigitValue(ts[8]) + DigitValue(ts[9]) == m.date.day
      && 10 * DigitValue(ts[11]) + DigitValue(ts[12]) == m.hour
      && 10 * DigitValue(ts[14]) + DigitValue(ts[15]) == m.minute
      && 10 * DigitValue(ts[17]) + DigitValue(ts[18]) == m.second
  {
    StampLayout(Pad4(m.date.year), Pad2(m.date.month), Pad2(m.date.day), Pad2(m.hour), Pad2(m.minute), Pad2(m.second));
    Pad4Reads(m.date.year);
    Pad2Reads(m.date.month);
    Pad2Reads(m.date.day);
    Pad2Reads(m.hour);
    Pad2Reads(m.minute);
    Pad2Reads(m.second);
  }

  /** Two moments give the same timestamp exactly when they are the same moment. */
  lemma TimeStampPerMoment(m1: Moment, m2: Moment)
    requires ValidMoment(m1) && ValidMoment(m2)
    ensures TimeStamp(m1) == TimeStamp(m2) <==> m1 == m2
  {
    TimeStampReads(m1);
    TimeStampReads(m2);
  }

  lemma Pad2HasNoTag(n: int)
    requires 0 <= n < 100
    ensures '<' !in Pad2(n)
  {
    Pad2Reads(n);
  }

  lemma Pad4HasNoTag(n: int)
    requires 0 <= n < 10000
    ensures '<' !in Pad4(n)
  {
    Pad2HasNoTag(n / 100);
    Pad2HasNoTag(n % 100);
  }

  /** A timestamp is digits and separators: it never contains `</html>`. */
  lemma TimeStampFree(m: Moment)
    requires ValidMoment(m)
    ensures !Contains(TimeStamp(m), CloseHtml())
  {
    Pad4HasNoTag(m.date.year);
    Pad2HasNoTag(m.date.month);
    Pad2HasNoTag(m.date.day);
    Pad2HasNoTag(m.hour);
    Pad2HasNoTag(m.minute);
    Pad2HasNoTag(m.second);
    MissingChar(TimeStamp(m), CloseHtml(), '<');
  }

  // ---------------------------------------------------------------- what Save does

  /** How pressing Save ends: a warning and nothing written, or the file name and the text written to it. */
  datatype SaveOutcome = Warned(message: string) | Written(fileName: string, content: string)

  /**
   * Save on the widget contents `fields` in `mode`. `existing` is the day's file if it is
   * already there, `today` the date read for the file name and `stamped` the moment read,
   * a little later, for the entry's timestamp.
   */
  function Save(mode: Mode, fields: Contents, existing: Option<string>, today: Date, stamped: Moment): SaveOutcome
    requires Complete(fields) && ValidDate(today) && ValidMoment(stamped)
  {
    var data := ReadData(mode, fields);
    Conclude(Validate(mode, data), existing, today, stamped, data)
  }

  /** How Save ends once the checks have given `verdict` on `data`. */
  function Conclude(verdict: Verdict, existing: Option<string>, today: Date, stamped: Moment, data: Contents): SaveOutcome
    requires ValidDate(today) && ValidMoment(stamped)
  {
    match verdict
    case Rejected(message) => Warned(message)
    case Accepted => Written(DailyFileName(today), AppendEntry(existing, Fragment(TimeStamp(stamped), data)))
  }

  /** The save warns with a message exactly when the checks reject with it, and writes exactly when they accept. */
  lemma ConcludeFollowsVerdict(verdict: Verdict, existing: Option<string>, today: Date, stamped: Moment, data: Contents, message: string)
    requires ValidDate(today) && ValidMoment(stamped)
    ensures var o := Conclude(verdict, existing, today, stamped, data);
      && (o == Warned(message) <==> verdict == Rejected(message))
      && (o.Written? <==> verdict.Accepted?)
  {
  }

  /** A failed check ends Save with its warning. */
  lemma SaveWarned(mode: Mode, fields: Contents, existing: Option<string>, today: Date, stamped: Moment)
    requires Complete(fields) && ValidDate(today) && ValidMoment(stamped)
    requires Validate(mode, ReadData(mode, fields)).Rejected?
    ensures Save(mode, fields, existing, today, stamped) == Warned(Validate(mode, ReadData(mode, fields)).message)
  {
  }

  /** Save writes exactly when the checks pass, and then the merge of the day's file with the new entry. */
  lemma SaveWritten(mode: Mode, fields: Contents, existing: Option<string>, today: Date, stamped: Moment)
    requires Complete(fields) && ValidDate(today) && ValidMoment(stamped)
    requires Validate(mode, ReadData(mode, fields)) == Accepted
    ensures Save(mode, fields, existing, today, stamped)
      == Written(DailyFileName(today), AppendEntry(existing, Fragment(TimeStamp(stamped), ReadData(mode, fields))))
  {
  }

  /**
   * The warnings in terms of what the operator typed (see `Blank`: whitespace alone counts
   * as empty only in Main Issue and Action Taken), the first problem in the order
   * Main Issue, Action Taken, the rest being the one reported.
   */
  lemma SaveWarnings(mode: Mode, fields: Contents, existing: Option<string>, today: Date, stamped: Moment)
    requires Complete(fields) && ValidDate(today) && ValidMoment(stamped)
    ensures var o := Save(mode, fields, existing, today, stamped);
      && (o == Warned(MainIssueEmpty()) <==> AllSpace(fields[MainIssue]))
      && (o == Warned(ActionTakenEmpty()) <==> !AllSpace(fields[MainIssue]) && AllSpace(fields[ActionTaken]))
      && (o == Warned(SomeFieldsEmpty()) <==>
            !AllSpace(fields[MainIssue]) && !AllSpace(fields[ActionTaken])
            && exists f | f in RequiredFields(mode) :: Blank(fields, f))
      && (o.Written? <==> forall f | f in RequiredFields(mode) :: !Blank(fields, f))
  {
    ValidateFields(mode, fields);
    var data := ReadData(mode, fields);
    var verdict := Validate(mode, data);
    ConcludeFollowsVerdict(verdict, existing, today, stamped, data, MainIssueEmpty());
    ConcludeFollowsVerdict(verdict, existing, today, stamped, data, ActionTakenEmpty());
    ConcludeFollowsVerdict(verdict, existing, today, stamped, data, SomeFieldsEmpty());
    assert Blank(fields, MainIssue) == AllSpace(fields[MainIssue]);
    assert Blank(fields, ActionTaken) == AllSpace(fields[ActionTaken]);
  }

  /** A save that warns neither reads nor writes the file: the outcome is the same whatever is on disk. */
  lemma WarningIgnoresFile(mode: Mode, fields: Contents, existing: Option<string>, other: Option<string>, today: Date, stamped: Moment)
    requires Complete(fields) && ValidDate(today) && ValidMoment(stamped)
    requires Save(mode, fields, existing, today, stamped).Warned?
    ensures Save(mode, fields, other, today, stamped) == Save(mode, fields, existing, today, stamped)
  {
  }

  /**
   * A save into a log these saves wrote, whose entries hold no `</html>`, writes that log
   * with the new entry added after all the earlier ones, to the file named for `today`.
   */
  lemma SaveExtendsLog(mode: Mode, fields: Contents, frags: seq<string>, today: Date, stamped: Moment)
    requires Complete(fields) && ValidDate(today) && ValidMoment(stamped)
    requires forall i | 0 <= i < |frags| :: !Contains(frags[i], CloseHtml())
    requires Save(mode, fields, Some(Document(frags)), today, stamped).Written?
    ensures var data := ReadData(mode, fields);
      Save(mode, fields, Some(Document(frags)), today, stamped)
        == Written(DailyFileName(today), Document(frags + [Fragment(TimeStamp(stamped), data)]))
  {
    BodyFree(frags);
    AppendToDocument(frags, Fragment(TimeStamp(stamped), ReadData(mode, fields)));
  }

  /** The entry a save writes holds `</html>` only if the operator typed it into one of the written fields. */
  lemma SavedEntryFree(mode: Mode, fields: Contents, stamped: Moment)
    requires Complete(fields) && ValidMoment(stamped)
    requires forall f | f in RequiredFields(mode) :: !Contains(fields[f], CloseHtml())
    ensures !Contains(Fragment(TimeStamp(stamped), ReadData(mode, fields)), CloseHtml())
  {
    var data := ReadData(mode, fields);
    TimeStampFree(stamped);
    forall f | f in RequiredFields(mode) ensures !Contains(data[f], CloseHtml()) {
      if IsMultiLine(f) {
        StripKeepsOut(fields[f], CloseHtml());
      }
    }
    FragmentFree(TimeStamp(stamped), data);
  }

  /** The three checks of Save, each returning at once with its warning. */
  method CheckRequired(mode: Mode, data: Contents) returns (verdict: Verdict)
    requires forall f | f in RequiredFields(mode) :: f in data
    ensures verdict == Validate(mode, data)
  {
    if data[MainIssue] == "" {
      return Rejected(MainIssueEmpty());
    }
    if data[ActionTaken] == "" {
      return Rejected(ActionTakenEmpty());
    }
    var emptyFields := EmptyFields(data, RequiredFields(mode));
    if emptyFields != [] {
      return Rejected(SomeFieldsEmpty());
    }
    return Accepted;
  }

  /**
   * The text Save writes: the old file cut before its last `</body>` and then before the
   * last `</html>`, or a new header, followed by the entry, `<hr>` and the closing tags.
   */
  method MergeIntoFile(existing: Option<string>, logEntryHtml: string) returns (htmlContent: string)
    ensures htmlContent == AppendEntry(existing, logEntryHtml)
    ensures existing.Some? ==> StripClosing(existing.value) <= htmlContent
  {
    var existingContent: string;
    if existing.Some? {
      existingContent := existing.value;
      existingContent := BeforeLast(BeforeLast(existingContent, CloseBody()), CloseHtml());
    } else {
      existingContent := Header();
    }
    existingContent := existingContent + logEntryHtml + Separator();
    htmlContent := existingContent + Closing();
  }

  /** The file name and text of a save that passed the checks. */
  method WriteEntry(existing: Option<string>, today: Date, stamped: Moment, data: Contents) returns (outcome: SaveOutcome)
    requires ValidDate(today) && ValidMoment(stamped)
    ensures outcome == Written(DailyFileName(today), AppendEntry(existing, Fragment(TimeStamp(stamped), data)))
  {
    var filename := DailyFileName(today);
    var logEntryHtml := Fragment(TimeStamp(stamped), data);
    var htmlContent := MergeIntoFile(existing, logEntryHtml);
    outcome := Written(filename, htmlContent);
  }

  // ---------------------------------------------------------------- the window

  /**
   * The popup's Select button: the selected radio button's string, looked up again with
   * `options.index`. `choice` is `None` when the popup is closed instead.
   */
  method SelectRow(rows: seq<Record>, choice: Option<nat>) returns (row: Option<Record>)
    ensures row == Resolve(rows, choice)
  {
    row := None;
    if choice.Some? && choice.value < |rows| {
      var options := OptionLabels(rows);
      var chosen := options[choice.value];
      assert chosen in options;
      var selectedIndex := FirstIndex(options, chosen).value;
      row := Some(rows[selectedIndex]);
    }
  }

  class LogSelectorApp {
    /** The "Single logs" / "Multiple logs" radio buttons. */
    var selection: Mode
    /** What each widget of the form holds. */
    var fields: Contents
    /** The inventory loaded with "Insert DC Records", if any. */
    var excelData: Option<seq<Record>>

    ghost predicate Valid()
      reads this
    {
      Complete(fields)
    }

    /** A new window: single mode, every widget empty, no table. */
    constructor ()
      ensures Valid()
      ensures selection == Single && fields == BlankForm() && excelData == None
    {
      selection := Single;
      fields := BlankForm();
      excelData := None;
    }

    /** Choosing a radio button: `update_fields` only shows and hides widgets, whose contents stay. */
    method SelectMode(mode: Mode)
      requires Valid()
      modifies this
      ensures Valid()
      ensures selection == mode && fields == old(fields) && excelData == old(excelData)
    {
      selection := mode;
    }

    /** The operator replacing the text of one widget. */
    method Enter(f: Field, text: string)
      requires Valid()
      modifies this
      ensures Valid()
      ensures fields == old(fields)[f := text]
      ensures selection == old(selection) && excelData == old(excelData)
    {
      fields := fields[f := text];
    }

    /**
     * "Insert DC Records": `loaded` is the table read from the chosen workbook, or `None`
     * when the dialog is cancelled or reading fails, which keeps the table there was.
     */
    method LoadExcelData(loaded: Option<seq<Record>>)
      requires Valid()
      modifies this
      ensures Valid()
      ensures excelData == (if loaded.Some? then loaded else old(excelData))
      ensures selection == old(selection) && fields == old(fields)
    {
      if loaded.Some? {
        excelData := loaded;
      }
    }

    /** Writes one row's model, serial number, OEM and OS into their widgets. */
    method ApplyRow(row: Record)
      requires Valid()
      modifies this
      ensures Valid()
      ensures fields == Project(old(fields), row)
      ensures selection == old(selection) && excelData == old(excelData)
    {
      fields := fields[ModelType := row.modelType];
      fields := fields[SerialNumber := row.serialNumber];
      fields := fields[Oem := row.oem];
      fields := fields[Os := row.os];
    }

    /**
     * Leaving the Computer Name entry. Returns the popup shown, if any; `choice` is how
     * the operator leaves it (the option selected on Select, or `None` when it is closed).
     */
    method AutofillFields(choice: Option<nat>) returns (prompt: Option<Prompt>)
      requires Valid()
      modifies this
      ensures Valid()
      ensures prompt == PromptShown(excelData, old(fields)[ComputerName])
      ensures fields == AutofilledFields(excelData, old(fields), choice)
      ensures selection == old(selection) && excelData == old(excelData)
    {
      prompt := None;
      ghost var typed := fields[ComputerName];
      if excelData.None? {
        assert Lookup(excelData, typed) == NoCandidates;
        return;
      }
      var computerName := Strip(fields[ComputerName]);
      if computerName == [] {
        assert Lookup(excelData, typed) == NoCandidates;
        return;
      }
      var matchingRows := Matches(excelData.value, computerName);
      if matchingRows == [] {
        assert Lookup(excelData, typed) == NoCandidates;
        return;
      }
      if |matchingRows| > 1 {
        assert Lookup(excelData, typed) == MultipleCandidates(matchingRows);
        PromptOf(excelData, typed, matchingRows);
        prompt := Some(Prompt(OptionLabels(matchingRows), 0));
        var selected := SelectRow(matchingRows, choice);
        if selected.Some? {
          ApplyRowOf(excelData, fields, choice, selected.value);
          ApplyRow(selected.value);
        }
      } else {
        assert Lookup(excelData, typed) == SingleCandidate(matchingRows[0]);
        ApplyRowOf(excelData, fields, choice, matchingRows[0]);
        ApplyRow(matchingRows[0]);
      }
    }

    /** "Clear": empties every widget, entries and combo boxes from position 0, text boxes from `1.0`. */
    method ClearFields()
      requires Valid()
      modifies this
      ensures Valid()
      ensures fields == BlankForm()
      ensures selection == old(selection) && excelData == old(excelData)
    {
      var order := FieldOrder();
      var i := 0;
      while i < |order|
        invariant 0 <= i <= |order|
        invariant Complete(fields)
        invariant forall k | 0 <= k < i :: fields[order[k]] == ""
        invariant selection == old(selection) && excelData == old(excelData)
      {
        if IsMultiLine(order[i]) {
          // a text box: `delete('1.0', END)`
          fields := fields[order[i] := ""];
        } else {
          // an entry or combo box: `delete(0, END)`
          fields := fields[order[i] := ""];
        }
        i := i + 1;
      }
      forall f: Field ensures f in fields && fields[f] == "" {
        EveryField(f);
        var k :| 0 <= k < |order| && order[k] == f;
      }
    }

    /** "Do you want to add more?": the form is cleared on either answer. */
    method AskAddMore(answer: bool)
      requires Valid()
      modifies this
      ensures Valid()
      ensures fields == BlankForm()
      ensures selection == old(selection) && excelData == old(excelData)
    {
      if answer {
        ClearFields();
      } else {
        ClearFields();
      }
    }

    /**
     * "Save". `existing` is the day's file if there is one, `today` and `stamped` the two
     * readings of the clock, `addMore` the answer to the closing question. A warning leaves
     * the form as it was; a written file is followed by the question and a cleared form.
     */
    method SaveToHtml(existing: Option<string>, today: Date, stamped: Moment, addMore: bool) returns (outcome: SaveOutcome)
      requires Valid() && ValidDate(today) && ValidMoment(stamped)
      modifies this
      ensures Valid()
      ensures outcome == Save(selection, old(fields), existing, today, stamped)
      ensures outcome.Warned? ==> fields == old(fields)
      ensures outcome.Written? ==> fields == BlankForm()
      ensures selection == old(selection) && excelData == old(excelData)
    {
      var data := ReadData(selection, fields);
      var verdict := CheckRequired(selection, data);
      if verdict.Rejected? {
        SaveWarned(selection, fields, existing, today, stamped);
        return Warned(verdict.message);
      }
      SaveWritten(selection, fields, existing, today, stamped);
      outcome := WriteEntry(existing, today, stamped, data);
      AskAddMore(addMore);
    }
  }
}
