/**
 * Auto-fill on leaving the Computer Name entry: what the form holds afterwards, for
 * each outcome of the lookup and, when several rows match, for each way the popup is left.
 */
module Autofill {
  import opened Wrappers
  import opened Text
  import opened Form
  import opened Inventory

  /** The four widgets auto-fill writes. */
  predicate IsComputerDetail(f: Field) {
    f == ModelType || f == SerialNumber || f == Oem || f == Os
  }

  /** The form after one row has been applied: its model, serial number, OEM and OS, and nothing else. */
  function Project(fields: Contents, row: Record): (r: Contents)
    requires Complete(fields)
    ensures Complete(r)
    ensures r[ModelType] == row.modelType && r[SerialNumber] == row.serialNumber
    ensures r[Oem] == row.oem && r[Os] == row.os
    ensures forall f | f in fields && !IsComputerDetail(f) :: r[f] == fields[f]
  {
    fields[ModelType := row.modelType][SerialNumber := row.serialNumber][Oem := row.oem][Os := row.os]
  }

  /** The popup `autofill_fields` opens, if any: only when two or more rows match. */
  function PromptShown(table: Option<seq<Record>>, typedName: string): (pr: Option<Prompt>)
    ensures pr.Some? <==> Lookup(table, typedName).MultipleCandidates?
  {
    match Lookup(table, typedName)
    case MultipleCandidates(rows) => Some(PromptFor(rows))
    case _ => None
  }

  /**
   * The row auto-fill applies, if any. `choice` is how the popup is left when one is shown:
   * the option selected when Select is pressed, or `None` when it is closed.
   */
  function AppliedRow(table: Option<seq<Record>>, typedName: string, choice: Option<nat>): Option<Record> {
    match Lookup(table, typedName)
    case NoCandidates => None
    case SingleCandidate(row) => Some(row)
    case MultipleCandidates(rows) => Resolve(rows, choice)
  }

  /** The form after auto-fill: the applied row's details, or the form unchanged. */
  function AutofilledFields(table: Option<seq<Record>>, fields: Contents, choice: Option<nat>): (r: Contents)
    requires Complete(fields)
    ensures Complete(r)
  {
    match AppliedRow(table, fields[ComputerName], choice)
    case None => fields
    case Some(row) => Project(fields, row)
  }

  /** The row auto-fill applies, if any, is a row of the table holding the stripped name. */
  lemma AppliedRowMatches(table: Option<seq<Record>>, typedName: string, choice: Option<nat>)
    ensures var r := AppliedRow(table, typedName, choice);
      r.Some? ==> table.Some? && r.value in table.value && r.value.computerName == Strip(typedName)
  {
    if table.Some? {
      MatchesAreTableRows(table.value, Strip(typedName));
    }
  }

  /** Applying a row is the same whichever lookup outcome produced it. */
  lemma ApplyRowOf(table: Option<seq<Record>>, fields: Contents, choice: Option<nat>, row: Record)
    requires Complete(fields)
    requires AppliedRow(table, fields[ComputerName], choice) == Some(row)
    ensures AutofilledFields(table, fields, choice) == Project(fields, row)
  {
  }

  /** The popup shown for a lookup with several candidates. */
  lemma PromptOf(table: Option<seq<Record>>, typedName: string, rows: seq<Record>)
    requires Lookup(table, typedName) == MultipleCandidates(rows)
    ensures PromptShown(table, typedName) == Some(PromptFor(rows))
  {
  }

  // ---------------------------------------------------------------- the lookup

  lemma {:induction false} NoMatchingRow(table: seq<Record>, key: string)
    requires forall j | 0 <= j < |table| :: table[j].computerName != key
    ensures MatchPositions(table, key) == []
  {
    if table != [] {
      NoMatchingRow(table[..|table| - 1], key);
    }
  }

  /** A name held by exactly one row finds exactly that row. */
  lemma {:induction false} OnlyMatchingRow(table: seq<Record>, key: string, k: nat)
    requires k < |table| && table[k].computerName == key
    requires forall j | 0 <= j < |table| && j != k :: table[j].computerName != key
    ensures MatchPositions(table, key) == [k]
    ensures Matches(table, key) == [table[k]]
  {
    var n := |table| - 1;
    var init := table[..n];
    if n == k {
      NoMatchingRow(init, key);
    } else {
      OnlyMatchingRow(init, key, k);
    }
  }

  lemma UniqueLookup(table: seq<Record>, typedName: string, k: nat)
    requires Strip(typedName) != []
    requires k < |table| && table[k].computerName == Strip(typedName)
    requires forall j | 0 <= j < |table| && j != k :: table[j].computerName != Strip(typedName)
    ensures Lookup(Some(table), typedName) == SingleCandidate(table[k])
  {
    OnlyMatchingRow(table, Strip(typedName), k);
  }

  lemma FillFromSingle(table: seq<Record>, fields: Contents, choice: Option<nat>, row: Record)
    requires Complete(fields)
    requires Lookup(Some(table), fields[ComputerName]) == SingleCandidate(row)
    ensures AutofilledFields(Some(table), fields, choice) == Project(fields, row)
    ensures PromptShown(Some(table), fields[ComputerName]) == None
  {
    assert AppliedRow(Some(table), fields[ComputerName], choice) == Some(row);
    ApplyRowOf(Some(table), fields, choice, row);
  }

  // ---------------------------------------------------------------- what auto-fill does

  /** Auto-fill never touches Reference Number, Main Issue, Action Taken, PC#, Role or the Computer Name itself. */
  lemma OnlyDetailsChange(table: Option<seq<Record>>, fields: Contents, choice: Option<nat>, f: Field)
    requires Complete(fields) && !IsComputerDetail(f)
    ensures AutofilledFields(table, fields, choice)[f] == fields[f]
  {
  }

  /** No table, a blank name, or a name no row has: no popup and no change. */
  lemma NothingToFill(table: Option<seq<Record>>, fields: Contents, choice: Option<nat>)
    requires Complete(fields)
    requires table.None? || Strip(fields[ComputerName]) == []
      || Matches(table.value, Strip(fields[ComputerName])) == []
    ensures AutofilledFields(table, fields, choice) == fields
    ensures PromptShown(table, fields[ComputerName]) == None
  {
  }

  /**
   * A name (after stripping) that exactly one row has fills the four details from that row,
   * with no popup, whatever `choice` is.
   */
  lemma SingleMatchFills(table: seq<Record>, fields: Contents, choice: Option<nat>, k: nat)
    requires Complete(fields)
    requires Strip(fields[ComputerName]) != []
    requires k < |table| && table[k].computerName == Strip(fields[ComputerName])
    requires forall j | 0 <= j < |table| && j != k :: table[j].computerName != Strip(fields[ComputerName])
    ensures AutofilledFields(Some(table), fields, choice) == Project(fields, table[k])
    ensures PromptShown(Some(table), fields[ComputerName]) == None
  {
    UniqueLookup(table, fields[ComputerName], k);
    FillFromSingle(table, fields, choice, table[k]);
  }

  /**
   * Several matching rows open the popup: one option per matching row, in table order,
   * the first one preselected.
   */
  lemma DuplicatesOpenPrompt(table: seq<Record>, typedName: string)
    requires Strip(typedName) != []
    requires |Matches(table, Strip(typedName))| >= 2
    ensures PromptShown(Some(table), typedName).Some?
    ensures var pr := PromptShown(Some(table), typedName).value;
      var p := MatchPositions(table, Strip(typedName));
      && pr.preselected == 0
      && |pr.options| == |p|
      && (forall i | 0 <= i < |p| :: pr.options[i] == OptionLabel(table[p[i]]))
  {
  }

  /** Closing the popup without pressing Select leaves the form as it was. */
  lemma ClosingPromptChangesNothing(table: Option<seq<Record>>, fields: Contents)
    requires Complete(fields)
    requires Lookup(table, fields[ComputerName]).MultipleCandidates?
    ensures AutofilledFields(table, fields, None) == fields
  {
  }

  /** `options.index(options[i])` picks the first row whose label equals row `i`'s. */
  lemma ResolveFirstEqual(rows: seq<Record>, i: nat) returns (j: nat)
    requires i < |rows|
    ensures j <= i && OptionLabel(rows[j]) == OptionLabel(rows[i])
    ensures forall l | 0 <= l < j :: OptionLabel(rows[l]) != OptionLabel(rows[i])
    ensures Resolve(rows, Some(i)) == Some(rows[j])
  {
    var options := OptionLabels(rows);
    assert options[i] in options;
    j := FirstIndex(options, options[i]).value;
    assert options[j] == OptionLabel(rows[j]);
    assert forall l | 0 <= l < j :: options[l] == OptionLabel(rows[l]);
  }

  lemma FillFromChoice(table: Option<seq<Record>>, fields: Contents, choice: Option<nat>, row: Record)
    requires Complete(fields)
    requires Lookup(table, fields[ComputerName]).MultipleCandidates?
    requires Resolve(Lookup(table, fields[ComputerName]).rows, choice) == Some(row)
    ensures AutofilledFields(table, fields, choice) == Project(fields, row)
  {
    ApplyRowOf(table, fields, choice, row);
  }

  /**
   * Select applies the earliest matching row whose option text equals the selected one:
   * `options.index` finds the first equal string, not necessarily the button pressed.
   */
  lemma SelectAppliesFirstEqualLabel(table: Option<seq<Record>>, fields: Contents, i: nat) returns (j: nat)
    requires Complete(fields)
    requires Lookup(table, fields[ComputerName]).MultipleCandidates?
    requires i < |Lookup(table, fields[ComputerName]).rows|
    ensures var rows := Lookup(table, fields[ComputerName]).rows;
      && j <= i
      && OptionLabel(rows[j]) == OptionLabel(rows[i])
      && (forall l | 0 <= l < j :: OptionLabel(rows[l]) != OptionLabel(rows[i]))
      && AutofilledFields(table, fields, Some(i)) == Project(fields, rows[j])
  {
    var rows := Lookup(table, fields[ComputerName]).rows;
    j := ResolveFirstEqual(rows, i);
    FillFromChoice(table, fields, Some(i), rows[j]);
  }

  /** When the options all read differently, Select applies exactly the row selected. */
  lemma DistinctLabelsSelectChosenRow(table: Option<seq<Record>>, fields: Contents, i: nat)
    requires Complete(fields)
    requires Lookup(table, fields[ComputerName]).MultipleCandidates?
    requires i < |Lookup(table, fields[ComputerName]).rows|
    requires var rows := Lookup(table, fields[ComputerName]).rows;
      forall a, b | 0 <= a < b < |rows| :: OptionLabel(rows[a]) != OptionLabel(rows[b])
    ensures AutofilledFields(table, fields, Some(i)) == Project(fields, Lookup(table, fields[ComputerName]).rows[i])
  {
    var j := SelectAppliesFirstEqualLabel(table, fields, i);
  }

  lemma ProjectTwice(fields: Contents, row: Record)
    requires Complete(fields)
    ensures Project(Project(fields, row), row) == Project(fields, row)
  {
  }

  /** Once a row has been applied, the lookup still finds it and applying it again changes nothing. */
  lemma RowAppliedTwice(table: Option<seq<Record>>, fields: Contents, choice: Option<nat>, row: Record)
    requires Complete(fields)
    requires AppliedRow(table, fields[ComputerName], choice) == Some(row)
    ensures AutofilledFields(table, Project(fields, row), choice) == Project(fields, row)
  {
    var once := Project(fields, row);
    assert once[ComputerName] == fields[ComputerName];
    ApplyRowOf(table, once, choice, row);
    ProjectTwice(fields, row);
  }

  /**
   * Auto-fill run a second time (leaving the entry again, the popup left the same way)
   * changes nothing more: it never alters the Computer Name it looks up.
   */
  lemma AutofillIdempotent(table: Option<seq<Record>>, fields: Contents, choice: Option<nat>)
    requires Complete(fields)
    ensures var once := AutofilledFields(table, fields, choice);
      AutofilledFields(table, once, choice) == once
  {
    match AppliedRow(table, fields[ComputerName], choice)
    case None =>
    case Some(row) =>
      ApplyRowOf(table, fields, choice, row);
      RowAppliedTwice(table, fields, choice, row);
  }
}
