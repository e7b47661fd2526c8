/**
 * The imported inventory table and the lookup behind auto-fill: exact matching on
 * `Computer Name` in row order, the display strings of the duplicate-record popup,
 * and the popup's way of turning the selected string back into a row.
 */
module Inventory {
  import opened Wrappers
  import opened Text

  /** One spreadsheet row; only these columns are read by the form. */
  datatype Record = Record(
    computerName: string,  // "Computer Name", the lookup key
    modelType: string,     // "Computer Model/Type"
    serialNumber: string,  // "Computer Serial Number"
    oem: string,           // "Computer OEM"
    os: string,            // "Computer OS"
    currentUser: string,   // "Current Logged User", shown in the popup only
    ipAddress: string      // "IP Address", shown in the popup only
  )

  /**
   * The row numbers whose `Computer Name` equals `key` (case-sensitive), ascending:
   * the positions kept by the boolean mask `excel_data['Computer Name'] == key`.
   */
  function MatchPositions(table: seq<Record>, key: string): (p: seq<nat>)
    ensures forall i | 0 <= i < |p| :: p[i] < |table| && table[p[i]].computerName == key
    ensures forall i, j | 0 <= i < j < |p| :: p[i] < p[j]
    ensures forall k | 0 <= k < |table| && table[k].computerName == key :: k in p
  {
    if table == [] then []
    else
      var n := |table| - 1;
      var q := MatchPositions(table[..n], key);
      if table[n].computerName == key then q + [n] else q
  }

  /** The matching rows, in table order. */
  function Matches(table: seq<Record>, key: string): (m: seq<Record>)
    ensures |m| == |MatchPositions(table, key)|
    ensures forall i | 0 <= i < |m| :: m[i].computerName == key
  {
    var p := MatchPositions(table, key);
    seq(|p|, i requires 0 <= i < |p| => table[p[i]])
  }

  /** Row `i` of the matches is the table row at the `i`th matching position. */
  lemma MatchesAt(table: seq<Record>, key: string)
    ensures var m := Matches(table, key);
      var p := MatchPositions(table, key);
      forall i | 0 <= i < |m| :: m[i] == table[p[i]]
  {
  }

  /** A row of the table holding the key is one of the matches, and every match is a row of the table. */
  lemma MatchesAreTableRows(table: seq<Record>, key: string)
    ensures forall r | r in Matches(table, key) :: r in table && r.computerName == key
    ensures forall k | 0 <= k < |table| && table[k].computerName == key :: table[k] in Matches(table, key)
  {
    var m := Matches(table, key);
    var p := MatchPositions(table, key);
    MatchesAt(table, key);
    forall r | r in m ensures r in table {
      var i :| 0 <= i < |m| && m[i] == r;
      assert table[p[i]] == r;
    }
    forall k | 0 <= k < |table| && table[k].computerName == key ensures table[k] in m {
      var i :| 0 <= i < |p| && p[i] == k;
      assert m[i] == table[k];
    }
  }

  /** The popup's text for one candidate row. */
  function OptionLabel(r: Record): string {
    r.modelType + " (Serial: " + r.serialNumber + ", User: " + r.currentUser + ", IP: " + r.ipAddress + ")"
  }

  function OptionLabels(rows: seq<Record>): seq<string> {
    seq(|rows|, i requires 0 <= i < |rows| => OptionLabel(rows[i]))
  }

  /** Python's `s.index(x)`: the first position holding `x`; `None` where Python raises `ValueError`. */
  function FirstIndex(s: seq<string>, x: string): (r: Option<nat>)
    ensures r.Some? <==> x in s
    ensures r.Some? ==> r.value < |s| && s[r.value] == x && forall j | 0 <= j < r.value :: s[j] != x
  {
    if s == [] then None
    else if s[0] == x then Some(0)
    else match FirstIndex(s[1..], x)
      case None => None
      case Some(j) => Some(j + 1)
  }

  /** How many rows a lookup found, and which. */
  datatype Candidates = NoCandidates | SingleCandidate(row: Record) | MultipleCandidates(rows: seq<Record>)

  /** The radio-button popup offered for duplicates: one string per row and the preselected one. */
  datatype Prompt = Prompt(options: seq<string>, preselected: nat)

  /**
   * The lookup of `autofill_fields`: nothing without a table or with a blank
   * (after stripping) computer name, otherwise the rows matching the stripped name.
   */
  function Lookup(table: Option<seq<Record>>, typedName: string): (c: Candidates)
    ensures c.NoCandidates? <==>
      table.None? || Strip(typedName) == [] || Matches(table.value, Strip(typedName)) == []
    ensures c.SingleCandidate? <==>
      table.Some? && Strip(typedName) != [] && |Matches(table.value, Strip(typedName))| == 1
    ensures c.SingleCandidate? ==> c.row == Matches(table.value, Strip(typedName))[0]
    ensures c.MultipleCandidates? ==>
      |c.rows| >= 2 && c.rows == Matches(table.value, Strip(typedName))
  {
    if table.None? then NoCandidates
    else
      var name := Strip(typedName);
      if name == [] then NoCandidates
      else
        var m := Matches(table.value, name);
        if m == [] then NoCandidates
        else if |m| > 1 then MultipleCandidates(m)
        else SingleCandidate(m[0])
  }

  /** The popup shown for several candidates: their labels in order, the first preselected. */
  function PromptFor(rows: seq<Record>): (pr: Prompt)
    ensures |pr.options| == |rows| && pr.preselected == 0
    ensures forall i | 0 <= i < |rows| :: pr.options[i] == OptionLabel(rows[i])
  {
    Prompt(OptionLabels(rows), 0)
  }

  /**
   * The row applied by the popup. `choice` is the radio button selected when Select is
   * pressed, or `None` when the popup is closed without it. Select looks the chosen string
   * up with `options.index`, so the earliest row with the same label is the one used.
   */
  function Resolve(rows: seq<Record>, choice: Option<nat>): (r: Option<Record>)
    ensures r.Some? <==> choice.Some? && choice.value < |rows|
    ensures r.Some? ==> r.value in rows
  {
    match choice
    case None => None
    case Some(i) =>
      if i < |rows| then
        var options := OptionLabels(rows);
        assert options[i] in options;
        match FirstIndex(options, options[i])
        case Some(j) => Some(rows[j])
        case None => None
      else None
  }
}
