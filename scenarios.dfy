/**
 * Auto-fill on two small inventories: one where the popup options tell the rows apart,
 * and one where two rows give the same option text.
 */
module AutofillScenarios {
  import opened Wrappers
  import opened Text
  import opened Form
  import opened Inventory
  import opened Autofill

  function Dell(): Record { Record("PC1", "Dell", "S1", "Dell", "Win10", "alice", "10.0.0.1") }
  function Hp(): Record { Record("PC1", "HP", "S2", "HP", "Win11", "bob", "10.0.0.2") }

  lemma PaddedNameStrips()
    ensures Strip(" PC1\n") == "PC1"
  {
    StripUnique(" ", "PC1", "\n");
    assert " " + "PC1" + "\n" == " PC1\n";
  }

  /** Two rows holding the same name both match it, in order. */
  lemma TwoRowsMatch(a: Record, b: Record, key: string)
    requires a.computerName == key && b.computerName == key
    ensures Matches([a, b], key) == [a, b]
  {
    assert [a, b][..1] == [a];
    assert [a][..0] == [];
    assert MatchPositions([a], key) == [0];
    assert MatchPositions([a, b], key) == [0, 1];
  }

  /** Two rows for one name: the lookup finds both. */
  lemma TwoRowsLookup(a: Record, b: Record, typedName: string)
    requires Strip(typedName) != []
    requires a.computerName == Strip(typedName) && b.computerName == Strip(typedName)
    ensures Lookup(Some([a, b]), typedName) == MultipleCandidates([a, b])
  {
    TwoRowsMatch(a, b, Strip(typedName));
  }

  lemma PromptForTwo(a: Record, b: Record)
    ensures PromptFor([a, b]) == Prompt([OptionLabel(a), OptionLabel(b)], 0)
  {
  }

  /** Two rows for one name: the popup opens with both options, the first preselected. */
  lemma TwoRowsPrompt(a: Record, b: Record, typedName: string)
    requires Strip(typedName) != []
    requires a.computerName == Strip(typedName) && b.computerName == Strip(typedName)
    ensures Lookup(Some([a, b]), typedName) == MultipleCandidates([a, b])
    ensures PromptShown(Some([a, b]), typedName) == Some(Prompt([OptionLabel(a), OptionLabel(b)], 0))
  {
    TwoRowsLookup(a, b, typedName);
    PromptOf(Some([a, b]), typedName, [a, b]);
    PromptForTwo(a, b);
  }

  /** Two rows for one name whose options read differently: selecting the second applies the second. */
  lemma SecondOfTwo(a: Record, b: Record, fields: Contents)
    requires Complete(fields) && Strip(fields[ComputerName]) != []
    requires a.computerName == Strip(fields[ComputerName]) && b.computerName == Strip(fields[ComputerName])
    requires OptionLabel(a) != OptionLabel(b)
    ensures AutofilledFields(Some([a, b]), fields, Some(1)) == Project(fields, b)
  {
    TwoRowsPrompt(a, b, fields[ComputerName]);
    var j := ResolveFirstEqual([a, b], 1);
    assert AppliedRow(Some([a, b]), fields[ComputerName], Some(1)) == Some(b);
    ApplyRowOf(Some([a, b]), fields, Some(1), b);
  }

  /** Two rows for `PC1`; selecting the second option fills in the HP row's details. */
  lemma SecondOptionFillsSecondRow(fields: Contents)
    requires Complete(fields) && fields[ComputerName] == " PC1\n"
    ensures PromptShown(Some([Dell(), Hp()]), fields[ComputerName]) == Some(Prompt([OptionLabel(Dell()), OptionLabel(Hp())], 0))
    ensures var r := AutofilledFields(Some([Dell(), Hp()]), fields, Some(1));
      r[ModelType] == "HP" && r[SerialNumber] == "S2" && r[Oem] == "HP" && r[Os] == "Win11"
  {
    PaddedNameStrips();
    assert OptionLabel(Dell())[0] == 'D' && OptionLabel(Hp())[0] == 'H';
    TwoRowsPrompt(Dell(), Hp(), fields[ComputerName]);
    SecondOfTwo(Dell(), Hp(), fields);
  }

  function DellOem(): Record { Record("PC2", "T14", "S3", "Dell", "Win10", "carol", "10.0.0.3") }
  function LenovoOem(): Record { Record("PC2", "T14", "S3", "Lenovo", "Win11", "carol", "10.0.0.3") }

  /**
   * Two rows for `PC2` that differ only in OEM and OS give two identical options, and
   * Select applies the first row even when the second option is the one selected.
   */
  lemma IdenticalOptionsApplyFirstRow(fields: Contents)
    requires Complete(fields) && fields[ComputerName] == "PC2"
    ensures var r := AutofilledFields(Some([DellOem(), LenovoOem()]), fields, Some(1));
      r[Oem] == "Dell" && r[Os] == "Win10"
  {
    StripUnique("", "PC2", "");
    assert "" + "PC2" + "" == "PC2";
    TwoRowsMatch(DellOem(), LenovoOem(), "PC2");
    var rows := [DellOem(), LenovoOem()];
    assert Lookup(Some(rows), fields[ComputerName]) == MultipleCandidates(rows);
    var j := ResolveFirstEqual(rows, 1);
    assert j == 0;
    FillFromChoice(Some(rows), fields, Some(1), DellOem());
  }
}
