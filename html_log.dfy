/**
 * The daily HTML log: the file name for a date, the page header, the `<div>` written
 * for one entry, and the merge that turns the previous file (if any) into the next one.
 *
 * A log written only by these operations is `Document(frags)`: the header, then each
 * entry followed by `<hr>`, then `</body></html>`. Appending to such a log gives the log
 * with one more entry as long as no earlier entry contains `</html>`; an entry that does
 * contain it makes the next save cut the file back to just before it.
 */
module HtmlLog {
  import opened Wrappers
  import opened Text
  import opened Form

  function CloseBody(): string { "</body>" }
  function CloseHtml(): string { "</html>" }
  function Separator(): string { "<hr>" }
  function Closing(): string { CloseBody() + CloseHtml() }

  // ---------------------------------------------------------------- the page header

  // The templates' indentation, which is part of the text written.
  function Indent8(): string { "        " }
  function Indent12(): string { "            " }
  function Indent16(): string { "                " }
  function Indent20(): string { "                    " }

  function HeaderOpen(): string { "\n" + Indent12() + "<html>\n" + Indent12() + "<head>\n" }
  function HeaderTitle(): string { Indent16() + "<title>Daily Close Logs</title>\n" }
  function StyleOpen(): string { Indent16() + "<style>\n" }
  function StyleBody(): string { Indent20() + "body { font-family: Calibri, " + "sans-serif; margin: 20px; }\n" }
  function StyleEntryBox(): string { Indent20() + ".log-entry { margin-bottom: 20px; " + "padding: 10px; " }
  function StyleEntryLook(): string {
    "border: 1px solid #ccc; " + "border-radius: 5px; " + "background-color: #f9f9f9; }\n"
  }
  function StyleEntry(): string { StyleEntryBox() + StyleEntryLook() }
  function StyleMainIssue(): string { Indent20() + ".main-issue { " + "white-space: pre-wrap; }\n" }
  function StyleActionTaken(): string { Indent20() + ".action-taken { " + "white-space: pre-wrap; }\n" }
  function HeaderStyle(): string { StyleOpen() + StyleBody() + StyleEntry() + StyleMainIssue() + StyleActionTaken() }
  function HeaderClose(): string { Indent16() + "</style>\n" + Indent12() + "</head>\n" }
  function HeaderBody(): string { Indent12() + "<body>\n" + Indent8() }

  /** What a new day's file starts with. */
  function Header(): string { HeaderOpen() + HeaderTitle() + HeaderStyle() + HeaderClose() + HeaderBody() }

  // ---------------------------------------------------------------- one entry

  function EntryOpen(): string { "\n" + Indent12() + "<div class=\"log-entry\">\n" + Indent16() + "<p>" }
  function MainIssueLead(): string {
    "</p>\n" + Indent16() + "<p class=\"main-issue\">" + "<b>Main Issue:</b><br> "
  }
  function ActionTakenLead(): string {
    "</p>\n" + Indent16() + "<p class=\"action-taken\">" + "<b>Action Taken:</b><br> "
  }
  function ComputerNameLead(): string { "</p>\n" + Indent16() + "<b>Computer Name:</b> " }
  function ModelTypeLead(): string { "<br>\n" + Indent16() + "<b>Computer Model/Type:</b> " }
  function SerialNumberLead(): string { "<br>\n" + Indent16() + "<b>Computer Serial Number:</b> " }
  function OemLead(): string { "<br>\n" + Indent16() + "<b>Computer OEM:</b> " }
  function OsLead(): string { "<br>\n" + Indent16() + "<b>Computer OS:</b> " }
  function EntryClose(): string { "<br>\n" + Indent12() + "</div>\n" + Indent8() }

  /**
   * The `<div class="log-entry">` for one save: the timestamp, Main Issue and Action Taken
   * with newlines as `<br>`, and the five computer fields as typed (nothing is escaped).
   * Reference Number, PC# and Role are not written.
   */
  function Fragment(timestamp: string, data: Contents): string {
    EntryOpen() + timestamp
    + MainIssueLead() + ReplaceNewlines(Get(data, MainIssue))
    + ActionTakenLead() + ReplaceNewlines(Get(data, ActionTaken))
    + ComputerNameLead() + Get(data, ComputerName)
    + ModelTypeLead() + Get(data, ModelType)
    + SerialNumberLead() + Get(data, SerialNumber)
    + OemLead() + Get(data, Oem)
    + OsLead() + Get(data, Os)
    + EntryClose()
  }

  /** Reference Number, PC# and Role do not reach the log: the entry is the same whatever they hold. */
  lemma FragmentIgnoresUnwritten(timestamp: string, data: Contents, reference: string, pc: string, role: string)
    ensures Fragment(timestamp, data) == Fragment(timestamp, data[ReferenceNumber := reference][PcNumber := pc][Role := role])
  {
    var other := data[ReferenceNumber := reference][PcNumber := pc][Role := role];
    assert Get(other, MainIssue) == Get(data, MainIssue);
    assert Get(other, ActionTaken) == Get(data, ActionTaken);
    assert Get(other, ComputerName) == Get(data, ComputerName);
    assert Get(other, ModelType) == Get(data, ModelType);
    assert Get(other, SerialNumber) == Get(data, SerialNumber);
    assert Get(other, Oem) == Get(data, Oem);
    assert Get(other, Os) == Get(data, Os);
  }

  // ---------------------------------------------------------------- merging into the file

  /** `content.rsplit("</body>", 1)[0].rsplit("</html>", 1)[0]`: the old file without its closing tags. */
  function StripClosing(content: string): (kept: string)
    ensures kept <= content
  {
    BeforeLast(BeforeLast(content, CloseBody()), CloseHtml())
  }

  /** `existing_content` before the entry is added: the old file without its closing tags, or a new header. */
  function Kept(existing: Option<string>): (kept: string)
    ensures existing.Some? ==> kept <= existing.value && kept == StripClosing(existing.value)
    ensures existing.None? ==> kept == Header()
  {
    match existing
    case Some(previous) => StripClosing(previous)
    case None => Header()
  }

  /** The file as written: the kept text, then the entry, `<hr>` and the closing tags, each where it belongs. */
  function Assemble(kept: string, fragment: string): (content: string)
    ensures |content| == |kept| + |fragment| + |Separator()| + |Closing()|
    ensures content[..|kept|] == kept
    ensures content[|kept|..|kept| + |fragment|] == fragment
    ensures content[|kept| + |fragment|..|content| - |Closing()|] == Separator()
    ensures content[|content| - |Closing()|..] == Closing()
  {
    Layout(kept, fragment, Separator(), Closing());
    kept + fragment + Separator() + Closing()
  }

  /** The text written by a save, given the file already there, if any. */
  function AppendEntry(existing: Option<string>, fragment: string): string {
    Assemble(Kept(existing), fragment)
  }

  /** Where the four parts of a written file lie. */
  lemma Layout(kept: string, fragment: string, sep: string, closing: string)
    ensures var c := kept + fragment + sep + closing;
      && |c| == |kept| + |fragment| + |sep| + |closing|
      && c[..|kept|] == kept
      && c[|kept|..|kept| + |fragment|] == fragment
      && c[|kept| + |fragment|..|c| - |closing|] == sep
      && c[|c| - |closing|..] == closing
  {
    var c := kept + fragment + sep + closing;
    assert c == kept + (fragment + (sep + closing));
  }

  /** The entries of a log, each followed by `<hr>`, in the order they were saved. */
  function Entries(frags: seq<string>): string {
    if frags == [] then ""
    else Entries(frags[..|frags| - 1]) + frags[|frags| - 1] + Separator()
  }

  function Body(frags: seq<string>): string {
    Header() + Entries(frags)
  }

  /** The log after saving `frags` in turn, as it would read if every save appended intact. */
  function Document(frags: seq<string>): string {
    Body(frags) + Closing()
  }

  /** The file after saving each of `frags` in turn on one day, starting without a file. */
  function FileAfter(frags: seq<string>): Option<string>
  {
    if frags == [] then None
    else Some(AppendEntry(FileAfter(frags[..|frags| - 1]), frags[|frags| - 1]))
  }

  // ---------------------------------------------------------------- the daily file name

  /** A calendar date: the year and month in the ranges of `datetime`, the day in 1..31, not checked against the month. */
  datatype Date = Date(year: int, month: int, day: int)

  predicate ValidDate(d: Date) {
    1 <= d.year <= 9999 && 1 <= d.month <= 12 && 1 <= d.day <= 31
  }

  function Digit(n: int): char
    requires 0 <= n < 10
  {
    (48 + n) as char
  }

  predicate IsDigit(c: char) {
    '0' <= c <= '9'
  }

  function DigitValue(c: char): int {
    c as int - 48
  }

  function Pad2(n: int): string
    requires 0 <= n < 100
  {
    [Digit(n / 10), Digit(n % 10)]
  }

  function Pad4(n: int): string
    requires 0 <= n < 10000
  {
    Pad2(n / 100) + Pad2(n % 100)
  }

  function DailySuffix(): string { "_SCTASK_Daily_close.html" }

  /** `f"{now:%m-%d-%Y}_SCTASK_Daily_close.html"`. */
  function DailyFileName(d: Date): (name: string)
    requires ValidDate(d)
    ensures |name| == 10 + |DailySuffix()| && name[10..] == DailySuffix()
    ensures name[2] == '-' && name[5] == '-'
    ensures forall k | k in {0, 1, 3, 4, 6, 7, 8, 9} :: IsDigit(name[k])
  {
    Pad2(d.month) + "-" + Pad2(d.day) + "-" + Pad4(d.year) + DailySuffix()
  }

  /** Reads the date back from a daily file name. */
  function ParseDailyFileName(name: string): Option<Date> {
    if |name| == 10 + |DailySuffix()| && name[10..] == DailySuffix() && name[2] == '-' && name[5] == '-'
       && forall k | k in {0, 1, 3, 4, 6, 7, 8, 9} :: IsDigit(name[k])
    then
      var d := Date(
        1000 * DigitValue(name[6]) + 100 * DigitValue(name[7]) + 10 * DigitValue(name[8]) + DigitValue(name[9]),
        10 * DigitValue(name[0]) + DigitValue(name[1]),
        10 * DigitValue(name[3]) + DigitValue(name[4]));
      if ValidDate(d) then Some(d) else None
    else None
  }

  // ---------------------------------------------------------------- the file name identifies the day

  lemma Pad2Reads(n: int)
    requires 0 <= n < 100
    ensures IsDigit(Pad2(n)[0]) && IsDigit(Pad2(n)[1])
    ensures 10 * DigitValue(Pad2(n)[0]) + DigitValue(Pad2(n)[1]) == n
  {
  }

  lemma Pad4Reads(n: int)
    requires 0 <= n < 10000
    ensures forall k | 0 <= k < 4 :: IsDigit(Pad4(n)[k])
    ensures 1000 * DigitValue(Pad4(n)[0]) + 100 * DigitValue(Pad4(n)[1])
      + 10 * DigitValue(Pad4(n)[2]) + DigitValue(Pad4(n)[3]) == n
  {
    Pad2Reads(n / 100);
    Pad2Reads(n % 100);
  }

  /** Where each padded number sits in the daily file name. */
  lemma FileNameLayout(d: Date)
    requires ValidDate(d)
    ensures var name := DailyFileName(d);
      && name[0] == Pad2(d.month)[0] && name[1] == Pad2(d.month)[1]
      && name[3] == Pad2(d.day)[0] && name[4] == Pad2(d.day)[1]
      && name[6] == Pad4(d.year)[0] && name[7] == Pad4(d.year)[1]
      && name[8] == Pad4(d.year)[2] && name[9] == Pad4(d.year)[3]
  {
  }

  lemma FileNameRoundTrip(d: Date)
    requires ValidDate(d)
    ensures ParseDailyFileName(DailyFileName(d)) == Some(d)
  {
    FileNameLayout(d);
    Pad2Reads(d.month);
    Pad2Reads(d.day);
    Pad4Reads(d.year);
  }

  /** One file per calendar day: two dates share a file name exactly when they are the same date. */
  lemma FileNamePerDay(d1: Date, d2: Date)
    requires ValidDate(d1) && ValidDate(d2)
    ensures DailyFileName(d1) == DailyFileName(d2) <==> d1 == d2
  {
    FileNameRoundTrip(d1);
    FileNameRoundTrip(d2);
  }

  // ---------------------------------------------------------------- where `</html>` can occur

  /** An entry none of whose written values contains `</html>`. */
  predicate EntryFree(timestamp: string, data: Contents) {
    && !Contains(timestamp, CloseHtml())
    && !Contains(Get(data, MainIssue), CloseHtml())
    && !Contains(Get(data, ActionTaken), CloseHtml())
    && !Contains(Get(data, ComputerName), CloseHtml())
    && !Contains(Get(data, ModelType), CloseHtml())
    && !Contains(Get(data, SerialNumber), CloseHtml())
    && !Contains(Get(data, Oem), CloseHtml())
    && !Contains(Get(data, Os), CloseHtml())
  }

  // One short lemma per style line keeps each character-membership proof small.
  lemma StyleOpenLacksSlash() ensures '/' !in StyleOpen() {}
  lemma StyleBodyLacksSlash() ensures '/' !in StyleBody() {}
  lemma StyleEntryBoxLacksSlash() ensures '/' !in StyleEntryBox() {}
  lemma StyleEntryLookLacksSlash() ensures '/' !in StyleEntryLook() {}
  lemma StyleEntryLacksSlash() ensures '/' !in StyleEntry() { StyleEntryBoxLacksSlash(); StyleEntryLookLacksSlash(); }
  lemma StyleMainIssueLacksSlash() ensures '/' !in StyleMainIssue() {}
  lemma StyleActionTakenLacksSlash() ensures '/' !in StyleActionTaken() {}

  lemma StyleFree()
    ensures !Contains(HeaderStyle(), CloseHtml())
  {
    var p := CloseHtml();
    StyleOpenLacksSlash();
    StyleBodyLacksSlash();
    StyleEntryLacksSlash();
    StyleMainIssueLacksSlash();
    StyleActionTakenLacksSlash();
    MissingChar(StyleOpen(), p, '/');
    MissingChar(StyleBody(), p, '/');
    MissingChar(StyleEntry(), p, '/');
    MissingChar(StyleMainIssue(), p, '/');
    MissingChar(StyleActionTaken(), p, '/');
    var s := StyleOpen();
    assert s[|s| - 1] == '\n';
    ConcatWithout(s, StyleBody(), p);         s := s + StyleBody();
    assert s[|s| - 1] == '\n';
    ConcatWithout(s, StyleEntry(), p);        s := s + StyleEntry();
    assert s[|s| - 1] == '\n';
    ConcatWithout(s, StyleMainIssue(), p);    s := s + StyleMainIssue();
    assert s[|s| - 1] == '\n';
    ConcatWithout(s, StyleActionTaken(), p);  s := s + StyleActionTaken();
    assert s == HeaderStyle();
  }

  lemma HeaderOpenFree() ensures !Contains(HeaderOpen(), CloseHtml()) { MissingChar(HeaderOpen(), CloseHtml(), '/'); }
  lemma HeaderTitleFree() ensures !Contains(HeaderTitle(), CloseHtml()) { MissingChar(HeaderTitle(), CloseHtml(), 'h'); }
  lemma HeaderCloseFree() ensures !Contains(HeaderClose(), CloseHtml()) { MissingChar(HeaderClose(), CloseHtml(), 'm'); }
  lemma HeaderBodyFree() ensures !Contains(HeaderBody(), CloseHtml()) { MissingChar(HeaderBody(), CloseHtml(), '/'); }

  lemma HeaderPiecesFree()
    ensures !Contains(HeaderOpen(), CloseHtml()) && !Contains(HeaderTitle(), CloseHtml())
    ensures !Contains(HeaderStyle(), CloseHtml()) && !Contains(HeaderClose(), CloseHtml())
    ensures !Contains(HeaderBody(), CloseHtml())
  {
    HeaderOpenFree();
    HeaderTitleFree();
    StyleFree();
    HeaderCloseFree();
    HeaderBodyFree();
  }

  lemma HeaderFree()
    ensures !Contains(Header(), CloseHtml())
    ensures Header()[|Header()| - 1] == ' '
  {
    HeaderPiecesFree();
    var s := HeaderOpen();
    assert s[|s| - 1] == '\n';
    ConcatWithout(s, HeaderTitle(), CloseHtml());  s := s + HeaderTitle();
    assert s[|s| - 1] == '\n';
    ConcatWithout(s, HeaderStyle(), CloseHtml());  s := s + HeaderStyle();
    assert s[|s| - 1] == '\n';
    ConcatWithout(s, HeaderClose(), CloseHtml());  s := s + HeaderClose();
    assert s[|s| - 1] == '\n';
    ConcatWithout(s, HeaderBody(), CloseHtml());   s := s + HeaderBody();
    assert s == Header();
  }

  // The fixed text of an entry has no `h`, so no `</html>`; one lemma per piece keeps each proof small.
  lemma EntryOpenFree()
    ensures !Contains(EntryOpen(), CloseHtml()) && EntryOpen()[|EntryOpen()| - 1] == '>'
  {
    MissingChar(EntryOpen(), CloseHtml(), 'h');
  }

  /** A piece of fixed text that starts a new tag and ends in a space or `>`, with no `</html>` in it. */
  predicate Lead(l: string) {
    !Contains(l, CloseHtml()) && l != [] && l[0] == '<' && (l[|l| - 1] == ' ' || l[|l| - 1] == '>')
  }

  lemma MainIssueLeadShape() ensures Lead(MainIssueLead()) { MissingChar(MainIssueLead(), CloseHtml(), 'h'); }
  lemma ActionTakenLeadShape() ensures Lead(ActionTakenLead()) { MissingChar(ActionTakenLead(), CloseHtml(), 'h'); }
  lemma ComputerNameLeadShape() ensures Lead(ComputerNameLead()) { MissingChar(ComputerNameLead(), CloseHtml(), 'h'); }
  lemma ModelTypeLeadShape() ensures Lead(ModelTypeLead()) { MissingChar(ModelTypeLead(), CloseHtml(), 'h'); }
  lemma SerialNumberLeadShape() ensures Lead(SerialNumberLead()) { MissingChar(SerialNumberLead(), CloseHtml(), 'h'); }
  lemma OemLeadShape() ensures Lead(OemLead()) { MissingChar(OemLead(), CloseHtml(), 'h'); }
  lemma OsLeadShape() ensures Lead(OsLead()) { MissingChar(OsLead(), CloseHtml(), 'h'); }
  lemma EntryCloseShape() ensures Lead(EntryClose()) { MissingChar(EntryClose(), CloseHtml(), 'h'); }

  /** Adding a lead and then a value, neither containing `</html>`, cannot make one. */
  lemma PairFree(a: string, lead: string, v: string)
    requires !Contains(a, CloseHtml()) && Lead(lead) && !Contains(v, CloseHtml())
    ensures !Contains(a + lead + v, CloseHtml())
  {
    ConcatWithout(a, lead, CloseHtml());
    assert (a + lead)[|a + lead| - 1] == lead[|lead| - 1];
    ConcatWithout(a + lead, v, CloseHtml());
  }

  /** The fixed text of an entry never contains `</html>`, and rendering newlines does not create one. */
  lemma {:induction false} FragmentFree(timestamp: string, data: Contents)
    requires EntryFree(timestamp, data)
    ensures !Contains(Fragment(timestamp, data), CloseHtml())
  {
    var p := CloseHtml();
    var mi := ReplaceNewlines(Get(data, MainIssue));
    var at := ReplaceNewlines(Get(data, ActionTaken));
    RenderingKeepsOut(Get(data, MainIssue), p);
    RenderingKeepsOut(Get(data, ActionTaken), p);
    EntryOpenFree();
    MainIssueLeadShape();
    ActionTakenLeadShape();
    ComputerNameLeadShape();
    ModelTypeLeadShape();
    SerialNumberLeadShape();
    OemLeadShape();
    OsLeadShape();
    EntryCloseShape();
    ConcatWithout(EntryOpen(), timestamp, p);
    var s := EntryOpen() + timestamp;
    PairFree(s, MainIssueLead(), mi);                       s := s + MainIssueLead() + mi;
    PairFree(s, ActionTakenLead(), at);                     s := s + ActionTakenLead() + at;
    PairFree(s, ComputerNameLead(), Get(data, ComputerName)); s := s + ComputerNameLead() + Get(data, ComputerName);
    PairFree(s, ModelTypeLead(), Get(data, ModelType));     s := s + ModelTypeLead() + Get(data, ModelType);
    PairFree(s, SerialNumberLead(), Get(data, SerialNumber)); s := s + SerialNumberLead() + Get(data, SerialNumber);
    PairFree(s, OemLead(), Get(data, Oem));                 s := s + OemLead() + Get(data, Oem);
    PairFree(s, OsLead(), Get(data, Os));                   s := s + OsLead() + Get(data, Os);
    PairFree(s, EntryClose(), "");                          s := s + EntryClose() + "";
    assert s == Fragment(timestamp, data) + "";
    assert Fragment(timestamp, data) + "" == Fragment(timestamp, data);
  }

  lemma ContainsExtended(a: string, b: string, c: string, p: string)
    requires Contains(b, p)
    ensures Contains(a + b, p) && Contains(b + c, p)
  {
    var i :| 0 <= i <= |b| - |p| && OccursAt(b, p, i);
    assert (a + b)[|a| + i..|a| + i + |p|] == b[i..i + |p|];
    assert OccursAt(a + b, p, |a| + i);
    assert (b + c)[i..i + |p|] == b[i..i + |p|];
    assert OccursAt(b + c, p, i);
  }

  lemma AppendKeeps(s: string, t: string, p: string)
    requires Contains(s, p)
    ensures Contains(s + t, p)
  {
    ContainsExtended("", s, t, p);
    assert "" + s == s;
  }

  /** A `</html>` typed into Computer Name reaches the log verbatim. */
  lemma TypedCloseTagIsWritten(timestamp: string, data: Contents)
    requires Contains(Get(data, ComputerName), CloseHtml())
    ensures Contains(Fragment(timestamp, data), CloseHtml())
  {
    var p := CloseHtml();
    var s := EntryOpen() + timestamp
      + MainIssueLead() + ReplaceNewlines(Get(data, MainIssue))
      + ActionTakenLead() + ReplaceNewlines(Get(data, ActionTaken))
      + ComputerNameLead();
    assert Contains(s + Get(data, ComputerName), p) by { ContainsExtended(s, Get(data, ComputerName), "", p); }
    s := s + Get(data, ComputerName);
    AppendKeeps(s, ModelTypeLead(), p);       s := s + ModelTypeLead();
    AppendKeeps(s, Get(data, ModelType), p);    s := s + Get(data, ModelType);
    AppendKeeps(s, SerialNumberLead(), p);    s := s + SerialNumberLead();
    AppendKeeps(s, Get(data, SerialNumber), p); s := s + Get(data, SerialNumber);
    AppendKeeps(s, OemLead(), p);             s := s + OemLead();
    AppendKeeps(s, Get(data, Oem), p);          s := s + Get(data, Oem);
    AppendKeeps(s, OsLead(), p);              s := s + OsLead();
    AppendKeeps(s, Get(data, Os), p);           s := s + Get(data, Os);
    AppendKeeps(s, EntryClose(), p);          s := s + EntryClose();
    assert s == Fragment(timestamp, data);
  }

  // ---------------------------------------------------------------- what a save keeps of the old file

  // The lemmas below are stated for any header text `head` and then used with `Header()`:
  // keeping the literal out of the sequence reasoning keeps the proofs small.

  lemma Associative(a: string, b: string, c: string)
    ensures a + (b + c) == a + b + c
  {
  }

  lemma SliceAfter(x: string, t: string, j: int, n: nat)
    requires |x| < j && j + n <= |x| + |t|
    ensures (x + t)[j..j + n] == t[1..][j - |x| - 1..j - |x| - 1 + n]
  {
    var a := (x + t)[j..j + n];
    var b := t[1..][j - |x| - 1..j - |x| - 1 + n];
    assert |a| == |b|;
    forall k | 0 <= k < n ensures a[k] == b[k] {
      assert a[k] == (x + t)[j + k] == t[j + k - |x|];
    }
  }

  lemma EntriesSnoc(frags: seq<string>, f: string)
    ensures Entries(frags + [f]) == Entries(frags) + f + Separator()
  {
    assert (frags + [f])[..|frags|] == frags;
  }

  lemma {:induction false} EntriesConcat(a: seq<string>, b: seq<string>)
    ensures Entries(a + b) == Entries(a) + Entries(b)
  {
    if b == [] {
      assert a + b == a;
    } else {
      var n := |b| - 1;
      assert (a + b)[..|a + b| - 1] == a + b[..n];
      EntriesConcat(a, b[..n]);
    }
  }

  /** Each save adds the entry and `<hr>` at the end of the body. */
  lemma BodySnocWith(head: string, frags: seq<string>, f: string)
    ensures head + Entries(frags + [f]) == head + Entries(frags) + f + Separator()
  {
    EntriesSnoc(frags, f);
    Associative(head, Entries(frags) + f, Separator());
    Associative(head, Entries(frags), f);
  }

  lemma BodySnoc(frags: seq<string>, f: string)
    ensures Body(frags + [f]) == Body(frags) + f + Separator()
  {
    BodySnocWith(Header(), frags, f);
  }

  lemma SeparatorFree()
    ensures !Contains(Separator(), CloseHtml())
  {
    MissingChar(Separator(), CloseHtml(), '/');
  }

  /** Entries none of which contains `</html>` do not make one between them; they end in `>`. */
  lemma {:induction false} EntriesFree(frags: seq<string>)
    requires forall i | 0 <= i < |frags| :: !Contains(frags[i], CloseHtml())
    ensures !Contains(Entries(frags), CloseHtml())
    ensures Entries(frags) == [] || Entries(frags)[|Entries(frags)| - 1] == '>'
  {
    if frags != [] {
      var n := |frags| - 1;
      var init := frags[..n];
      var e := Entries(init);
      EntriesFree(init);
      EntriesSnoc(init, frags[n]);
      SeparatorFree();
      if e == [] {
        assert e + frags[n] == frags[n];
      } else {
        ConcatWithout(e, frags[n], CloseHtml());
      }
      ConcatWithout(e + frags[n], Separator(), CloseHtml());
    }
  }

  /** The body of a log whose entries have no `</html>` has none either. */
  lemma BodyFree(frags: seq<string>)
    requires forall i | 0 <= i < |frags| :: !Contains(frags[i], CloseHtml())
    ensures !Contains(Body(frags), CloseHtml())
  {
    HeaderFree();
    EntriesFree(frags);
    if Entries(frags) == [] {
      assert Body(frags) == Header();
    } else {
      ConcatWithout(Header(), Entries(frags), CloseHtml());
    }
  }

  /** `rsplit(p, 1)[0]` of `x + t`, where `t` starts with the only occurrence of `p` in it, is `x`. */
  lemma BeforeLastAtEnd(x: string, t: string, p: string)
    requires p != [] && p <= t && !Contains(t[1..], p)
    ensures BeforeLast(x + t, p) == x
  {
    var s := x + t;
    assert s[|x|..|x| + |p|] == t[..|p|];
    assert OccursAt(s, p, |x|);
    forall j | |x| < j ensures !OccursAt(s, p, j) {
      if j + |p| <= |s| {
        SliceAfter(x, t, j, |p|);
        assert !OccursAt(t[1..], p, j - |x| - 1);
      }
    }
    var r := BeforeLast(s, p);
    assert |r| == |x|;
    assert r == s[..|x|];
  }

  /** The tags a save closes the file with are exactly what the next save strips as `</body>`. */
  lemma StripClosingOf(body: string)
    ensures StripClosing(body + Closing()) == BeforeLast(body, CloseHtml())
  {
    MissingChar("/body>", CloseBody(), '<');
    MissingChar(CloseHtml(), CloseBody(), 'b');
    ConcatWithout("/body>", CloseHtml(), CloseBody());
    assert Closing()[1..] == "/body>" + CloseHtml();
    BeforeLastAtEnd(body, Closing(), CloseBody());
  }

  /** A file closed by a save, whose body has no `</html>`, is kept whole up to its closing tags. */
  lemma AppendOntoIntact(body: string, f: string)
    requires !Contains(body, CloseHtml())
    ensures AppendEntry(Some(body + Closing()), f) == body + f + Separator() + Closing()
    ensures (body + Closing())[..|body + Closing()| - |Closing()|] == body
    ensures (body + Closing())[..|body + Closing()| - |Closing()|] <= AppendEntry(Some(body + Closing()), f)
  {
    StripClosingOf(body);
    assert Kept(Some(body + Closing())) == body;
  }

  lemma AppendToDocumentWith(head: string, frags: seq<string>, f: string)
    requires !Contains(head + Entries(frags), CloseHtml())
    ensures AppendEntry(Some(head + Entries(frags) + Closing()), f) == head + Entries(frags + [f]) + Closing()
  {
    AppendOntoIntact(head + Entries(frags), f);
    BodySnocWith(head, frags, f);
  }

  /**
   * Saving into a log whose body has no `</html>` gives the log with one more entry:
   * the old text up to its closing tags is kept, unchanged, as a prefix.
   */
  lemma AppendToDocument(frags: seq<string>, f: string)
    requires !Contains(Body(frags), CloseHtml())
    ensures AppendEntry(Some(Document(frags)), f) == Document(frags + [f])
    ensures Document(frags)[..|Document(frags)| - |Closing()|] <= AppendEntry(Some(Document(frags)), f)
  {
    AppendToDocumentWith(Header(), frags, f);
    AppendOntoIntact(Header() + Entries(frags), f);
  }

  lemma FirstSaveWith(head: string, f: string)
    ensures head + f + Separator() + Closing() == head + Entries([f]) + Closing()
  {
    assert [f][..0] == [];
    Associative(head, f, Separator());
  }

  /** The first save of the day writes the header and the one entry. */
  lemma FirstSave(f: string)
    ensures FileAfter([f]) == Some(Document([f]))
  {
    assert [f][..0] == [];
    assert AppendEntry(None, f) == Header() + f + Separator() + Closing();
    FirstSaveWith(Header(), f);
  }

  /** A later save onto an intact log extends it by the new entry. */
  lemma NextSave(frags: seq<string>, f: string)
    requires FileAfter(frags) == Some(Document(frags))
    requires !Contains(Body(frags), CloseHtml())
    ensures FileAfter(frags + [f]) == Some(Document(frags + [f]))
  {
    FileAfterStep(frags, f);
    AppendToDocument(frags, f);
  }

  /** One more save applies `AppendEntry` to the file the earlier saves left. */
  lemma FileAfterStep(frags: seq<string>, f: string)
    ensures FileAfter(frags + [f]) == Some(AppendEntry(FileAfter(frags), f))
  {
    assert (frags + [f])[..|frags|] == frags;
  }

  /** Saving entries one after another, none containing `</html>`, builds the log of all of them in order. */
  lemma {:induction false} SavesInOrder(frags: seq<string>)
    requires forall i | 0 <= i < |frags| :: !Contains(frags[i], CloseHtml())
    ensures FileAfter(frags) == if frags == [] then None else Some(Document(frags))
  {
    if frags != [] {
      var n := |frags| - 1;
      var init := frags[..n];
      assert frags == init + [frags[n]];
      if init == [] {
        FirstSave(frags[n]);
      } else {
        SavesInOrder(init);
        BodyFree(init);
        NextSave(init, frags[n]);
      }
    }
  }

  lemma SplitAt(frags: seq<string>, i: nat)
    requires i < |frags|
    ensures frags == frags[..i] + ([frags[i]] + frags[i + 1..])
  {
    assert frags[i..] == [frags[i]] + frags[i + 1..];
    assert frags == frags[..i] + frags[i..];
  }

  lemma EntriesConcat3(before: seq<string>, here: seq<string>, rest: seq<string>)
    ensures Entries(before + (here + rest)) == Entries(before) + (Entries(here) + Entries(rest))
  {
    EntriesConcat(before, here + rest);
    EntriesConcat(here, rest);
  }

  lemma EntriesSingle(f: string)
    ensures Entries([f]) == f + Separator()
  {
    assert [f][..0] == [];
  }

  lemma EntriesAround(frags: seq<string>, i: nat)
    requires i < |frags|
    ensures Entries(frags) == Entries(frags[..i]) + (frags[i] + Separator() + Entries(frags[i + 1..]))
  {
    SplitAt(frags, i);
    EntriesConcat3(frags[..i], [frags[i]], frags[i + 1..]);
    EntriesSingle(frags[i]);
  }

  lemma EntryPositionWith(head: string, frags: seq<string>, i: nat)
    requires i < |frags|
    ensures head + Entries(frags) + Closing()
      == head + Entries(frags[..i]) + (frags[i] + Separator() + Entries(frags[i + 1..])) + Closing()
  {
    EntriesAround(frags, i);
    Associative(head, Entries(frags[..i]), frags[i] + Separator() + Entries(frags[i + 1..]));
  }

  /** In the log, entry `i` stands whole, with its `<hr>`, right after the entries saved before it. */
  lemma EntryPosition(frags: seq<string>, i: nat)
    requires i < |frags|
    ensures Document(frags) == Body(frags[..i]) + (frags[i] + Separator() + Entries(frags[i + 1..])) + Closing()
  {
    EntryPositionWith(Header(), frags, i);
  }

  lemma BodyKeepsCloseTagWith(head: string, frags: seq<string>, f: string)
    requires Contains(f, CloseHtml())
    ensures Contains(head + Entries(frags + [f]), CloseHtml())
  {
    BodySnocWith(head, frags, f);
    ContainsExtended(head + Entries(frags), f, "", CloseHtml());
    ContainsExtended("", head + Entries(frags) + f, Separator(), CloseHtml());
  }

  /**
   * The exact text of a save onto any file these saves closed: the old body up to its last
   * `</html>` (all of it when there is none), then the new entry, `<hr>` and the closing tags.
   */
  lemma AppendOntoClosed(body: string, g: string)
    ensures AppendEntry(Some(body + Closing()), g) == BeforeLast(body, CloseHtml()) + g + Separator() + Closing()
  {
    StripClosingOf(body);
  }

  /** Appending to a file whose body holds `</html>` loses at least that tag. */
  lemma CutShort(body: string, g: string)
    requires Contains(body, CloseHtml())
    ensures |AppendEntry(Some(body + Closing()), g)| + |CloseHtml()| <= |body| + |g| + |Separator()| + |Closing()|
  {
    var kept := BeforeLast(body, CloseHtml());
    assert |kept| + |CloseHtml()| <= |body|;
    StripClosingOf(body);
    assert Kept(Some(body + Closing())) == kept;
  }

  /**
   * The other side: once an entry contains `</html>`, the next save keeps only the text
   * before that tag, so the file comes out shorter than the log with both entries.
   */
  lemma CloseTagInEntryTruncates(frags: seq<string>, f: string, g: string)
    requires Contains(f, CloseHtml())
    ensures |AppendEntry(Some(Document(frags + [f])), g)| < |Document(frags + [f, g])|
    ensures AppendEntry(Some(Document(frags + [f])), g) != Document(frags + [f, g])
  {
    CloseTagTruncatesWith(Header(), frags, f, g);
  }

  lemma CloseTagTruncatesWith(head: string, frags: seq<string>, f: string, g: string)
    requires Contains(f, CloseHtml())
    ensures |AppendEntry(Some(head + Entries(frags + [f]) + Closing()), g)| < |head + Entries(frags + [f, g]) + Closing()|
  {
    BodyKeepsCloseTagWith(head, frags, f);
    CutShort(head + Entries(frags + [f]), g);
    assert frags + [f, g] == (frags + [f]) + [g];
    EntriesSnoc(frags + [f], g);
  }

  /** A day's saves of whole entries, none with `</html>` in a written value, log every entry in order. */
  datatype Entry = Entry(timestamp: string, data: Contents)

  function Fragments(entries: seq<Entry>): (frags: seq<string>)
    ensures |frags| == |entries|
  {
    seq(|entries|, i requires 0 <= i < |entries| => Fragment(entries[i].timestamp, entries[i].data))
  }

  lemma EntriesSavedInOrder(entries: seq<Entry>)
    requires entries != []
    requires forall i | 0 <= i < |entries| :: EntryFree(entries[i].timestamp, entries[i].data)
    ensures FileAfter(Fragments(entries)) == Some(Document(Fragments(entries)))
  {
    var frags := Fragments(entries);
    forall i | 0 <= i < |frags| ensures !Contains(frags[i], CloseHtml()) {
      FragmentFree(entries[i].timestamp, entries[i].data);
    }
    SavesInOrder(frags);
  }
}
