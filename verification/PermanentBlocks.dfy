// The permanent blocks: a set in memory and a line file, kept in step by the operations that touch both.
module PermanentBlocks {
  import opened Collections
  import opened PermanentText
  import opened Text

  /** net.ParseIP as a function from a trimmed text to the canonical text of its address, "" for no address. */
  ghost predicate Canonical(parse: string -> string) {
    forall s :: parse(s) != "" ==> s != "" && s[0] != '#' && parse(parse(s)) == parse(s) && Writable(parse(s))
  }

  /** permanentBlockIPKey */
  function Key(value: string, parse: string -> string): string {
    var v := Trim(value);
    if v == "" then "" else if parse(v) != "" then parse(v) else v
  }

  lemma KeyFacts(value: string, parse: string -> string)
    requires Canonical(parse)
    ensures Key(Key(value, parse), parse) == Key(value, parse)
    ensures Key(Trim(value), parse) == Key(value, parse)
    ensures Key(value, parse) == "" <==> Blank(value)
    ensures Key(value, parse) == if parse(Trim(value)) == "" then Trim(value) else parse(Trim(value))
  {
    TrimTrims(value);
    TrimOfTrimmed(Trim(value));
    if parse(Trim(value)) != "" {
      TrimOfTrimmed(parse(Trim(value)));
    }
  }

  ghost function Keys(entries: set<string>, parse: string -> string): set<string> {
    set ip | ip in entries :: Key(ip, parse)
  }

  /** The addresses the file blocks. */
  ghost function Blocks(text: string, parse: string -> string): set<string> {
    Keys(Load(text), parse)
  }

  /** The lines whose key is not a target, in order. */
  function Kept(lines: seq<string>, targets: set<string>, parse: string -> string): (kept: seq<string>)
    ensures |kept| <= |lines|
    ensures forall line | line in kept :: line in lines && Key(line, parse) !in targets
  {
    if lines == [] then []
    else if Key(lines[0], parse) in targets then Kept(lines[1..], targets, parse)
    else [lines[0]] + Kept(lines[1..], targets, parse)
  }

  lemma {:induction false} KeptOfSum(a: seq<string>, b: seq<string>, targets: set<string>, parse: string -> string)
    ensures Kept(a + b, targets, parse) == Kept(a, targets, parse) + Kept(b, targets, parse)
  {
    if a == [] {
      assert a + b == b;
    } else {
      assert (a + b)[1..] == a[1..] + b;
      KeptOfSum(a[1..], b, targets, parse);
    }
  }

  lemma {:induction false} KeptAll(lines: seq<string>, targets: set<string>, parse: string -> string)
    ensures Kept(lines, targets, parse) == lines <==> forall i | 0 <= i < |lines| :: Key(lines[i], parse) !in targets
    ensures |Kept(lines, targets, parse)| == |lines| <==> Kept(lines, targets, parse) == lines
  {
    if lines != [] {
      KeptAll(lines[1..], targets, parse);
      assert forall i | 0 < i < |lines| :: lines[i] == lines[1..][i - 1];
      assert lines == [lines[0]] + lines[1..];
      if Kept(lines, targets, parse) == lines {
        assert Key(lines[0], parse) !in targets by {
          assert lines[0] in Kept(lines, targets, parse);
        }
      }
    }
  }

  /** Reading the kept lines gives the kept entries. */
  lemma {:induction false} EntriesOfKept(lines: seq<string>, targets: set<string>, parse: string -> string)
    requires Canonical(parse)
    ensures EntriesOf(Kept(lines, targets, parse)) == Kept(EntriesOf(lines), targets, parse)
  {
    if lines != [] {
      var line, rest := lines[0], lines[1..];
      EntriesOfKept(rest, targets, parse);
      KeptEntry(line, targets, parse);
      KeptOfSum(Entry(line), EntriesOf(rest), targets, parse);
      EntriesOfSum([line], Kept(rest, targets, parse));
      EntriesOfOne(line);
      hide Entry, Key, Canonical;
      assert EntriesOf(lines) == Entry(line) + EntriesOf(rest);
    }
  }

  lemma KeptEntry(line: string, targets: set<string>, parse: string -> string)
    requires Canonical(parse)
    ensures Kept(Entry(line), targets, parse) == if Key(line, parse) in targets then [] else Entry(line)
  {
    KeyFacts(line, parse);
    hide Key, Trim;
    if Entry(line) != [] {
      assert Entry(line)[1..] == [];
    }
  }

  /** The lines of a normalised text: the empty one after a final newline is not one. */
  function FileLines(text: string): seq<string> {
    if Terminated(text) then Split(text)[..|Split(text)| - 1] else Split(text)
  }

  function Rebuilt(lines: seq<string>, terminated: bool): string {
    Join(lines) + (if terminated && lines != [] then "\n" else "")
  }

  /** The text after the targets have been removed; a text without any of them is not rewritten. */
  function Removed(text: string, targets: set<string>, parse: string -> string): string {
    var lines := FileLines(Normal(text));
    var kept := Kept(lines, targets, parse);
    if kept == lines then text else Rebuilt(kept, Terminated(Normal(text)))
  }

  /** The targets that were on some line. */
  ghost function Hit(text: string, targets: set<string>, parse: string -> string): set<string> {
    set i | 0 <= i < |FileLines(Normal(text))| && Key(FileLines(Normal(text))[i], parse) in targets ::
      Key(FileLines(Normal(text))[i], parse)
  }

  /** Rebuilding a text from its lines gives the text back. */
  lemma RebuiltFromLines(text: string)
    ensures Rebuilt(FileLines(text), Terminated(text)) == text
    ensures Split(text) == FileLines(text) + if Terminated(text) then [""] else []
  {
    hide Split, Join;
    JoinOfSplit(text);
    if Terminated(text) {
      SplitOfTerminated(text);
      var body := text[..|text| - 1];
      JoinOfSplit(body);
      assert FileLines(text) == Split(body);
      assert text == body + "\n";
    }
  }

  lemma SplitOfRebuilt(lines: seq<string>, terminated: bool)
    requires lines != [] && forall line | line in lines :: OneLine(line)
    ensures Split(Rebuilt(lines, terminated)) == lines + if terminated then [""] else []
  {
    SplitOfJoin(lines);
    if terminated {
      assert Join(lines) + "\n" + "" == Rebuilt(lines, terminated);
      SplitOfSum(Join(lines), "");
      assert Split("") == [""];
    } else {
      assert Join(lines) + "" == Join(lines);
    }
  }

  lemma EntriesOfRebuilt(lines: seq<string>, terminated: bool)
    requires forall line | line in lines :: OneLine(line)
    ensures Entries(Rebuilt(lines, terminated)) == EntriesOf(lines)
  {
    NothingInEmptyLine();
    hide Split, Entry, EntriesOf;
    if lines != [] {
      SplitOfRebuilt(lines, terminated);
      if terminated {
        EntriesOfSum(lines, [""]);
        assert EntriesOf(lines) + [] == EntriesOf(lines);
      } else {
        assert lines + [] == lines;
      }
    }
  }

  lemma NothingInEmptyLine()
    ensures Split("") == [""] && EntriesOf([""]) == [] && EntriesOf([]) == []
  {
    EntriesOfOne("");
  }

  lemma EntriesOfFileLines(text: string)
    ensures EntriesOf(FileLines(text)) == Entries(text)
    ensures forall line | line in FileLines(text) :: OneLine(line)
  {
    RebuiltFromLines(text);
    SplitGivesLines(text);
    if Terminated(text) {
      EntriesOfSum(FileLines(text), [""]);
      EntriesOfOne("");
    }
  }

  /** Removal takes away exactly the entries with a target key and keeps the others in order. */
  lemma RemoveFiltersEntries(text: string, targets: set<string>, parse: string -> string)
    requires Canonical(parse) && CarriageSafe(text)
    ensures Entries(Removed(text, targets, parse)) == Kept(Entries(text), targets, parse)
  {
    hide Entries, FileLines, Rebuilt, Terminated, Normal;
    var plain := Normal(text);
    var lines := FileLines(plain);
    NormalKeepsEntriesIff(text);
    EntriesOfFileLines(plain);
    EntriesOfKept(lines, targets, parse);
    var kept := Kept(lines, targets, parse);
    if kept != lines {
      EntriesOfRebuilt(kept, Terminated(plain));
    }
  }

  lemma {:induction false} KeptMembers(entries: seq<string>, targets: set<string>, parse: string -> string, ip: string)
    ensures ip in Kept(entries, targets, parse) <==> ip in entries && Key(ip, parse) !in targets
  {
    if entries != [] {
      KeptMembers(entries[1..], targets, parse, ip);
      assert entries == [entries[0]] + entries[1..];
    }
  }

  lemma RemoveFiltersLoad(text: string, targets: set<string>, parse: string -> string)
    requires Canonical(parse) && CarriageSafe(text)
    ensures Load(Removed(text, targets, parse)) == set ip | ip in Load(text) && Key(ip, parse) !in targets
    ensures Blocks(Removed(text, targets, parse), parse) == Blocks(text, parse) - targets
  {
    RemoveFiltersEntries(text, targets, parse);
    hide Removed, Entries, Kept;
    forall ip ensures ip in Load(Removed(text, targets, parse)) <==> ip in Load(text) && Key(ip, parse) !in targets {
      KeptMembers(Entries(text), targets, parse, ip);
    }
  }

  /** The exact condition, for any text: removal takes away the target keys and no others if and only if, where a
      target is on some line, normalising changes no block but targets, and where none is, no target is blocked. */
  lemma RemoveFiltersLoadIff(text: string, targets: set<string>, parse: string -> string)
    requires Canonical(parse)
    ensures Blocks(Removed(text, targets, parse), parse) == Blocks(text, parse) - targets <==>
            if Hit(text, targets, parse) == {} then Blocks(text, parse) !! targets
            else Blocks(Normal(text), parse) - targets == Blocks(text, parse) - targets
  {
    hide Entries, FileLines, Rebuilt, Terminated, Normal;
    var plain := Normal(text);
    var lines := FileLines(plain);
    KeptAll(lines, targets, parse);
    NothingHitIff(lines, targets, parse);
    if Hit(text, targets, parse) != {} {
      var kept := Kept(lines, targets, parse);
      EntriesOfFileLines(plain);
      EntriesOfKept(lines, targets, parse);
      EntriesOfRebuilt(kept, Terminated(plain));
      hide Kept, Key;
      forall ip ensures ip in Load(Removed(text, targets, parse)) <==> ip in Load(plain) && Key(ip, parse) !in targets {
        KeptMembers(Entries(plain), targets, parse, ip);
      }
    }
  }

  lemma NothingHitIff(lines: seq<string>, targets: set<string>, parse: string -> string)
    ensures (set i | 0 <= i < |lines| && Key(lines[i], parse) in targets :: Key(lines[i], parse)) == {} <==>
            forall i | 0 <= i < |lines| :: Key(lines[i], parse) !in targets
  {
    hide Key;
    var hit := set i | 0 <= i < |lines| && Key(lines[i], parse) in targets :: Key(lines[i], parse);
    forall i | 0 <= i < |lines| && Key(lines[i], parse) in targets ensures Key(lines[i], parse) in hit {
    }
  }

  /** A text that ended with a newline still does, unless nothing is left of it; and a rewritten text has no
      carriage return. */
  lemma RemoveKeepsTermination(text: string, targets: set<string>, parse: string -> string)
    requires text == "" || Terminated(text)
    ensures var out := Removed(text, targets, parse); out == "" || Terminated(out)
    ensures Removed(text, targets, parse) == text || '\r' !in Removed(text, targets, parse)
  {
    var plain := Normal(text);
    var lines := FileLines(plain);
    var kept := Kept(lines, targets, parse);
    if kept != lines {
      NormalIsPlain(text);
      PlainLines(plain);
      PlainJoin(kept);
      if text == "" {
        assert plain == "";
      } else {
        NormalTermination(text);
      }
      var out := Rebuilt(kept, Terminated(plain));
      assert '\r' !in out;
    }
  }

  /** Where a carriage return is inside an entry, removal of its first part rewrites it: an address appears that
      loading has not seen before. */
  lemma RemovalSplitsEntry(a: string, b: string, parse: string -> string)
    requires Canonical(parse) && Writable(a) && Writable(b) && Key(a, parse) != Key(b, parse)
    ensures Load(a + "\r" + b) == {a + "\r" + b}
    ensures Load(Removed(a + "\r" + b, {Key(a, parse)}, parse)) == {b}
  {
    hide Normal, Key, Split, IsSpace, Trim, CarriageSafe;
    var text := a + "\r" + b;
    ReturnInsideEntry(a, b);
    NormalOfPair(a, b);
    SplitOfPair(a, b);
    TrimOfTrimmed(a);
    TrimOfTrimmed(b);
    var targets := {Key(a, parse)};
    assert FileLines(Normal(text)) == [a, b];
    KeptOfPair(a, b, targets, parse);
    assert Removed(text, targets, parse) == Rebuilt([b], false);
    hide FileLines, Removed, Kept, Rebuilt, Canonical;
    EntriesOfRebuilt([b], false);
    EntriesOfOne(b);
  }

  lemma KeptOfPair(a: string, b: string, targets: set<string>, parse: string -> string)
    requires Key(a, parse) in targets && Key(b, parse) !in targets
    ensures Kept([a, b], targets, parse) == [b]
  {
    hide Key;
    assert [a, b][1..] == [b] && [b][1..] == [];
  }

  lemma NormalOfPair(a: string, b: string)
    requires Writable(a) && Writable(b)
    ensures Normal(a + "\r" + b) == a + "\n" + b
  {
    hide IsSpace, CrLfToLf;
    assert OneLine(a + "\r" + b);
    CrLfOfOneLine(a + "\r" + b);
    assert CrToLf("\r") == "\n" + CrToLf("");
    hide CrToLf;
    CrToLfOfSum(a + "\r", b);
    CrToLfOfSum(a, "\r");
    CrToLfOfPlain(a);
    CrToLfOfPlain(b);
  }

  lemma SplitOfPair(a: string, b: string)
    requires Writable(a) && Writable(b)
    ensures Split(a + "\n" + b) == [a, b] && !Terminated(a + "\n" + b)
  {
    hide IsSpace, Split;
    SplitOfSum(a, b);
    SplitOfLine(a);
    SplitOfLine(b);
    var text := a + "\n" + b;
    assert text[|text| - 1] == b[|b| - 1] && b[|b| - 1] in b;
  }

  lemma NormalTermination(text: string)
    requires Terminated(text)
    ensures Terminated(Normal(text))
    decreases |text|
  {
    if |text| >= 2 && text[0] == '\r' && text[1] == '\n' {
      if |text| > 2 {
        NormalTermination(text[2..]);
        assert Normal(text) == "\n" + Normal(text[2..]);
      } else {
        assert CrLfToLf(text) == "\n" + CrLfToLf("") == "\n";
        assert CrToLf("\n") == "\n" + CrToLf("");
      }
    } else if |text| > 1 {
      NormalTermination(text[1..]);
    } else {
      assert CrLfToLf(text) == [text[0]] + CrLfToLf("") == text;
      assert CrToLf(text) == [text[0]] + CrToLf("");
    }
  }

  lemma PlainLines(text: string)
    requires '\r' !in text
    ensures forall line | line in Split(text) :: '\r' !in line
    ensures forall line | line in FileLines(text) :: '\r' !in line
  {
    SplitIsPlain(text);
    hide Split;
  }

  lemma {:induction false} SplitIsPlain(text: string)
    requires '\r' !in text
    ensures forall line | line in Split(text) :: '\r' !in line
  {
    if text != "" {
      SplitIsPlain(text[1..]);
      assert Split(text[1..])[0] in Split(text[1..]);
      assert text[0] in text;
    }
  }

  lemma {:induction false} PlainJoin(lines: seq<string>)
    requires forall line | line in lines :: '\r' !in line
    ensures '\r' !in Join(lines)
  {
    if lines != [] {
      assert lines[0] in lines;
      PlainJoin(lines[1..]);
    }
  }

  /** Removing an address that was just appended, and was not there before, gives the file back. */
  lemma RemoveUndoesAppend(text: string, ip: string, parse: string -> string)
    requires Canonical(parse) && Writable(ip)
    requires (text == "" || Terminated(text)) && '\r' !in text
    requires forall line | line in FileLines(text) :: Key(line, parse) != Key(ip, parse)
    ensures Removed(Appended(text, ip), {Key(ip, parse)}, parse) == text
  {
    var targets := {Key(ip, parse)};
    var out := Appended(text, ip);
    TrimOfTrimmed(ip);
    assert '\r' !in out;
    NormalOfPlain(out);
    assert Kept([ip], targets, parse) == Kept([ip][1..], targets, parse) == [];
    AppendedLines(text, ip);
    if text != "" {
      var lines := FileLines(text);
      RebuiltFromLines(text);
      assert lines != [] && lines + [ip] != lines;
      hide FileLines, Split;
      KeptOfSum(lines, [ip], targets, parse);
      KeptAll(lines, targets, parse);
      assert Kept(lines + [ip], targets, parse) == lines;
    }
  }

  lemma AppendedLines(text: string, ip: string)
    requires text == "" || Terminated(text)
    requires Writable(ip)
    ensures Terminated(Appended(text, ip))
    ensures FileLines(Appended(text, ip)) == (if text == "" then [] else FileLines(text)) + [ip]
  {
    TrimOfTrimmed(ip);
    assert Appended(text, ip) == text + ip + "\n";
    SplitOfAppended(text, ip);
    if text != "" {
      SplitOfTerminated(text);
    }
    var lines := Split(text);
    assert lines[|lines| - 1] + ip == ip;
    hide Split;
  }

  /** loadPermanentBlockedIPs, over the text of an existing file. */
  method LoadPermanentBlockedIPs(text: string) returns (blocked: set<string>)
    ensures blocked == Load(text)
  {
    var lines := ScanLines(text);
    blocked := {};
    var i := 0;
    while i < |lines|
      invariant 0 <= i <= |lines|
      invariant blocked == set ip | ip in EntriesOf(lines[..i])
    {
      assert lines[..i + 1] == lines[..i] + [lines[i]];
      EntriesOfSum(lines[..i], [lines[i]]);
      EntriesOfOne(lines[i]);
      var ip := Trim(lines[i]);
      if ip != "" && ip[0] != '#' {
        blocked := blocked + {ip};
      }
      i := i + 1;
    }
    assert lines[..i] == lines;
    ScanningFindsEntries(text);
  }

  /** removePermanentBlockedIPs, over the text of an existing file: the new text, or the old one if nothing was
      removed. */
  method RemoveLines(text: string, targets: set<string>, parse: string -> string)
    returns (out: string, removed: set<string>)
    ensures out == Removed(text, targets, parse) && removed == Hit(text, targets, parse)
  {
    hide Normal, Split, Join, Key;
    var plain := Normal(text);
    var terminated := Terminated(plain);
    var lines := Split(plain);
    if terminated && |lines| > 0 {
      lines := lines[..|lines| - 1];
    }
    assert lines == FileLines(plain);
    var kept;
    kept, removed := FilterLines(lines, targets, parse);
    hide FileLines, Kept;
    if |removed| == 0 {
      return text, removed;
    }
    out := Join(kept);
    if terminated && |kept| > 0 {
      out := out + "\n";
    }
  }

  method FilterLines(lines: seq<string>, targets: set<string>, parse: string -> string)
    returns (kept: seq<string>, removed: set<string>)
    ensures kept == Kept(lines, targets, parse)
    ensures removed == set i | 0 <= i < |lines| && Key(lines[i], parse) in targets :: Key(lines[i], parse)
    ensures removed == {} <==> kept == lines
  {
    hide Key;
    removed := {};
    kept := [];
    var i := 0;
    while i < |lines|
      invariant 0 <= i <= |lines|
      invariant kept == Kept(lines[..i], targets, parse)
      invariant removed == set j | 0 <= j < i && Key(lines[j], parse) in targets :: Key(lines[j], parse)
    {
      var line := lines[i];
      assert lines[..i + 1] == lines[..i] + [line];
      KeptOfSum(lines[..i], [line], targets, parse);
      assert [line][1..] == [];
      var key := Key(line, parse);
      if key in targets {
        removed := removed + {key};
      } else {
        kept := kept + [line];
      }
      i := i + 1;
    }
    assert lines[..i] == lines;
    KeptAll(lines, targets, parse);
    assert forall j | 0 <= j < |lines| :: Key(lines[j], parse) in targets ==> Key(lines[j], parse) in removed;
  }

  /** The targets a set of addresses stands for. */
  ghost function Targets(ips: set<string>, parse: string -> string): set<string> {
    (set ip | ip in ips :: Key(ip, parse)) - {""}
  }

  /** isLoopbackName depends on the address only, not on how it is written, as long as no white space is around it;
      it does not trim any. */
  ghost predicate LoopbackByAddress(loopback: string -> bool, parse: string -> string) {
    forall s | Trimmed(s) :: loopback(Key(s, parse)) == loopback(s)
  }

  /** Every blocked target is found on a line; the converse holds for keys that no comment has. */
  lemma HitsAreBlocks(text: string, targets: set<string>, parse: string -> string)
    requires Canonical(parse) && CarriageSafe(text)
    ensures Blocks(text, parse) * targets <= Hit(text, targets, parse) <= targets
    ensures (forall key | key in targets :: Writable(key)) ==> Hit(text, targets, parse) <= Blocks(text, parse)
  {
    var lines := FileLines(Normal(text));
    EntriesOfFileLines(Normal(text));
    NormalKeepsEntriesIff(text);
    hide FileLines, Normal, Writable, CarriageSafe;
    forall key | key in Blocks(text, parse) * targets ensures key in Hit(text, targets, parse) {
      var ip :| ip in Load(text) && Key(ip, parse) == key;
      EntriesAreEntries(lines, ip);
      var i :| 0 <= i < |lines| && Entry(lines[i]) == [ip];
      KeyFacts(lines[i], parse);
    }
    forall key | key in Hit(text, targets, parse) && Writable(key) ensures key in Blocks(text, parse) {
      var i :| 0 <= i < |lines| && Key(lines[i], parse) == key;
      LineOfKey(lines[i], parse);
      EntriesAreEntries(lines, Trim(lines[i]));
      assert Trim(lines[i]) in Load(text);
    }
  }

  /** A line whose key could be written holds that entry: comments have keys that begin with #. */
  lemma LineOfKey(line: string, parse: string -> string)
    requires Canonical(parse) && Writable(Key(line, parse))
    ensures Entry(line) == [Trim(line)] && Key(Trim(line), parse) == Key(line, parse)
  {
    KeyFacts(line, parse);
  }

  ghost predicate WellFormed(text: string) {
    (text == "" || Terminated(text)) && CarriageSafe(text)
  }

  lemma RemovalSummary(text: string, targets: set<string>, parse: string -> string)
    requires Canonical(parse) && WellFormed(text)
    ensures WellFormed(Removed(text, targets, parse))
    ensures Blocks(Removed(text, targets, parse), parse) == Blocks(text, parse) - targets
    ensures Hit(text, targets, parse) == {} ==> Removed(text, targets, parse) == text
    ensures Blocks(text, parse) * targets <= Hit(text, targets, parse) <= targets
    ensures (forall key | key in targets :: Writable(key)) ==> Hit(text, targets, parse) <= Blocks(text, parse)
  {
    hide Blocks, CarriageSafe;
    RemoveFiltersLoad(text, targets, parse);
    RemoveKeepsTermination(text, targets, parse);
    var out := Removed(text, targets, parse);
    if out != text {
      WindowsIsSafe(out);
    }
    var lines := FileLines(Normal(text));
    KeptAll(lines, targets, parse);
    assert forall i | 0 <= i < |lines| ::
        Key(lines[i], parse) in targets ==> Key(lines[i], parse) in Hit(text, targets, parse);
    HitsAreBlocks(text, targets, parse);
  }

  lemma AppendSummary(text: string, ip: string, parse: string -> string)
    requires WellFormed(text) && Writable(ip)
    ensures WellFormed(Appended(text, ip))
    ensures Blocks(Appended(text, ip), parse) == Blocks(text, parse) + {Key(ip, parse)}
  {
    hide Appended, Key, Writable, CarriageSafe, Terminated, Load, Keys;
    AppendAddsEntry(text, ip);
    AppendStaysSafe(text, ip);
    KeysAdd(Load(text), ip, parse);
  }

  lemma AppendStaysSafe(text: string, ip: string)
    requires (text == "" || Terminated(text)) && CarriageSafe(text) && Writable(ip)
    ensures CarriageSafe(Appended(text, ip))
  {
    TrimOfTrimmed(ip);
    WindowsIsSafe(ip);
    WindowsIsSafe("");
    SplitOfLine(ip);
    SplitOfAppended(text, ip);
    if text != "" {
      SplitOfTerminated(text);
    }
    hide LineIsSafe, Split, Trim;
    assert Appended(text, ip) == text + ip + "\n";
    var lines := Split(text);
    assert lines[|lines| - 1] + ip == ip;
    assert forall line | line in Split(Appended(text, ip)) :: line in lines || line == ip || line == "";
  }

  lemma NothingInEmptyText(parse: string -> string)
    ensures WellFormed("") && Load("") == {} && Blocks("", parse) == {}
  {
    NothingInEmptyLine();
  }

  /** The tracker's permanent blocks and their file; a missing file reads as an empty one. */
  class Store {
    const hasPath: bool
    const parse: string -> string
    const loopback: string -> bool
    var file: Option<string>
    var permanent: set<string>

    ghost function Text(): string
      reads this
    {
      if file.Some? then file.value else ""
    }

    ghost function OnFile(): set<string>
      reads this
    {
      Blocks(Text(), parse)
    }

    ghost predicate Valid()
      reads this
    {
      && Canonical(parse) && LoopbackByAddress(loopback, parse)
      && (file.Some? ==> hasPath) && WellFormed(Text())
      && (hasPath ==> permanent <= OnFile())
    }

    ghost predicate InStep()
      reads this
    {
      hasPath ==> permanent == OnFile()
    }

    constructor (hasPath: bool, file: Option<string>, parse: string -> string, loopback: string -> bool)
      requires Canonical(parse) && LoopbackByAddress(loopback, parse)
      requires file.Some? ==> hasPath && WellFormed(file.value)
      ensures Valid() && this.file == file && permanent == {} && this.hasPath == hasPath
      ensures this.parse == parse && this.loopback == loopback
    {
      this.hasPath, this.file, this.parse, this.loopback := hasPath, file, parse, loopback;
      permanent := {};
      new;
      NothingInEmptyText(parse);
    }

    /** removePermanentBlockedIPs: ioOk is whether reading and writing succeed. */
    method RemoveFromFile(ips: set<string>, ioOk: bool) returns (err: bool, removed: set<string>)
      requires Canonical(parse) && WellFormed(Text()) && (file.Some? ==> hasPath)
      modifies `file
      ensures WellFormed(Text()) && (file.Some? ==> hasPath)
      ensures ioOk ==> !err
      ensures err ==> file == old(file)
      ensures !err ==> OnFile() == old(OnFile()) - Targets(ips, parse)
      ensures !err ==> old(OnFile()) * Targets(ips, parse) <= removed <= Targets(ips, parse)
      ensures !err && (forall key | key in Targets(ips, parse) :: Writable(key)) ==> removed <= old(OnFile())
    {
      err, removed := false, {};
      NothingInEmptyText(parse);
      hide WellFormed, Blocks, Removed, Hit, Canonical, Writable;
      if !hasPath || ips == {} {
        assert ips == {} ==> Targets(ips, parse) == {};
        return;
      }
      var targets := (set ip | ip in ips :: Key(ip, parse)) - {""};
      if targets == {} || file.None? {
        return;
      }
      if !ioOk {
        err := true;
        return;
      }
      RemovalSummary(file.value, targets, parse);
      var out;
      out, removed := RemoveLines(file.value, targets, parse);
      if removed != {} {
        file := Some(out);
      }
    }

    /** RemovePermanentBlockedIP: one address, under its key. */
    method RemoveOne(ip: string, ioOk: bool) returns (found: bool, err: bool)
      requires Canonical(parse) && WellFormed(Text()) && (file.Some? ==> hasPath)
      modifies `file
      ensures WellFormed(Text()) && (file.Some? ==> hasPath)
      ensures ioOk ==> !err
      ensures err ==> !found && file == old(file)
      ensures !err ==> OnFile() == old(OnFile()) - {Key(ip, parse)}
      ensures !err && Key(ip, parse) in old(OnFile()) ==> found
      ensures found && Writable(Key(ip, parse)) ==> Key(ip, parse) in old(OnFile())
    {
      KeyOnFile(Text(), parse);
      var key := Key(ip, parse);
      if key == "" {
        return false, false;
      }
      OneTarget(key, parse);
      KeyFacts(ip, parse);
      hide WellFormed, Blocks, Canonical, Writable, Key, Targets;
      var removed;
      err, removed := RemoveFromFile({key}, ioOk);
      found := !err && key in removed;
    }

    /** blockPermanentLocked, as far as the set and the file go. */
    method Promote(rawKey: string, appendOk: bool) returns (promoted: bool)
      requires Valid()
      requires Trim(rawKey) != "" ==> Writable(Trim(rawKey)) && Key(rawKey, parse) == Trim(rawKey)
      modifies this
      ensures Valid() && (old(InStep()) ==> InStep())
      ensures promoted <==> Trim(rawKey) != "" && Trim(rawKey) !in old(permanent) && (!hasPath || appendOk)
      ensures promoted ==> permanent == old(permanent) + {Trim(rawKey)}
      ensures promoted && hasPath ==> OnFile() == old(OnFile()) + {Trim(rawKey)}
      ensures !promoted ==> permanent == old(permanent) && file == old(file)
    {
      var key := Trim(rawKey);
      if key == "" || key in permanent {
        return false;
      }
      TrimTrims(rawKey);
      KeyFacts(rawKey, parse);
      hide WellFormed, Blocks, Canonical, LoopbackByAddress, Writable, Key;
      if hasPath {
        if !appendOk {
          return false;
        }
        var text := if file.Some? then file.value else "";
        AppendSummary(text, key, parse);
        TrimOfTrimmed(key);
        assert Appended(text, key) == text + key + "\n";
        file := Some(text + key + "\n");
      }
      permanent := permanent + {key};
      promoted := true;
    }

    /** unblockPermanent; no other operation runs between its two halves. */
    method UnblockPermanent(rawKey: string, ioOk: bool) returns (ok: bool, err: bool)
      requires Valid()
      modifies this
      ensures Valid() && (old(InStep()) ==> InStep())
      ensures err ==> !ok && !ioOk && permanent == old(permanent) && file == old(file)
      ensures !err && Trim(rawKey) != "" ==>
                && permanent == old(permanent) - {Key(rawKey, parse)}
                && OnFile() == old(OnFile()) - {Key(rawKey, parse)}
      ensures !err && Writable(Key(rawKey, parse)) ==>
                (ok <==> Key(rawKey, parse) in old(permanent) + old(OnFile()))
      ensures Trim(rawKey) == "" ==> !ok && !err && permanent == old(permanent) && file == old(file)
    {
      KeyFacts(rawKey, parse);
      TrimTrims(rawKey);
      assert Canonical(parse) && WellFormed(Text()) && (file.Some? ==> hasPath);
      hide WellFormed, Blocks, Canonical, LoopbackByAddress, Writable, Key, Trim, Blank;
      var key := Trim(rawKey);
      ok, err := false, false;
      if key == "" {
        return;
      }
      var memoryKey := Key(key, parse);
      var inMemory := memoryKey in permanent;
      var removed;
      removed, err := RemoveOne(key, ioOk);
      if !err {
        ok := removed || inMemory;
        if ok {
          permanent := permanent - {memoryKey};
        }
      }
    }

    /** removePermanentSuccessful: lifts the blocks of addresses that have succeeded recently. */
    method RemovePermanentSuccessful(ips: set<string>, ioOk: bool) returns (count: nat, err: bool)
      requires Valid()
      modifies this
      ensures Valid() && (old(InStep()) ==> InStep())
      ensures err ==> !ioOk && permanent == old(permanent) && file == old(file)
      ensures !err ==> OnFile() == old(OnFile()) - Targets(ips, parse)
      ensures !err && hasPath ==> permanent == old(permanent) - Targets(ips, parse)
      ensures permanent <= old(permanent)
      ensures err ==> count == 0
      ensures !err ==> |old(OnFile()) * Targets(ips, parse)| <= count <= |Targets(ips, parse)|
      ensures !err && (forall key | key in Targets(ips, parse) :: Writable(key)) ==>
                count == |old(OnFile()) * Targets(ips, parse)|
    {
      hide WellFormed, Blocks, Canonical, LoopbackByAddress, Writable, Key, Targets;
      err := false;
      if ips == {} {
        EmptyTargets(parse);
        return 0, err;
      }
      var removed;
      err, removed := RemoveFromFile(ips, ioOk);
      if err {
        return 0, err;
      }
      permanent := permanent - removed;
      count := |removed|;
      SubsetSize(old(OnFile()) * Targets(ips, parse), removed);
      SubsetSize(removed, Targets(ips, parse));
      if removed <= old(OnFile()) {
        assert removed == old(OnFile()) * Targets(ips, parse);
      }
    }

    method SeparateOne(ip: string, ioOk: bool) returns (failed: bool, keys: set<string>)
      requires Canonical(parse) && WellFormed(Text()) && (file.Some? ==> hasPath)
      requires Key(ip, parse) != ""
      modifies `file
      ensures WellFormed(Text()) && (file.Some? ==> hasPath)
      ensures keys == if loopback(ip) then {} else {Key(ip, parse)}
      ensures failed ==> loopback(ip) && !ioOk
      ensures !loopback(ip) || failed ==> OnFile() == old(OnFile())
      ensures loopback(ip) && !failed ==> OnFile() == old(OnFile()) - {Key(ip, parse)}
    {
      hide *;
      failed, keys := false, {};
      if !loopback(ip) {
        var key := Key(ip, parse);
        if key != "" {
          keys := {key};
        }
      } else {
        var found;
        found, failed := RemoveOne(ip, ioOk);
      }
    }

    /** How far the loop has come: was and now are the blocks on file before the loop and at this point. */
    ghost predicate Separated(done: set<string>, normalized: set<string>, err: bool, was: set<string>,
                              now: set<string>) {
      var gone := Keys(done - NotLoopback(done), parse);
      normalized == Keys(NotLoopback(done), parse) && was - gone <= now <= was && (!err ==> now == was - gone)
    }

    lemma SeparatedStep(done: set<string>, normalized: set<string>, err: bool, was: set<string>, now: set<string>,
                        ip: string, failed: bool, now': set<string>)
      requires Separated(done, normalized, err, was, now) && ip !in done
      requires failed ==> loopback(ip)
      requires !loopback(ip) || failed ==> now' == now
      requires loopback(ip) && !failed ==> now' == now - {Key(ip, parse)}
      ensures Separated(done + {ip}, normalized + (if loopback(ip) then {} else {Key(ip, parse)}), err || failed, was,
                        now')
    {
      KeysAdd(NotLoopback(done), ip, parse);
      KeysAdd(done - NotLoopback(done), ip, parse);
      NotLoopbackAdd(done, ip);
      hide Keys, Key, NotLoopback;
    }

    /** At the end the kept keys are the blocks that are not loopback, and those are still on file. */
    lemma SeparatedDone(loaded: set<string>, normalized: set<string>, err: bool, was: set<string>, now: set<string>)
      requires Separated(loaded, normalized, err, was, now)
      requires was == Keys(loaded, parse) && LoopbackByAddress(loopback, parse)
      requires forall ip | ip in loaded :: Trimmed(ip)
      ensures normalized == NotLoopback(was) && normalized <= now
      ensures !err ==> now == normalized
    {
      LoopbackSplit(loaded, parse, loopback);
    }

    lemma SeparatedStart(was: set<string>)
      ensures Separated({}, {}, false, was, was)
    {
      assert {} - NotLoopback({}) == {};
    }

    /** Whether taking some loopback entry out of the file again fails; removeOk tells it of each spelling. */
    ghost predicate SomeRemovalFails(loaded: set<string>, removeOk: string -> bool) {
      exists ip :: ip in loaded && loopback(ip) && !removeOk(ip)
    }

    /** The loop over what was loaded: loopback entries are taken out of the file again, the others' keys kept. */
    method SeparateLoopback(loaded: set<string>, removeOk: string -> bool) returns (err: bool, normalized: set<string>)
      requires Canonical(parse) && WellFormed(Text()) && (file.Some? ==> hasPath)
      requires forall ip | ip in loaded :: Key(ip, parse) != ""
      modifies `file
      ensures WellFormed(Text()) && (file.Some? ==> hasPath)
      ensures Separated(loaded, normalized, err, old(OnFile()), OnFile())
      ensures err ==> SomeRemovalFails(loaded, removeOk)
    {
      hide *;
      normalized, err := {}, false;
      var done, todo := {}, loaded;
      SeparatedStart(OnFile());
      while todo != {}
        invariant todo <= loaded && done == loaded - todo
        invariant WellFormed(Text()) && (file.Some? ==> hasPath)
        invariant Separated(done, normalized, err, old(OnFile()), OnFile())
        invariant err ==> exists ip :: ip in loaded && loopback(ip) && !removeOk(ip)
        decreases |todo|
      {
        var ip :| ip in todo;
        ghost var now := OnFile();
        var failed, keys := SeparateOne(ip, removeOk(ip));
        SeparatedStep(done, normalized, err, old(OnFile()), now, ip, failed, OnFile());
        normalized := normalized + keys;
        err := err || failed;
        todo := todo - {ip};
        assert done + {ip} == loaded - todo;
        done := done + {ip};
      }
      assert done == loaded;
      if err {
        RemovalFails(loaded, removeOk);
      }
    }

    lemma RemovalFails(loaded: set<string>, removeOk: string -> bool)
      requires exists ip :: ip in loaded && loopback(ip) && !removeOk(ip)
      ensures SomeRemovalFails(loaded, removeOk)
    {
    }

    ghost function NotLoopback(names: set<string>): set<string> {
      set ip | ip in names && !loopback(ip)
    }

    lemma NotLoopbackAdd(names: set<string>, ip: string)
      requires ip !in names
      ensures loopback(ip) ==> NotLoopback(names + {ip}) == NotLoopback(names)
      ensures loopback(ip) ==> (names + {ip}) - NotLoopback(names + {ip}) == names - NotLoopback(names) + {ip}
      ensures !loopback(ip) ==> NotLoopback(names + {ip}) == NotLoopback(names) + {ip}
      ensures !loopback(ip) ==> (names + {ip}) - NotLoopback(names + {ip}) == names - NotLoopback(names)
    {
    }

    /** The loading half that concerns permanent blocks. An error means that the file could not be read or that a
        loopback entry could not be taken out of it. */
    method LoadPermanent(readOk: bool, removeOk: string -> bool) returns (err: bool)
      requires Valid()
      modifies this
      ensures Valid()
      ensures !readOk ==> err && permanent == old(permanent) && file == old(file)
      ensures readOk && err ==> SomeRemovalFails(old(Load(Text())), removeOk)
      ensures readOk ==> forall key | key in permanent :: !loopback(key)
      ensures readOk && hasPath ==> permanent == NotLoopback(old(OnFile()))
      ensures !err && hasPath ==> OnFile() == NotLoopback(old(OnFile())) && InStep()
    {
      if !readOk {
        return true;
      }
      var loaded := {};
      NothingInEmptyText(parse);
      if hasPath && file.Some? {
        loaded := LoadPermanentBlockedIPs(file.value);
      }
      assert loaded == Load(Text());
      EntriesHaveKeys(Text(), parse);
      assert OnFile() == Keys(loaded, parse);
      hide *;
      var normalized;
      err, normalized := SeparateLoopback(loaded, removeOk);
      SeparatedDone(loaded, normalized, err, old(OnFile()), OnFile());
      var kept := set key | key in permanent && !loopback(key);
      KeptIsNormalized(kept, old(OnFile()));
      permanent := kept + normalized;
    }

    lemma KeptIsNormalized(kept: set<string>, was: set<string>)
      requires hasPath ==> permanent <= was
      requires kept == set key | key in permanent && !loopback(key)
      ensures hasPath ==> kept <= NotLoopback(was)
      ensures forall key | key in kept + NotLoopback(was) :: !loopback(key)
    {
    }
  }

  lemma KeysAdd(names: set<string>, ip: string, parse: string -> string)
    ensures Keys(names + {ip}, parse) == Keys(names, parse) + {Key(ip, parse)}
  {
    hide Key;
  }

  lemma LoopbackSplit(names: set<string>, parse: string -> string, loopback: string -> bool)
    requires LoopbackByAddress(loopback, parse) && forall ip | ip in names :: Trimmed(ip)
    ensures var apart := set ip | ip in names && !loopback(ip);
            && Keys(apart, parse) == (set key | key in Keys(names, parse) && !loopback(key))
            && Keys(names - apart, parse) == (set key | key in Keys(names, parse) && loopback(key))
  {
    hide Key;
    assert forall ip | ip in names :: Key(ip, parse) in Keys(names, parse);
  }

  lemma KeyOnFile(text: string, parse: string -> string)
    requires Canonical(parse)
    ensures "" !in Blocks(text, parse)
  {
    EntriesHaveKeys(text, parse);
  }

  lemma EmptyTargets(parse: string -> string)
    ensures Targets({}, parse) == {}
  {
  }

  lemma OneTarget(ip: string, parse: string -> string)
    ensures Targets({ip}, parse) == {Key(ip, parse)} - {""}
  {
  }

  lemma EntriesHaveKeys(text: string, parse: string -> string)
    requires Canonical(parse)
    ensures forall ip | ip in Load(text) :: Key(ip, parse) != "" && Trimmed(ip)
  {
    forall ip | ip in Load(text) ensures Key(ip, parse) != "" && Trimmed(ip) {
      EntriesAreEntries(Split(text), ip);
      var i :| 0 <= i < |Split(text)| && Entry(Split(text)[i]) == [ip];
      KeyFacts(Split(text)[i], parse);
      TrimTrims(Split(text)[i]);
    }
  }

  /** The demands on the parser and the loopback test can be met, by a parser that knows two spellings of one
      address and a test that trims nothing. */
  lemma DemandsCanBeMet()
    ensures var parse := (s: string) => if s == "1" || s == "01" then "1" else "";
            var loopback := (s: string) => s == "1" || s == "01";
            Canonical(parse) && LoopbackByAddress(loopback, parse) && loopback(Key(" 1", parse)) && !loopback(" 1")
  {
    var parse := (s: string) => if s == "1" || s == "01" then "1" else "";
    var loopback := (s: string) => s == "1" || s == "01";
    assert " 1"[1..] == "1" && TrimLeft(" 1") == TrimLeft("1") == "1";
    TrimOfTrimmed("1");
    assert Trim(" 1") == "1";
    hide TrimLeft, TrimRight, Trim;
    forall s | Trimmed(s)
      ensures loopback(Key(s, parse)) == loopback(s)
    {
      TrimOfTrimmed(s);
    }
  }
}
