// The text of the permanent-block file: one address a line, blank lines and # comments skipped.
module PermanentText {
  import opened Text

  /** strings.Split(text, "\n"). */
  function Split(text: string): (lines: seq<string>)
    ensures |lines| >= 1
  {
    if text == "" then [""]
    else
      var rest := Split(text[1..]);
      if text[0] == '\n' then [""] + rest else [[text[0]] + rest[0]] + rest[1..]
  }

  /** strings.Join(lines, "\n"). */
  function Join(lines: seq<string>): string {
    if lines == [] then "" else if |lines| == 1 then lines[0] else lines[0] + "\n" + Join(lines[1..])
  }

  ghost predicate OneLine(s: string) {
    '\n' !in s
  }

  predicate Terminated(text: string) {
    text != "" && text[|text| - 1] == '\n'
  }

  lemma {:induction false} SplitGivesLines(text: string)
    ensures forall line | line in Split(text) :: OneLine(line)
  {
    if text != "" {
      SplitGivesLines(text[1..]);
      assert Split(text[1..])[0] in Split(text[1..]);
    }
  }

  lemma {:induction false} SplitOfLine(s: string)
    requires OneLine(s)
    ensures Split(s) == [s]
  {
    if s != "" {
      assert s[0] in s;
      SplitOfLine(s[1..]);
      assert [s[0]] + s[1..] == s;
    }
  }

  /** A newline separates the lines before it from the lines after it. */
  lemma {:induction false} SplitOfSum(a: string, b: string)
    ensures Split(a + "\n" + b) == Split(a) + Split(b)
  {
    var t := a + "\n" + b;
    if a == "" {
      assert t == "\n" + b && t[1..] == b;
    } else {
      assert t[1..] == a[1..] + "\n" + b;
      SplitOfSum(a[1..], b);
    }
  }

  lemma JoinOfPrefixed(c: char, lines: seq<string>)
    requires lines != []
    ensures Join([[c] + lines[0]] + lines[1..]) == [c] + Join(lines)
  {
    var prefixed := [[c] + lines[0]] + lines[1..];
    if |lines| > 1 {
      assert prefixed[1..] == lines[1..];
      assert [c] + lines[0] + "\n" + Join(lines[1..]) == [c] + (lines[0] + "\n" + Join(lines[1..]));
    }
  }

  lemma {:induction false} JoinOfSplit(text: string)
    ensures Join(Split(text)) == text
  {
    if text != "" {
      JoinOfSplit(text[1..]);
      var rest := Split(text[1..]);
      assert text == [text[0]] + text[1..];
      if text[0] == '\n' {
        assert ([""] + rest)[1..] == rest;
        assert Join([""] + rest) == "" + "\n" + Join(rest);
      } else {
        hide Join;
        JoinOfPrefixed(text[0], rest);
      }
    }
  }

  lemma {:induction false} SplitOfJoin(lines: seq<string>)
    requires lines != [] && forall line | line in lines :: OneLine(line)
    ensures Split(Join(lines)) == lines
  {
    SplitOfLine(lines[0]);
    if |lines| > 1 {
      SplitOfJoin(lines[1..]);
      SplitOfSum(lines[0], Join(lines[1..]));
      assert lines == [lines[0]] + lines[1..];
    } else {
      assert lines == [lines[0]];
    }
  }

  /** A terminated text is its lines, each followed by a newline: Split sees one more, empty, line. */
  lemma SplitOfTerminated(text: string)
    requires Terminated(text)
    ensures Split(text) == Split(text[..|text| - 1]) + [""]
  {
    var body := text[..|text| - 1];
    assert Split("") == [""];
    hide Split;
    assert text == body + "\n" + "";
    SplitOfSum(body, "");
  }

  /** What a line contributes: its trimmed text, unless that is empty or a comment. */
  function Entry(line: string): seq<string> {
    var ip := Trim(line);
    if ip == "" || ip[0] == '#' then [] else [ip]
  }

  function EntriesOf(lines: seq<string>): seq<string> {
    if lines == [] then [] else Entry(lines[0]) + EntriesOf(lines[1..])
  }

  lemma {:induction false} EntriesOfSum(a: seq<string>, b: seq<string>)
    ensures EntriesOf(a + b) == EntriesOf(a) + EntriesOf(b)
  {
    if a == [] {
      assert a + b == b;
    } else {
      assert (a + b)[1..] == a[1..] + b;
      EntriesOfSum(a[1..], b);
    }
  }

  lemma {:induction false} EntriesAreEntries(lines: seq<string>, ip: string)
    ensures ip in EntriesOf(lines) <==> exists i :: 0 <= i < |lines| && Entry(lines[i]) == [ip]
  {
    if lines != [] {
      EntriesAreEntries(lines[1..], ip);
      assert lines == [lines[0]] + lines[1..];
      if ip in EntriesOf(lines[1..]) {
        var i :| 0 <= i < |lines[1..]| && Entry(lines[1..][i]) == [ip];
        assert Entry(lines[i + 1]) == [ip];
      }
      if i :| 0 <= i < |lines| && Entry(lines[i]) == [ip] && i > 0 {
        assert lines[1..][i - 1] == lines[i];
      }
    }
  }

  /** The lines a scanner delivers: no empty line after a final newline. */
  function ScanLines(text: string): seq<string> {
    var lines := Split(text);
    if lines[|lines| - 1] == "" then lines[..|lines| - 1] else lines
  }

  /** The entries of the file in order; the set of them is what is loaded. */
  ghost function Entries(text: string): seq<string> {
    EntriesOf(Split(text))
  }

  ghost function Load(text: string): set<string> {
    set ip | ip in Entries(text)
  }

  lemma ScanningFindsEntries(text: string)
    ensures EntriesOf(ScanLines(text)) == Entries(text)
  {
    var lines := Split(text);
    if lines[|lines| - 1] == "" {
      assert lines == lines[..|lines| - 1] + [""];
      EntriesOfSum(lines[..|lines| - 1], [""]);
      assert EntriesOf([""]) == [];
    }
  }

  /** An address as the tracker writes it. */
  ghost predicate Writable(ip: string) {
    ip != "" && Trimmed(ip) && OneLine(ip) && '\r' !in ip && ip[0] != '#'
  }

  function Appended(text: string, ip: string): string {
    if Trim(ip) == "" then text else text + Trim(ip) + "\n"
  }

  /** Appending to a text that ends with a newline adds one entry at the end and keeps the rest. */
  lemma AppendAddsEntry(text: string, ip: string)
    requires text == "" || Terminated(text)
    requires Writable(ip)
    ensures Terminated(Appended(text, ip))
    ensures Entries(Appended(text, ip)) == Entries(text) + [ip]
    ensures Load(Appended(text, ip)) == Load(text) + {ip}
  {
    AppendJoinsTail(text, ip);
    if Terminated(text) {
      SplitOfTerminated(text);
    }
    hide Entries, Appended;
  }

  /** Every text is what precedes its last newline, that newline, and a last line. */
  lemma {:induction false} LastLine(text: string) returns (several: bool, body: string, tail: string)
    ensures OneLine(tail) && text == (if several then body + "\n" + tail else tail)
  {
    if text == "" {
      several, body, tail := false, "", "";
    } else {
      var n := |text| - 1;
      assert text == text[..n] + [text[n]];
      if text[n] == '\n' {
        several, body, tail := true, text[..n], "";
      } else {
        several, body, tail := LastLine(text[..n]);
        tail := tail + [text[n]];
      }
    }
  }

  lemma SplitOfExtended(text: string, ip: string) returns (prefix: seq<string>, tail: string)
    requires OneLine(ip)
    ensures Split(text) == prefix + [tail] && Split(text + ip) == prefix + [tail + ip]
  {
    hide Split, OneLine;
    var several, body, last := LastLine(text);
    prefix, tail := [], last;
    SplitOfLine(last);
    SumOfLines(last, ip);
    SplitOfLine(last + ip);
    if several {
      prefix := Split(body);
      SplitOfSum(body, last);
      SplitOfSum(body, last + ip);
      assert text + ip == body + "\n" + (last + ip);
    }
  }

  /** The address continues the last line, and a new empty one begins. */
  lemma SplitOfAppended(text: string, ip: string)
    requires OneLine(ip)
    ensures var lines := Split(text); var n := |lines| - 1;
            Split(text + ip + "\n") == lines[..n] + [lines[n] + ip] + [""]
  {
    assert Split("") == [""];
    hide Split, OneLine;
    var prefix, tail := SplitOfExtended(text, ip);
    SplitOfSum(text + ip, "");
    assert text + ip + "\n" + "" == text + ip + "\n";
    assert (prefix + [tail])[..|prefix|] == prefix;
  }

  lemma SumOfLines(a: string, b: string)
    requires OneLine(a) && OneLine(b)
    ensures OneLine(a + b)
  {
  }

  lemma EntriesOfAppended(text: string, ip: string)
    requires OneLine(ip)
    ensures var lines := Split(text); var n := |lines| - 1;
            Entries(text + ip + "\n") == EntriesOf(lines[..n]) + Entry(lines[n] + ip)
  {
    var lines := Split(text);
    var n := |lines| - 1;
    SplitOfAppended(text, ip);
    EntriesOfSum(lines[..n] + [lines[n] + ip], [""]);
    EntriesOfSum(lines[..n], [lines[n] + ip]);
    EntriesOfOne(lines[n] + ip);
    EntriesOfOne("");
  }

  lemma EntriesOfOne(line: string)
    ensures EntriesOf([line]) == Entry(line)
  {
    assert [line][1..] == [];
  }

  lemma EntriesByTail(text: string)
    ensures var lines := Split(text); var n := |lines| - 1;
            Entries(text) == EntriesOf(lines[..n]) + Entry(lines[n])
  {
    var lines := Split(text);
    var n := |lines| - 1;
    assert lines == lines[..n] + [lines[n]];
    EntriesOfSum(lines[..n], [lines[n]]);
    EntriesOfOne(lines[n]);
  }

  /** In general the address joins whatever follows the last newline. */
  lemma AppendJoinsTail(text: string, ip: string)
    requires Writable(ip)
    ensures var lines := Split(text); var n := |lines| - 1;
            Entries(Appended(text, ip)) ==
            EntriesOf(lines[..n]) + (if Blank(lines[n]) then [ip] else Entry(TrimLeft(lines[n]) + ip))
    ensures Blank(Split(text)[|Split(text)| - 1]) ==> Entries(Appended(text, ip)) == Entries(text) + [ip]
  {
    var lines := Split(text);
    var n := |lines| - 1;
    var tail := lines[n];
    TrimOfTrimmed(ip);
    assert Appended(text, ip) == text + ip + "\n";
    hide Split, EntriesOf, Entry, TrimLeft, Trim, Entries, Blank, Appended;
    EntriesOfAppended(text, ip);
    EntriesByTail(text);
    EntryOfSum(tail, ip);
    assert EntriesOf(lines[..n]) + [] == EntriesOf(lines[..n]);
  }

  lemma EntryOfSum(tail: string, ip: string)
    requires Writable(ip)
    ensures Blank(tail) ==> Entry(tail + ip) == [ip] && Entry(tail) == []
    ensures !Blank(tail) ==> Entry(tail + ip) == Entry(TrimLeft(tail) + ip) && ip !in Entry(tail + ip)
  {
    hide IsSpace, Trim, TrimLeft;
    TrimOfSum(tail, ip);
    TrimTrims(tail);
    TrimLeftFacts(tail);
    if !Blank(tail) {
      TrimOfTrimmed(TrimLeft(tail) + ip);
      assert |TrimLeft(tail) + ip| > |ip|;
    }
  }

  /** The exact condition: a new address is read back, and nothing else is lost or added, if and only if nothing
      but white space follows the last newline. */
  lemma AppendWorksIffTailBlank(text: string, ip: string)
    requires Writable(ip) && ip !in Load(text)
    ensures Load(Appended(text, ip)) == Load(text) + {ip} <==> Blank(Split(text)[|Split(text)| - 1])
  {
    hide Split, EntriesOf, Entry, TrimLeft;
    AppendJoinsTail(text, ip);
    var lines := Split(text);
    var n := |lines| - 1;
    if !Blank(lines[n]) {
      EntriesByTail(text);
      EntryOfSum(lines[n], ip);
      assert ip !in Entries(text);
      assert ip !in Entries(Appended(text, ip));
      assert ip !in Load(Appended(text, ip));
    }
  }

  /** Windows and old Macintosh line ends become newlines. */
  function CrLfToLf(text: string): string {
    if text == "" then ""
    else if |text| >= 2 && text[0] == '\r' && text[1] == '\n' then "\n" + CrLfToLf(text[2..])
    else [text[0]] + CrLfToLf(text[1..])
  }

  function CrToLf(text: string): string {
    if text == "" then "" else [if text[0] == '\r' then '\n' else text[0]] + CrToLf(text[1..])
  }

  function Normal(text: string): string {
    CrToLf(CrLfToLf(text))
  }

  lemma {:induction false} NormalIsPlain(text: string)
    ensures '\r' !in Normal(text)
  {
    CrToLfIsPlain(CrLfToLf(text));
  }

  lemma {:induction false} CrToLfIsPlain(text: string)
    ensures '\r' !in CrToLf(text)
  {
    if text != "" {
      CrToLfIsPlain(text[1..]);
    }
  }

  lemma {:induction false} NormalOfPlain(text: string)
    requires '\r' !in text
    ensures Normal(text) == text
  {
    if text != "" {
      assert text[0] in text;
      NormalOfPlain(text[1..]);
      assert text == [text[0]] + text[1..];
    }
  }

  // ---- What normalising does to the entries ----

  /** The pieces a line falls into when its carriage returns are line ends. */
  function Pieces(line: string): seq<string> {
    Split(CrToLf(line))
  }

  ghost function PieceEntries(lines: seq<string>): seq<string> {
    if lines == [] then [] else EntriesOf(Pieces(lines[0])) + PieceEntries(lines[1..])
  }

  function Chomped(line: string): string {
    if line != "" && line[|line| - 1] == '\r' then line[..|line| - 1] else line
  }

  lemma {:induction false} FirstLine(text: string) returns (several: bool, line: string, rest: string)
    ensures OneLine(line) && text == (if several then line + "\n" + rest else line)
    ensures several ==> |rest| < |text|
  {
    if text == "" {
      several, line, rest := false, "", "";
    } else if text[0] == '\n' {
      several, line, rest := true, "", text[1..];
    } else {
      several, line, rest := FirstLine(text[1..]);
      line := [text[0]] + line;
    }
  }

  lemma CrLfStep(text: string)
    requires text != "" && !(|text| >= 2 && text[0] == '\r' && text[1] == '\n')
    ensures CrLfToLf(text) == [text[0]] + CrLfToLf(text[1..])
  {
  }

  lemma ChompedStep(line: string)
    requires line != "" && line != "\r"
    ensures Chomped(line) == [line[0]] + Chomped(line[1..])
  {
    if |line| > 1 && line[|line| - 1] == '\r' {
      assert line[..|line| - 1] == [line[0]] + line[1..][..|line| - 2];
    }
  }

  lemma {:induction false} CrLfOfOneLine(line: string)
    requires OneLine(line)
    ensures CrLfToLf(line) == line
  {
    if line != "" {
      assert |line| >= 2 ==> line[1] in line;
      CrLfStep(line);
      hide CrLfToLf;
      CrLfOfOneLine(line[1..]);
    }
  }

  lemma {:induction false} CrLfOfLine(line: string, rest: string)
    requires OneLine(line)
    ensures CrLfToLf(line + "\n" + rest) == Chomped(line) + "\n" + CrLfToLf(rest)
  {
    var text := line + "\n" + rest;
    if line == "" {
      assert text[1..] == rest;
    } else if line == "\r" {
      assert text[2..] == rest;
    } else {
      assert |line| >= 2 ==> line[1] in line;
      assert |line| == 1 ==> line[0] != '\r';
      assert text[1..] == line[1..] + "\n" + rest;
      CrLfStep(text);
      ChompedStep(line);
      hide CrLfToLf, Chomped;
      CrLfOfLine(line[1..], rest);
    }
  }

  lemma {:induction false} CrToLfOfSum(a: string, b: string)
    ensures CrToLf(a + b) == CrToLf(a) + CrToLf(b)
  {
    if a == "" {
      assert a + b == b;
    } else {
      assert (a + b)[1..] == a[1..] + b;
      CrToLfOfSum(a[1..], b);
    }
  }

  lemma EntriesOfLines(a: string, b: string)
    ensures Entries(a + "\n" + b) == Entries(a) + Entries(b)
  {
    hide Split, EntriesOf;
    SplitOfSum(a, b);
    EntriesOfSum(Split(a), Split(b));
  }

  /** The carriage return that belongs to a Windows line end makes no entry. */
  lemma EntriesOfChomped(line: string)
    ensures Entries(CrToLf(Chomped(line))) == EntriesOf(Pieces(line))
  {
    if line != "" && line[|line| - 1] == '\r' {
      var body := Chomped(line);
      assert line == body + "\r";
      CrToLfOfSum(body, "\r");
      assert CrToLf("\r") == "\n" + CrToLf("");
      assert CrToLf(line) == CrToLf(body) + "\n" + "";
      EntriesOfLines(CrToLf(body), "");
      EntriesOfOne("");
      assert Split("") == [""];
    }
  }

  lemma {:induction false} EntriesOfNormal(text: string)
    ensures Entries(Normal(text)) == PieceEntries(Split(text))
    decreases |text|
  {
    var several, line, rest := FirstLine(text);
    CrLfOfOneLine(line);
    SplitOfLine(line);
    if several {
      CrLfOfLine(line, rest);
      EntriesOfNormal(rest);
      SplitOfSum(line, rest);
      EntriesOfChomped(line);
      hide Split, EntriesOf, Pieces, Entries, CrLfToLf, CrToLf, Chomped;
      CrToLfOfLines(Chomped(line), CrLfToLf(rest));
      EntriesOfLines(CrToLf(Chomped(line)), Normal(rest));
      assert ([line] + Split(rest))[1..] == Split(rest);
    } else {
      hide Split, EntriesOf;
      assert [line][1..] == [];
      assert PieceEntries([line]) == EntriesOf(Pieces(line)) + [];
    }
  }

  lemma CrToLfOfLines(a: string, b: string)
    ensures CrToLf(a + "\n" + b) == CrToLf(a) + "\n" + CrToLf(b)
  {
    CrToLfOfSum(a + "\n", b);
    CrToLfOfSum(a, "\n");
    assert CrToLf("\n") == "\n" + CrToLf("");
  }

  lemma {:induction false} FirstReturn(line: string) returns (found: bool, a: string, b: string)
    ensures '\r' !in a && line == (if found then a + "\r" + b else a)
    ensures found ==> |b| < |line|
  {
    if line == "" {
      found, a, b := false, "", "";
    } else if line[0] == '\r' {
      found, a, b := true, "", line[1..];
    } else {
      found, a, b := FirstReturn(line[1..]);
      a := [line[0]] + a;
    }
  }

  lemma {:induction false} CrToLfOfPlain(a: string)
    requires '\r' !in a
    ensures CrToLf(a) == a
  {
    if a != "" {
      assert a[0] in a && forall c | c in a[1..] :: c in a;
      CrToLfOfPlain(a[1..]);
    }
  }

  /** A line that falls apart at its first carriage return. */
  lemma PiecesAtReturn(a: string, b: string)
    requires OneLine(a) && '\r' !in a
    ensures EntriesOf(Pieces(a + "\r" + b)) == Entry(a) + EntriesOf(Pieces(b))
  {
    CrToLfOfPlain(a);
    CrToLfOfSum(a + "\r", b);
    CrToLfOfSum(a, "\r");
    assert CrToLf("\r") == "\n" + CrToLf("");
    assert CrToLf(a + "\r" + b) == a + "\n" + CrToLf(b);
    hide Split, EntriesOf, CrToLf, Entry;
    EntriesOfLines(a, CrToLf(b));
    SplitOfLine(a);
    EntriesOfOne(a);
  }

  lemma PiecesOfPlain(a: string)
    requires OneLine(a) && '\r' !in a
    ensures Pieces(a) == [a] && EntriesOf(Pieces(a)) == Entry(a)
  {
    CrToLfOfPlain(a);
    SplitOfLine(a);
    EntriesOfOne(a);
  }

  lemma TrimAtReturn(a: string, b: string)
    requires '\r' !in a
    ensures Blank(a) ==> Trim(a + "\r" + b) == Trim(b) && Blank(a + "\r" + b) == Blank(b)
    ensures !Blank(a) ==> Trim(a + "\r" + b) != "" && Trim(a) != "" && Trim(a + "\r" + b)[0] == Trim(a)[0]
    ensures !Blank(a) && Blank(b) ==> Trim(a + "\r" + b) == Trim(a)
    ensures !Blank(a) && !Blank(b) ==> '\r' in Trim(a + "\r" + b)
  {
    var line := a + "\r" + b;
    assert line == a + ("\r" + b);
    TrimLeftOfSum(a, "\r" + b);
    TrimLeftOfSum("\r", b);
    assert Blank("\r") && (Blank("\r" + b) <==> Blank(b));
    TrimTrims(a);
    TrimTrims(line);
    TrimLeftFacts(a);
    if !Blank(a) {
      var l := TrimLeft(a);
      assert exists c | c in a :: !IsSpace(c);
      assert !Blank(line);
      TrimRightFacts(l);
      assert l[0] == Trim(a)[0];
      TrimRightOfSum(l, "\r" + b);
      if !Blank(b) {
        TrimRightOfSum("\r", b);
        var t := l + ("\r" + TrimRight(b));
        assert t[|l|] == '\r';
        hide IsSpace, Trim, TrimLeft, TrimRight;
      }
    }
  }

  lemma {:induction false} BlankHasNoPieces(line: string)
    requires OneLine(line) && Blank(line)
    ensures EntriesOf(Pieces(line)) == []
    decreases |line|
  {
    var found, a, b := FirstReturn(line);
    assert forall c | c in a :: c in line;
    TrimTrims(a);
    if found {
      assert forall c | c in b :: c in line;
      PiecesAtReturn(a, b);
      BlankHasNoPieces(b);
    } else {
      PiecesOfPlain(a);
    }
  }

  /** An entry line keeps its entry exactly when no carriage return is inside its trimmed text; otherwise the
      first piece is another entry. */
  lemma {:induction false} EntryLine(line: string)
    requires OneLine(line) && Entry(line) != []
    ensures |EntriesOf(Pieces(line))| >= 1
    ensures EntriesOf(Pieces(line)) == Entry(line) <==> '\r' !in Trim(line)
    decreases |line|
  {
    var found, a, b := FirstReturn(line);
    assert forall c | c in a :: c in line;
    TrimTrims(a);
    if found {
      assert forall c | c in b :: c in line;
      TrimTrims(b);
      PiecesAtReturn(a, b);
      TrimAtReturn(a, b);
      hide Pieces, EntriesOf, Trim, Blank;
      if Trim(a) == "" {
        EntryLine(b);
      } else {
        assert Entry(a) == [Trim(a)] && '\r' !in Trim(a);
        if Trim(b) == "" {
          BlankHasNoPieces(b);
        } else {
          assert (Entry(a) + EntriesOf(Pieces(b)))[0] == Trim(a);
        }
      }
    } else {
      PiecesOfPlain(a);
    }
  }

  lemma {:induction false} NoEntries(lines: seq<string>)
    ensures EntriesOf(lines) == [] <==> forall line | line in lines :: Entry(line) == []
  {
    if lines != [] {
      NoEntries(lines[1..]);
      assert lines == [lines[0]] + lines[1..];
      hide Entry;
    }
  }

  /** No carriage return is inside the trimmed text of an entry line, and none is followed by anything but blanks
      and comments in any other line. */
  predicate LineIsSafe(line: string) {
    if Entry(line) != [] then '\r' !in Trim(line) else forall piece | piece in Pieces(line) :: Entry(piece) == []
  }

  predicate CarriageSafe(text: string) {
    forall line | line in Split(text) :: LineIsSafe(line)
  }

  lemma SafeLine(line: string)
    requires OneLine(line)
    ensures EntriesOf(Pieces(line)) == Entry(line) <==> LineIsSafe(line)
    ensures |EntriesOf(Pieces(line))| >= |Entry(line)|
  {
    if Entry(line) != [] {
      EntryLine(line);
    } else {
      NoEntries(Pieces(line));
    }
  }

  /** No line loses entries by normalising, so the whole keeps them only if each line does. */
  lemma {:induction false} PiecesKeepEntriesIff(lines: seq<string>)
    requires forall line | line in lines :: OneLine(line)
    ensures |PieceEntries(lines)| >= |EntriesOf(lines)|
    ensures PieceEntries(lines) == EntriesOf(lines) <==> forall line | line in lines :: LineIsSafe(line)
  {
    if lines != [] {
      var line, rest := lines[0], lines[1..];
      assert lines == [line] + rest;
      PiecesKeepEntriesIff(rest);
      SafeLine(line);
      var p, q, e, f := EntriesOf(Pieces(line)), PieceEntries(rest), Entry(line), EntriesOf(rest);
      assert PieceEntries(lines) == p + q && EntriesOf(lines) == e + f;
      hide LineIsSafe, Pieces, Entry, EntriesOf, PieceEntries, OneLine;
      if p + q == e + f {
        assert |p| == |e| && p == (p + q)[..|p|] && e == (e + f)[..|e|];
        assert q == (p + q)[|p|..] && f == (e + f)[|e|..];
      }
    }
  }

  /** Removal and loading read the same entries of a text if and only if each of its lines is safe. */
  lemma NormalKeepsEntriesIff(text: string)
    ensures Entries(Normal(text)) == Entries(text) <==> CarriageSafe(text)
  {
    EntriesOfNormal(text);
    SplitGivesLines(text);
    PiecesKeepEntriesIff(Split(text));
  }

  /** A carriage return between two addresses: loading finds one entry where removal finds two. */
  lemma ReturnInsideEntry(a: string, b: string)
    requires Writable(a) && Writable(b)
    ensures Entries(a + "\r" + b) == [a + "\r" + b]
    ensures Entries(Normal(a + "\r" + b)) == [a, b]
    ensures !CarriageSafe(a + "\r" + b)
  {
    hide Split, Trim, Pieces, EntriesOf, Normal, Writable, Entry, CarriageSafe;
    var text := a + "\r" + b;
    PairIsEntry(a, b);
    SplitOfLine(text);
    EntriesOfOne(text);
    EntriesOfNormal(text);
    PiecesAtReturn(a, b);
    PiecesOfPlain(b);
    assert [text][1..] == [];
    assert PieceEntries([text]) == EntriesOf(Pieces(text)) + [];
    NormalKeepsEntriesIff(text);
  }

  lemma PairIsEntry(a: string, b: string)
    requires Writable(a) && Writable(b)
    ensures OneLine(a + "\r" + b) && Entry(a + "\r" + b) == [a + "\r" + b]
    ensures Entry(a) == [a] && Entry(b) == [b] && OneLine(a) && OneLine(b) && '\r' !in a && '\r' !in b
  {
    hide IsSpace;
    var text := a + "\r" + b;
    assert text[0] == a[0] && text[|text| - 1] == b[|b| - 1];
    TrimOfTrimmed(a);
    TrimOfTrimmed(b);
    TrimOfTrimmed(text);
    hide Trim;
  }

  /** Every carriage return belongs to a Windows line end. */
  predicate WindowsOrUnix(text: string) {
    forall i :: 0 <= i < |text| && text[i] == '\r' ==> i + 1 < |text| && text[i + 1] == '\n'
  }

  /** In particular the texts of Windows and Unix are safe. */
  lemma {:induction false} WindowsIsSafe(text: string)
    requires WindowsOrUnix(text)
    ensures CarriageSafe(text)
    decreases |text|
  {
    var several, line, rest := FirstLine(text);
    SplitOfLine(line);
    if several {
      assert forall i | 0 <= i < |rest| :: text[|line| + 1 + i] == rest[i];
      SplitOfSum(line, rest);
      WindowsIsSafe(rest);
    }
    forall i | 0 <= i < |line| - 1
      ensures line[i] != '\r'
    {
      assert text[i] == line[i] && text[i + 1] == line[i + 1] && line[i + 1] in line;
    }
    ChompedIsSafe(line);
  }

  lemma ChompedIsSafe(line: string)
    requires OneLine(line) && forall i | 0 <= i < |line| - 1 :: line[i] != '\r'
    ensures LineIsSafe(line)
  {
    SafeLine(line);
    PiecesOfPlain("");
    EntriesOfOne("");
    if line != "" && line[|line| - 1] == '\r' {
      var body := Chomped(line);
      assert line == body + "\r" + "";
      PiecesAtReturn(body, "");
      TrimAtReturn(body, "");
      TrimTrims(body);
      TrimTrims("");
      hide Pieces, EntriesOf, Trim, LineIsSafe, Blank;
      assert Entry("") == [];
    } else {
      PiecesOfPlain(line);
    }
  }
}
