// Endpoint texts: splitting host and port, joining them again, and the spelling used for comparisons.
module HostPort {
  import opened Collections
  import opened Text

  const LOOPBACK := "127.0.0.1"

  /** strings.IndexByte and strings.LastIndexByte; -1 for none. */
  function IndexOf(s: string, c: char): (i: int)
    ensures -1 <= i < |s| && (i >= 0 ==> s[i] == c)
  {
    if s == "" then -1
    else if s[0] == c then 0
    else
      var i := IndexOf(s[1..], c);
      if i < 0 then -1 else i + 1
  }

  function LastIndexOf(s: string, c: char): (i: int)
    ensures -1 <= i < |s| && (i >= 0 ==> s[i] == c)
  {
    if s == "" then -1
    else if s[|s| - 1] == c then |s| - 1
    else LastIndexOf(s[..|s| - 1], c)
  }

  lemma {:induction false} LastIndexAfter(a: string, c: char, b: string)
    requires c !in b
    ensures LastIndexOf(a + [c] + b, c) == |a|
  {
    var s := a + [c] + b;
    if b == "" {
      assert s[|s| - 1] == c;
    } else {
      assert s[..|s| - 1] == a + [c] + b[..|b| - 1];
      assert s[|s| - 1] == b[|b| - 1] && b[|b| - 1] in b;
      LastIndexAfter(a, c, b[..|b| - 1]);
    }
  }

  /** net.SplitHostPort */
  function SplitHostPort(s: string): Option<(string, string)> {
    var i := LastIndexOf(s, ':');
    if i < 0 then None
    else if s[0] == '[' then
      var end := IndexOf(s, ']');
      if end < 0 || end + 1 != i || '[' in s[1..] || ']' in s[end + 1..] then None
      else Some((s[1..end], s[i + 1..]))
    else if ':' in s[..i] || '[' in s || ']' in s then None
    else Some((s[..i], s[i + 1..]))
  }

  predicate IsDigit(c: char) {
    '0' <= c <= '9'
  }

  function Value(digits: string): nat
    requires forall c | c in digits :: IsDigit(c)
  {
    if digits == "" then 0
    else
      assert digits[|digits| - 1] in digits && IsDigit(digits[|digits| - 1]);
      Value(digits[..|digits| - 1]) * 10 + (digits[|digits| - 1] as int - '0' as int)
  }

  /** strconv.Atoi, without its upper bound, which is far above every port. */
  function Atoi(s: string): Option<int> {
    var body := if s != "" && (s[0] == '+' || s[0] == '-') then s[1..] else s;
    if body == "" || exists c | c in body :: !IsDigit(c) then None
    else
      var value: int := Value(body);
      Some(if s[0] == '-' then -value else value)
  }

  function Itoa(n: nat): string {
    var digit := ['0' + (n % 10) as char];
    if n < 10 then digit else Itoa(n / 10) + digit
  }

  lemma {:induction false} AtoiOfItoa(n: nat)
    ensures Itoa(n) != "" && (forall c | c in Itoa(n) :: IsDigit(c)) && Value(Itoa(n)) == n
    ensures Atoi(Itoa(n)) == Some(n)
  {
    var text := Itoa(n);
    if n >= 10 {
      AtoiOfItoa(n / 10);
      assert text[..|text| - 1] == Itoa(n / 10);
    } else {
      assert text[..|text| - 1] == "";
    }
    assert text[0] in text;
  }

  function TrimBrackets(s: string): string {
    if s != "" && (s[0] == '[' || s[0] == ']') then TrimBrackets(s[1..])
    else if s != "" && (s[|s| - 1] == '[' || s[|s| - 1] == ']') then TrimBrackets(s[..|s| - 1])
    else s
  }

  function Lower(s: string): string {
    if s == "" then "" else [if 'A' <= s[0] <= 'Z' then s[0] + 'a' - 'A' else s[0]] + Lower(s[1..])
  }

  /** splitHostPort */
  function SplitPort(target: string): Option<(string, int)> {
    match SplitHostPort(Trim(target))
    case None => None
    case Some((host, portText)) =>
      match Atoi(portText)
      case None => None
      case Some(port) => if port <= 0 || port > 65535 then None else Some((TrimBrackets(host), port))
  }

  /** net.JoinHostPort */
  function JoinHostPort(host: string, port: string): string {
    if ':' in host then "[" + host + "]:" + port else host + ":" + port
  }

  /** normalizeTarget */
  function NormalTarget(target: string): string {
    match SplitHostPort(Trim(target))
    case None => Lower(Trim(target))
    case Some((host, port)) => JoinHostPort(Lower(TrimBrackets(host)), port)
  }

  function LoopbackAddr(port: nat): string {
    JoinHostPort(LOOPBACK, Itoa(port))
  }

  lemma LoopbackText(port: nat)
    ensures var addr, text := LoopbackAddr(port), Itoa(port);
            && addr == LOOPBACK + [':'] + text && Trim(addr) == addr
            && LastIndexOf(addr, ':') == 9 && addr[0] != '[' && addr[..9] == LOOPBACK && addr[10..] == text
            && '[' !in addr && ']' !in addr && ':' !in addr[..9]
  {
    AtoiOfItoa(port);
    var text := Itoa(port);
    hide Itoa, Atoi, Value;
    assert text[|text| - 1] in text && ':' !in text && '[' !in text && ']' !in text;
    LastIndexAfter(LOOPBACK, ':', text);
    hide LastIndexOf;
    assert ':' !in LOOPBACK && '[' !in LOOPBACK && ']' !in LOOPBACK;
    var addr := LOOPBACK + [':'] + text;
    assert addr == LoopbackAddr(port);
    assert addr[|addr| - 1] == text[|text| - 1] && addr[0] == '1';
    TrimOfTrimmed(addr);
  }

  lemma LoopbackHostIsPlain()
    ensures TrimBrackets(LOOPBACK) == LOOPBACK && Lower(LOOPBACK) == LOOPBACK
  {
    LowerOfPlain(LOOPBACK);
  }

  lemma LoopbackSplits(port: nat)
    ensures SplitHostPort(LoopbackAddr(port)) == Some((LOOPBACK, Itoa(port)))
    ensures LoopbackAddr(port) != "" && Trim(LoopbackAddr(port)) == LoopbackAddr(port)
  {
    LoopbackText(port);
    hide Trim, LastIndexOf, IndexOf, Itoa, LoopbackAddr;
  }

  // ---- What splitting and normalising mean for any endpoint ----

  predicate NoBrackets(s: string) {
    '[' !in s && ']' !in s
  }

  lemma {:induction false} IndexBefore(a: string, c: char, b: string)
    requires c !in a
    ensures IndexOf(a + [c] + b, c) == |a|
  {
    var s := a + [c] + b;
    if a == "" {
      assert s[0] == c;
    } else {
      assert s[0] == a[0] && a[0] in a;
      assert s[1..] == a[1..] + [c] + b;
      IndexBefore(a[1..], c, b);
    }
  }

  lemma {:induction false} IndexMeans(s: string, c: char)
    ensures IndexOf(s, c) < 0 <==> c !in s
    ensures IndexOf(s, c) >= 0 ==> c !in s[..IndexOf(s, c)]
  {
    if s != "" {
      IndexMeans(s[1..], c);
      assert s == [s[0]] + s[1..];
      if IndexOf(s, c) > 0 {
        assert s[..IndexOf(s, c)] == [s[0]] + s[1..][..IndexOf(s, c) - 1];
      }
    }
  }

  lemma {:induction false} LastIndexMeans(s: string, c: char)
    ensures LastIndexOf(s, c) < 0 <==> c !in s
    ensures LastIndexOf(s, c) >= 0 ==> c !in s[LastIndexOf(s, c) + 1..]
  {
    if s != "" {
      var init := s[..|s| - 1];
      LastIndexMeans(init, c);
      assert s == init + [s[|s| - 1]];
      if 0 <= LastIndexOf(s, c) < |s| - 1 {
        assert s[LastIndexOf(s, c) + 1..] == init[LastIndexOf(s, c) + 1..] + [s[|s| - 1]];
      }
    }
  }

  /** What joining gives is split again into its parts, also for an address that has colons itself. */
  lemma SplitOfJoin(host: string, port: string)
    requires NoBrackets(host) && NoBrackets(port) && ':' !in port
    ensures SplitHostPort(JoinHostPort(host, port)) == Some((host, port))
  {
    if ':' in host {
      SplitOfBracketed(host, port);
    } else {
      SplitOfPlain(host, port);
    }
    hide SplitHostPort;
  }

  lemma SplitOfBracketed(host: string, port: string)
    requires NoBrackets(host) && NoBrackets(port) && ':' !in port
    ensures SplitHostPort("[" + host + "]:" + port) == Some((host, port))
  {
    var s := "[" + host + "]:" + port;
    assert s == ("[" + host + "]") + [':'] + port && s == ("[" + host) + [']'] + (":" + port);
    LastIndexAfter("[" + host + "]", ':', port);
    IndexBefore("[" + host, ']', ":" + port);
    hide IndexOf, LastIndexOf;
    var end := |host| + 1;
    assert s[1..] == host + "]:" + port && s[end + 1..] == ":" + port;
    assert s[1..end] == host && s[end + 2..] == port;
  }

  lemma SplitOfPlain(host: string, port: string)
    requires NoBrackets(host) && NoBrackets(port) && ':' !in port && ':' !in host
    ensures SplitHostPort(host + ":" + port) == Some((host, port))
  {
    var s := host + ":" + port;
    assert s == host + [':'] + port;
    LastIndexAfter(host, ':', port);
    hide IndexOf, LastIndexOf;
    assert s[..|host|] == host && s[|host| + 1..] == port;
    assert '[' !in s && ']' !in s && s[0] in s;
  }

  /** Whatever splits is a host and a port around the last colon, the host in brackets if it has colons. */
  lemma SplitMeans(s: string)
    requires SplitHostPort(s).Some?
    ensures var (host, port) := SplitHostPort(s).value;
            && NoBrackets(host) && NoBrackets(port) && ':' !in port
            && ((':' !in host && s == host + ":" + port) || s == "[" + host + "]:" + port)
  {
    LastIndexMeans(s, ':');
    IndexMeans(s, ']');
    hide IndexOf, LastIndexOf;
    var i := LastIndexOf(s, ':');
    var port := s[i + 1..];
    assert s == s[..i] + ":" + port;
    if s[0] == '[' {
      var end := IndexOf(s, ']');
      var host := s[1..end];
      assert s[1..] == host + s[end..] && s[end + 1..] == ":" + port && s[..end] == "[" + host;
    }
  }

  lemma NoColonNoSplit(s: string)
    requires ':' !in s
    ensures SplitHostPort(s).None?
  {
    LastIndexMeans(s, ':');
  }

  lemma {:induction false} PlainHasNoBrackets(s: string)
    requires NoBrackets(s)
    ensures TrimBrackets(s) == s
  {
    if s != "" {
      assert s[0] in s && s[|s| - 1] in s;
    }
  }

  /** Brackets go from both ends, and nothing else. */
  lemma {:induction false} TrimBracketsMeans(s: string) returns (left: string, right: string)
    ensures s == left + TrimBrackets(s) + right
    ensures (forall i | 0 <= i < |left| :: left[i] in {'[', ']'}) && forall i | 0 <= i < |right| :: right[i] in {'[', ']'}
    ensures var t := TrimBrackets(s); t != "" ==> t[0] !in {'[', ']'} && t[|t| - 1] !in {'[', ']'}
  {
    left, right := "", "";
    if s != "" && (s[0] == '[' || s[0] == ']') {
      left, right := TrimBracketsMeans(s[1..]);
      left := [s[0]] + left;
    } else if s != "" && (s[|s| - 1] == '[' || s[|s| - 1] == ']') {
      left, right := TrimBracketsMeans(s[..|s| - 1]);
      right := right + [s[|s| - 1]];
    }
  }

  /** Lower case changes capitals, one by one, and nothing else. */
  lemma {:induction false} LowerMeans(s: string)
    ensures |Lower(s)| == |s|
    ensures forall i | 0 <= i < |s| ::
              if 'A' <= s[i] <= 'Z' then Lower(s)[i] as int == s[i] as int + 32 else Lower(s)[i] == s[i]
  {
    if s != "" {
      LowerMeans(s[1..]);
      assert forall i | 0 < i < |s| :: Lower(s)[i] == Lower(s[1..])[i - 1];
    }
  }

  lemma LowerKeepsShape(host: string)
    ensures NoBrackets(host) <==> NoBrackets(Lower(host))
    ensures ':' in host <==> ':' in Lower(host)
  {
    LowerMeans(host);
    forall c | c in {'[', ']', ':'}
      ensures c in host <==> c in Lower(host)
    {
      if c in host {
        var i :| 0 <= i < |host| && host[i] == c;
        assert Lower(host)[i] == c;
      }
      if c in Lower(host) {
        var i :| 0 <= i < |host| && Lower(host)[i] == c;
        assert host[i] == c;
      }
    }
  }

  /** Two endpoints have one normal spelling exactly if their ports are the same text and their hosts differ at most
      in the case of letters. */
  lemma NormalTargetMeans(host: string, port: string, host': string, port': string)
    requires NoBrackets(host) && NoBrackets(port) && ':' !in port && Trimmed(JoinHostPort(host, port))
    requires NoBrackets(host') && NoBrackets(port') && ':' !in port' && Trimmed(JoinHostPort(host', port'))
    ensures NormalTarget(JoinHostPort(host, port)) == JoinHostPort(Lower(host), port)
    ensures NormalTarget(JoinHostPort(host, port)) == NormalTarget(JoinHostPort(host', port')) <==>
            Lower(host) == Lower(host') && port == port'
  {
    NormalOfJoin(host, port);
    NormalOfJoin(host', port');
    LowerKeepsShape(host);
    LowerKeepsShape(host');
    SplitOfJoin(Lower(host), port);
    SplitOfJoin(Lower(host'), port');
    hide *;
  }

  lemma NormalOfJoin(host: string, port: string)
    requires NoBrackets(host) && NoBrackets(port) && ':' !in port && Trimmed(JoinHostPort(host, port))
    ensures NormalTarget(JoinHostPort(host, port)) == JoinHostPort(Lower(host), port)
  {
    SplitOfJoin(host, port);
    TrimOfTrimmed(JoinHostPort(host, port));
    PlainHasNoBrackets(host);
    hide Trim, SplitHostPort, Lower, TrimBrackets, JoinHostPort;
  }

  /** An endpoint with a number for its port is read as such exactly within the range of ports. */
  lemma SplitPortMeans(host: string, port: nat)
    requires NoBrackets(host) && Trimmed(JoinHostPort(host, Itoa(port)))
    ensures SplitPort(JoinHostPort(host, Itoa(port))) == if 1 <= port <= 65535 then Some((host, port)) else None
  {
    AtoiOfItoa(port);
    hide Trim, SplitHostPort, TrimBrackets, JoinHostPort, Itoa, Value, Atoi;
    var text := Itoa(port);
    assert NoBrackets(text) && ':' !in text;
    TrimOfTrimmed(JoinHostPort(host, text));
    SplitOfJoin(host, text);
    PlainHasNoBrackets(host);
  }

  /** A sign is read as one. */
  lemma SignedNumber(n: nat)
    ensures Atoi("-" + Itoa(n)).Some? && Atoi("-" + Itoa(n)).value == 0 - n && Atoi("+" + Itoa(n)) == Some(n)
  {
    AtoiOfItoa(n);
    var text := Itoa(n);
    assert ("-" + text)[1..] == text && ("+" + text)[1..] == text;
    hide Itoa, Value;
  }

  /** A port that is not a number is not read at all. */
  lemma NotANumber(s: string, i: nat)
    requires i < |s| && !IsDigit(s[i]) && !(i == 0 && (s[0] == '+' || s[0] == '-'))
    ensures Atoi(s).None?
  {
    var body := if s[0] == '+' || s[0] == '-' then s[1..] else s;
    assert s[i] in body;
  }

  /** The canonical loopback address of a port splits into its parts and is its own normal spelling. */
  lemma LoopbackIsCanonical(port: nat)
    ensures LoopbackAddr(port) != "" && Trim(LoopbackAddr(port)) == LoopbackAddr(port)
    ensures 0 < port <= 65535 ==> SplitPort(LoopbackAddr(port)) == Some((LOOPBACK, port))
    ensures NormalTarget(LoopbackAddr(port)) == LoopbackAddr(port)
  {
    hide Trim, SplitHostPort, Itoa, Atoi, Lower, TrimBrackets, JoinHostPort, Value;
    LoopbackSplits(port);
    AtoiOfItoa(port);
    LoopbackHostIsPlain();
  }

  lemma {:induction false} LowerOfPlain(s: string)
    requires forall c | c in s :: !('A' <= c <= 'Z')
    ensures Lower(s) == s
  {
    if s != "" {
      assert s[0] in s && forall c | c in s[1..] :: c in s;
      LowerOfPlain(s[1..]);
    }
  }

  /** Different ports have different addresses. */
  lemma LoopbackIsInjective(p: nat, q: nat)
    requires LoopbackAddr(p) == LoopbackAddr(q)
    ensures p == q
  {
    LoopbackSplits(p);
    LoopbackSplits(q);
    AtoiOfItoa(p);
    AtoiOfItoa(q);
    hide *;
  }
}
