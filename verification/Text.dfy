// Trimming white space.
module Text {
  /** White space in the sense of strings.TrimSpace. */
  predicate IsSpace(c: char) {
    || '\t' <= c <= '\r' || c == ' ' || c == '\U{85}' || c == '\U{A0}' || c == '\U{1680}'
    || '\U{2000}' <= c <= '\U{200A}' || c in {'\U{2028}', '\U{2029}', '\U{202F}', '\U{205F}', '\U{3000}'}
  }

  function TrimLeft(s: string): string {
    if s != "" && IsSpace(s[0]) then TrimLeft(s[1..]) else s
  }

  function TrimRight(s: string): string {
    if s != "" && IsSpace(s[|s| - 1]) then TrimRight(s[..|s| - 1]) else s
  }

  function Trim(s: string): string {
    TrimRight(TrimLeft(s))
  }

  predicate Blank(s: string) {
    forall c | c in s :: IsSpace(c)
  }

  predicate Trimmed(s: string) {
    s == "" || (!IsSpace(s[0]) && !IsSpace(s[|s| - 1]))
  }

  lemma {:induction false} TrimLeftFacts(s: string)
    ensures |TrimLeft(s)| <= |s| && TrimLeft(s) == s[|s| - |TrimLeft(s)|..]
    ensures TrimLeft(s) != "" ==> !IsSpace(TrimLeft(s)[0])
    ensures TrimLeft(s) == "" <==> Blank(s)
  {
    if s != "" && IsSpace(s[0]) {
      TrimLeftFacts(s[1..]);
      assert s == [s[0]] + s[1..];
    }
  }

  lemma {:induction false} TrimRightFacts(s: string)
    ensures |TrimRight(s)| <= |s| && TrimRight(s) == s[..|TrimRight(s)|]
    ensures TrimRight(s) != "" ==> !IsSpace(TrimRight(s)[|TrimRight(s)| - 1])
    ensures TrimRight(s) == "" <==> Blank(s)
  {
    if s != "" && IsSpace(s[|s| - 1]) {
      TrimRightFacts(s[..|s| - 1]);
      assert s == s[..|s| - 1] + [s[|s| - 1]];
    }
  }

  lemma TrimTrims(s: string)
    ensures Trimmed(Trim(s))
    ensures Trim(s) == "" <==> Blank(s)
    ensures forall c | c in Trim(s) :: c in s
  {
    TrimLeftFacts(s);
    TrimRightFacts(TrimLeft(s));
  }

  lemma TrimOfTrimmed(s: string)
    requires Trimmed(s)
    ensures Trim(s) == s
  {
  }

  lemma {:induction false} TrimLeftOfSum(s: string, t: string)
    ensures TrimLeft(s + t) == if Blank(s) then TrimLeft(t) else TrimLeft(s) + t
  {
    if s == "" {
      assert s + t == t;
    } else if IsSpace(s[0]) {
      assert (s + t)[1..] == s[1..] + t;
      assert s == [s[0]] + s[1..];
      TrimLeftOfSum(s[1..], t);
    } else {
      assert s[0] in s;
    }
  }

  /** A text put after something that is not blank is no longer alone on its line. */
  lemma TrimOfSum(tail: string, ip: string)
    requires ip != "" && Trimmed(ip)
    ensures Trim(tail + ip) == if Blank(tail) then ip else TrimLeft(tail) + ip
  {
    TrimOfTrimmed(ip);
    TrimRightOfSolid(TrimLeft(tail) + ip);
    hide TrimRight, TrimLeft, IsSpace, Blank;
    TrimLeftOfSum(tail, ip);
  }

  lemma TrimRightOfSolid(s: string)
    requires s != "" && !IsSpace(s[|s| - 1])
    ensures TrimRight(s) == s
  {
  }

  lemma {:induction false} TrimRightOfSum(s: string, t: string)
    ensures TrimRight(s + t) == if Blank(t) then TrimRight(s) else s + TrimRight(t)
  {
    if t == "" {
      assert s + t == s;
    } else {
      var n := |t| - 1;
      assert t == t[..n] + [t[n]];
      if IsSpace(t[n]) {
        assert (s + t)[..|s + t| - 1] == s + t[..n];
        TrimRightOfSum(s, t[..n]);
      } else {
        assert t[n] in t;
      }
    }
  }

  /** Trimming takes white space off both ends and nothing else. */
  lemma TrimMeans(s: string) returns (left: string, right: string)
    ensures s == left + Trim(s) + right && Blank(left) && Blank(right) && Trimmed(Trim(s))
  {
    TrimTrims(s);
    left := LeftBlank(s);
    right := RightBlank(TrimLeft(s));
  }

  lemma {:induction false} LeftBlank(s: string) returns (left: string)
    ensures s == left + TrimLeft(s) && Blank(left)
  {
    left := "";
    if s != "" && IsSpace(s[0]) {
      left := LeftBlank(s[1..]);
      left := [s[0]] + left;
    }
  }

  lemma {:induction false} RightBlank(s: string) returns (right: string)
    ensures s == TrimRight(s) + right && Blank(right)
  {
    right := "";
    if s != "" && IsSpace(s[|s| - 1]) {
      right := RightBlank(s[..|s| - 1]);
      right := right + [s[|s| - 1]];
    }
  }

  /** No visible ASCII character is white space; blanks, tabs and line ends are. */
  lemma SpaceMeans(c: char)
    ensures '!' <= c <= '~' ==> !IsSpace(c)
    ensures c in {' ', '\t', '\n', '\r'} ==> IsSpace(c)
  {
  }
}
