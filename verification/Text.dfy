/** Byte strings and header text. A byte is written as the character that has its code, so the
    literals of the Python source keep their look. */
module Text {

  datatype Option<+T> = None | Some(value: T)

  /** `bytes.strip()` and the whitespace that `int()` skips. */
  predicate IsSpace(c: char) {
    c == ' ' || c == '\t' || c == '\n' || c == '\r' || c as int == 0x0b || c as int == 0x0c
  }

  function StripLeft(s: string): string {
    if s != [] && IsSpace(s[0]) then StripLeft(s[1..]) else s
  }

  function StripRight(s: string): string {
    if s != [] && IsSpace(s[|s| - 1]) then StripRight(s[..|s| - 1]) else s
  }

  function Strip(s: string): string { StripRight(StripLeft(s)) }

  /** Optional whitespace around a header value (section 3.2.3 of RFC 7230). */
  predicate IsOws(c: char) { c == ' ' || c == '\t' }

  function TrimLeft(s: string): string {
    if s != [] && IsOws(s[0]) then TrimLeft(s[1..]) else s
  }

  function TrimRight(s: string): string {
    if s != [] && IsOws(s[|s| - 1]) then TrimRight(s[..|s| - 1]) else s
  }

  function Trim(s: string): string { TrimRight(TrimLeft(s)) }

  /** `s.split(sep, 1)[0]`. */
  function Before(s: string, sep: char): string {
    if s == [] || s[0] == sep then [] else [s[0]] + Before(s[1..], sep)
  }

  /** What `readline()` returns: everything up to and including the first line feed. */
  function Line(s: string): (r: string)
    ensures |r| <= |s| && (s != [] ==> r != [])
  {
    if s == [] then []
    else if s[0] == '\n' then [s[0]]
    else [s[0]] + Line(s[1..])
  }

  /** ASCII `lower()`, which is all that comparing header names needs. */
  function Lower(s: string): (r: string)
    ensures |r| == |s|
    ensures forall i :: 0 <= i < |s| ==> r[i] == LowerChar(s[i])
  {
    seq(|s|, i requires 0 <= i < |s| => LowerChar(s[i]))
  }

  function LowerChar(c: char): char {
    if 'A' <= c <= 'Z' then (c as int + 32) as char else c
  }

  /** The `in` operator on strings. */
  predicate Contains(s: string, t: string) {
    exists i | 0 <= i <= |s| - |t| :: OccursAt(s, t, i)
  }

  predicate OccursAt(s: string, t: string, i: nat)
    requires i + |t| <= |s|
  {
    s[i..i + |t|] == t
  }

  lemma {:induction false} LineEndsAtFirstLineFeed(a: string, b: string)
    requires '\n' !in a
    ensures Line(a + "\n" + b) == a + "\n"
  {
    if a != [] {
      assert (a + "\n" + b)[1..] == a[1..] + "\n" + b;
      LineEndsAtFirstLineFeed(a[1..], b);
    }
  }

  /** Unless a line ran into the end of the input, later bytes do not change it. */
  lemma {:induction false} LineKeepsItsEnd(s: string, t: string)
    requires Line(s) != s || '\n' in Line(s)
    ensures Line(s + t) == Line(s)
    ensures (s + t)[|Line(s)|..] == s[|Line(s)|..] + t
  {
    if s[0] != '\n' {
      assert (s + t)[1..] == s[1..] + t;
      LineKeepsItsEnd(s[1..], t);
    }
  }

  lemma {:induction false} BeforeStops(s: string, sep: char, t: string)
    requires sep !in s && (t == [] || t[0] == sep)
    ensures Before(s + t, sep) == s
  {
    if s != [] {
      assert (s + t)[1..] == s[1..] + t;
      BeforeStops(s[1..], sep, t);
    }
  }

  lemma StripTight(s: string)
    requires s != [] && !IsSpace(s[0]) && !IsSpace(s[|s| - 1])
    ensures Strip(s) == s
    ensures Strip(s + "\r\n") == s
  {
    var t := s + "\r\n";
    assert StripLeft(t) == t;
    assert t[..|t| - 1] == s + "\r";
    assert (s + "\r")[..|s|] == s;
    assert StripRight(s + "\r") == StripRight(s);
  }

  /** What Python strips is whitespace, and none is left at the ends. */
  lemma StripIsSlice(s: string) returns (a: nat, b: nat)
    ensures a <= b <= |s| && Strip(s) == s[a..b]
    ensures forall i | 0 <= i < |s| && (i < a || b <= i) ::
      s[i] as int in {0x09, 0x0a, 0x0b, 0x0c, 0x0d, 0x20}
    ensures a < b ==>
      && s[a] as int !in {0x09, 0x0a, 0x0b, 0x0c, 0x0d, 0x20}
      && s[b - 1] as int !in {0x09, 0x0a, 0x0b, 0x0c, 0x0d, 0x20}
  {
    hide StripLeft, StripRight;
    a := StripLeftIsSuffix(s);
    var t := s[a..];
    var n := StripRightIsPrefix(t);
    b := a + n;
    assert forall i | b <= i < |s| :: s[i] == t[i - a];
    if a < b {
      assert t[0] == s[a] && t[n - 1] == s[b - 1];
    }
  }

  lemma {:induction false} StripLeftIsSuffix(s: string) returns (a: nat)
    ensures a <= |s| && StripLeft(s) == s[a..]
    ensures forall i | 0 <= i < a :: IsSpace(s[i])
    ensures a < |s| ==> !IsSpace(s[a])
  {
    a := 0;
    if s != [] && IsSpace(s[0]) {
      a := StripLeftIsSuffix(s[1..]);
      a := a + 1;
    }
  }

  lemma {:induction false} StripRightIsPrefix(s: string) returns (n: nat)
    ensures n <= |s| && StripRight(s) == s[..n]
    ensures forall i | n <= i < |s| :: IsSpace(s[i])
    ensures n > 0 ==> !IsSpace(s[n - 1])
  {
    n := |s|;
    if s != [] && IsSpace(s[|s| - 1]) {
      n := StripRightIsPrefix(s[..|s| - 1]);
    }
  }

  lemma LowerSample()
    ensures Lower("AMZ-amz09") == "amz-amz09"
  {
  }

  lemma {:induction false} LineIsPrefix(s: string)
    ensures Line(s) <= s
  {
    if s != [] && s[0] != '\n' {
      LineIsPrefix(s[1..]);
    }
  }

  lemma {:induction false} TrimRightIsPrefix(s: string)
    ensures TrimRight(s) <= s
    ensures forall i | |TrimRight(s)| <= i < |s| :: IsOws(s[i])
    ensures TrimRight(s) != [] ==> !IsOws(s[|TrimRight(s)| - 1])
  {
    if s != [] && IsOws(s[|s| - 1]) {
      TrimRightIsPrefix(s[..|s| - 1]);
    }
  }

  lemma {:induction false} TrimLeftIsSuffix(s: string) returns (a: nat)
    ensures a <= |s| && TrimLeft(s) == s[a..]
    ensures forall i | 0 <= i < a :: IsOws(s[i])
    ensures a < |s| ==> !IsOws(s[a])
  {
    a := 0;
    if s != [] && IsOws(s[0]) {
      a := TrimLeftIsSuffix(s[1..]);
      a := a + 1;
    }
  }

  /** What trimming takes away is spaces and tabs, and it leaves none at the ends. */
  lemma TrimIsSlice(s: string) returns (a: nat, b: nat)
    ensures a <= b <= |s| && Trim(s) == s[a..b]
    ensures forall i | 0 <= i < |s| && (i < a || b <= i) :: s[i] == ' ' || s[i] == '\t'
    ensures a < b ==> s[a] !in {' ', '\t'} && s[b - 1] !in {' ', '\t'}
  {
    hide TrimLeft, TrimRight;
    a := TrimLeftIsSuffix(s);
    var t := s[a..];
    TrimRightIsPrefix(t);
    b := a + |TrimRight(t)|;
    assert forall i | b <= i < |s| :: s[i] == t[i - a];
    if a < b {
      assert t[0] == s[a] && t[b - a - 1] == s[b - 1];
    }
  }

  lemma {:induction false} StripRightOfTrim(s: string)
    requires TrimRight(s) != [] && !IsSpace(TrimRight(s)[|TrimRight(s)| - 1])
    ensures StripRight(s) == TrimRight(s)
  {
    if IsOws(s[|s| - 1]) {
      StripRightOfTrim(s[..|s| - 1]);
    }
  }

  lemma {:induction false} StripLeftOfTrim(s: string)
    requires TrimLeft(s) != [] && !IsSpace(TrimLeft(s)[0])
    ensures StripLeft(s) == TrimLeft(s)
  {
    if IsOws(s[0]) {
      StripLeftOfTrim(s[1..]);
    }
  }

  /** If no other whitespace is left at the ends, Python strips what the RFC trims. */
  lemma StripIsTrim(s: string)
    requires Trim(s) != [] && !IsSpace(Trim(s)[0]) && !IsSpace(Trim(s)[|Trim(s)| - 1])
    ensures Strip(s) == Trim(s)
  {
    TrimRightIsPrefix(TrimLeft(s));
    StripLeftOfTrim(s);
    StripRightOfTrim(TrimLeft(s));
  }

  lemma TrimTight(s: string)
    requires s != [] && !IsOws(s[0]) && !IsOws(s[|s| - 1])
    ensures Trim(s) == s
  {
  }
}
