/** String library functions the cleaner and the repositories call. */
module Text {

  /** unicode.IsSpace, the characters strings.TrimSpace removes. */
  predicate IsSpace(c: char) {
    || '\t' <= c <= '\r' || c == ' ' || c == '\U{85}' || c == '\U{A0}' || c == '\U{1680}'
    || '\U{2000}' <= c <= '\U{200A}' || c == '\U{2028}' || c == '\U{2029}' || c == '\U{202F}'
    || c == '\U{205F}' || c == '\U{3000}'
  }

  function TrimLeft(s: string): string {
    if s != [] && IsSpace(s[0]) then TrimLeft(s[1..]) else s
  }

  function TrimRight(s: string): string {
    if s != [] && IsSpace(s[|s| - 1]) then TrimRight(s[..|s| - 1]) else s
  }

  /** strings.TrimSpace. */
  function TrimSpace(s: string): string {
    TrimRight(TrimLeft(s))
  }

  /** unicode.ToLower as far as its result can be an ASCII letter; every other character is
      left alone, since it cannot lower to one. */
  function ToLowerChar(c: char): char {
    if 'A' <= c <= 'Z' then (c as int + 32) as char
    else if c == '\U{130}' then 'i'
    else if c == '\U{212A}' then 'k'
    else c
  }

  function ToLower(s: string): string {
    seq(|s|, i requires 0 <= i < |s| => ToLowerChar(s[i]))
  }

  /** The characters trimming removes, by code point. */
  lemma SpaceTable(c: char)
    ensures IsSpace(c) <==>
            c as int in {0x09, 0x0A, 0x0B, 0x0C, 0x0D, 0x20, 0x85, 0xA0, 0x1680,
                         0x2000, 0x2001, 0x2002, 0x2003, 0x2004, 0x2005, 0x2006, 0x2007, 0x2008, 0x2009, 0x200A,
                         0x2028, 0x2029, 0x202F, 0x205F, 0x3000}
  {
  }

  lemma {:induction false} TrimLeftMeaning(s: string) returns (a: nat)
    ensures a <= |s| && TrimLeft(s) == s[a..]
    ensures forall i | 0 <= i < a :: IsSpace(s[i])
    ensures a < |s| ==> !IsSpace(s[a])
  {
    if s != [] && IsSpace(s[0]) {
      var b := TrimLeftMeaning(s[1..]);
      a := b + 1;
      assert forall i | 1 <= i < a :: s[i] == s[1..][i - 1];
    } else {
      a := 0;
    }
  }

  lemma {:induction false} TrimRightMeaning(s: string) returns (b: nat)
    ensures b <= |s| && TrimRight(s) == s[..b]
    ensures forall i | b <= i < |s| :: IsSpace(s[i])
    ensures b > 0 ==> !IsSpace(s[b - 1])
  {
    if s != [] && IsSpace(s[|s| - 1]) {
      b := TrimRightMeaning(s[..|s| - 1]);
    } else {
      b := |s|;
    }
  }

  /** Trimming takes away the spaces at both ends and nothing else. */
  lemma TrimSpaceMeaning(s: string) returns (a: nat, b: nat)
    ensures a <= b <= |s| && TrimSpace(s) == s[a..b]
    ensures forall i | 0 <= i < a || b <= i < |s| :: IsSpace(s[i])
    ensures a < b ==> !IsSpace(s[a]) && !IsSpace(s[b - 1])
  {
    a := TrimLeftMeaning(s);
    var left := s[a..];
    var m := TrimRightMeaning(left);
    b := a + m;
    assert forall i | b <= i < |s| :: s[i] == left[i - a];
    assert m > 0 ==> left[m - 1] == s[b - 1];
  }

  /** Nothing is left of a text exactly when it is all spaces. */
  lemma TrimSpaceEmpty(s: string)
    ensures TrimSpace(s) == "" <==> forall i | 0 <= i < |s| :: IsSpace(s[i])
  {
    var a, b := TrimSpaceMeaning(s);
  }

  /** Which characters can lower to an ASCII letter, and to which, by code point. */
  lemma LowerTable(c: char)
    ensures 65 <= c as int <= 90 ==> ToLowerChar(c) as int - c as int == 32
    ensures c as int == 0x130 ==> ToLowerChar(c) == 'i'
    ensures c as int == 0x212A ==> ToLowerChar(c) == 'k'
    ensures c as int !in {0x130, 0x212A} && (c as int < 65 || c as int > 90) ==> ToLowerChar(c) == c
  {
  }

  /** Everything before the first `c`, or the whole string. */
  function Until(s: string, c: char): (r: string)
    ensures |r| <= |s| && r <= s && c !in r
    ensures |r| < |s| ==> s[|r|] == c
  {
    if s == [] || s[0] == c then [] else [s[0]] + Until(s[1..], c)
  }

  /** The first `c` after a stretch without it is where the search stops. */
  lemma {:induction false} UntilStops(a: string, b: string, c: char)
    requires c !in a && (b == [] || b[0] == c)
    ensures Until(a + b, c) == a
  {
    if a == [] {
      assert a + b == b;
    } else {
      assert (a + b)[1..] == a[1..] + b && a[0] in a;
      UntilStops(a[1..], b, c);
    }
  }

  /** A word without spaces and capitals is its own trimmed lower-case form. */
  lemma LowerCaseWord(s: string)
    requires s != [] && forall i | 0 <= i < |s| :: 'a' <= s[i] <= 'z'
    ensures TrimSpace(s) == s && ToLower(s) == s
  {
  }
}
