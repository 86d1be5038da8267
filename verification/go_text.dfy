// The few operations of Go's "strings" package that the modelled code relies on. A Go string that
// the code treats as text is a `string` (a sequence of Unicode scalar values).

module GoText {

  datatype Option<+T> = None | Some(value: T)

  // The characters with Unicode's White_Space property, which strings.TrimSpace strips.
  predicate IsSpace(c: char) {
    || c == '\t' || c == '\n' || c == '\U{0B}' || c == '\U{0C}' || c == '\r' || c == ' '
    || c == '\U{85}' || c == '\U{A0}' || c == '\U{1680}' || '\U{2000}' <= c <= '\U{200A}'
    || c == '\U{2028}' || c == '\U{2029}' || c == '\U{202F}' || c == '\U{205F}' || c == '\U{3000}'
  }

  function TrimLeft(s: string): string {
    if s != "" && IsSpace(s[0]) then TrimLeft(s[1..]) else s
  }

  function TrimRight(s: string): string {
    if s != "" && IsSpace(s[|s| - 1]) then TrimRight(s[..|s| - 1]) else s
  }

  function TrimSpace(s: string): string {
    TrimRight(TrimLeft(s))
  }

  // Neither end is white space, so trimming has nothing to remove.
  predicate Trimmed(s: string) {
    s == "" || (!IsSpace(s[0]) && !IsSpace(s[|s| - 1]))
  }

  lemma {:induction false} TrimRightKeepsStart(s: string)
    requires s == "" || !IsSpace(s[0])
    ensures TrimRight(s) == "" || (TrimRight(s)[0] == s[0] && !IsSpace(TrimRight(s)[|TrimRight(s)| - 1]))
    ensures s != "" ==> TrimRight(s) != ""
  {
    if s != "" && IsSpace(s[|s| - 1]) {
      TrimRightKeepsStart(s[..|s| - 1]);
    }
  }

  lemma {:induction false} TrimLeftStart(s: string)
    ensures TrimLeft(s) == "" || !IsSpace(TrimLeft(s)[0])
  {
    if s != "" && IsSpace(s[0]) {
      TrimLeftStart(s[1..]);
    }
  }

  lemma {:induction false} TrimSpaceTrims(s: string)
    ensures Trimmed(TrimSpace(s))
  {
    TrimLeftStart(s);
    TrimRightKeepsStart(TrimLeft(s));
  }

  // Trimming takes nothing but white space, and only from the ends.
  lemma TrimSpaceTakesSpace(s: string) returns (i: nat, j: nat)
    ensures i <= j <= |s| && TrimSpace(s) == s[i..j]
    ensures forall k :: 0 <= k < i || j <= k < |s| ==> IsSpace(s[k])
  {
    i := TrimLeftTakesSpace(s);
    j := TrimRightTakesSpace(s[i..]);
    j := i + j;
    forall k | j <= k < |s| ensures IsSpace(s[k]) {
      assert s[k] == s[i..][k - i];
    }
  }

  lemma {:induction false} TrimLeftTakesSpace(s: string) returns (i: nat)
    ensures i <= |s| && TrimLeft(s) == s[i..] && forall k :: 0 <= k < i ==> IsSpace(s[k])
  {
    i := 0;
    if s != "" && IsSpace(s[0]) {
      i := TrimLeftTakesSpace(s[1..]);
      i := i + 1;
    }
  }

  lemma {:induction false} TrimRightTakesSpace(s: string) returns (j: nat)
    ensures j <= |s| && TrimRight(s) == s[..j] && forall k :: j <= k < |s| ==> IsSpace(s[k])
  {
    j := |s|;
    if s != "" && IsSpace(s[|s| - 1]) {
      j := TrimRightTakesSpace(s[..|s| - 1]);
      assert s[..|s| - 1][..j] == s[..j];
    }
  }

  lemma {:induction false} TrimmedIsFixed(s: string)
    ensures Trimmed(s) <==> TrimSpace(s) == s
  {
    if Trimmed(s) {
      assert TrimLeft(s) == s;
    } else {
      TrimSpaceTrims(s);
    }
  }

  // Unicode lower-casing as far as ASCII results are concerned: besides A-Z only U+0130 and the
  // Kelvin sign U+212A map into ASCII; every other character is left as it is here.
  function LowerChar(c: char): char {
    if 'A' <= c <= 'Z' then (c as int + 32) as char
    else if c == '\U{130}' then 'i'
    else if c == '\U{212A}' then 'k'
    else c
  }

  // Likewise for upper-casing: U+0131 and U+017F are the only characters outside ASCII that map into it.
  function UpperChar(c: char): char {
    if 'a' <= c <= 'z' then (c as int - 32) as char
    else if c == '\U{131}' then 'I'
    else if c == '\U{17F}' then 'S'
    else c
  }

  function ToLower(s: string): (r: string)
    ensures |r| == |s| && forall i :: 0 <= i < |s| ==> r[i] == LowerChar(s[i])
  {
    if s == "" then "" else [LowerChar(s[0])] + ToLower(s[1..])
  }

  function ToUpper(s: string): (r: string)
    ensures |r| == |s| && forall i :: 0 <= i < |s| ==> r[i] == UpperChar(s[i])
  {
    if s == "" then "" else [UpperChar(s[0])] + ToUpper(s[1..])
  }

  // On the letters of ASCII the two are inverse to each other and keep the alphabet's order.
  lemma AsciiCase(c: char, d: char)
    requires 'a' <= c < d <= 'z'
    ensures 'A' <= UpperChar(c) < UpperChar(d) <= 'Z'
    ensures LowerChar(c) == c == LowerChar(UpperChar(c)) && LowerChar(d) == d == LowerChar(UpperChar(d))
    ensures UpperChar(UpperChar(c)) == UpperChar(c) && UpperChar(UpperChar(d)) == UpperChar(d)
  {
  }

  // Simple case folding, as far as ASCII is concerned: U+212A folds with k and U+017F with s.
  function FoldChar(c: char): char {
    if 'A' <= c <= 'Z' then (c as int + 32) as char
    else if c == '\U{212A}' then 'k'
    else if c == '\U{17F}' then 's'
    else c
  }

  predicate EqualFold(s: string, t: string) {
    |s| == |t| && forall i :: 0 <= i < |s| ==> FoldChar(s[i]) == FoldChar(t[i])
  }

  predicate Ascii(s: string) {
    forall i :: 0 <= i < |s| ==> s[i] < '\U{80}'
  }

  lemma SameLetter(c: char, d: char)
    requires d < '\U{80}'
    ensures FoldChar(c) == FoldChar(d) && c != '\U{17F}' <==> LowerChar(c) == LowerChar(d) && c != '\U{130}'
    ensures c < '\U{80}' ==> (FoldChar(c) == FoldChar(d) <==> UpperChar(c) == UpperChar(d))
  {
  }

  // Against ASCII text, folding is comparing in lower case, but for the two characters that only one of
  // the operations takes for an ASCII letter; within ASCII it is comparing in upper case.
  lemma FoldingIsLowerCase(s: string, t: string)
    requires Ascii(t)
    ensures EqualFold(s, t) && '\U{17F}' !in s <==> ToLower(s) == ToLower(t) && '\U{130}' !in s
    ensures Ascii(s) ==> (EqualFold(s, t) <==> ToUpper(s) == ToUpper(t))
  {
    hide FoldChar, LowerChar, UpperChar;
    assert |ToLower(s)| == |s| == |ToUpper(s)| && |ToLower(t)| == |t| == |ToUpper(t)|;
    if |s| == |t| {
      forall i | 0 <= i < |s|
        ensures FoldChar(s[i]) == FoldChar(t[i]) && s[i] != '\U{17F}' <==> ToLower(s)[i] == ToLower(t)[i] && s[i] != '\U{130}'
        ensures Ascii(s) ==> (FoldChar(s[i]) == FoldChar(t[i]) <==> ToUpper(s)[i] == ToUpper(t)[i])
      {
        SameLetter(s[i], t[i]);
      }
    }
  }

  // strings.SplitN(s, sep, 2)[0]: everything before the first separator.
  function Before(s: string, sep: char): (r: string)
    ensures r <= s && sep !in r && (r == s || s[|r|] == sep)
  {
    if s == "" || s[0] == sep then "" else [s[0]] + Before(s[1..], sep)
  }

  predicate OccursAt(s: string, sub: string, i: int) {
    0 <= i <= |s| - |sub| && s[i..i + |sub|] == sub
  }

  predicate Contains(s: string, sub: string) {
    exists i :: 0 <= i <= |s| && OccursAt(s, sub, i)
  }

  predicate HasPrefix(s: string, prefix: string) {
    prefix <= s
  }

  predicate HasSuffix(s: string, suffix: string) {
    |suffix| <= |s| && s[|s| - |suffix|..] == suffix
  }
}
