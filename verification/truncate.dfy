// Truncation of UTF-8 text to a number of bytes: truncateUTF8Bytes in internal/bridge/console_logs.go
// and truncateActivityValue in internal/activity/url_sanitize.go.

module Truncation {
  import opened GoSlices

  const SUFFIX: seq<Byte> := [46, 46, 46]

  // ---------------------------------------------------------------- UTF-8, RFC 3629 section 4

  predicate Tail(b: Byte) {
    0x80 <= b <= 0xBF
  }

  predicate TwoBytes(s: seq<Byte>) {
    |s| >= 2 && 0xC2 <= s[0] <= 0xDF && Tail(s[1])
  }

  predicate ThreeBytes(s: seq<Byte>) {
    && |s| >= 3
    && Tail(s[2])
    && (|| (s[0] == 0xE0 && 0xA0 <= s[1] <= 0xBF)
        || (0xE1 <= s[0] <= 0xEC && Tail(s[1]))
        || (s[0] == 0xED && 0x80 <= s[1] <= 0x9F)
        || (0xEE <= s[0] <= 0xEF && Tail(s[1])))
  }

  predicate FourBytes(s: seq<Byte>) {
    && |s| >= 4
    && Tail(s[2]) && Tail(s[3])
    && (|| (s[0] == 0xF0 && 0x90 <= s[1] <= 0xBF)
        || (0xF1 <= s[0] <= 0xF3 && Tail(s[1]))
        || (s[0] == 0xF4 && 0x80 <= s[1] <= 0x8F))
  }

  // The length of the character at the front, 0 if there is no well-formed one.
  function CharLength(s: seq<Byte>): (n: nat)
    ensures n <= |s|
  {
    if s == [] then 0
    else if s[0] < 0x80 then 1
    else if TwoBytes(s) then 2
    else if ThreeBytes(s) then 3
    else if FourBytes(s) then 4
    else 0
  }

  predicate ValidUTF8(s: seq<Byte>) {
    s == [] || (CharLength(s) > 0 && ValidUTF8(s[CharLength(s)..]))
  }

  // How far Go's range loop advances: a byte that starts no character counts on its own.
  function Width(s: seq<Byte>): (n: nat)
    requires s != []
    ensures 1 <= n <= |s|
  {
    if CharLength(s) == 0 then 1 else CharLength(s)
  }

  // The positions at which the range loop stands, and the end.
  predicate Boundary(s: seq<Byte>, i: nat) {
    i == 0 || (s != [] && i >= Width(s) && Boundary(s[Width(s)..], i - Width(s)))
  }

  lemma CharLengthIsLocal(s: seq<Byte>, t: seq<Byte>)
    requires CharLength(s) > 0 && |t| >= CharLength(s) && t[..CharLength(s)] == s[..CharLength(s)]
    ensures CharLength(t) == CharLength(s)
  {
  }

  lemma {:induction false} ValidConcat(s: seq<Byte>, t: seq<Byte>)
    requires ValidUTF8(s) && ValidUTF8(t)
    ensures ValidUTF8(s + t)
  {
    hide CharLength;
    if s == [] {
      assert s + t == t;
    } else {
      var n := CharLength(s);
      assert (s + t)[..n] == s[..n];
      CharLengthIsLocal(s, s + t);
      assert (s + t)[n..] == s[n..] + t;
      ValidConcat(s[n..], t);
    }
  }

  lemma {:induction false} ValidPrefix(s: seq<Byte>, i: nat)
    requires ValidUTF8(s) && Boundary(s, i)
    ensures i <= |s| && ValidUTF8(s[..i])
  {
    if i == 0 {
      assert s[..0] == [];
    } else {
      var n := CharLength(s);
      ValidPrefix(s[n..], i - n);
      SliceOfSlice(s, n, i);
      CharLengthIsLocal(s, s[..i]);
    }
  }

  lemma SliceOfSlice(s: seq<Byte>, n: nat, i: nat)
    requires n <= i <= |s|
    ensures s[..i][..n] == s[..n] && s[..i][n..] == s[n..][..i - n]
  {
  }

  // ---------------------------------------------------------------- truncation

  // The last boundary not beyond the limit.
  function LastBoundary(s: seq<Byte>, limit: nat): (n: nat)
    ensures n <= limit && n <= |s|
  {
    if s == [] || Width(s) > limit then 0
    else Width(s) + LastBoundary(s[Width(s)..], limit - Width(s))
  }

  lemma {:induction false} LastBoundaryIsLongest(s: seq<Byte>, limit: nat)
    ensures Boundary(s, LastBoundary(s, limit))
    ensures forall i: nat :: Boundary(s, i) && i <= limit ==> i <= LastBoundary(s, limit)
  {
    if s != [] && Width(s) <= limit {
      var n := Width(s);
      LastBoundaryIsLongest(s[n..], limit - n);
      forall i: nat | Boundary(s, i) && i <= limit && i > 0 ensures i <= LastBoundary(s, limit) {
        assert Boundary(s[n..], i - n);
      }
    }
  }

  function Truncate(s: seq<Byte>, maxBytes: int): seq<Byte> {
    if maxBytes <= 0 then []
    else if |s| <= maxBytes then s
    else if maxBytes <= |SUFFIX| then SUFFIX[..maxBytes]
    else s[..LastBoundary(s, maxBytes - |SUFFIX|)] + SUFFIX
  }

  // One step of the range loop goes from one boundary to the next.
  lemma {:induction false} NextBoundary(s: seq<Byte>, i: nat)
    requires Boundary(s, i) && i < |s|
    ensures Boundary(s, i + Width(s[i..]))
    ensures forall m: nat :: Boundary(s, m) && m < i + Width(s[i..]) ==> m <= i
    decreases |s|
  {
    hide CharLength;
    var n := Width(s);
    if i == 0 {
      assert s[0..] == s;
      assert Boundary(s[n..], 0);
    } else {
      assert s[n..][i - n..] == s[i..];
      NextBoundary(s[n..], i - n);
      forall m: nat | Boundary(s, m) && m < i + Width(s[i..]) ensures m <= i {
        if m > 0 {
          assert Boundary(s[n..], m - n);
        }
      }
    }
  }

  lemma LongestIsLast(s: seq<Byte>, cut: nat, limit: nat)
    requires Boundary(s, cut) && cut <= limit
    requires forall m: nat :: Boundary(s, m) && m <= limit ==> m <= cut
    ensures cut == LastBoundary(s, limit)
  {
    LastBoundaryIsLongest(s, limit);
  }

  method TruncateUTF8Bytes(s: seq<Byte>, maxBytes: int) returns (r: seq<Byte>)
    ensures r == Truncate(s, maxBytes)
  {
    hide Width, LastBoundary;
    if maxBytes <= 0 {
      return [];
    }
    if |s| <= maxBytes {
      return s;
    }
    if maxBytes <= |SUFFIX| {
      return SUFFIX[..maxBytes];
    }
    var limit := maxBytes - |SUFFIX|;
    var cut := 0;
    var i := 0;
    while i < |s|
      invariant 0 <= i <= |s| && Boundary(s, i)
      invariant 0 <= cut <= limit && Boundary(s, cut)
      invariant forall m: nat :: Boundary(s, m) && m < i ==> m <= cut
      decreases |s| - i
    {
      if i > limit {
        break;
      }
      NextBoundary(s, i);
      cut := i;
      i := i + Width(s[i..]);
    }
    LongestIsLast(s, cut, limit);
    if cut == 0 && limit > 0 {
      assert s[..0] + SUFFIX == SUFFIX;
      return SUFFIX;
    }
    return s[..cut] + SUFFIX;
  }

  method TruncateActivityValue(s: seq<Byte>, maxBytes: int) returns (r: seq<Byte>)
    ensures r == Truncate(s, maxBytes)
  {
    hide Width, LastBoundary;
    if maxBytes <= 0 {
      return [];
    }
    if |s| <= maxBytes {
      return s;
    }
    if maxBytes <= |SUFFIX| {
      return SUFFIX[..maxBytes];
    }
    var limit := maxBytes - |SUFFIX|;
    var cut := 0;
    var i := 0;
    while i < |s|
      invariant 0 <= i <= |s| && Boundary(s, i)
      invariant 0 <= cut <= limit && Boundary(s, cut)
      invariant forall m: nat :: Boundary(s, m) && m < i ==> m <= cut
      decreases |s| - i
    {
      if i > limit {
        break;
      }
      NextBoundary(s, i);
      cut := i;
      i := i + Width(s[i..]);
    }
    LongestIsLast(s, cut, limit);
    if cut == 0 && limit > 0 {
      assert s[..0] + SUFFIX == SUFFIX;
      return SUFFIX;
    }
    return s[..cut] + SUFFIX;
  }

  // The result of truncating valid UTF-8 is valid and fits; if it is cut with room for more than the
  // suffix, it is the longest prefix of whole characters that leaves room for the suffix, then the suffix.
  lemma TruncationIsSound(s: seq<Byte>, maxBytes: int)
    requires ValidUTF8(s)
    ensures var r := Truncate(s, maxBytes);
            && ValidUTF8(r)
            && |r| <= (if maxBytes < 0 then 0 else maxBytes)
            && (0 <= |s| <= maxBytes ==> r == s)
            && (|s| > maxBytes > |SUFFIX| ==>
                  exists n: nat :: n <= |s| && r == s[..n] + SUFFIX && ValidUTF8(s[..n])
                    && forall m: nat :: n < m <= maxBytes - |SUFFIX| ==> !ValidUTF8(s[..m]))
  {
    SuffixIsValid();
    if |s| > maxBytes > |SUFFIX| {
      var limit := maxBytes - |SUFFIX|;
      var n := LastBoundary(s, limit);
      LastBoundaryIsLongest(s, limit);
      ValidPrefix(s, n);
      ValidConcat(s[..n], SUFFIX);
      forall m: nat | n < m <= limit ensures !ValidUTF8(s[..m]) {
        if ValidUTF8(s[..m]) {
          ValidPrefixEndsAtBoundary(s, m);
        }
      }
    }
  }

  lemma SuffixIsValid()
    ensures ValidUTF8(SUFFIX) && forall n :: 0 <= n <= |SUFFIX| ==> ValidUTF8(SUFFIX[..n])
  {
    AsciiIsValid(SUFFIX);
    forall n | 0 <= n <= |SUFFIX| ensures ValidUTF8(SUFFIX[..n]) {
      AsciiIsValid(SUFFIX[..n]);
    }
  }

  lemma {:induction false} AsciiIsValid(s: seq<Byte>)
    requires forall i :: 0 <= i < |s| ==> s[i] < 0x80
    ensures ValidUTF8(s)
  {
    if s != [] {
      AsciiIsValid(s[1..]);
    }
  }

  // Of valid text, the prefixes that are valid are those that end at a boundary.
  lemma {:induction false} ValidPrefixEndsAtBoundary(s: seq<Byte>, m: nat)
    requires ValidUTF8(s) && m <= |s| && ValidUTF8(s[..m])
    ensures Boundary(s, m)
  {
    if m > 0 {
      var n := CharLength(s[..m]);
      CharLengthIsLocal(s[..m], s);
      assert s[..m][n..] == s[n..][..m - n];
      ValidPrefixEndsAtBoundary(s[n..], m - n);
    }
  }
}
