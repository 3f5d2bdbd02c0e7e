/**
 The pieces of Go's `strings` and `unicode` packages that the path derivation
 in main.go calls: `strings.TrimSpace` (with `unicode.IsSpace`),
 `strings.TrimPrefix`, `strings.TrimSuffix`, `strings.LastIndex` with a
 one-character needle, and `strings.ToLower` on ASCII input.

 A Go string is modelled as the sequence of its runes (`seq<char>`).
 */
module GoStrings {

  /** `unicode.IsSpace`: the Latin-1 white space plus the other members of
      Unicode's White_Space property. */
  predicate IsSpace(c: char) {
    || ('\t' <= c <= '\r') || c == ' ' || c == '\U{85}' || c == '\U{A0}'
    || c == '\U{1680}' || ('\U{2000}' <= c <= '\U{200A}')
    || c == '\U{2028}' || c == '\U{2029}' || c == '\U{202F}' || c == '\U{205F}'
    || c == '\U{3000}'
  }

  predicate AllSpace(s: string) {
    forall k :: 0 <= k < |s| ==> IsSpace(s[k])
  }

  /** Drops the leading white space: what is left is a suffix of `s`, all that
      was dropped is white space, and what is left does not start with it. */
  function TrimLeftSpace(s: string): (r: string)
    ensures |r| <= |s| && r == s[|s| - |r|..]
    ensures AllSpace(s[..|s| - |r|])
    ensures r != [] ==> !IsSpace(r[0])
    decreases |s|
  {
    if s != [] && IsSpace(s[0]) then
      var r := TrimLeftSpace(s[1..]);
      assert s[..|s| - |r|] == [s[0]] + s[1..][..|s| - 1 - |r|];
      r
    else s
  }

  /** Drops the trailing white space: what is left is a prefix of `s`, all that
      was dropped is white space, and what is left does not end with it. */
  function TrimRightSpace(s: string): (r: string)
    ensures |r| <= |s| && r == s[..|r|]
    ensures AllSpace(s[|r|..])
    ensures r != [] ==> !IsSpace(r[|r| - 1])
    decreases |s|
  {
    if s != [] && IsSpace(s[|s| - 1]) then
      var r := TrimRightSpace(s[..|s| - 1]);
      assert s[|r|..] == s[..|s| - 1][|r|..] + [s[|s| - 1]];
      r
    else s
  }

  /** How many runes of leading white space `s` has. */
  function LeadingSpace(s: string): nat {
    |s| - |TrimLeftSpace(s)|
  }

  /** `strings.TrimSpace`: `s` without its leading and its trailing white
      space; what is left neither starts nor ends with white space. */
  function TrimSpace(s: string): (r: string)
    ensures LeadingSpace(s) + |r| <= |s|
    ensures r != [] ==> !IsSpace(r[0]) && !IsSpace(r[|r| - 1])
  {
    TrimRightSpace(TrimLeftSpace(s))
  }

  /** The trimmed string is the slice of `s` that starts after its leading
      white space. */
  lemma TrimSpaceSlice(s: string)
    ensures LeadingSpace(s) + |TrimSpace(s)| <= |s|
    ensures TrimSpace(s) == s[LeadingSpace(s)..LeadingSpace(s) + |TrimSpace(s)|]
  {
    var t := TrimLeftSpace(s);
    var r := TrimRightSpace(t);
    assert TrimSpace(s) == r && r == t[..|r|];
    assert t == s[LeadingSpace(s)..];
    SliceOfSuffix(s, LeadingSpace(s), |r|);
  }

  /** What trimming drops on either side is white space. */
  lemma TrimSpaceDropsSpace(s: string)
    ensures AllSpace(s[..LeadingSpace(s)])
    ensures AllSpace(s[LeadingSpace(s) + |TrimSpace(s)|..])
  {
    var t := TrimLeftSpace(s);
    var r := TrimRightSpace(t);
    assert TrimSpace(s) == r;
    assert t == s[LeadingSpace(s)..];
    SliceOfSuffix(s, LeadingSpace(s), |r|);
    assert AllSpace(t[|r|..]);
  }

  /** Cutting the suffix of `s` from `lo` at `i` cuts `s` at `lo + i`. */
  lemma SliceOfSuffix(s: string, lo: nat, i: nat)
    requires lo + i <= |s|
    ensures s[lo..][..i] == s[lo..lo + i]
    ensures s[lo..][i..] == s[lo + i..]
  {
  }

  /** Trimming leaves nothing exactly when the string is all white space. */
  lemma TrimSpaceEmptyIff(s: string)
    ensures TrimSpace(s) == [] <==> AllSpace(s)
  {
    var t := TrimLeftSpace(s);
    if TrimSpace(s) == [] {
      assert t[0..] == t;
      assert t == [];
      assert s[..|s|] == s;
    } else {
      assert s[|s| - |t|] == t[0];
    }
  }

  /** Trimming twice is trimming once. */
  lemma TrimSpaceIdempotent(s: string)
    ensures TrimSpace(TrimSpace(s)) == TrimSpace(s)
  {
    var r := TrimSpace(s);
    if r != [] {
      assert TrimLeftSpace(r) == r;
      assert TrimRightSpace(r) == r;
    }
  }

  /** `strings.TrimPrefix`: `s` without `prefix` when it starts with it. */
  function TrimPrefix(s: string, prefix: string): (r: string)
    ensures prefix <= s ==> s == prefix + r
    ensures !(prefix <= s) ==> r == s
  {
    if prefix <= s then s[|prefix|..] else s
  }

  /** `strings.TrimSuffix`: `s` without `suffix` when it ends with it. */
  function TrimSuffix(s: string, suffix: string): (r: string)
    ensures EndsWith(s, suffix) ==> s == r + suffix
    ensures !EndsWith(s, suffix) ==> r == s
  {
    if EndsWith(s, suffix) then s[..|s| - |suffix|] else s
  }

  predicate EndsWith(s: string, suffix: string) {
    |suffix| <= |s| && s[|s| - |suffix|..] == suffix
  }

  /** `strings.LastIndex(s, string(c))`: the position of the last `c` in `s`,
      or -1 when there is none. */
  function LastIndex(s: string, c: char): (k: int)
    ensures -1 <= k < |s|
    ensures k >= 0 ==> s[k] == c
    ensures forall j :: k < j < |s| ==> s[j] != c
    ensures k < 0 <==> c !in s
    decreases |s|
  {
    if s == [] then -1
    else if s[|s| - 1] == c then |s| - 1
    else LastIndex(s[..|s| - 1], c)
  }

  predicate IsUpperAscii(c: char) {
    'A' <= c <= 'Z'
  }

  /** The lower-case form of an ASCII letter; every other rune is itself. */
  function LowerAscii(c: char): char {
    if IsUpperAscii(c) then (c as int - 'A' as int + 'a' as int) as char else c
  }

  /** Lower-casing changes a rune exactly when it is an upper-case ASCII
      letter, and never turns a rune into one. */
  lemma LowerChangesOnlyUpper(c: char)
    ensures LowerAscii(c) != c <==> IsUpperAscii(c)
    ensures !IsUpperAscii(LowerAscii(c))
  {
  }

  predicate IsAscii(s: string) {
    forall i :: 0 <= i < |s| ==> s[i] < '\U{80}'
  }

  /** `strings.ToLower` on its ASCII fast path, the one Go takes when every
      rune is below `\U{80}`: every `A`-`Z` becomes the matching `a`-`z`, rune
      by rune, and nothing else changes. */
  function ToLower(s: string): (r: string)
    requires IsAscii(s)
    ensures |r| == |s|
    ensures forall i :: 0 <= i < |s| ==> r[i] == LowerAscii(s[i])
    decreases |s|
  {
    if s == [] then [] else ToLower(s[..|s| - 1]) + [LowerAscii(s[|s| - 1])]
  }
}
