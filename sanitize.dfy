/**
 `sanitizePath` of main.go: every rune outside `[0-9a-zA-Z._/-]` (the
 regular expression `badPathCharacters`) is replaced by `_`, then the result
 is lower-cased.
 */
module Sanitize {
  import opened GoStrings

  /** The runes `badPathCharacters` does NOT match: `[0-9a-zA-Z._/-]`. */
  predicate IsPathChar(c: char) {
    || ('0' <= c <= '9') || ('a' <= c <= 'z') || ('A' <= c <= 'Z')
    || c == '.' || c == '_' || c == '/' || c == '-'
  }

  /** The runes a sanitized path may hold: `[0-9a-z._/-]`. */
  predicate IsSafeChar(c: char) {
    || ('0' <= c <= '9') || ('a' <= c <= 'z')
    || c == '.' || c == '_' || c == '/' || c == '-'
  }

  /** `badPathCharacters.ReplaceAllString(name, "_")`: the regular expression
      matches one rune at a time, so each rune it matches becomes one `_` and
      every other rune stays where it is. */
  function ReplaceBad(name: string): (r: string)
    ensures |r| == |name|
    ensures forall i :: 0 <= i < |name| ==>
      r[i] == (if IsPathChar(name[i]) then name[i] else '_')
    decreases |name|
  {
    if name == [] then []
    else
      var c := name[|name| - 1];
      ReplaceBad(name[..|name| - 1]) + [if IsPathChar(c) then c else '_']
  }

  /** What one input rune becomes, independently of its neighbours. */
  function SanitizeChar(c: char): (d: char)
    ensures IsSafeChar(d)
  {
    if IsPathChar(c) then LowerAscii(c) else '_'
  }

  /** `sanitizePath(name)`. It works rune by rune: the output is as long as
      the input, its rune `i` is determined by input rune `i` alone, and only
      `[0-9a-z._/-]` survives, so no upper-case letter and nothing else. */
  function SanitizePath(name: string): (r: string)
    ensures |r| == |name|
    ensures forall i :: 0 <= i < |name| ==> r[i] == SanitizeChar(name[i])
    ensures forall i :: 0 <= i < |r| ==> IsSafeChar(r[i])
  {
    ReplaceBadAscii(name);
    ToLower(ReplaceBad(name))
  }

  /** The rune the replacement leaves in place for `c`. */
  lemma SanitizeCharKeeps(c: char)
    ensures IsSafeChar(c) ==> SanitizeChar(c) == c
    ensures IsUpperAscii(c) ==> SanitizeChar(c) == LowerAscii(c) && 'a' <= SanitizeChar(c) <= 'z'
    ensures !IsPathChar(c) ==> SanitizeChar(c) == '_'
    ensures SanitizeChar(c) == '/' <==> c == '/'
    ensures SanitizeChar(c) == '.' <==> c == '.'
    ensures SanitizeChar(c) == '-' <==> c == '-'
  {
  }

  /** `/`, `.` and `-` keep their positions, and no other rune turns into one
      of them; so `..` path elements are left as they are. */
  lemma SanitizeKeepsSeparators(name: string)
    ensures forall i :: 0 <= i < |name| ==>
      && (SanitizePath(name)[i] == '/' <==> name[i] == '/')
      && (SanitizePath(name)[i] == '.' <==> name[i] == '.')
      && (SanitizePath(name)[i] == '-' <==> name[i] == '-')
  {
    forall i | 0 <= i < |name| {
      SanitizeCharKeeps(name[i]);
    }
  }

  /** A name made only of safe runes comes out unchanged. */
  lemma SanitizeFixesSafe(name: string)
    requires forall i :: 0 <= i < |name| ==> IsSafeChar(name[i])
    ensures SanitizePath(name) == name
  {
    forall i | 0 <= i < |name| ensures SanitizePath(name)[i] == name[i] {
      SanitizeCharKeeps(name[i]);
    }
  }

  /** A name holds a slash after sanitizing exactly when it held one before. */
  lemma SanitizeSlashFree(name: string)
    ensures '/' in SanitizePath(name) <==> '/' in name
  {
    SanitizeKeepsSeparators(name);
    if '/' in SanitizePath(name) {
      var i :| 0 <= i < |name| && SanitizePath(name)[i] == '/';
      assert name[i] == '/';
    }
    if '/' in name {
      var i :| 0 <= i < |name| && name[i] == '/';
      assert SanitizePath(name)[i] == '/';
    }
  }

  /** The empty name, `.` and `..` are left as they are, and no other name
      becomes one of them. */
  lemma SanitizeDotNames(name: string)
    ensures SanitizePath(name) == "" <==> name == ""
    ensures SanitizePath(name) == "." <==> name == "."
    ensures SanitizePath(name) == ".." <==> name == ".."
  {
    var s := SanitizePath(name);
    if |name| == 1 {
      SanitizeCharKeeps(name[0]);
      assert s == [s[0]] && name == [name[0]];
    } else if |name| == 2 {
      SanitizeCharKeeps(name[0]);
      SanitizeCharKeeps(name[1]);
      assert s == [s[0], s[1]] && name == [name[0], name[1]];
    }
  }

  /** Sanitizing a slice is slicing the sanitized name. */
  lemma SanitizeSlice(name: string, i: nat, j: nat)
    requires i <= j <= |name|
    ensures SanitizePath(name)[i..j] == SanitizePath(name[i..j])
  {
  }

  lemma SanitizePrefix(name: string, k: nat)
    requires k <= |name|
    ensures SanitizePath(name)[..k] == SanitizePath(name[..k])
  {
  }

  lemma SanitizeSuffix(name: string, k: nat)
    requires k <= |name|
    ensures SanitizePath(name)[k..] == SanitizePath(name[k..])
  {
  }

  /** Sanitizing a concatenation sanitizes each part. */
  lemma SanitizeConcat(a: string, b: string)
    ensures SanitizePath(a + b) == SanitizePath(a) + SanitizePath(b)
  {
    var out := SanitizePath(a) + SanitizePath(b);
    forall i | 0 <= i < |a + b| ensures SanitizeChar((a + b)[i]) == out[i] {
      if i < |a| {
        assert (a + b)[i] == a[i];
      } else {
        assert (a + b)[i] == b[i - |a|];
      }
    }
    SanitizeIs(a + b, out);
  }

  /** `out` is the sanitized `name` when it agrees with it rune by rune. */
  lemma SanitizeIs(name: string, out: string)
    requires |out| == |name|
    requires forall i :: 0 <= i < |name| ==> SanitizeChar(name[i]) == out[i]
    ensures SanitizePath(name) == out
  {
  }

  /** Sanitizing is idempotent. */
  lemma SanitizeIdempotent(name: string)
    ensures SanitizePath(SanitizePath(name)) == SanitizePath(name)
  {
    SanitizeFixesSafe(SanitizePath(name));
  }

  /** The replacement leaves only ASCII runes. */
  lemma ReplaceBadAscii(name: string)
    ensures IsAscii(ReplaceBad(name))
  {
    forall i | 0 <= i < |name| ensures ReplaceBad(name)[i] < '\U{80}' {
      if IsPathChar(name[i]) {
        assert name[i] <= 'z';
      }
    }
  }

  /** The lower-casing only ever sees ASCII: the replacement has already
      turned every non-ASCII rune into `_`, so Go's ASCII path of
      `strings.ToLower` is the one taken, and only `A`-`Z` change. */
  lemma LowerSeesOnlyAscii(name: string)
    ensures IsAscii(ReplaceBad(name))
    ensures forall i :: 0 <= i < |name| ==>
      (SanitizePath(name)[i] != ReplaceBad(name)[i] <==> IsUpperAscii(name[i]))
  {
    ReplaceBadAscii(name);
    var b := ReplaceBad(name);
    forall i | 0 <= i < |name|
      ensures SanitizePath(name)[i] != b[i] <==> IsUpperAscii(name[i])
    {
      LowerChangesOnlyUpper(b[i]);
    }
  }
}
