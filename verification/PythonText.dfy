/** The string operations the sources rely on: letters up to case, `join`, Python's `strip` and
    the line boundaries of its `splitlines`, and the stem and suffix of a file name. */
module PythonText {

  // ----- letters up to case

  // One letter, up to the case of the ASCII alphabet.
  ghost predicate SameLetter(c: char, d: char) {
    || c == d
    || ('a' <= c <= 'z' && c as int == d as int + 32)
    || ('a' <= d <= 'z' && d as int == c as int + 32)
  }

  ghost predicate SameText(s: string, t: string) {
    |s| == |t| && forall i :: 0 <= i < |s| ==> SameLetter(s[i], t[i])
  }

  ghost predicate NoLowerCase(s: string) {
    forall i :: 0 <= i < |s| ==> !('a' <= s[i] <= 'z')
  }

  // ----- str.join

  function Join(parts: seq<string>, separator: string): string {
    if parts == [] then "" else if |parts| == 1 then parts[0] else parts[0] + separator + Join(parts[1..], separator)
  }

  lemma JoinParts(parts: seq<string>, separator: string)
    requires parts != []
    ensures Join(parts, separator) == parts[0] + (if |parts| == 1 then "" else separator + Join(parts[1..], separator))
  {
    if |parts| > 1 {
      assert parts[0] + separator + Join(parts[1..], separator) == parts[0] + (separator + Join(parts[1..], separator));
    }
  }

  lemma {:induction false} JoinSnoc(parts: seq<string>, last: string, separator: string)
    requires parts != []
    ensures Join(parts + [last], separator) == Join(parts, separator) + (separator + last)
  {
    JoinParts(parts, separator);
    JoinParts(parts + [last], separator);
    assert (parts + [last])[1..] == parts[1..] + [last];
    if |parts| == 1 {
      assert parts[1..] + [last] == [last];
    } else {
      JoinSnoc(parts[1..], last, separator);
    }
  }

  // ----- str.strip and str.splitlines

  predicate IsSpace(c: char) {
    '\t' <= c <= '\r' || '\U{1c}' <= c <= ' ' || c == '\U{85}' || c == '\U{a0}' || c == '\U{1680}'
    || '\U{2000}' <= c <= '\U{200a}' || c in {'\U{2028}', '\U{2029}', '\U{202f}', '\U{205f}', '\U{3000}'}
  }

  // Where splitlines ends a line; every boundary is also a blank.
  predicate IsBoundary(c: char)
    ensures IsBoundary(c) ==> IsSpace(c)
  {
    '\n' <= c <= '\r' || '\U{1c}' <= c <= '\U{1e}' || c in {'\U{85}', '\U{2028}', '\U{2029}'}
  }

  function StripLeft(s: string): string {
    if s != "" && IsSpace(s[0]) then StripLeft(s[1..]) else s
  }

  function StripRight(s: string): string {
    if s != "" && IsSpace(s[|s| - 1]) then StripRight(s[..|s| - 1]) else s
  }

  function Strip(s: string): string {
    StripRight(StripLeft(s))
  }

  // A string with no blank at either end.
  predicate Trimmed(s: string) {
    s == "" || (!IsSpace(s[0]) && !IsSpace(s[|s| - 1]))
  }

  lemma {:induction false} StripLeftSound(s: string)
    ensures var r := StripLeft(s);
            && |r| <= |s| && r == s[|s| - |r|..]
            && (r == "" || !IsSpace(r[0]))
            && (forall i :: 0 <= i < |s| - |r| ==> IsSpace(s[i]))
  {
    if s != "" && IsSpace(s[0]) {
      StripLeftSound(s[1..]);
      var r := StripLeft(s);
      forall i | 0 <= i < |s| - |r| ensures IsSpace(s[i]) {
        if i > 0 {
          assert s[1..][i - 1] == s[i];
        }
      }
    }
  }

  lemma {:induction false} StripRightSound(s: string)
    ensures var r := StripRight(s);
            && |r| <= |s| && r == s[..|r|]
            && (r == "" || !IsSpace(r[|r| - 1]))
            && (forall i :: |r| <= i < |s| ==> IsSpace(s[i]))
  {
    if s != "" && IsSpace(s[|s| - 1]) {
      StripRightSound(s[..|s| - 1]);
    }
  }

  lemma StripIsTrimmed(s: string)
    ensures Trimmed(Strip(s))
  {
    StripLeftSound(s);
    StripRightSound(StripLeft(s));
  }

  /** What strip takes away: blanks at either end, all of them and nothing else. */
  lemma StripMeans(s: string) returns (i: nat, j: nat)
    ensures i <= j <= |s| && Strip(s) == s[i..j]
    ensures forall k :: 0 <= k < i || j <= k < |s| ==> IsSpace(s[k])
    ensures i < j ==> !IsSpace(s[i]) && !IsSpace(s[j - 1])
  {
    var left := StripLeft(s);
    StripLeftSound(s);
    StripRightSound(left);
    i := |s| - |left|;
    j := i + |Strip(s)|;
    assert forall k :: 0 <= k < |left| ==> left[k] == s[i + k];
    forall k | j <= k < |s| ensures IsSpace(s[k]) {
      assert s[k] == left[k - i];
    }
  }

  lemma StripIdentity(s: string)
    requires Trimmed(s)
    ensures Strip(s) == s
  {
  }

  lemma StripTrimmed(s: string)
    ensures Strip(s) == s <==> Trimmed(s)
    ensures Strip(Strip(s)) == Strip(s)
  {
    StripIsTrimmed(s);
    if Trimmed(s) {
      StripIdentity(s);
    }
    StripIdentity(Strip(s));
  }

  lemma StripBlank(s: string)
    ensures Strip(s) == "" <==> forall i :: 0 <= i < |s| ==> IsSpace(s[i])
  {
    var left := StripLeft(s);
    StripLeftSound(s);
    StripRightSound(left);
    if left != "" {
      assert left[0] == s[|s| - |left|];
    }
  }

  // ----- pathlib's stem and suffix of a plain file name

  function LastDot(name: string): (i: int)
    ensures -1 <= i < |name|
    ensures i >= 0 ==> name[i] == '.'
    ensures forall k :: i < k < |name| ==> name[k] != '.'
  {
    if name == "" then -1
    else if name[|name| - 1] == '.' then |name| - 1
    else LastDot(name[..|name| - 1])
  }

  // A leading or a final dot starts no suffix.
  predicate HasSuffix(name: string) {
    0 < LastDot(name) < |name| - 1
  }

  function Suffix(name: string): string {
    if HasSuffix(name) then name[LastDot(name)..] else ""
  }

  function Stem(name: string): string {
    if HasSuffix(name) then name[..LastDot(name)] else name
  }

  function LowerChar(c: char): char {
    if 'A' <= c <= 'Z' then c + 32 as char else c
  }

  // str.lower on ASCII letters, the only ones whose lower case can spell an extension below.
  function Lower(s: string): (r: string)
    ensures |r| == |s|
  {
    if s == "" then "" else [LowerChar(s[0])] + Lower(s[1..])
  }

  // The name is something and then the extension, in letters of either case.
  ghost predicate EndsIn(name: string, extension: string) {
    |name| > |extension| && SameText(name[|name| - |extension|..], extension)
  }

  // A dot and no other.
  predicate IsExtension(extension: string) {
    |extension| > 1 && extension[0] == '.' && '.' !in extension[1..]
  }

  lemma {:induction false} LowerMeans(s: string, t: string)
    requires forall i :: 0 <= i < |t| ==> !('A' <= t[i] <= 'Z')
    ensures Lower(s) == t <==> SameText(s, t)
  {
    if s != "" && |s| == |t| {
      LowerMeans(s[1..], t[1..]);
      assert Lower(s)[1..] == Lower(s[1..]);
      assert SameText(s, t) <==> SameLetter(s[0], t[0]) && SameText(s[1..], t[1..]) by {
        assert forall i :: 1 <= i < |s| ==> s[i] == s[1..][i - 1] && t[i] == t[1..][i - 1];
      }
      assert t == [t[0]] + t[1..];
    }
  }

  lemma SameDots(s: string, t: string, i: nat)
    requires SameText(s, t) && i < |s|
    ensures s[i] == '.' <==> t[i] == '.'
  {
  }

  /** A file name has an extension as its suffix, in any case, exactly when it ends in it after at
      least one character; its stem is then the rest. */
  lemma SuffixExactly(name: string, extension: string)
    requires IsExtension(extension) && forall i :: 0 <= i < |extension| ==> !('A' <= extension[i] <= 'Z')
    ensures Lower(Suffix(name)) == extension <==> EndsIn(name, extension)
    ensures EndsIn(name, extension) ==> Stem(name) == name[..|name| - |extension|]
  {
    LowerMeans(Suffix(name), extension);
    if EndsIn(name, extension) {
      var k := |name| - |extension|;
      SameDots(name[k..], extension, 0);
      forall i | k < i < |name| ensures name[i] != '.' {
        SameDots(name[k..], extension, i - k);
        assert extension[i - k] == extension[1..][i - k - 1];
      }
      assert LastDot(name) == k;
    }
  }
}
