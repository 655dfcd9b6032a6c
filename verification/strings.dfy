/**
  The handful of Python `str` operations the OCR post-processing and the zone-name
  normalisation are built from, with what each one guarantees.
*/
module Strings {

  /** `''.join(parts)`. */
  function Join(parts: seq<string>): (r: string)
    ensures forall i, j :: 0 <= i < |parts| && 0 <= j < |parts[i]| ==> parts[i][j] in r
    ensures forall c :: c in r ==> exists i :: 0 <= i < |parts| && c in parts[i]
  {
    if |parts| == 0 then [] else parts[0] + Join(parts[1..])
  }

  /** `list(s)`: one one-character string per character, as a recogniser reports them. */
  function Chars(s: string): (cs: seq<string>)
    ensures |cs| == |s|
    ensures forall i :: 0 <= i < |s| ==> cs[i] == [s[i]]
  {
    seq(|s|, i requires 0 <= i < |s| => [s[i]])
  }

  /** Joining the characters of a string gives the string back. */
  lemma {:induction false} JoinChars(s: string)
    ensures Join(Chars(s)) == s
  {
    if |s| > 0 {
      assert Chars(s)[1..] == Chars(s[1..]);
      JoinChars(s[1..]);
      assert s == [s[0]] + s[1..];
    }
  }

  /** Position of the first occurrence of `c` in `s`. */
  function IndexOf(s: string, c: char): (k: nat)
    requires c in s
    ensures k < |s| && s[k] == c && c !in s[..k]
  {
    if s[0] == c then 0 else 1 + IndexOf(s[1..], c)
  }

  /** A position holding `c` with no `c` before it is the first occurrence. */
  lemma {:induction false} IndexOfAt(s: string, c: char, k: nat)
    requires k < |s| && s[k] == c && c !in s[..k]
    ensures IndexOf(s, c) == k
  {
    if k > 0 {
      assert s[0] in s[..k];
      assert s[1..][..k - 1] == s[1..k];
      assert s[..k] == [s[0]] + s[1..k];
      IndexOfAt(s[1..], c, k - 1);
    }
  }

  /** `s.split(sep)` for a one-character separator: never an empty list. */
  function Split(s: string, sep: char): (parts: seq<string>)
    ensures |parts| == multiset(s)[sep] + 1
    ensures forall i :: 0 <= i < |parts| ==> sep !in parts[i]
    decreases |s|
  {
    if sep !in s then
      assert multiset(s)[sep] == 0;
      [s]
    else
      var k := IndexOf(s, sep);
      assert s == s[..k] + [sep] + s[k + 1..];
      assert multiset(s[..k])[sep] == 0;
      [s[..k]] + Split(s[k + 1..], sep)
  }

  /** `sep.join(parts)`, the inverse of `Split`. */
  function JoinWith(parts: seq<string>, sep: char): string
  {
    if |parts| == 0 then []
    else if |parts| == 1 then parts[0]
    else parts[0] + [sep] + JoinWith(parts[1..], sep)
  }

  /** Joining the pieces of a split with the separator restores the string. */
  lemma {:induction false} JoinSplit(s: string, sep: char)
    ensures JoinWith(Split(s, sep), sep) == s
    decreases |s|
  {
    if sep in s {
      var k := IndexOf(s, sep);
      JoinSplit(s[k + 1..], sep);
      assert s == s[..k] + [sep] + s[k + 1..];
    }
  }

  /** Splitting a join of separator-free pieces gives the pieces back. */
  lemma {:induction false} SplitJoin(parts: seq<string>, sep: char)
    requires |parts| >= 1
    requires forall i :: 0 <= i < |parts| ==> sep !in parts[i]
    ensures Split(JoinWith(parts, sep), sep) == parts
  {
    if |parts| > 1 {
      var rest := JoinWith(parts[1..], sep);
      SplitGlued(parts[0], sep, rest);
      SplitJoin(parts[1..], sep);
      assert parts == [parts[0]] + parts[1..];
    }
  }

  /** Splitting `head + [sep] + tail` where `head` is free of `sep` peels off `head`. */
  lemma SplitGlued(head: string, sep: char, tail: string)
    requires sep !in head
    ensures Split(head + [sep] + tail, sep) == [head] + Split(tail, sep)
  {
    var s, k := head + [sep] + tail, |head|;
    assert s[k] == sep && s[..k] == head && s[k + 1..] == tail;
    IndexOfAt(s, sep, k);
  }

  /** `s.split(sep)[0]`: the longest prefix of `s` free of `sep`. */
  function BeforeFirst(s: string, sep: char): (r: string)
    ensures r <= s && sep !in r
    ensures |r| < |s| ==> s[|r|] == sep
    ensures sep !in s ==> r == s
  {
    Split(s, sep)[0]
  }

  /** The text before a first separator at `k` is `s[..k]`. */
  lemma BeforeFirstAt(s: string, sep: char, k: nat)
    requires k < |s| && s[k] == sep && sep !in s[..k]
    ensures BeforeFirst(s, sep) == s[..k]
  {
    IndexOfAt(s, sep, k);
  }

  /** `s.replace(target, replacement)` for one-character arguments. */
  function Replace(s: string, target: char, replacement: char): (r: string)
    ensures |r| == |s|
    ensures forall i :: 0 <= i < |s| ==> r[i] == if s[i] == target then replacement else s[i]
  {
    if |s| == 0 then [] else [if s[0] == target then replacement else s[0]] + Replace(s[1..], target, replacement)
  }

  /** Replacing a character that does not occur changes nothing. */
  lemma ReplaceAbsent(s: string, target: char, replacement: char)
    requires target !in s
    ensures Replace(s, target, replacement) == s
  {
    var r := Replace(s, target, replacement);
    assert forall i :: 0 <= i < |s| ==> r[i] == s[i];
  }

  /**
    `s.rstrip(chars)`: drops trailing characters that occur ANYWHERE in `chars`.
    `chars` is a set of characters, not a suffix.
  */
  function Rstrip(s: string, chars: string): (r: string)
    ensures r <= s
    ensures forall i :: |r| <= i < |s| ==> s[i] in chars
    ensures |r| == 0 || r[|r| - 1] !in chars
    decreases |s|
  {
    if |s| > 0 && s[|s| - 1] in chars then Rstrip(s[..|s| - 1], chars) else s
  }

  /** The three facts `Rstrip` ensures pin its result down: no other prefix has them. */
  lemma RstripUnique(s: string, chars: string, p: string)
    requires p <= s
    requires forall i :: |p| <= i < |s| ==> s[i] in chars
    requires |p| == 0 || p[|p| - 1] !in chars
    ensures p == Rstrip(s, chars)
  {
    var r := Rstrip(s, chars);
    assert |p| == |r|;
  }

  /** Stripping twice strips nothing more. */
  lemma RstripIdempotent(s: string, chars: string)
    ensures Rstrip(Rstrip(s, chars), chars) == Rstrip(s, chars)
  {
    var r := Rstrip(s, chars);
    RstripUnique(r, chars, r);
  }

  /** `str.translate` with a table mapping each character of `chars` to nothing: those characters are deleted, the others kept in order. */
  function Delete(s: string, chars: string): (r: string)
    ensures |r| <= |s|
    ensures forall i :: 0 <= i < |r| ==> r[i] !in chars
    ensures forall c :: c !in chars ==> multiset(r)[c] == multiset(s)[c]
  {
    if |s| == 0 then []
    else
      assert s == [s[0]] + s[1..];
      if s[0] in chars then Delete(s[1..], chars) else [s[0]] + Delete(s[1..], chars)
  }

  /** Deletion works piecewise, so the kept characters stay in their order. */
  lemma {:induction false} DeleteConcat(a: string, b: string, chars: string)
    ensures Delete(a + b, chars) == Delete(a, chars) + Delete(b, chars)
  {
    if |a| > 0 {
      assert (a + b)[1..] == a[1..] + b;
      DeleteConcat(a[1..], b, chars);
    } else {
      assert a + b == b;
    }
  }

  /** Deleting characters that do not occur changes nothing. */
  lemma {:induction false} DeleteAbsent(s: string, chars: string)
    requires forall i :: 0 <= i < |s| ==> s[i] !in chars
    ensures Delete(s, chars) == s
  {
    if |s| > 0 {
      DeleteAbsent(s[1..], chars);
    }
  }

  predicate IsAsciiUpper(c: char) {
    'A' <= c <= 'Z'
  }

  /** One character of `str.lower()`, restricted to ASCII letters and `É`. */
  function LowerChar(c: char): (d: char)
    ensures !IsAsciiUpper(d) && d != 'É'
    ensures IsAsciiUpper(c) ==> d as int == c as int + 32
    ensures c == 'É' ==> d == 'é'
    ensures !IsAsciiUpper(c) && c != 'É' ==> d == c
  {
    if IsAsciiUpper(c) then (c as int + 32) as char
    else if c == 'É' then 'é'
    else c
  }

  /** `s.lower()`, restricted to ASCII letters and `É`. */
  function Lower(s: string): (r: string)
    ensures |r| == |s|
    ensures forall i :: 0 <= i < |s| ==> r[i] == LowerChar(s[i])
  {
    if |s| == 0 then [] else [LowerChar(s[0])] + Lower(s[1..])
  }

  /** Lower-casing a string with nothing to lower changes nothing. */
  lemma LowerIdle(s: string)
    requires forall i :: 0 <= i < |s| ==> !IsAsciiUpper(s[i]) && s[i] != 'É'
    ensures Lower(s) == s
  {
    var r := Lower(s);
    assert forall i :: 0 <= i < |s| ==> r[i] == s[i];
  }

  /** `sub in s`. */
  predicate Contains(s: string, sub: string) {
    exists i :: 0 <= i <= |s| && sub <= s[i..]
  }

  /** A string contains only substrings no longer than itself. */
  lemma ContainsLength(s: string, sub: string)
    requires Contains(s, sub)
    ensures |sub| <= |s|
  {
  }

  /**
    Replacing a character by another leaves the occurrences of a substring that uses
    neither of them exactly where they were.
  */
  lemma ReplaceKeepsContains(s: string, target: char, replacement: char, sub: string)
    requires target !in sub && replacement !in sub
    ensures Contains(Replace(s, target, replacement), sub) <==> Contains(s, sub)
  {
    var r := Replace(s, target, replacement);
    forall i | 0 <= i <= |s| && i + |sub| <= |s|
      ensures sub <= r[i..] <==> sub <= s[i..]
    {
      assert forall j :: 0 <= j < |sub| ==> (sub[j] == r[i + j] <==> sub[j] == s[i + j]);
    }
  }
}
