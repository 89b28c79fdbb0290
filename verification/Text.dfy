/** Characters and C strings, as the daemon's parsers see them. */
module Text {
  datatype Option<T> = None | Some(value: T)

  const CR := '\r'
  const LF := '\n'

  /** The part of a buffer before its first NUL. */
  function CString(s: string): string {
    if s == "" || s[0] == '\0' then "" else [s[0]] + CString(s[1..])
  }

  lemma {:induction false} CStringWhole(s: string)
    requires '\0' !in s
    ensures CString(s) == s
  {
    if s == "" {
    } else {
      CStringWhole(s[1..]);
      assert s == [s[0]] + s[1..];
    }
  }

  /** What stands behind the terminator does not matter. */
  lemma {:induction false} CStringStops(s: string, n: nat)
    requires n < |s| && s[n] == '\0'
    ensures CString(s) == CString(s[..n])
  {
    if n == 0 || s[0] == '\0' {
    } else {
      CStringStops(s[1..], n - 1);
      assert s[1..][..n - 1] == s[..n][1..];
    }
  }

  lemma {:induction false} CStringHasNoNul(s: string)
    ensures '\0' !in CString(s)
  {
    if s == "" || s[0] == '\0' {
    } else {
      CStringHasNoNul(s[1..]);
    }
  }

  predicate IsDigit(c: char) { '0' <= c <= '9' }

  predicate IsSpace(c: char) { c == ' ' || '\t' <= c <= '\r' }

  function ToLower(c: char): char {
    if 'A' <= c <= 'Z' then c - 'A' + 'a' else c
  }

  function LowerCase(s: string): (r: string)
    ensures |r| == |s|
    ensures forall i :: 0 <= i < |s| ==> r[i] == ToLower(s[i])
  {
    seq(|s|, i requires 0 <= i < |s| => ToLower(s[i]))
  }

  /** Two characters that differ at most in case; d is no capital letter. */
  predicate SameLetter(c: char, d: char) { c == d || ('A' <= c <= 'Z' && d == c - 'A' + 'a') }

  /** s spells the word in any case. */
  predicate Spells(s: string, word: string) {
    |s| == |word| && forall i :: 0 <= i < |word| ==> SameLetter(s[i], word[i])
  }

  predicate IsSmall(word: string) { forall i :: 0 <= i < |word| ==> !('A' <= word[i] <= 'Z') }

  lemma SpellsIff(s: string, word: string)
    requires IsSmall(word)
    ensures LowerCase(s) == word <==> Spells(s, word)
  {
    if |s| == |word| {
      forall i | 0 <= i < |word| ensures LowerCase(s)[i] == word[i] <==> SameLetter(s[i], word[i]) {
        assert LowerCase(s)[i] == ToLower(s[i]);
      }
    }
  }

  /** strncasecomp(s, p, strlen(p)) == 0, for a lower-case p. */
  predicate StartsWithNoCase(s: string, p: string) {
    |p| <= |s| && LowerCase(s[..|p|]) == p
  }

  function SkipSpace(s: string): string {
    if s != "" && IsSpace(s[0]) then SkipSpace(s[1..]) else s
  }

  /** The value of the digits s begins with, read behind the digits that gave n. */
  function Digits(s: string, n: int): int {
    if s != "" && IsDigit(s[0]) then Digits(s[1..], 10 * n + (s[0] - '0') as int) else n
  }

  /** atoi(3), without overflow. */
  function Atoi(s: string): int {
    var t := SkipSpace(s);
    if t != "" && t[0] == '-' then 0 - Digits(t[1..], 0)
    else if t != "" && t[0] == '+' then Digits(t[1..], 0)
    else Digits(t, 0)
  }

  /** strchr(s, c) as an index, |s| when there is none. */
  function IndexOf(s: string, c: char): (i: nat)
    ensures i <= |s| && (i < |s| ==> s[i] == c) && c !in s[..i]
  {
    if s == "" || s[0] == c then 0
    else
      var j := IndexOf(s[1..], c);
      assert s[..1 + j] == [s[0]] + s[1..][..j];
      1 + j
  }

  /** A C string is what stands before the first NUL. */
  lemma {:induction false} CStringIsBeforeNul(s: string)
    ensures CString(s) == s[..IndexOf(s, '\0')]
  {
    if s == "" || s[0] == '\0' {
    } else {
      CStringIsBeforeNul(s[1..]);
      assert IndexOf(s, '\0') == 1 + IndexOf(s[1..], '\0');
      assert s[..1 + IndexOf(s[1..], '\0')] == [s[0]] + s[1..][..IndexOf(s[1..], '\0')];
    }
  }

  predicate OccursAt(s: string, p: string, i: int) {
    0 <= i <= |s| - |p| && s[i..i + |p|] == p
  }

  /** strstr(s, p) as an index, -1 when p does not occur. */
  function Find(s: string, p: string): (i: int)
    ensures i >= -1
    ensures i >= 0 ==> OccursAt(s, p, i) && forall j :: 0 <= j < i ==> !OccursAt(s, p, j)
    ensures i < 0 ==> forall j :: !OccursAt(s, p, j)
    decreases |s|
  {
    if |p| > |s| then -1
    else if s[..|p|] == p then 0
    else if s == "" then -1
    else
      var i := Find(s[1..], p);
      FindLater(s, p);
      if i < 0 then -1 else i + 1
  }

  lemma OccursShifted(s: string, p: string, j: int)
    requires s != "" && j >= 1
    ensures OccursAt(s, p, j) <==> OccursAt(s[1..], p, j - 1)
  {
    if j <= |s| - |p| {
      var a, b := s[j..j + |p|], s[1..][j - 1..j - 1 + |p|];
      forall k | 0 <= k < |p| ensures a[k] == b[k] {
        assert a[k] == s[j + k];
      }
      assert a == b;
    }
  }

  lemma FindLater(s: string, p: string)
    requires s != ""
    ensures forall j :: j >= 1 ==> (OccursAt(s, p, j) <==> OccursAt(s[1..], p, j - 1))
    ensures forall j :: j >= 0 ==> (OccursAt(s[1..], p, j) <==> OccursAt(s, p, j + 1))
  {
    forall j | j >= 1 ensures OccursAt(s, p, j) <==> OccursAt(s[1..], p, j - 1) {
      OccursShifted(s, p, j);
    }
    forall j | j >= 0 ensures OccursAt(s[1..], p, j) <==> OccursAt(s, p, j + 1) {
      OccursShifted(s, p, j + 1);
    }
  }

  function Concat(chunks: seq<string>): string {
    if chunks == [] then "" else chunks[0] + Concat(chunks[1..])
  }

  lemma {:induction false} ConcatAppend(a: seq<string>, b: string)
    ensures Concat(a + [b]) == Concat(a) + b
  {
    if a == [] {
      assert Concat([b][1..]) == "";
      assert Concat([b]) == b + "";
    } else {
      assert (a + [b])[1..] == a[1..] + [b];
      ConcatAppend(a[1..], b);
    }
  }

  lemma {:induction false} IndexOfFirst(s: string, c: char, rest: string)
    requires c !in s
    ensures IndexOf(s + [c] + rest, c) == |s|
  {
    if s == "" {
      assert s + [c] + rest == [c] + rest;
    } else {
      assert (s + [c] + rest)[1..] == s[1..] + [c] + rest;
      IndexOfFirst(s[1..], c, rest);
    }
  }

  lemma {:induction false} IndexOfInPrefix(s: string, c: char, more: string)
    requires c in s
    ensures IndexOf(s + more, c) == IndexOf(s, c) < |s|
  {
    if s[0] == c {
    } else {
      assert (s + more)[1..] == s[1..] + more;
      IndexOfInPrefix(s[1..], c, more);
    }
  }
}
