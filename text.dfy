/**
 * String helpers used across the backend: whitespace trimming (the `trim()` sanitizer of
 * the request validators), ASCII lower-casing, substring search (`includes`, `ILIKE '%s%'`),
 * `split(' ')`, and the 100-character preview of a flagged post.
 */
module Text {

  /** A character that JavaScript's `\s` class treats as white space. */
  predicate IsSpace(c: char) {
    c == ' ' || c == '\t' || c == '\n' || c == '\r' || c == '\U{000B}' || c == '\U{000C}'
    || c == '\U{00A0}' || c == '\U{1680}' || ('\U{2000}' <= c <= '\U{200A}')
    || c == '\U{2028}' || c == '\U{2029}' || c == '\U{202F}' || c == '\U{205F}'
    || c == '\U{3000}' || c == '\U{FEFF}'
  }

  predicate AllSpace(s: string) {
    forall i :: 0 <= i < |s| ==> IsSpace(s[i])
  }

  /** Drops the leading white space. */
  function TrimStart(s: string): (r: string)
    ensures |r| <= |s| && r == s[|s| - |r|..]
    ensures AllSpace(s[..|s| - |r|])
    ensures r == [] || !IsSpace(r[0])
  {
    if s == [] || !IsSpace(s[0]) then s
    else
      var r := TrimStart(s[1..]);
      assert s[1..][..|s| - 1 - |r|] == s[1..|s| - |r|];
      r
  }

  /** Drops the trailing white space. */
  function TrimEnd(s: string): (r: string)
    ensures |r| <= |s| && r == s[..|r|]
    ensures AllSpace(s[|r|..])
    ensures r == [] || !IsSpace(r[|r| - 1])
  {
    if s == [] || !IsSpace(s[|s| - 1]) then s
    else
      var r := TrimEnd(s[..|s| - 1]);
      assert s[..|s| - 1][|r|..] + [s[|s| - 1]] == s[|r|..];
      r
  }

  /** `String.prototype.trim`: white space removed from both ends. */
  function Trim(s: string): string {
    TrimEnd(TrimStart(s))
  }

  /** Trimming keeps one contiguous slice and throws away only white space around it. */
  lemma TrimIsSlice(s: string)
    ensures exists i, j :: 0 <= i <= j <= |s| && Trim(s) == s[i..j] && AllSpace(s[..i]) && AllSpace(s[j..])
    ensures Trim(s) == [] || (!IsSpace(Trim(s)[0]) && !IsSpace(Trim(s)[|Trim(s)| - 1]))
  {
    var t := TrimStart(s);
    var i := |s| - |t|;
    var r := TrimEnd(t);
    var j := i + |r|;
    assert r == Trim(s);
    SliceOfSuffix(s, i, |r|);
    assert AllSpace(s[..i]) && AllSpace(s[j..]);
    assert r == s[i..j];
    if r != [] {
      assert r[0] == t[0];
    }
  }

  /** The first `n` characters of `s[i..]` are `s[i..i + n]`, and what follows them is `s[i + n..]`. */
  lemma SliceOfSuffix(s: string, i: nat, n: nat)
    requires i + n <= |s|
    ensures s[i..][..n] == s[i..i + n] && s[i..][n..] == s[i + n..]
  {
  }

  /** Trimming twice is trimming once. */
  lemma TrimIdempotent(s: string)
    ensures Trim(Trim(s)) == Trim(s)
  {
    TrimIsSlice(s);
  }

  /** A string of white space only trims to the empty string, and only such a string does. */
  lemma TrimEmptyIff(s: string)
    ensures Trim(s) == [] <==> AllSpace(s)
  {
  }

  /** ASCII lower-casing of one character; every other character is left alone. */
  function LowerChar(c: char): char {
    if 'A' <= c <= 'Z' then (c as int - 'A' as int + 'a' as int) as char else c
  }

  /** `toLowerCase` on the ASCII letters. */
  function ToLower(s: string): (r: string)
    ensures |r| == |s|
    ensures forall i :: 0 <= i < |s| ==> r[i] == LowerChar(s[i])
  {
    seq(|s|, i requires 0 <= i < |s| => LowerChar(s[i]))
  }

  lemma ToLowerIdempotent(s: string)
    ensures ToLower(ToLower(s)) == ToLower(s)
  {
  }

  /** `text.includes(word)`: `word` occurs somewhere in `text` (the empty word occurs everywhere). */
  function Contains(text: string, word: string): bool
    decreases |text|
  {
    if word <= text then true
    else if text == [] then false
    else Contains(text[1..], word)
  }

  /** `word` sits in `text` at position `i`. */
  predicate OccursAt(text: string, word: string, i: int) {
    0 <= i && i + |word| <= |text| && text[i..i + |word|] == word
  }

  /** Substring search agrees with its declarative meaning: some window of `text` equals `word`. */
  lemma {:induction false} ContainsIff(text: string, word: string)
    ensures Contains(text, word) <==> exists i :: OccursAt(text, word, i)
    decreases |text|
  {
    if word <= text {
      assert OccursAt(text, word, 0);
    } else if text == [] {
    } else {
      ContainsIff(text[1..], word);
      if Contains(text[1..], word) {
        var i :| OccursAt(text[1..], word, i);
        assert text[i + 1..i + 1 + |word|] == text[1..][i..i + |word|];
        assert OccursAt(text, word, i + 1);
      } else {
        forall i | OccursAt(text, word, i) && i > 0
          ensures OccursAt(text[1..], word, i - 1)
        {
          assert text[1..][i - 1..i - 1 + |word|] == text[i..i + |word|];
        }
      }
    }
  }

  /** `str.split(sep)`: the pieces between the separators; there is always at least one. */
  function Split(s: string, sep: char): (parts: seq<string>)
    ensures |parts| >= 1
    ensures forall k :: 0 <= k < |parts| ==> sep !in parts[k]
    ensures parts[0] <= s
    ensures |parts| == 1 <==> sep !in s
    ensures |parts| == 1 ==> parts[0] == s
    ensures |parts| > 1 ==> |parts[0]| < |s| && s[|parts[0]|] == sep
  {
    if s == [] then [[]]
    else
      var rest := Split(s[1..], sep);
      if s[0] == sep then [[]] + rest
      else [[s[0]] + rest[0]] + rest[1..]
  }

  /** A leading piece free of the separator splits off as the first part. */
  lemma {:induction false} SplitAfter(w: string, rest: string, sep: char)
    requires sep !in w
    ensures Split(w + [sep] + rest, sep) == [w] + Split(rest, sep)
  {
    var s := w + [sep] + rest;
    if w == [] {
      assert s[1..] == rest;
    } else {
      assert s[1..] == w[1..] + [sep] + rest;
      SplitAfter(w[1..], rest, sep);
      assert [w[0]] + w[1..] == w;
    }
  }

  /** `parts.join(sep)`. */
  function Join(parts: seq<string>, sep: char): string
    requires |parts| >= 1
  {
    if |parts| == 1 then parts[0] else parts[0] + [sep] + Join(parts[1..], sep)
  }

  /** Splitting loses nothing: joining the pieces back gives the original string. */
  lemma {:induction false} JoinSplit(s: string, sep: char)
    ensures Join(Split(s, sep), sep) == s
  {
    if s != [] {
      JoinSplit(s[1..], sep);
      var rest := Split(s[1..], sep);
      if s[0] != sep {
        if |rest| == 1 {
          assert Split(s, sep) == [[s[0]] + rest[0]];
        } else {
          var parts := Split(s, sep);
          assert parts[1..] == rest[1..];
        }
      } else {
        var parts := Split(s, sep);
        assert parts[1..] == rest;
      }
    }
  }

  /** `s.substring(0, n)`. */
  function Take(s: string, n: nat): (r: string)
    ensures |r| == if |s| < n then |s| else n
    ensures r <= s
  {
    if |s| <= n then s else s[..n]
  }
}
