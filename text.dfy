/** The string operations of Go's standard library that the filter relies on:
    strings.TrimSpace, strings.HasPrefix, strings.TrimPrefix, and the literal
    replace-all that a quoted pattern gives regexp.ReplaceAllString.
    A string is a sequence of Unicode scalar values. */
module Text {

  /** unicode.IsSpace: the characters with the Unicode White_Space property. */
  predicate IsSpace(c: char) {
    c == '\t' || c == '\n' || c == '\U{B}' || c == '\U{C}' || c == '\r' || c == ' '
    || c == '\U{85}' || c == '\U{A0}' || c == '\U{1680}'
    || ('\U{2000}' <= c <= '\U{200A}')
    || c == '\U{2028}' || c == '\U{2029}' || c == '\U{202F}' || c == '\U{205F}'
    || c == '\U{3000}'
  }

  /** Neither the first nor the last character is white space. */
  predicate IsTrimmed(s: string) {
    s == [] || (!IsSpace(s[0]) && !IsSpace(s[|s| - 1]))
  }

  /** The number of white-space characters at the front of s. */
  function LeadingSpace(s: string): (n: nat)
    ensures n <= |s|
    ensures forall k :: 0 <= k < n ==> IsSpace(s[k])
    ensures n < |s| ==> !IsSpace(s[n])
    decreases |s|
  {
    if s != [] && IsSpace(s[0]) then 1 + LeadingSpace(s[1..]) else 0
  }

  /** The number of white-space characters at the back of s. */
  function TrailingSpace(s: string): (n: nat)
    ensures n <= |s|
    ensures forall k :: |s| - n <= k < |s| ==> IsSpace(s[k])
    ensures n < |s| ==> !IsSpace(s[|s| - n - 1])
    decreases |s|
  {
    if s != [] && IsSpace(s[|s| - 1]) then 1 + TrailingSpace(s[..|s| - 1]) else 0
  }

  /** strings.TrimSpace: the white space at the front is dropped, then the
      white space at the back of what is left; LeadingSpace and TrailingSpace
      say exactly what is dropped, so the result is trimmed. */
  function TrimSpace(s: string): (r: string)
    ensures IsTrimmed(r) && |r| <= |s|
  {
    var t := s[LeadingSpace(s)..];
    t[..|t| - TrailingSpace(t)]
  }

  /** A string that is already trimmed is left alone, so trimming twice is
      the same as trimming once. */
  lemma TrimSpaceOfTrimmed(s: string)
    requires IsTrimmed(s)
    ensures TrimSpace(s) == s
  {
    assert LeadingSpace(s) == 0;
    assert s[0..] == s;
    assert TrailingSpace(s) == 0;
  }

  lemma TrimSpaceIdempotent(s: string)
    ensures TrimSpace(TrimSpace(s)) == TrimSpace(s)
  {
    TrimSpaceOfTrimmed(TrimSpace(s));
  }

  /** strings.HasPrefix for a one-character prefix. */
  predicate StartsWith(s: string, c: char) {
    s != [] && s[0] == c
  }

  lemma StartsWithIsHasPrefix(s: string, c: char)
    ensures StartsWith(s, c) <==> HasPrefix(s, [c])
  {
    if HasPrefix(s, [c]) {
      assert s[..1][0] == c;
    }
  }

  /** strings.HasPrefix */
  predicate HasPrefix(s: string, p: string) {
    |p| <= |s| && s[..|p|] == p
  }

  /** strings.TrimPrefix: removes p from the front of s when s starts with it. */
  function TrimPrefix(s: string, p: string): string {
    if HasPrefix(s, p) then s[|p|..] else s
  }

  /** A single blank before a trimmed string is trimmed away. */
  lemma TrimSpaceLeadingBlank(v: string)
    requires IsTrimmed(v)
    ensures TrimSpace(" " + v) == v
  {
    assert (" " + v)[1..] == v;
    assert LeadingSpace(" " + v) == 1 + LeadingSpace(v) == 1;
    TrimSpaceOfTrimmed(v);
  }

  /** The leading white space of ws + t is exactly ws when t starts with a
      visible character. */
  lemma {:induction false} LeadingSpaceOfBlanks(ws: string, t: string)
    requires forall k :: 0 <= k < |ws| ==> IsSpace(ws[k])
    requires t != [] && !IsSpace(t[0])
    ensures LeadingSpace(ws + t) == |ws|
    decreases |ws|
  {
    if ws != [] {
      assert (ws + t)[0] == ws[0];
      assert (ws + t)[1..] == ws[1..] + t;
      LeadingSpaceOfBlanks(ws[1..], t);
    } else {
      assert ws + t == t;
    }
  }

  /** TrimSpace strips the blanks in front of a visible character and keeps
      that character first. */
  lemma TrimSpaceFirstVisible(ws: string, t: string)
    requires forall k :: 0 <= k < |ws| ==> IsSpace(ws[k])
    requires t != [] && !IsSpace(t[0])
    ensures StartsWith(TrimSpace(ws + t), t[0])
  {
    LeadingSpaceOfBlanks(ws, t);
    assert (ws + t)[|ws|..] == t;
    assert TrailingSpace(t) < |t|;
  }

  /** A prefix put in front of t is recognised and removed again. */
  lemma TrimPrefixOfConcat(p: string, t: string)
    ensures HasPrefix(p + t, p) && TrimPrefix(p + t, p) == t
  {
    assert (p + t)[..|p|] == p;
    assert (p + t)[|p|..] == t;
  }

  /** w occurs in s at position i. */
  predicate MatchAt(s: string, w: string, i: int) {
    0 <= i && i + |w| <= |s| && s[i..i + |w|] == w
  }

  /** w occurs somewhere in s. */
  predicate Occurs(w: string, s: string) {
    exists i :: 0 <= i <= |s| - |w| && MatchAt(s, w, i)
  }

  /** Literal, leftmost, non-overlapping replacement of every occurrence of w
      in s by r: scanning resumes just after each replaced occurrence.  An
      empty w matches at every position, as an empty pattern does in Go's
      regexp package. */
  function ReplaceAll(s: string, w: string, r: string): string
    decreases |s|
  {
    if w == [] then
      if s == [] then r else r + [s[0]] + ReplaceAll(s[1..], w, r)
    else if |s| < |w| then s
    else if s[..|w|] == w then r + ReplaceAll(s[|w|..], w, r)
    else [s[0]] + ReplaceAll(s[1..], w, r)
  }

  /** A non-empty word that does not occur leaves the string unchanged. */
  lemma {:induction false} ReplaceAbsent(s: string, w: string, r: string)
    requires w != [] && !Occurs(w, s)
    ensures ReplaceAll(s, w, r) == s
    decreases |s|
  {
    if |s| >= |w| {
      assert !MatchAt(s, w, 0);
      assert s[..|w|] != w;
      forall i | MatchAt(s[1..], w, i) ensures MatchAt(s, w, i + 1) {
        assert s[i + 1..i + 1 + |w|] == s[1..][i..i + |w|];
      }
      ReplaceAbsent(s[1..], w, r);
    }
  }

  /** Leftmost matching: when the first occurrence of w in a + w + b starts
      right after a, the prefix a is kept, that occurrence becomes r and
      the scan carries on with b. */
  lemma {:induction false} ReplaceFirstOccurrence(a: string, w: string, b: string, r: string)
    requires w != [] && !Occurs(w, a + w[..|w| - 1])
    ensures ReplaceAll(a + w + b, w, r) == a + r + ReplaceAll(b, w, r)
    decreases |a|
  {
    var s := a + w + b;
    if a == [] {
      assert s[..|w|] == w;
      assert s[|w|..] == b;
    } else {
      var t := a + w[..|w| - 1];
      assert s[..|w|] == t[..|w|];
      assert !MatchAt(t, w, 0);
      assert s[..|w|] != w;
      assert s[1..] == a[1..] + w + b;
      var u := a[1..] + w[..|w| - 1];
      assert t[1..] == u;
      forall i | MatchAt(u, w, i) ensures MatchAt(t, w, i + 1) {
        assert t[i + 1..i + 1 + |w|] == t[1..][i..i + |w|];
      }
      ReplaceFirstOccurrence(a[1..], w, b, r);
      assert [s[0]] + (a[1..] + r + ReplaceAll(b, w, r)) == a + r + ReplaceAll(b, w, r);
    }
  }

  /** Replacing a word by itself changes nothing. */
  lemma {:induction false} ReplaceBySelf(s: string, w: string)
    ensures ReplaceAll(s, w, w) == s
    decreases |s|
  {
    if w == [] {
      if s != [] {
        ReplaceBySelf(s[1..], w);
        assert [s[0]] + s[1..] == s;
      }
    } else if |s| >= |w| {
      if s[..|w|] == w {
        ReplaceBySelf(s[|w|..], w);
        assert s[..|w|] + s[|w|..] == s;
      } else {
        ReplaceBySelf(s[1..], w);
        assert [s[0]] + s[1..] == s;
      }
    }
  }

  /** Replacing a non-empty word by a one-character marker that does not
      appear in s, then the marker back by the word, restores s. */
  lemma {:induction false} ReplaceRoundTrip(s: string, w: string, c: char)
    requires w != [] && c !in s
    ensures ReplaceAll(ReplaceAll(s, w, [c]), [c], w) == s
    decreases |s|
  {
    if |s| < |w| {
      ReplaceAbsentChar(s, c, w);
    } else if s[..|w|] == w {
      var t := ReplaceAll(s[|w|..], w, [c]);
      ReplaceRoundTrip(s[|w|..], w, c);
      assert ([c] + t)[..1] == [c];
      assert ([c] + t)[1..] == t;
      assert s[..|w|] + s[|w|..] == s;
    } else {
      var t := ReplaceAll(s[1..], w, [c]);
      ReplaceRoundTrip(s[1..], w, c);
      assert ([s[0]] + t)[..1] == [s[0]] != [c];
      assert ([s[0]] + t)[1..] == t;
      assert [s[0]] + s[1..] == s;
    }
  }

  /** No occurrence of w can start inside a when a lacks w's first character,
      so the first occurrence of w in a + w + b is the one after a. */
  lemma FirstCharAbsent(a: string, w: string)
    requires w != [] && w[0] !in a
    ensures !Occurs(w, a + w[..|w| - 1])
  {
    var s := a + w[..|w| - 1];
    forall i | 0 <= i <= |s| - |w| ensures !MatchAt(s, w, i) {
      assert s[i] == a[i];
      assert a[i] in a;
      assert s[i..i + |w|][0] == s[i];
    }
  }

  /** A single occurrence of w, with no room for another after it. */
  lemma ReplaceSingle(a: string, w: string, b: string, r: string)
    requires w != [] && w[0] !in a && |b| < |w|
    ensures ReplaceAll(a + w + b, w, r) == a + r + b
  {
    FirstCharAbsent(a, w);
    ReplaceFirstOccurrence(a, w, b, r);
  }

  /** A one-character word that is not in s leaves s unchanged. */
  lemma ReplaceAbsentChar(s: string, c: char, r: string)
    requires c !in s
    ensures ReplaceAll(s, [c], r) == s
  {
    forall i | 0 <= i < |s| ensures !MatchAt(s, [c], i) {
      assert s[i] in s;
      assert s[i..i + 1] == [s[i]];
    }
    ReplaceAbsent(s, [c], r);
  }
}
