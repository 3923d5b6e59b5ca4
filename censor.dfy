/** censorLine: every blocked word, in load order, is replaced in full by the
    redaction token before the next word is looked for. */
module Censoring {
  import opened Text
  import opened Wrappers

  /** One full replace-all pass per word, in order; a later word also sees
      the text that earlier passes produced. */
  function Censor(line: string, words: seq<string>, token: string): string
    decreases |words|
  {
    if words == [] then line else Censor(ReplaceAll(line, words[0], token), words[1..], token)
  }

  /** Censoring with the words of ws1 + ws2 is censoring with ws1 and then
      censoring the result with ws2. */
  lemma {:induction false} CensorAppend(line: string, ws1: seq<string>, ws2: seq<string>, token: string)
    ensures Censor(line, ws1 + ws2, token) == Censor(Censor(line, ws1, token), ws2, token)
    decreases |ws1|
  {
    if ws1 == [] {
      assert ws1 + ws2 == ws2;
    } else {
      assert (ws1 + ws2)[0] == ws1[0];
      assert (ws1 + ws2)[1..] == ws1[1..] + ws2;
      CensorAppend(ReplaceAll(line, ws1[0], token), ws1[1..], ws2, token);
    }
  }

  /** A line in which no (non-empty) blocked word occurs comes out as it went
      in; in particular, with no blocked words censoring is the identity. */
  lemma {:induction false} CensorUntouched(line: string, words: seq<string>, token: string)
    requires forall i :: 0 <= i < |words| ==> words[i] != [] && !Occurs(words[i], line)
    ensures Censor(line, words, token) == line
    decreases |words|
  {
    if words != [] {
      ReplaceAbsent(line, words[0], token);
      CensorUntouched(line, words[1..], token);
    }
  }

  /** Censoring applied twice is not censoring applied once, even when the
      token contains no blocked word: with the word "ab" and the token "a",
      "abb" becomes "ab", which censors again to "a". */
  lemma NotIdempotent()
    ensures Censor("abb", ["ab"], "a") == "ab"
    ensures Censor("ab", ["ab"], "a") == "a"
  {
    assert ReplaceAll("b", "ab", "a") == "b";
    assert "abb"[2..] == "b";
    assert ReplaceAll("abb", "ab", "a") == "ab";
    assert "ab"[2..] == [];
    assert ReplaceAll("ab", "ab", "a") == "a";
  }

  /** Matching is on substrings, not on whole words. */
  lemma SubstringMatch()
    ensures Censor("concatenate", ["cat"], "X") == "conXenate"
  {
    CatReplaced();
    assert ["cat"][1..] == [];
  }

  lemma CatReplaced()
    ensures ReplaceAll("concatenate", "cat", "X") == "conXenate"
  {
    CatReplacedInPieces();
    assert "con" + "cat" + "enate" == "concatenate";
    assert "con" + "X" + "enate" == "conXenate";
  }

  lemma CatReplacedInPieces()
    ensures ReplaceAll("con" + "cat" + "enate", "cat", "X") == "con" + "X" + "enate"
  {
    CatAbsentAfter();
    CatAbsentBefore();
    ReplaceFirstOccurrence("con", "cat", "enate", "X");
  }

  lemma CatAbsentAfter()
    ensures ReplaceAll("enate", "cat", "X") == "enate"
  {
    forall i | 0 <= i <= 2 ensures !MatchAt("enate", "cat", i) {
      assert "enate"[i] != 'c';
    }
    ReplaceAbsent("enate", "cat", "X");
  }

  lemma CatAbsentBefore()
    ensures !Occurs("cat", "con" + "ca")
  {
    var s := "con" + "ca";
    assert s == "conca";
    forall i | 0 <= i <= 2 ensures !MatchAt(s, "cat", i) {
      assert s[i] != 'c' || s[i + 2] != 't';
    }
  }

  /** Words are applied one full pass at a time: with ["ab", "ba"] and the
      token "*", "abba" becomes "*ba" and then "**". */
  lemma SequentialPasses()
    ensures Censor("abba", ["ab", "ba"], "*") == "**"
  {
    assert "abba"[2..] == "ba";
    assert ReplaceAll("ba", "ab", "*") == "ba";
    assert ReplaceAll("abba", "ab", "*") == "*ba";
    assert "*ba"[1..] == "ba";
    assert "ba"[2..] == [];
    assert ReplaceAll("*ba", "ba", "*") == "**";
    assert ["ab", "ba"][1..] == ["ba"];
  }

  /** The order of the words matters: the same two words in the other order
      censor "aba" differently. */
  lemma OrderMatters()
    ensures Censor("aba", ["ab", "ba"], "*") == "*a"
    ensures Censor("aba", ["ba", "ab"], "*") == "a*"
  {
    assert "aba"[2..] == "a";
    assert "aba"[1..] == "ba";
    assert "ba"[2..] == [];
    assert "a*"[1..] == "*";
    assert "*a"[1..] == "a";
    assert ReplaceAll("aba", "ab", "*") == "*a";
    assert ReplaceAll("*a", "ba", "*") == "*a";
    assert ReplaceAll("aba", "ba", "*") == "a*";
    assert ReplaceAll("a*", "ab", "*") == "a*";
    assert ["ab", "ba"][1..] == ["ba"];
    assert ["ba", "ab"][1..] == ["ab"];
  }

  /** censorLine: the loop over the blocked words, reassigning the line. */
  method CensorLine(line: string, words: seq<string>, token: string) returns (censored: string)
    ensures censored == Censor(line, words, token)
  {
    censored := line;
    for i := 0 to |words|
      invariant Censor(censored, words[i..], token) == Censor(line, words, token)
    {
      assert words[i..][1..] == words[i + 1..];
      censored := ReplaceAll(censored, words[i], token);
    }
    assert words[|words|..] == [];
  }

  /* ---- The replacement as written: a template, not a literal ----

     The filter builds its pattern with regexp.QuoteMeta, so the pattern is
     matched literally, but it passes the token to ReplaceAllString, which
     expands `$` references in the replacement: `$$` is a dollar sign,
     `$name` and `${name}` stand for the submatch called name, and a `$`
     that begins no well-formed reference is kept. A quoted pattern has no
     groups, so only `$0` (the matched word itself) expands to text; every
     other reference expands to nothing. */

  /** Characters a reference name may hold (ASCII letters, digits and `_`). */
  predicate IsNameChar(c: char) {
    'a' <= c <= 'z' || 'A' <= c <= 'Z' || '0' <= c <= '9' || c == '_'
  }

  /** Length of the run of name characters at the front of s. */
  function NameLength(s: string): (n: nat)
    ensures n <= |s|
    ensures forall k :: 0 <= k < n ==> IsNameChar(s[k])
    ensures n < |s| ==> !IsNameChar(s[n])
  {
    if s != [] && IsNameChar(s[0]) then 1 + NameLength(s[1..]) else 0
  }

  datatype Reference = Reference(name: string, rest: string)

  /** The reference that follows a `$`, if the text after it is well formed:
      a non-empty name, bare or in braces. A bare name is the longest run of
      name characters, so `$1x` names `1x`, not `1` followed by `x`. Together
      with BareReferenceExtracted and BracedReferenceExtracted: the result is
      None exactly when the text has neither shape. */
  function ExtractReference(s: string): (r: Option<Reference>)
    ensures r.Some? ==> s != [] && r.value.name != [] && |r.value.rest| < |s|
    ensures r.Some? ==> forall k :: 0 <= k < |r.value.name| ==> IsNameChar(r.value.name[k])
    ensures r.Some? && s[0] != '{' ==>
              s == r.value.name + r.value.rest && (r.value.rest == [] || !IsNameChar(r.value.rest[0]))
    ensures r.Some? && s[0] == '{' ==> s == "{" + r.value.name + "}" + r.value.rest
  {
    if s == [] then None
    else if s[0] == '{' then
      var n := NameLength(s[1..]);
      if n == 0 || n == |s| - 1 || s[1 + n] != '}' then None
      else Some(Reference(s[1..1 + n], s[n + 2..]))
    else
      var n := NameLength(s);
      if n == 0 then None else Some(Reference(s[..n], s[n..]))
  }

  lemma {:induction false} NameLengthOfName(name: string, rest: string)
    requires forall k :: 0 <= k < |name| ==> IsNameChar(name[k])
    requires rest == [] || !IsNameChar(rest[0])
    ensures NameLength(name + rest) == |name|
    decreases |name|
  {
    if name == [] {
      assert name + rest == rest;
    } else {
      assert (name + rest)[0] == name[0];
      assert (name + rest)[1..] == name[1..] + rest;
      NameLengthOfName(name[1..], rest);
    }
  }

  /** Every bare name, cut at its first non-name character, is extracted. */
  lemma BareReferenceExtracted(name: string, rest: string)
    requires name != [] && forall k :: 0 <= k < |name| ==> IsNameChar(name[k])
    requires rest == [] || !IsNameChar(rest[0])
    ensures ExtractReference(name + rest) == Some(Reference(name, rest))
  {
    NameLengthOfName(name, rest);
    assert (name + rest)[0] == name[0];
    assert (name + rest)[..|name|] == name;
    assert (name + rest)[|name|..] == rest;
  }

  /** Every name in braces is extracted, whatever follows the closing brace. */
  lemma BracedReferenceExtracted(name: string, rest: string)
    requires name != [] && forall k :: 0 <= k < |name| ==> IsNameChar(name[k])
    ensures ExtractReference("{" + name + "}" + rest) == Some(Reference(name, rest))
  {
    var s := "{" + name + "}" + rest;
    assert s[1..] == name + ("}" + rest);
    NameLengthOfName(name, "}" + rest);
    assert s[1 + |name|] == '}';
    assert s[1..1 + |name|] == name;
    assert s[|name| + 2..] == rest;
  }

  /** The text ReplaceAllString inserts for one match of word when given
      the template t. */
  function Expand(t: string, word: string): string
    decreases |t|
  {
    if t == [] then []
    else if t[0] != '$' then [t[0]] + Expand(t[1..], word)
    else if |t| > 1 && t[1] == '$' then "$" + Expand(t[2..], word)
    else match ExtractReference(t[1..])
      case None => "$" + Expand(t[1..], word)
      case Some(ref) => (if ref.name == "0" then word else []) + Expand(ref.rest, word)
  }

  /** A template without `$` expands to itself. */
  lemma {:induction false} ExpandLiteral(t: string, word: string)
    requires '$' !in t
    ensures Expand(t, word) == t
    decreases |t|
  {
    if t != [] {
      assert t[0] in t;
      assert forall c :: c in t[1..] ==> c in t;
      ExpandLiteral(t[1..], word);
    }
  }

  /** censorLine as written: each match is replaced by the expansion of the
      token for that match. */
  function CensorAsWritten(line: string, words: seq<string>, token: string): string
    decreases |words|
  {
    if words == [] then line
    else CensorAsWritten(ReplaceAll(line, words[0], Expand(token, words[0])), words[1..], token)
  }

  /** For every token without `$` the code as written behaves as intended. */
  lemma {:induction false} AsWrittenAgreesWithoutDollar(line: string, words: seq<string>, token: string)
    requires '$' !in token
    ensures CensorAsWritten(line, words, token) == Censor(line, words, token)
    decreases |words|
  {
    if words != [] {
      ExpandLiteral(token, words[0]);
      AsWrittenAgreesWithoutDollar(ReplaceAll(line, words[0], token), words[1..], token);
    }
  }

  lemma ExpandDollarZero(word: string)
    ensures Expand("$0", word) == word
  {
    assert "$0"[1..] == "0";
    assert NameLength("0") == 1 by {
      assert "0"[1..] == [];
    }
    assert "0"[..1] == "0";
    assert ExtractReference("0") == Some(Reference("0", []));
  }

  /** `$$` stands for one dollar sign. */
  lemma ExpandDollarDollar(word: string)
    ensures Expand("$$", word) == "$"
  {
    assert "$$"[2..] == [];
  }

  /** `${0}` is `$0` in braces: the matched word. */
  lemma ExpandBracedZero(word: string)
    ensures Expand("${0}", word) == word
  {
    assert "${0}"[1..] == "{" + "0" + "}" + [];
    BracedReferenceExtracted("0", []);
  }

  /** Any other name refers to a group the quoted pattern does not have, and
      expands to nothing. */
  lemma ExpandOtherName(word: string)
    ensures Expand("$1", word) == []
  {
    assert "$1"[1..] == "1" + [];
    BareReferenceExtracted("1", []);
  }

  /** A `$` that begins no reference is kept as it is. */
  lemma ExpandMalformedKept(word: string)
    ensures Expand("$ ", word) == "$ "
  {
    assert "$ "[1..] == " ";
    assert NameLength(" ") == 0;
    assert " "[1..] == [];
  }

  /** With the token `$0` the code as written redacts nothing: every match
      is replaced by itself. */
  lemma {:induction false} DollarZeroRedactsNothing(line: string, words: seq<string>)
    ensures CensorAsWritten(line, words, "$0") == line
    decreases |words|
  {
    if words != [] {
      ExpandDollarZero(words[0]);
      ReplaceBySelf(line, words[0]);
      DollarZeroRedactsNothing(line, words[1..]);
    }
  }

  /** Concretely: the blocked word "secret" with the configured token `$0`
      leaves "secret" readable as written, where the literal token would
      have replaced it. */
  lemma DollarZeroLeaksSecret()
    ensures CensorAsWritten("secret", ["secret"], "$0") == "secret"
    ensures Censor("secret", ["secret"], "$0") == "$0"
  {
    DollarZeroRedactsNothing("secret", ["secret"]);
    assert "secret"[6..] == [];
    assert ["secret"][1..] == [];
  }

  /** Intended behaviour: a line that is exactly a blocked word becomes
      exactly the token, whatever the token holds. */
  lemma WordRedacted(word: string, token: string)
    requires word != []
    ensures Censor(word, [word], token) == token
  {
    assert word[..|word|] == word;
    assert word[|word|..] == [];
    assert ReplaceAll(word, word, token) == token + ReplaceAll([], word, token);
    assert [word][1..] == [];
  }
}
