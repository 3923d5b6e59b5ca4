/** process: the filter proper. Each input line is written out either
    verbatim (a comment) or censored. */
module Processing {
  import opened Wrappers
  import opened Text
  import opened Config
  import opened Censoring

  /** A line whose first visible character is `#`. */
  predicate IsCommentLine(line: string) {
    StartsWith(TrimSpace(line), '#')
  }

  /** What the filter writes for one input line under the loaded configuration. */
  function ProcessLine(line: string, cfg: BlockedWordConfig): string {
    if IsCommentLine(line) then line else Censor(line, cfg.words, cfg.redaction)
  }

  /** process: one output line per input line, in order; comment lines are
      passed through untouched, everything else goes through censorLine. */
  method Process(input: seq<string>, cfg: BlockedWordConfig) returns (output: seq<string>)
    ensures |output| == |input|
    ensures forall i :: 0 <= i < |input| ==> output[i] == ProcessLine(input[i], cfg)
    ensures forall i :: 0 <= i < |input| && IsCommentLine(input[i]) ==> output[i] == input[i]
  {
    output := [];
    for i := 0 to |input|
      invariant |output| == i
      invariant forall k :: 0 <= k < i ==> output[k] == ProcessLine(input[k], cfg)
    {
      var line := input[i];
      if StartsWith(TrimSpace(line), '#') {
        output := output + [line];
        continue;
      }
      var censored := CensorLine(line, cfg.words, cfg.redaction);
      output := output + [censored];
    }
  }

  /** A comment stays a comment however far it is indented, so a blocked word
      inside an indented comment is never redacted. */
  lemma IndentedCommentKept(indent: string, rest: string, cfg: BlockedWordConfig)
    requires forall k :: 0 <= k < |indent| ==> IsSpace(indent[k])
    ensures ProcessLine(indent + "#" + rest, cfg) == indent + "#" + rest
  {
    assert indent + "#" + rest == indent + ("#" + rest);
    TrimSpaceFirstVisible(indent, "#" + rest);
  }

  /** A line in which no blocked word occurs is written out unchanged. */
  lemma CleanLineKept(line: string, cfg: BlockedWordConfig)
    requires forall i :: 0 <= i < |cfg.words| ==> IsBlockedWord(cfg.words[i])
    requires forall i :: 0 <= i < |cfg.words| ==> !Occurs(cfg.words[i], line)
    ensures ProcessLine(line, cfg) == line
  {
    if !IsCommentLine(line) {
      CensorUntouched(line, cfg.words, cfg.redaction);
    }
  }

  /** A non-comment line that is exactly a blocked word comes out as the
      token alone when that word is the only one configured. */
  lemma BlockedLineRedacted(word: string, token: string)
    requires IsBlockedWord(word)
    ensures ProcessLine(word, BlockedWordConfig([word], token)) == token
  {
    TrimSpaceOfTrimmed(word);
    WordRedacted(word, token);
  }

  /** End to end: the configuration `redaction: ***` and `secret` loads to
      the word "secret" with the token "***", under which "top secret plan"
      is written out as "top *** plan". */
  lemma CustomTokenExample()
    ensures ParseConfig(["redaction: ***", "secret"]) == Success(BlockedWordConfig(["secret"], "***"))
    ensures ProcessLine("top secret plan", BlockedWordConfig(["secret"], "***")) == "top *** plan"
  {
    ExampleConfigLoads();
    ExampleLineCensored();
  }

  lemma ExampleConfigLoads()
    ensures ParseConfig(["redaction: ***", "secret"]) == Success(BlockedWordConfig(["secret"], "***"))
  {
    assert DirectivePrefix + " " + "***" == "redaction: ***";
    DirectiveThenWordFile("***", "secret");
  }

  lemma ExampleLineCensored()
    ensures ProcessLine("top secret plan", BlockedWordConfig(["secret"], "***")) == "top *** plan"
  {
    assert !IsCommentLine("top secret plan") by {
      TrimSpaceFirstVisible([], "top secret plan");
      assert [] + "top secret plan" == "top secret plan";
    }
    SecretReplaced();
    assert ["secret"][1..] == [];
  }

  lemma SecretReplaced()
    ensures ReplaceAll("top secret plan", "secret", "***") == "top *** plan"
  {
    SecretReplacedInPieces();
    assert "top " + "secret" + " plan" == "top secret plan";
    assert "top " + "***" + " plan" == "top *** plan";
  }

  lemma SecretReplacedInPieces()
    ensures ReplaceAll("top " + "secret" + " plan", "secret", "***") == "top " + "***" + " plan"
  {
    ReplaceSingle("top ", "secret", " plan", "***");
  }
}
