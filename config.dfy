/** The blocked-word configuration: the permission check on the file
    (checkBlockedWordsFilePerm) and the line parser (loadBlockedWords).
    The process-wide variables of the program become one immutable value. */
module Config {
  import opened Wrappers
  import opened Text

  /** The token used when the file has no `redaction:` line. */
  const DefaultRedaction: string := "redacted"

  /** The prefix of the directive that sets the token. */
  const DirectivePrefix: string := "redaction:"

  /** The loaded configuration: blocked words in file order, and the token. */
  datatype BlockedWordConfig = BlockedWordConfig(words: seq<string>, redaction: string)

  /** The fatal conditions of loading: wrong permission bits (with the bits
      found) and a second `redaction:` directive. */
  datatype LoadError = BadPermission(found: bv32) | MultipleRedactionDefinitions

  const Initial: BlockedWordConfig := BlockedWordConfig([], DefaultRedaction)

  // ---------------------------------------------------------------- permissions

  /** os.ModePerm: the nine rwx bits of a Go FileMode. */
  const PermMask: bv32 := 0x1FF
  /** 0o700: read, write and execute for the owner and nothing else. */
  const OwnerOnly: bv32 := 0x1C0

  /** FileMode.Perm */
  function Perm(mode: bv32): bv32 { mode & PermMask }

  predicate OwnerHasAll(mode: bv32) { mode & 0x100 != 0 && mode & 0x80 != 0 && mode & 0x40 != 0 }
  predicate NoGroupAccess(mode: bv32) { mode & 0x38 == 0 }
  predicate NoOtherAccess(mode: bv32) { mode & 0x7 == 0 }

  /** The check accepts exactly the modes whose owner has read, write and
      execute and whose group and others have nothing; the file-type bits
      above the nine permission bits play no part.  A rejection reports the
      permission bits found. */
  function CheckPermission(mode: bv32): (r: Result<(), LoadError>)
    ensures r.Success? <==> OwnerHasAll(mode) && NoGroupAccess(mode) && NoOtherAccess(mode)
    ensures r.Failure? ==> r.error == BadPermission(mode & 0x1FF)
  {
    if Perm(mode) != OwnerOnly then Failure(BadPermission(Perm(mode))) else Success(())
  }

  /** A file readable by group and others (0o644) is refused. */
  lemma WorldReadableRefused()
    ensures CheckPermission(0x1A4) == Failure(BadPermission(0x1A4))
  {
  }

  // ---------------------------------------------------------------- parsing

  /** What one configuration line contributes. */
  datatype LineKind = Skip | Directive(value: string) | Word(word: string)

  /** The word a loaded configuration may hold: non-empty, trimmed, and
      neither a comment nor a directive. */
  predicate IsBlockedWord(w: string) {
    w != [] && IsTrimmed(w) && !StartsWith(w, '#') && !HasPrefix(w, DirectivePrefix)
  }

  /** Classifies one line after trimming it: blank lines and comments are
      skipped (the comment test comes first, so `#redaction: x` is a comment),
      a directive carries its trimmed value, and anything else is a word. */
  function Classify(raw: string): (k: LineKind)
    ensures k.Word? ==> k.word == TrimSpace(raw) && IsBlockedWord(k.word)
    ensures k.Directive? ==> IsTrimmed(k.value)
  {
    ClassifyTrimmed(TrimSpace(raw))
  }

  /** The decision of Classify on the trimmed line. */
  function ClassifyTrimmed(line: string): (k: LineKind)
    requires IsTrimmed(line)
    ensures k.Word? ==> k.word == line && IsBlockedWord(k.word)
    ensures k.Directive? ==> IsTrimmed(k.value)
  {
    if line == [] || StartsWith(line, '#') then Skip
    else if HasPrefix(line, DirectivePrefix) then Directive(TrimSpace(TrimPrefix(line, DirectivePrefix)))
    else Word(line)
  }

  /** The classification of every line of the file, in order. */
  function ClassifyAll(lines: seq<string>): (ks: seq<LineKind>)
    ensures |ks| == |lines|
    ensures forall i :: 0 <= i < |lines| ==> ks[i] == Classify(lines[i])
    ensures forall i :: 0 <= i < |ks| ==> KindOk(ks[i])
    decreases |lines|
  {
    if lines == [] then [] else [Classify(lines[0])] + ClassifyAll(lines[1..])
  }

  lemma {:induction false} ClassifyAllAppend(a: seq<string>, b: seq<string>)
    ensures ClassifyAll(a + b) == ClassifyAll(a) + ClassifyAll(b)
    decreases |a|
  {
    if a == [] {
      assert a + b == b;
    } else {
      assert (a + b)[0] == a[0];
      assert (a + b)[1..] == a[1..] + b;
      ClassifyAllAppend(a[1..], b);
    }
  }

  /** What Classify guarantees of the kinds it produces. */
  predicate KindOk(k: LineKind) {
    (k.Word? ==> IsBlockedWord(k.word)) && (k.Directive? ==> IsTrimmed(k.value))
  }

  /** One iteration of the loader's loop, on a classified line: a second
      directive is an error only when the token in force is no longer the
      default. */
  function Step(c: BlockedWordConfig, k: LineKind): (r: Result<BlockedWordConfig, LoadError>)
    ensures r.Failure? <==> k.Directive? && c.redaction != DefaultRedaction
    ensures r.Failure? ==> r.error == MultipleRedactionDefinitions
    ensures r.Success? && !k.Directive? ==> r.value.redaction == c.redaction
  {
    match k
    case Skip => Success(c)
    case Directive(v) =>
      if c.redaction != DefaultRedaction then Failure(MultipleRedactionDefinitions)
      else Success(c.(redaction := v))
    case Word(w) => Success(c.(words := c.words + [w]))
  }

  /** The loader's loop from state c over the remaining classified lines; it
      stops at the first error. */
  function ParseFrom(c: BlockedWordConfig, ks: seq<LineKind>): (r: Result<BlockedWordConfig, LoadError>)
    ensures r.Failure? ==> r.error == MultipleRedactionDefinitions
    decreases |ks|
  {
    if ks == [] then Success(c)
    else match Step(c, ks[0])
      case Failure(e) => Failure(e)
      case Success(c') => ParseFrom(c', ks[1..])
  }

  // Independent description of the result: the words and the directive values
  // of the file, each in file order.

  /** The blocked words of the lines, in order. */
  function WordsOf(ks: seq<LineKind>): (ws: seq<string>)
    ensures |ws| <= |ks|
    ensures (forall i :: 0 <= i < |ks| ==> KindOk(ks[i])) ==>
              forall i :: 0 <= i < |ws| ==> IsBlockedWord(ws[i])
    decreases |ks|
  {
    if ks == [] then []
    else if ks[0].Word? then [ks[0].word] + WordsOf(ks[1..])
    else WordsOf(ks[1..])
  }

  /** The values of the `redaction:` lines, in order. */
  function DirectivesOf(ks: seq<LineKind>): (ds: seq<string>)
    ensures |ds| <= |ks|
    ensures (forall i :: 0 <= i < |ks| ==> KindOk(ks[i])) ==>
              forall i :: 0 <= i < |ds| ==> IsTrimmed(ds[i])
    decreases |ks|
  {
    if ks == [] then []
    else if ks[0].Directive? then [ks[0].value] + DirectivesOf(ks[1..])
    else DirectivesOf(ks[1..])
  }

  /** The outcome of loading, in closed form, from state c with words ws and
      directive values ds still to come: it succeeds exactly when the token in
      force at each directive is still the default; the words are appended in
      file order, and the token is the one in force after the last directive. */
  function Outcome(c: BlockedWordConfig, ws: seq<string>, ds: seq<string>): Result<BlockedWordConfig, LoadError> {
    var tokens := [c.redaction] + ds;
    if forall j :: 0 <= j < |ds| ==> tokens[j] == DefaultRedaction
    then Success(BlockedWordConfig(c.words + ws, tokens[|ds|]))
    else Failure(MultipleRedactionDefinitions)
  }

  /** Once the token in force is the default, the first directive of the
      rest decides from where the check of Outcome continues. */
  lemma DefaultThenShift(v: string, ds: seq<string>)
    ensures var tokens, tokens' := [DefaultRedaction] + ([v] + ds), [v] + ds;
            && ((forall j :: 0 <= j < |ds| + 1 ==> tokens[j] == DefaultRedaction)
                <==> (forall j :: 0 <= j < |ds| ==> tokens'[j] == DefaultRedaction))
            && tokens[|ds| + 1] == tokens'[|ds|]
  {
    var tokens, tokens' := [DefaultRedaction] + ([v] + ds), [v] + ds;
    assert forall j :: 0 <= j < |ds| + 1 ==> tokens[j + 1] == tokens'[j];
    if forall j :: 0 <= j < |ds| ==> tokens'[j] == DefaultRedaction {
      forall j | 0 <= j < |ds| + 1 ensures tokens[j] == DefaultRedaction {
        if j > 0 { assert tokens[j] == tokens'[j - 1]; }
      }
    }
  }

  /** The loader's loop agrees with the closed form. */
  lemma {:induction false} ParseFromSpec(c: BlockedWordConfig, ks: seq<LineKind>)
    ensures ParseFrom(c, ks) == Outcome(c, WordsOf(ks), DirectivesOf(ks))
    decreases |ks|
  {
    if ks == [] {
      assert c.words + [] == c.words;
    } else if ks[0].Skip? {
      ParseFromSpec(c, ks[1..]);
    } else if ks[0].Word? {
      ParseFromSpec(c.(words := c.words + [ks[0].word]), ks[1..]);
      WordCase(c, ks);
    } else if c.redaction != DefaultRedaction {
      assert ([c.redaction] + DirectivesOf(ks))[0] != DefaultRedaction;
    } else {
      ParseFromSpec(c.(redaction := ks[0].value), ks[1..]);
      DirectiveCase(c, ks);
    }
  }

  lemma WordCase(c: BlockedWordConfig, ks: seq<LineKind>)
    requires ks != [] && ks[0].Word?
    requires var c' := c.(words := c.words + [ks[0].word]);
             ParseFrom(c', ks[1..]) == Outcome(c', WordsOf(ks[1..]), DirectivesOf(ks[1..]))
    ensures ParseFrom(c, ks) == Outcome(c, WordsOf(ks), DirectivesOf(ks))
  {
    var w, c' := ks[0].word, c.(words := c.words + [ks[0].word]);
    assert ParseFrom(c, ks) == ParseFrom(c', ks[1..]);
    assert DirectivesOf(ks) == DirectivesOf(ks[1..]);
    assert WordsOf(ks) == [w] + WordsOf(ks[1..]);
    AppendOne(c.words, w, WordsOf(ks[1..]));
    SameOutcome(c', WordsOf(ks[1..]), c, WordsOf(ks), DirectivesOf(ks));
  }

  lemma AppendOne(a: seq<string>, w: string, b: seq<string>)
    ensures (a + [w]) + b == a + ([w] + b)
  {
  }

  /** Outcome depends only on the token in force and on the final word list. */
  lemma SameOutcome(c: BlockedWordConfig, ws: seq<string>, c': BlockedWordConfig, ws': seq<string>, ds: seq<string>)
    requires c.redaction == c'.redaction && c.words + ws == c'.words + ws'
    ensures Outcome(c, ws, ds) == Outcome(c', ws', ds)
  {
  }

  lemma DirectiveCase(c: BlockedWordConfig, ks: seq<LineKind>)
    requires ks != [] && ks[0].Directive? && c.redaction == DefaultRedaction
    requires var c' := c.(redaction := ks[0].value);
             ParseFrom(c', ks[1..]) == Outcome(c', WordsOf(ks[1..]), DirectivesOf(ks[1..]))
    ensures ParseFrom(c, ks) == Outcome(c, WordsOf(ks), DirectivesOf(ks))
  {
    var ds' := DirectivesOf(ks[1..]);
    DefaultThenShift(ks[0].value, ds');
    assert [c.redaction] + DirectivesOf(ks) == [DefaultRedaction] + ([ks[0].value] + ds');
  }

  /** From any state, a successful run of the loop only appends words: the
      words held before come first, followed by the file's words in order. */
  lemma WordsOnlyAppended(c: BlockedWordConfig, ks: seq<LineKind>)
    requires ParseFrom(c, ks).Success?
    ensures ParseFrom(c, ks).value.words == c.words + WordsOf(ks)
  {
    ParseFromSpec(c, ks);
  }

  /** loadBlockedWords as a function of the file's lines: on success every
      word is a blocked word as IsBlockedWord describes it, and the token is
      trimmed; the only error is a repeated directive. */
  function ParseConfig(lines: seq<string>): (r: Result<BlockedWordConfig, LoadError>)
    ensures r.Failure? ==> r.error == MultipleRedactionDefinitions
    ensures r.Success? ==> (forall i :: 0 <= i < |r.value.words| ==> IsBlockedWord(r.value.words[i]))
                           && IsTrimmed(r.value.redaction)
  {
    var ks := ClassifyAll(lines);
    ParseFromSpec(Initial, ks);
    ParseFrom(Initial, ks)
  }

  /** What loading a file with classified lines ks yields, said without the
      loop: it fails exactly when a directive other than the last has a value
      other than the default (a second directive then meets a token that is
      no longer the default); otherwise the words are those of the file in
      file order, and the token is the last directive's value, or the
      default when there is none. */
  function Expected(ks: seq<LineKind>): Result<BlockedWordConfig, LoadError> {
    var ds := DirectivesOf(ks);
    if forall j :: 0 <= j < |ds| - 1 ==> ds[j] == DefaultRedaction
    then Success(BlockedWordConfig(WordsOf(ks), if ds == [] then DefaultRedaction else ds[|ds| - 1]))
    else Failure(MultipleRedactionDefinitions)
  }

  lemma InitialOutcome(ks: seq<LineKind>)
    ensures ParseFrom(Initial, ks) == Expected(ks)
  {
    ParseFromSpec(Initial, ks);
    InitialClosedForm(WordsOf(ks), DirectivesOf(ks));
  }

  /** Outcome started from the initial state, in the simpler terms of
      Expected: only the directives before the last are checked against the
      default, and the token is the last value. */
  lemma InitialClosedForm(ws: seq<string>, ds: seq<string>)
    ensures Outcome(Initial, ws, ds)
            == if forall j :: 0 <= j < |ds| - 1 ==> ds[j] == DefaultRedaction
               then Success(BlockedWordConfig(ws, if ds == [] then DefaultRedaction else ds[|ds| - 1]))
               else Failure(MultipleRedactionDefinitions)
  {
    var tokens := [DefaultRedaction] + ds;
    assert Initial.words + ws == ws;
    assert forall j :: 0 <= j < |ds| - 1 ==> tokens[j + 1] == ds[j];
    if ds != [] {
      assert tokens[|ds|] == ds[|ds| - 1];
    }
  }

  /** The loader agrees with Expected on every file. */
  lemma ParseConfigSpec(lines: seq<string>)
    ensures ParseConfig(lines) == Expected(ClassifyAll(lines))
  {
    InitialOutcome(ClassifyAll(lines));
  }

  /** The lines of a file that name blocked words, each trimmed: those whose
      trimmed form is non-empty and starts with neither `#` nor `redaction:`. */
  function WordLines(lines: seq<string>): seq<string>
    decreases |lines|
  {
    if lines == [] then []
    else (if IsBlockedWord(TrimSpace(lines[0])) then [TrimSpace(lines[0])] else []) + WordLines(lines[1..])
  }

  lemma {:induction false} WordsOfWordLines(lines: seq<string>)
    ensures WordsOf(ClassifyAll(lines)) == WordLines(lines)
    decreases |lines|
  {
    if lines != [] {
      var ks := ClassifyAll(lines);
      assert ks[1..] == ClassifyAll(lines[1..]);
      assert ks[0].Word? <==> IsBlockedWord(TrimSpace(lines[0]));
      WordsOfWordLines(lines[1..]);
    }
  }

  /** A loaded configuration holds every blocked-word line of the file,
      trimmed, in file order, and nothing else. */
  lemma LoadedWordsInFileOrder(lines: seq<string>)
    requires ParseConfig(lines).Success?
    ensures ParseConfig(lines).value.words == WordLines(lines)
  {
    ParseConfigSpec(lines);
    WordsOfWordLines(lines);
  }

  /** Running the loader over two pieces of a file is running it over the
      first and then, from where it stopped, over the second. */
  lemma {:induction false} ParseFromAppend(c: BlockedWordConfig, a: seq<LineKind>, b: seq<LineKind>)
    ensures ParseFrom(c, a + b) == match ParseFrom(c, a)
                                   case Failure(e) => Failure(e)
                                   case Success(c') => ParseFrom(c', b)
    decreases |a|
  {
    if a == [] {
      assert a + b == b;
    } else {
      assert (a + b)[0] == a[0];
      assert (a + b)[1..] == a[1..] + b;
      if Step(c, a[0]).Success? {
        ParseFromAppend(Step(c, a[0]).value, a[1..], b);
      }
    }
  }

  /** A blank or comment line anywhere in the file changes nothing: it adds no
      word and leaves the token and the outcome as they are. */
  lemma SkippedLineIrrelevant(a: seq<string>, line: string, b: seq<string>)
    requires TrimSpace(line) == [] || StartsWith(TrimSpace(line), '#')
    ensures ParseConfig(a + [line] + b) == ParseConfig(a + b)
  {
    var ka, kb := ClassifyAll(a), ClassifyAll(b);
    assert ClassifyAll([line] + b) == [Skip] + kb by {
      SkipLineClassified(line);
      assert ([line] + b)[1..] == b;
    }
    ClassifyAllAppend(a, [line] + b);
    ClassifyAllAppend(a, b);
    assert a + [line] + b == a + ([line] + b);
    SkipIrrelevant(ka, kb);
  }

  lemma SkipIrrelevant(ka: seq<LineKind>, kb: seq<LineKind>)
    ensures ParseFrom(Initial, ka + ([Skip] + kb)) == ParseFrom(Initial, ka + kb)
  {
    ParseFromAppend(Initial, ka, [Skip] + kb);
    ParseFromAppend(Initial, ka, kb);
    if ParseFrom(Initial, ka).Success? {
      assert ([Skip] + kb)[1..] == kb;
    }
  }

  /** `#redaction: x` is a comment, not a directive. */
  lemma CommentedDirectiveSkipped()
    ensures Classify("#redaction: x") == Skip
  {
    TrimSpaceOfTrimmed("#redaction: x");
  }

  /** Any line whose trimmed form starts with `redaction:` is a directive,
      and its value is the trimmed text after that prefix. */
  lemma DirectiveLineClassified(raw: string)
    requires HasPrefix(TrimSpace(raw), DirectivePrefix)
    ensures Classify(raw) == Directive(TrimSpace(TrimPrefix(TrimSpace(raw), DirectivePrefix)))
    ensures TrimPrefix(TrimSpace(raw), DirectivePrefix) == TrimSpace(raw)[|DirectivePrefix|..]
  {
    assert TrimSpace(raw)[0] == TrimSpace(raw)[..|DirectivePrefix|][0] == 'r';
  }

  /** A line that trims to nothing or to a `#` line is skipped. */
  lemma SkipLineClassified(raw: string)
    requires TrimSpace(raw) == [] || StartsWith(TrimSpace(raw), '#')
    ensures Classify(raw) == Skip
  {
  }

  /** Any other line is a word: the trimmed line itself. */
  lemma WordLineClassified(raw: string)
    requires TrimSpace(raw) != [] && !StartsWith(TrimSpace(raw), '#')
    requires !HasPrefix(TrimSpace(raw), DirectivePrefix)
    ensures Classify(raw) == Word(TrimSpace(raw))
  {
  }

  /** Classifies a directive line whose value has no surrounding space. */
  lemma ClassifyDirective(v: string)
    requires v != [] && IsTrimmed(v)
    ensures Classify(DirectivePrefix + " " + v) == Directive(v)
  {
    DirectiveLineTrimmed(v);
    DirectiveLineDecided(v);
  }

  lemma DirectiveLineTrimmed(v: string)
    requires v != [] && IsTrimmed(v)
    ensures TrimSpace(DirectivePrefix + " " + v) == DirectivePrefix + " " + v
  {
    TrimSpaceOfTrimmed(DirectivePrefix + " " + v);
  }

  lemma DirectiveLineDecided(v: string)
    requires v != [] && IsTrimmed(v)
    ensures IsTrimmed(DirectivePrefix + " " + v)
    ensures ClassifyTrimmed(DirectivePrefix + " " + v) == Directive(v)
  {
    DirectiveLineShape(v);
    DirectiveLinePrefix(v);
    TrimSpaceLeadingBlank(v);
  }

  lemma DirectiveLineShape(v: string)
    requires v != [] && IsTrimmed(v)
    ensures IsTrimmed(DirectivePrefix + " " + v) && !StartsWith(DirectivePrefix + " " + v, '#')
  {
    assert (DirectivePrefix + " " + v)[0] == 'r';
  }

  lemma DirectiveLinePrefix(v: string)
    ensures HasPrefix(DirectivePrefix + " " + v, DirectivePrefix)
    ensures TrimPrefix(DirectivePrefix + " " + v, DirectivePrefix) == " " + v
  {
    assert DirectivePrefix + " " + v == DirectivePrefix + (" " + v);
    TrimPrefixOfConcat(DirectivePrefix, " " + v);
  }

  /** Of two directives, the second is accepted exactly when the first set
      the token to the default value, and then it decides the token. */
  lemma RepeatedDirective(v1: string, v2: string)
    ensures ParseFrom(Initial, [Directive(v1), Directive(v2)])
            == if v1 == DefaultRedaction then Success(BlockedWordConfig([], v2))
               else Failure(MultipleRedactionDefinitions)
  {
    var ks := [Directive(v1), Directive(v2)];
    assert ks[1..] == [Directive(v2)];
    assert [Directive(v2)][1..] == [];
    if v1 == DefaultRedaction {
      assert ParseFrom(Initial, ks) == ParseFrom(BlockedWordConfig([], v1), [Directive(v2)]);
    }
  }

  /** A file holding a directive line and then a word line loads to that
      word and that token. */
  lemma DirectiveThenWordFile(v: string, w: string)
    requires v != [] && IsTrimmed(v) && IsBlockedWord(w)
    ensures ParseConfig([DirectivePrefix + " " + v, w]) == Success(BlockedWordConfig([w], v))
  {
    var lines := [DirectivePrefix + " " + v, w];
    ClassifyDirective(v);
    TrimSpaceOfTrimmed(w);
    assert lines[1..] == [w];
    assert [w][1..] == [];
    assert ClassifyAll(lines) == [Directive(v), Word(w)];
    DirectiveThenWord(v, w);
  }

  /** A directive followed by a word, from the initial state: the token is
      the directive's value, whatever it is, and the word is the only one. */
  lemma DirectiveThenWord(v: string, w: string)
    ensures ParseFrom(Initial, [Directive(v), Word(w)]) == Success(BlockedWordConfig([w], v))
  {
    var c, c' := BlockedWordConfig([], v), BlockedWordConfig([w], v);
    assert [] + [w] == [w];
    assert [Word(w)][1..] == [];
    assert ParseFrom(c, [Word(w)]) == ParseFrom(c', []);
    assert [Directive(v), Word(w)][1..] == [Word(w)];
    assert ParseFrom(Initial, [Directive(v), Word(w)]) == ParseFrom(c, [Word(w)]);
  }

  /** One turn of the loader's loop: the line at i is classified and stepped
      over, and loading goes on from the next line. */
  lemma LoadOneLine(c: BlockedWordConfig, lines: seq<string>, i: nat)
    requires i < |lines|
    ensures ParseFrom(c, ClassifyAll(lines[i..]))
            == match Step(c, Classify(lines[i]))
               case Failure(e) => Failure(e)
               case Success(c') => ParseFrom(c', ClassifyAll(lines[i + 1..]))
  {
    assert lines[i..][1..] == lines[i + 1..];
    assert ClassifyAll(lines[i..])[1..] == ClassifyAll(lines[i + 1..]);
  }

  /** loadBlockedWords: the scanning loop over the file's lines, updating the
      list of words and the token as it goes. */
  method LoadBlockedWords(lines: seq<string>) returns (r: Result<BlockedWordConfig, LoadError>)
    ensures r == ParseConfig(lines)
  {
    var words: seq<string> := [];
    var redaction := DefaultRedaction;
    var i := 0;
    assert lines[i..] == lines;
    while i < |lines|
      invariant 0 <= i <= |lines|
      invariant ParseFrom(BlockedWordConfig(words, redaction), ClassifyAll(lines[i..])) == ParseConfig(lines)
    {
      LoadOneLine(BlockedWordConfig(words, redaction), lines, i);
      var line := TrimSpace(lines[i]);
      if line == [] || StartsWith(line, '#') {
        SkipLineClassified(lines[i]);
        i := i + 1;
        continue;
      }
      if HasPrefix(line, DirectivePrefix) {
        DirectiveLineClassified(lines[i]);
        if redaction != DefaultRedaction {
          return Failure(MultipleRedactionDefinitions);
        }
        redaction := TrimSpace(TrimPrefix(line, DirectivePrefix));
        i := i + 1;
        continue;
      }
      WordLineClassified(lines[i]);
      words := words + [line];
      i := i + 1;
    }
    return Success(BlockedWordConfig(words, redaction));
  }

  /** The start-up sequence: the permission check, then the parse.  With bad
      permission bits the file's lines are never looked at. */
  function LoadConfig(mode: bv32, lines: seq<string>): (r: Result<BlockedWordConfig, LoadError>)
    ensures Perm(mode) != OwnerOnly ==> r == Failure(BadPermission(Perm(mode)))
    ensures Perm(mode) == OwnerOnly ==> r == ParseConfig(lines)
  {
    match CheckPermission(mode)
    case Failure(e) => Failure(e)
    case Success(_) => ParseConfig(lines)
  }
}
