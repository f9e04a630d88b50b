/**
 * americanise: copies a text stream to an output stream, replacing every
 * maximal run of ASCII letters by its American spelling when a
 * British-to-American table lists it.
 */
module Americanise {
  import opened Wrappers
  import opened Seqs
  import opened Reader
  import opened Strings

  type Table = map<string, string>

  // ---------------------------------------------------------------- the table

  /** The two fields of a table line, when it has exactly two. */
  function EntryOf(line: string): Option<(string, string)>
  {
    var fs := Fields(line);
    if |fs| == 2 then Some((fs[0], fs[1])) else None
  }

  /** Words joined by a space character form a table line exactly when there are two of them. */
  lemma EntryOfJoin(ws: seq<string>, c: char)
    requires IsSpace(c)
    requires forall i :: 0 <= i < |ws| ==> IsWord(ws[i])
    ensures EntryOf(Join(ws, c)).Some? <==> |ws| == 2
    ensures |ws| == 2 ==> EntryOf(Join(ws, c)) == Some((ws[0], ws[1]))
  {
    FieldsOfJoin(ws, c);
  }

  /** A line "british american" of two words and one space character is the entry british -> american. */
  lemma TwoWordLine(british: string, c: char, american: string)
    requires IsWord(british) && IsSpace(c) && IsWord(american)
    ensures EntryOf(british + [c] + american) == Some((british, american))
  {
    EntryOfJoin([british, american], c);
    assert Join([british, american], c) == british + [c] + american;
  }

  /** The table built from the lines in order: each two-field line assigns its first field to its second. */
  function TableOf(lines: seq<string>): Table
    decreases |lines|
  {
    if lines == [] then map[]
    else
      var m := TableOf(lines[..|lines| - 1]);
      match EntryOf(lines[|lines| - 1])
      case Some(e) => m[e.0 := e.1]
      case None => m
  }

  predicate DefinesKey(line: string, key: string)
  {
    EntryOf(line).Some? && EntryOf(line).value.0 == key
  }

  /** Line i gives key the translation value, and no later line defines key. */
  predicate LastDefinition(lines: seq<string>, key: string, i: int, value: string)
  {
    && 0 <= i < |lines|
    && EntryOf(lines[i]) == Some((key, value))
    && forall j :: i < j < |lines| ==> !DefinesKey(lines[j], key)
  }

  /**
   * A word is in the table exactly when some two-field line names it first;
   * its translation is the second field of the LAST such line.
   */
  lemma {:induction false} TableLastWins(lines: seq<string>, key: string)
    ensures key in TableOf(lines) <==> exists i :: 0 <= i < |lines| && DefinesKey(lines[i], key)
    ensures key in TableOf(lines) ==> exists i :: LastDefinition(lines, key, i, TableOf(lines)[key])
    decreases |lines|
  {
    if lines != [] {
      var init := lines[..|lines| - 1];
      var last := |lines| - 1;
      TableLastWins(init, key);
      forall i | 0 <= i < |init| ensures init[i] == lines[i] { }
      if DefinesKey(lines[last], key) {
        assert LastDefinition(lines, key, last, TableOf(lines)[key]);
      } else {
        assert key in TableOf(lines) <==> key in TableOf(init);
        assert key in TableOf(lines) ==> TableOf(lines)[key] == TableOf(init)[key];
        if key in TableOf(lines) {
          var i :| LastDefinition(init, key, i, TableOf(init)[key]);
          assert LastDefinition(lines, key, i, TableOf(lines)[key]);
        }
      }
    }
  }

  /** makeReplacerFunction's table loop over the lines of the table file (its text as read). */
  method MakeTable(text: string) returns (m: Table)
    ensures m == TableOf(Split(text, '\n'))
  {
    var lines := Split(text, '\n');
    m := map[];
    for i := 0 to |lines|
      invariant m == TableOf(lines[..i])
    {
      assert lines[..i + 1][..i] == lines[..i];
      var fields := Fields(lines[i]);
      if |fields| == 2 {
        m := m[fields[0] := fields[1]];
      }
    }
    assert lines[..|lines|] == lines;
  }

  /** The replacer closure: the table's translation of a word, or the word itself. */
  function Replace(m: Table, word: string): (r: string)
    ensures word in m ==> r == m[word]
    ensures word !in m ==> r == word
  {
    if word in m then m[word] else word
  }

  // ------------------------------------------------------------ the word pass

  predicate IsLetter(c: char)
  {
    ('A' <= c <= 'Z') || ('a' <= c <= 'z')
  }

  /** A piece of a line as the pattern [A-Za-z]+ sees it: a maximal letter run, or one other character. */
  datatype Token = Word(w: string) | Other(c: char)

  function Tokens(s: string): seq<Token>
    decreases |s|
  {
    if s == [] then []
    else if !IsLetter(s[0]) then [Other(s[0])] + Tokens(s[1..])
    else
      var n := Span(s, IsLetter);
      [Word(s[..n])] + Tokens(s[n..])
  }

  /** The text of a token sequence. */
  function Spell(ts: seq<Token>): string
  {
    if ts == [] then []
    else (match ts[0] case Word(w) => w case Other(c) => [c]) + Spell(ts[1..])
  }

  /** The text of a token sequence with every word passed through the replacer. */
  function Render(m: Table, ts: seq<Token>): string
  {
    if ts == [] then []
    else (match ts[0] case Word(w) => Replace(m, w) case Other(c) => [c]) + Render(m, ts[1..])
  }

  /** regexp.MustCompile("[A-Za-z]+").ReplaceAllStringFunc(s, replacer). */
  function Rewrite(m: Table, s: string): string
  {
    Render(m, Tokens(s))
  }

  /** The text of a token sequence starts with the text of its first token. */
  lemma SpellCons(t: Token, ts: seq<Token>)
    ensures Spell([t] + ts) == (match t case Word(w) => w case Other(c) => [c]) + Spell(ts)
  {
    assert ([t] + ts)[0] == t && ([t] + ts)[1..] == ts;
  }

  /** The length of the first token's text: a letter run, or one other character. */
  function FirstLength(s: string): (n: nat)
    requires s != []
    ensures 1 <= n <= |s|
  {
    if IsLetter(s[0]) then Span(s, IsLetter) else 1
  }

  /** If the tokens after the first spell the rest of s, the tokens of s spell s. */
  lemma TokensSpellStep(s: string)
    requires s != []
    requires Spell(Tokens(s[FirstLength(s)..])) == s[FirstLength(s)..]
    ensures Spell(Tokens(s)) == s
  {
    var n := FirstLength(s);
    if IsLetter(s[0]) {
      SpellCons(Word(s[..n]), Tokens(s[n..]));
    } else {
      SpellCons(Other(s[0]), Tokens(s[1..]));
      assert s[..1] == [s[0]];
    }
    assert s == s[..n] + s[n..];
  }

  /** Tokenising loses nothing: the tokens spell the input. */
  lemma {:induction false} TokensSpell(s: string)
    ensures Spell(Tokens(s)) == s
    decreases |s|
  {
    if s != [] {
      TokensSpell(s[FirstLength(s)..]);
      TokensSpellStep(s);
    }
  }

  /**
   * Only maximal letter runs reach the replacer: every word is a non-empty run
   * of letters, every other token is a non-letter, and no word follows a word.
   */
  lemma {:induction false} TokensMaximal(s: string)
    ensures var ts := Tokens(s);
      forall i :: 0 <= i < |ts| ==>
        && (ts[i].Word? ==> ts[i].w != [] && forall j :: 0 <= j < |ts[i].w| ==> IsLetter(ts[i].w[j]))
        && (ts[i].Other? ==> !IsLetter(ts[i].c))
        && (ts[i].Word? && i + 1 < |ts| ==> ts[i + 1].Other?)
    decreases |s|
  {
    if s != [] {
      var ts := Tokens(s);
      if !IsLetter(s[0]) {
        TokensMaximal(s[1..]);
        assert ts[1..] == Tokens(s[1..]);
      } else {
        var n := Span(s, IsLetter);
        TokensMaximal(s[n..]);
        assert ts[1..] == Tokens(s[n..]);
        if n < |s| {
          assert Tokens(s[n..])[0] == Other(s[n]);
        }
      }
    }
  }

  lemma {:induction false} RenderAppend(m: Table, a: seq<Token>, b: seq<Token>)
    ensures Render(m, a + b) == Render(m, a) + Render(m, b)
  {
    if a == [] {
      assert a + b == b;
    } else {
      assert (a + b)[0] == a[0];
      assert (a + b)[1..] == a[1..] + b;
      RenderAppend(m, a[1..], b);
    }
  }

  /** Text that is empty or ends in a non-letter. */
  predicate EndsOutsideWord(a: string)
  {
    a == [] || !IsLetter(a[|a| - 1])
  }

  /** The first token of a non-empty text. */
  function FirstToken(s: string): Token
    requires s != []
  {
    if IsLetter(s[0]) then Word(s[..FirstLength(s)]) else Other(s[0])
  }

  lemma TokensCons(s: string)
    requires s != []
    ensures Tokens(s) == [FirstToken(s)] + Tokens(s[FirstLength(s)..])
  {
  }

  /** Text ending outside a word has the same first token whatever follows it. */
  lemma FirstTokenAppend(a: string, b: string)
    requires a != [] && EndsOutsideWord(a)
    ensures FirstLength(a + b) == FirstLength(a) && FirstToken(a + b) == FirstToken(a)
    ensures (a + b)[FirstLength(a)..] == a[FirstLength(a)..] + b
  {
    var n := FirstLength(a);
    var s := a + b;
    assert s[0] == a[0];
    if IsLetter(a[0]) {
      assert n < |a|;
      SpanStops(s, IsLetter, n);
      assert s[..n] == a[..n];
    }
  }

  /** If the text after a's first token tokenises independently of b, so does a. */
  lemma TokensAppendStep(a: string, b: string)
    requires a != [] && EndsOutsideWord(a)
    requires Tokens(a[FirstLength(a)..] + b) == Tokens(a[FirstLength(a)..]) + Tokens(b)
    ensures Tokens(a + b) == Tokens(a) + Tokens(b)
  {
    var n := FirstLength(a);
    var t := FirstToken(a);
    FirstTokenAppend(a, b);
    calc {
      Tokens(a + b);
      { TokensCons(a + b); }
      [t] + Tokens((a + b)[n..]);
      [t] + Tokens(a[n..] + b);
      [t] + (Tokens(a[n..]) + Tokens(b));
      ([t] + Tokens(a[n..])) + Tokens(b);
      { TokensCons(a); }
      Tokens(a) + Tokens(b);
    }
  }

  /** Text that ends in a non-letter tokenises independently of what follows it. */
  lemma {:induction false} TokensAppend(a: string, b: string)
    requires EndsOutsideWord(a)
    ensures Tokens(a + b) == Tokens(a) + Tokens(b)
    decreases |a|
  {
    if a == [] {
      assert a + b == b;
    } else {
      var r := a[FirstLength(a)..];
      assert EndsOutsideWord(r) by {
        if r != [] {
          assert r[|r| - 1] == a[|a| - 1];
        }
      }
      TokensAppend(r, b);
      TokensAppendStep(a, b);
    }
  }

  /**
   * Rewriting is compositional across a non-letter boundary, so rewriting a
   * text chunk by chunk at its line ends equals rewriting it whole.
   */
  lemma RewriteAppend(m: Table, a: string, b: string)
    requires EndsOutsideWord(a)
    ensures Rewrite(m, a + b) == Rewrite(m, a) + Rewrite(m, b)
  {
    TokensAppend(a, b);
    RenderAppend(m, Tokens(a), Tokens(b));
  }

  /** With an empty table the pass copies its input. */
  lemma EmptyTableKeepsText(s: string)
    ensures Rewrite(map[], s) == s
  {
    RenderEmptyIsSpell(Tokens(s));
    TokensSpell(s);
  }

  lemma {:induction false} RenderEmptyIsSpell(ts: seq<Token>)
    ensures Render(map[], ts) == Spell(ts)
  {
    if ts != [] {
      RenderEmptyIsSpell(ts[1..]);
    }
  }

  /**
   * When every translation is itself made of letters, the non-letters of the
   * output are exactly those of the input, in order.
   */
  lemma KeepsNonLetters(m: Table, s: string)
    requires forall k :: k in m ==> forall j :: 0 <= j < |m[k]| ==> IsLetter(m[k][j])
    ensures Filter(IsNonLetter, Rewrite(m, s)) == Filter(IsNonLetter, s)
  {
    TokensSpell(s);
    TokensMaximal(s);
    RenderKeepsNonLetters(m, Tokens(s));
  }

  predicate IsNonLetter(c: char)
  {
    !IsLetter(c)
  }

  lemma {:induction false} RenderKeepsNonLetters(m: Table, ts: seq<Token>)
    requires forall k :: k in m ==> forall j :: 0 <= j < |m[k]| ==> IsLetter(m[k][j])
    requires forall i :: 0 <= i < |ts| && ts[i].Word? ==> forall j :: 0 <= j < |ts[i].w| ==> IsLetter(ts[i].w[j])
    ensures Filter(IsNonLetter, Render(m, ts)) == Filter(IsNonLetter, Spell(ts))
  {
    if ts != [] {
      RenderKeepsNonLetters(m, ts[1..]);
      match ts[0]
      case Word(w) =>
        var r := Replace(m, w);
        LettersFilterEmpty(r);
        LettersFilterEmpty(w);
        FilterAppend(IsNonLetter, r, Render(m, ts[1..]));
        FilterAppend(IsNonLetter, w, Spell(ts[1..]));
      case Other(c) =>
        FilterAppend(IsNonLetter, [c], Render(m, ts[1..]));
        FilterAppend(IsNonLetter, [c], Spell(ts[1..]));
    }
  }

  /**
   * For every table: the non-letters of the input, '\n' included, appear in
   * the output unchanged and in order. Translations that hold non-letters of
   * their own only add to them.
   */
  lemma KeepsNonLettersInOrder(m: Table, s: string)
    ensures IsSubsequence(Filter(IsNonLetter, s), Filter(IsNonLetter, Rewrite(m, s)))
  {
    TokensSpell(s);
    TokensMaximal(s);
    RenderKeepsNonLettersInOrder(m, Tokens(s));
  }

  lemma {:induction false} RenderKeepsNonLettersInOrder(m: Table, ts: seq<Token>)
    requires forall i :: 0 <= i < |ts| && ts[i].Word? ==> forall j :: 0 <= j < |ts[i].w| ==> IsLetter(ts[i].w[j])
    ensures IsSubsequence(Filter(IsNonLetter, Spell(ts)), Filter(IsNonLetter, Render(m, ts)))
  {
    if ts != [] {
      RenderKeepsNonLettersInOrder(m, ts[1..]);
      var a := Filter(IsNonLetter, Spell(ts[1..]));
      var b := Filter(IsNonLetter, Render(m, ts[1..]));
      match ts[0]
      case Word(w) =>
        var r := Replace(m, w);
        LettersFilterEmpty(w);
        FilterAppend(IsNonLetter, w, Spell(ts[1..]));
        FilterAppend(IsNonLetter, r, Render(m, ts[1..]));
        assert Filter(IsNonLetter, Spell(ts)) == a;
        SubsequencePrepend(a, Filter(IsNonLetter, r), b);
      case Other(c) =>
        FilterAppend(IsNonLetter, [c], Spell(ts[1..]));
        FilterAppend(IsNonLetter, [c], Render(m, ts[1..]));
        var f := Filter(IsNonLetter, [c]);
        assert Filter(IsNonLetter, Spell(ts)) == f + a && Filter(IsNonLetter, Render(m, ts)) == f + b;
        if IsNonLetter(c) {
          assert f == [c];
          SubsequenceCons(c, a, b);
        } else {
          assert f == [];
          assert f + a == a && f + b == b;
        }
    }
  }

  lemma {:induction false} LettersFilterEmpty(w: string)
    requires forall j :: 0 <= j < |w| ==> IsLetter(w[j])
    ensures Filter(IsNonLetter, w) == []
  {
    if w != [] {
      LettersFilterEmpty(w[1..]);
    }
  }

  // ------------------------------------------------------------ command line

  datatype ArgError = Usage | WontOverwrite

  /** The input and output names (empty for standard input and output), or why the run stops. */
  datatype CommandLine = CommandLine(inFilename: string, outFilename: string, err: Option<ArgError>)

  predicate AsksForHelp(args: seq<string>)
  {
    |args| > 1 && (args[1] == "-h" || args[1] == "--help")
  }

  /**
   * filenamesFromCommandLine over the argument vector (args[0] is the program).
   * A help flag gives the usage error and no names; otherwise the first and
   * second arguments name the input and output, and a non-empty input name
   * equal to the output name is refused (the source exits the process there).
   */
  function FilenamesFromCommandLine(args: seq<string>): (c: CommandLine)
    ensures AsksForHelp(args) ==> c == CommandLine("", "", Some(Usage))
    ensures !AsksForHelp(args) ==>
      && c.inFilename == (if |args| > 1 then args[1] else "")
      && c.outFilename == (if |args| > 2 then args[2] else "")
      && (c.err == Some(WontOverwrite) <==> (c.inFilename != "" && c.inFilename == c.outFilename))
      && c.err != Some(Usage)
  {
    if AsksForHelp(args) then CommandLine("", "", Some(Usage))
    else
      var inName := if |args| > 1 then args[1] else "";
      var outName := if |args| > 2 then args[2] else "";
      if inName != "" && inName == outName then CommandLine(inName, outName, Some(WontOverwrite))
      else CommandLine(inName, outName, None)
  }

  // ---------------------------------------------------------------- the run

  datatype Failure = TableUnreadable | ReadFailed | WriteFailed | FlushFailed

  /**
   * What a run leaves behind: the text the buffered writer accepted, whether
   * the final flush was attempted, and the error returned to main (None when
   * the run succeeded).
   */
  datatype Outcome = Outcome(written: string, flushed: bool, err: Option<Failure>)

  /** Whether the loop stops at read i: the read failed, or writing its rewritten text failed. */
  predicate StopsAt(rs: seq<Read>, writeFails: nat -> bool, i: nat)
    requires i < |rs|
  {
    rs[i].status == Failed || writeFails(i)
  }

  /** The first read at which the loop stops, or |rs| when it runs to the end. */
  function FirstStop(rs: seq<Read>, writeFails: nat -> bool, from: nat): (k: nat)
    requires from <= |rs|
    ensures from <= k <= |rs|
    ensures forall i :: from <= i < k ==> !StopsAt(rs, writeFails, i)
    ensures k < |rs| ==> StopsAt(rs, writeFails, k)
    decreases |rs| - from
  {
    if from == |rs| then from
    else if StopsAt(rs, writeFails, from) then from
    else FirstStop(rs, writeFails, from + 1)
  }

  /** The word pass with table m, as the function value handed to the loop. */
  function Rewriter(m: Table): string -> string
  {
    (s: string) => Rewrite(m, s)
  }

  /** A text transformation applied to the text of a read. */
  function OnText(rewrite: string -> string): Read -> string
  {
    (r: Read) => rewrite(r.text)
  }

  /**
   * The outcome of the loop over the reads rs, each chunk transformed by
   * rewrite: the transformed chunks in input order up to the first failure; a
   * read or write failure ends the run at once without a flush; otherwise
   * every chunk, the last one read at end-of-file included, is written and the
   * writer is flushed.
   */
  function RunOutcome(rewrite: string -> string, rs: seq<Read>, writeFails: nat -> bool, flushFails: bool): Outcome
  {
    var k := FirstStop(rs, writeFails, 0);
    Outcome(
      FlatMap(OnText(rewrite), rs[..k]),
      k == |rs|,
      if k < |rs| then Some(if rs[k].status == Failed then ReadFailed else WriteFailed)
      else if flushFails then Some(FlushFailed) else None)
  }

  /**
   * americanise(inFile, outFile) with the table file's text (None when it
   * cannot be read), the input stream, and which writes and the flush fail.
   */
  method Americanise(tableFile: Option<string>, input: Stream, writeFails: nat -> bool, flushFails: bool)
    returns (o: Outcome)
    ensures tableFile.None? ==> o == Outcome("", false, Some(TableUnreadable))
    ensures tableFile.Some? ==>
      o == RunOutcome(Rewriter(TableOf(Split(tableFile.value, '\n'))), Reads(input.data, input.failsAtEnd), writeFails, flushFails)
  {
    if tableFile.None? {
      return Outcome("", false, Some(TableUnreadable));
    }
    var m := MakeTable(tableFile.value);
    o := Transcribe(Rewriter(m), input, writeFails, flushFails);
  }

  /** The loop does not stop at any read before c. */
  predicate NoStopBefore(rs: seq<Read>, writeFails: nat -> bool, c: nat)
    requires c <= |rs|
  {
    forall i :: 0 <= i < c ==> !StopsAt(rs, writeFails, i)
  }

  /** Writing the rewritten chunk of a read at which the loop does not stop extends the output by it. */
  lemma WriteStep(rewrite: string -> string, rs: seq<Read>, writeFails: nat -> bool, c: nat)
    requires c < |rs| && NoStopBefore(rs, writeFails, c) && !StopsAt(rs, writeFails, c)
    ensures NoStopBefore(rs, writeFails, c + 1)
    ensures FlatMap(OnText(rewrite), rs[..c + 1]) == FlatMap(OnText(rewrite), rs[..c]) + rewrite(rs[c].text)
  {
    FlatMapPrefixStep(OnText(rewrite), rs, c);
  }

  /** A run that stops at read c: the chunks before c are written, and the failure at c is the error. */
  lemma RunStopsAt(rewrite: string -> string, rs: seq<Read>, writeFails: nat -> bool, flushFails: bool, c: nat)
    requires c < |rs| && StopsAt(rs, writeFails, c)
    requires NoStopBefore(rs, writeFails, c)
    ensures RunOutcome(rewrite, rs, writeFails, flushFails)
      == Outcome(FlatMap(OnText(rewrite), rs[..c]), false, Some(if rs[c].status == Failed then ReadFailed else WriteFailed))
  {
    var k := FirstStop(rs, writeFails, 0);
    assert k == c;
  }

  /** A run that never stops early writes every chunk and then flushes. */
  lemma RunCompletes(rewrite: string -> string, rs: seq<Read>, writeFails: nat -> bool, flushFails: bool)
    requires NoStopBefore(rs, writeFails, |rs|)
    ensures RunOutcome(rewrite, rs, writeFails, flushFails)
      == Outcome(FlatMap(OnText(rewrite), rs), true, if flushFails then Some(FlushFailed) else None)
  {
    var k := FirstStop(rs, writeFails, 0);
    assert k == |rs|;
    TakeAll(rs);
  }

  /** Before read calls: the reads left are those of rest, none before has stopped the run, and their chunks are written. */
  predicate Transcribing(rewrite: string -> string, rs: seq<Read>, writeFails: nat -> bool,
                         calls: nat, rest: string, failsAtEnd: bool, written: string)
  {
    && calls < |rs| && rs[calls..] == Reads(rest, failsAtEnd)
    && NoStopBefore(rs, writeFails, calls)
    && written == FlatMap(OnText(rewrite), rs[..calls])
  }

  /** One turn of Transcribe's loop: the run stops with this read's or this write's error, ends here, or goes on. */
  lemma TranscribeStep(rewrite: string -> string, rs: seq<Read>, writeFails: nat -> bool, flushFails: bool,
                       calls: nat, rest: string, failsAtEnd: bool, written: string)
    requires Transcribing(rewrite, rs, writeFails, calls, rest, failsAtEnd, written)
    ensures var p := ReadString(rest, failsAtEnd);
      var written' := written + rewrite(p.0.text);
      && (p.0.status == Failed ==> RunOutcome(rewrite, rs, writeFails, flushFails) == Outcome(written, false, Some(ReadFailed)))
      && (p.0.status != Failed && writeFails(calls) ==>
            RunOutcome(rewrite, rs, writeFails, flushFails) == Outcome(written, false, Some(WriteFailed)))
      && (p.0.status == AtEof && !writeFails(calls) ==>
            RunOutcome(rewrite, rs, writeFails, flushFails) == Outcome(written', true, if flushFails then Some(FlushFailed) else None))
      && (p.0.status == Delimited && !writeFails(calls) ==>
            Transcribing(rewrite, rs, writeFails, calls + 1, p.1, failsAtEnd, written'))
  {
    ReadsStep(rs, calls, rest, failsAtEnd);
    if StopsAt(rs, writeFails, calls) {
      RunStopsAt(rewrite, rs, writeFails, flushFails, calls);
    } else {
      WriteStep(rewrite, rs, writeFails, calls);
      if ReadString(rest, failsAtEnd).0.status == AtEof {
        assert calls + 1 == |rs|;
        RunCompletes(rewrite, rs, writeFails, flushFails);
      }
    }
  }

  /** The read-rewrite-write loop of americanise; rewrite is the word pass with the table already built. */
  method Transcribe(rewrite: string -> string, input: Stream, writeFails: nat -> bool, flushFails: bool)
    returns (o: Outcome)
    ensures o == RunOutcome(rewrite, Reads(input.data, input.failsAtEnd), writeFails, flushFails)
  {
    ghost var rs := Reads(input.data, input.failsAtEnd);
    var rest := input.data;
    var written := "";
    var eof := false;
    var calls: nat := 0;
    assert rs[0..] == rs && rs[..0] == [];
    while !eof
      invariant !eof ==> Transcribing(rewrite, rs, writeFails, calls, rest, input.failsAtEnd, written)
      invariant eof ==> RunOutcome(rewrite, rs, writeFails, flushFails) == Outcome(written, true, if flushFails then Some(FlushFailed) else None)
      decreases |rs| - calls
    {
      TranscribeStep(rewrite, rs, writeFails, flushFails, calls, rest, input.failsAtEnd, written);
      var p := ReadString(rest, input.failsAtEnd);
      var line := p.0.text;
      rest := p.1;
      if p.0.status == AtEof {
        eof := true;
      } else if p.0.status == Failed {
        return Outcome(written, false, Some(ReadFailed));
      }
      line := rewrite(line);
      if writeFails(calls) {
        return Outcome(written, false, Some(WriteFailed));
      }
      written := written + line;
      calls := calls + 1;
    }
    o := Outcome(written, true, if flushFails then Some(FlushFailed) else None);
  }

  /**
   * A run without failures writes the whole input rewritten as one text:
   * processing it chunk by chunk at its '\n' boundaries changes nothing.
   */
  lemma {:induction false} ChunkedRewriteIsWholeRewrite(m: Table, rest: string, failsAtEnd: bool)
    ensures FlatMap(OnText(Rewriter(m)), Reads(rest, failsAtEnd)) == Rewrite(m, rest)
    decreases |rest|
  {
    var p := ReadString(rest, failsAtEnd);
    var rs := Reads(rest, failsAtEnd);
    if p.0.status == Delimited {
      ChunkedRewriteIsWholeRewrite(m, p.1, failsAtEnd);
      assert rs == [p.0] + Reads(p.1, failsAtEnd);
      RewriteAppend(m, p.0.text, p.1);
    } else {
      assert rs == [p.0];
      assert p.0.text == rest;
    }
  }

  /** With an empty table a run without failures writes exactly its input. */
  lemma EmptyTableCopiesInput(input: Stream)
    ensures FlatMap(OnText(Rewriter(map[])), Reads(input.data, input.failsAtEnd)) == input.data
  {
    ChunkedRewriteIsWholeRewrite(map[], input.data, input.failsAtEnd);
    EmptyTableKeepsText(input.data);
  }

  /**
   * With an empty table, an input that ends at end-of-file, and no failing
   * write or flush, the run succeeds, flushes, and writes exactly its input.
   */
  lemma EmptyTableRunCopiesInput(data: string, writeFails: nat -> bool)
    requires forall i: nat :: !writeFails(i)
    ensures RunOutcome(Rewriter(map[]), Reads(data, false), writeFails, false) == Outcome(data, true, None)
  {
    var rs := Reads(data, false);
    ReadsPartition(data, false);
    forall i | 0 <= i < |rs|
      ensures !StopsAt(rs, writeFails, i)
    {
      assert !writeFails(i);
      if i < |rs| - 1 {
        assert rs[i].status == Delimited;
      }
    }
    RunCompletes(Rewriter(map[]), rs, writeFails, false);
    EmptyTableCopiesInput(Stream(data, false));
  }
}
