# Sequential kernels of americanise, cgrep and apachereport

This project models three small Go programs in Dafny and proves what their
sequential core does. The programs' goroutines and channels are replaced by
the sequential computation they perform.

- **americanise** (`Americanise`, with `Strings`):
  - Reads a British-to-American table. Every '\n'-separated line with exactly
    two whitespace-separated fields becomes one entry, and a later line
    overrides an earlier one.
  - Copies an input stream to an output stream one `ReadString('\n')` chunk at
    a time. Every maximal run of ASCII letters in a chunk is replaced by its
    table entry, if it has one.
  - Validates the command line.
  - Read errors, write errors and a failed final flush are modelled as the
    error returned to `main`. Failures come from oracles: a per-write
    predicate and a flag for the final flush.
- **cgrep** (`Cgrep`):
  - `Job.Do` reads a file a line at a time, numbers the lines from 1, trims
    trailing '\n' and '\r', and reports `(file, line number, line)` for each
    line that satisfies the match predicate. The regular expression is an
    abstract predicate on lines.
  - Also modelled: `minimum`, the capacity of the results channel, `addJobs`,
    and `commandLineFiles`.
  - `grep` is modelled as running the jobs one after another. A lemma shows
    that any other job order yields the same results, up to their order.
- **apachereport** (`ApacheReport`, with `PagePattern`):
  - `readLines` sends every non-empty chunk of the log. A chunk ends at a
    '\n', except an unterminated last one, which is sent too.
  - Each line's page is extracted with the pattern `GET[ \t]+([^ \t\n]+[.]html?)`.
    `PagePattern` is a hand-written recogniser for it. It is proved to return
    the longest group of the leftmost match. For this pattern that is what Go
    captures; the module comment gives the argument.
  - Each extracted page is counted with `Update(page, incrementer)` on a
    shared map. The map is a class updated in place.
  - Lemmas prove three things about the final map:
    - each count is the number of lines that name that page;
    - the map does not depend on the order the lines are processed in;
    - the counts add up to the number of matching lines.

Shared modules:

- `Reader` models `bufio.Reader.ReadString('\n')` / `ReadBytes('\n')` as a
  function over the unread part of a stream. A `Stream` is the data it
  delivers plus whether it ends with a read error instead of end-of-file. As
  in bufio, the chunk that reaches the end of the data comes back together
  with that ending, even when it is empty.
- `Seqs` holds generic `FlatMap`, `Concat`, `Filter`, `Span` and `IsSubsequence` helpers. Its
  `FlatMapPermutation` lemma is the basis of both order-independence results.
- `Wrappers` holds `Option`.

## Model

| member | source | states |
|---|---|---|
| Strings.Split | src/americanise/americanise.go:127 | strings.Split on '\n' yields one more piece than the text has '\n', and no piece holds a '\n' |
| Strings.SplitJoin | src/americanise/americanise.go:127 | splitting on '\n' loses nothing: joining the pieces with '\n' gives the text back |
| Strings.Fields | src/americanise/americanise.go:129 | each field of strings.Fields is non-empty and holds no white space; WordIsOneField and FieldsAroundSpace show each field is a whole maximal run |
| Strings.FieldsKeepNonSpace | src/americanise/americanise.go:129 | the fields together are the text's non-space characters, in order |
| Strings.FieldsAroundSpace | src/americanise/americanise.go:129 | text split at a space character splits into fields independently on each side |
| Strings.WordIsOneField | src/americanise/americanise.go:129 | a non-empty run of non-space characters is one field: Fields does not split a run |
| Strings.FieldsOfJoin | src/americanise/americanise.go:129 | words joined by a white-space character come back from Fields as exactly those words, so the fields are the maximal non-space runs |
| Americanise.EntryOf | src/americanise/americanise.go:129-131 | the entry a table line gives: its two fields when strings.Fields finds exactly two, else none; EntryOfJoin and TwoWordLine state its properties |
| Americanise.TableOf | src/americanise/americanise.go:126-133 | the map the table loop builds from the lines, in order; MakeTable is proved equal to it, and TableLastWins states its properties |
| Americanise.TableLastWins | src/americanise/americanise.go:127-133 | a word is in the table iff some line of exactly two fields names it first; its translation is the second field of the last such line |
| Americanise.MakeTable | src/americanise/americanise.go:126-133 | the table loop over the lines of the file text builds exactly that table |
| Americanise.Replace | src/americanise/americanise.go:135-141 | the replacer returns the table's word when the word is a key, and the word unchanged otherwise |
| Americanise.EntryOfJoin | src/americanise/americanise.go:129-131 | a line of words joined by one white-space character is a table entry iff it has exactly two words, and then the entry maps the first to the second |
| Americanise.TwoWordLine | src/americanise/americanise.go:129-131 | the line "british american", two words with one white-space character between them, is the entry british -> american |
| Americanise.Rewrite | src/americanise/americanise.go:109 | the model of ReplaceAllStringFunc with the replacer: the word pass over a chunk; its contracts are the lemmas TokensSpell to KeepsNonLetters below |
| Americanise.FirstLength | src/americanise/americanise.go:97 | the first piece of a non-empty chunk is between one character and the whole chunk long |
| Americanise.SpellCons | src/americanise/americanise.go:109 | the text of the pieces starts with the text of the first piece |
| Americanise.TokensSpellStep | src/americanise/americanise.go:109 | when the pieces after the first spell the rest of the chunk, all the pieces spell the chunk |
| Americanise.TokensSpell | src/americanise/americanise.go:109 | splitting a chunk into letter runs and other characters loses nothing: the pieces spell the chunk |
| Americanise.TokensMaximal | src/americanise/americanise.go:97 | only maximal non-empty runs of [A-Za-z] reach the replacer; every other piece is a single non-letter |
| Americanise.RenderAppend | src/americanise/americanise.go:109 | replacing words in two token sequences one after the other is the same as replacing them in the joined sequence |
| Americanise.TokensCons | src/americanise/americanise.go:97 | the pieces of a non-empty chunk are its first piece, then the pieces of what follows it |
| Americanise.FirstTokenAppend | src/americanise/americanise.go:97 | text that is empty or ends in a non-letter has the same first piece whatever follows it |
| Americanise.TokensAppendStep | src/americanise/americanise.go:101-109 | if the text after the first piece splits independently of what follows, the whole text does too |
| Americanise.TokensAppend | src/americanise/americanise.go:101-109 | text ending in a non-letter tokenises independently of what follows it |
| Americanise.RewriteAppend | src/americanise/americanise.go:99-114 | the word pass over text joined at a non-letter is the pass over each piece, concatenated |
| Americanise.RenderEmptyIsSpell | src/americanise/americanise.go:109 | with no table entries every token is written as it was read |
| Americanise.EmptyTableKeepsText | src/americanise/americanise.go:109 | with an empty table the word pass returns its input |
| Americanise.KeepsNonLettersInOrder | src/americanise/americanise.go:109 | for every table, the input's non-letters, '\n' included, appear unchanged and in order among the output's non-letters (a subsequence) |
| Americanise.RenderKeepsNonLettersInOrder | src/americanise/americanise.go:109 | replacing letter-only words by any translation keeps the non-letters of a token sequence as a subsequence of the result's, in order |
| Americanise.KeepsNonLetters | src/americanise/americanise.go:109 | when every translation is made of letters, the output has exactly the input's non-letters, '\n' included, in order |
| Americanise.RenderKeepsNonLetters | src/americanise/americanise.go:109 | replacing letter-only words by letter-only words leaves the non-letters of a token sequence unchanged and in order |
| Americanise.LettersFilterEmpty | src/americanise/americanise.go:97 | a run of letters holds no non-letter |
| Americanise.FilenamesFromCommandLine | src/americanise/americanise.go:63-80 | -h or --help first gives the usage error and empty names; otherwise argument 1 names the input and argument 2 the output, and a non-empty input name equal to the output name is refused |
| Americanise.RunOutcome | src/americanise/americanise.go:86-114 | what the read-rewrite-write loop writes, whether it flushes, and the error it returns; Transcribe is proved equal to it, and RunStopsAt, RunCompletes and EmptyTableRunCopiesInput state its properties |
| Americanise.FirstStop | src/americanise/americanise.go:99-114 | the loop stops at the first read that fails or whose write fails, and runs to the end when none does |
| Americanise.WriteStep | src/americanise/americanise.go:109-113 | writing the rewritten chunk of a read at which the loop does not stop extends the output by exactly that chunk |
| Americanise.RunStopsAt | src/americanise/americanise.go:105-113 | a run that stops at a read writes the chunks before it, does not flush, and returns that read's or that write's error |
| Americanise.RunCompletes | src/americanise/americanise.go:86-114 | a run that never stops early writes every chunk, flushes, and returns the flush's error or none |
| Americanise.TranscribeStep | src/americanise/americanise.go:99-114 | one turn of the loop: a failed read or write fixes the run's outcome with the chunks written so far, the EOF read completes it with a flush, and a delimited read goes on with one more chunk written |
| Americanise.Americanise | src/americanise/americanise.go:82-95 | an unreadable table file ends the run with that error, before any read, write or flush; otherwise the run is the read-rewrite-write loop with the table built from the file |
| Americanise.Transcribe | src/americanise/americanise.go:86-114 | the output is the rewritten chunks in input order up to the first failure, the EOF chunk included; a read or write error returns at once without a flush; otherwise the writer is flushed and its failure is the run's error |
| Americanise.ChunkedRewriteIsWholeRewrite | src/americanise/americanise.go:99-114 | rewriting the input chunk by chunk at its '\n' boundaries equals rewriting the whole input at once |
| Americanise.EmptyTableCopiesInput | src/americanise/americanise.go:97-114 | with an empty table the rewritten chunks of an input concatenate to exactly that input |
| Americanise.EmptyTableRunCopiesInput | src/americanise/americanise.go:86-114 | with an empty table, an input that ends at end-of-file and no failing write or flush, the run succeeds, flushes, and writes exactly its input |
| Reader.ReadString | src/cgrep1/cgrep.go:53 | a read returns a chunk and leaves the rest unread, and the two together are the unread text; it ends at a delimiter iff the unread text holds a '\n', and then the chunk ends in its only '\n'; otherwise the chunk is all that was left, and it carries the stream's ending |
| Reader.Reads | src/apachereport1/apachereport.go:53-67 | the reads a ReadString('\n') loop makes until end-of-file or a read error; ReadsPartition, ReadsCount, ReadsFirstDelimiter and ReadsUndelimited state its properties |
| Reader.ReadsPartition | src/apachereport1/apachereport.go:53-67 | the chunks of a read loop concatenate to the stream; every chunk but the last ends in its only '\n'; the last holds no '\n' and carries EOF or the read error |
| Reader.ReadsCount | src/cgrep1/cgrep.go:52-53 | a read loop makes one more read than there are '\n' in the stream, so line numbers run from 1 to that count |
| Reader.ReadsFirstDelimiter | src/cgrep1/cgrep.go:53 | the first read ends at the first '\n' |
| Reader.ReadsUndelimited | src/cgrep1/cgrep.go:53 | a stream with no '\n' is read in one call, which ends the stream |
| Strings.TrimLineEnd | src/cgrep1/cgrep.go:54 | bytes.TrimRight(line, "\n\r") removes exactly the longest suffix made of '\n' and '\r', so the result does not end in either |
| Cgrep.Scan | src/cgrep1/cgrep.go:52-64 | the results of Job.Do's loop over a file's reads, numbered from a given line; ScanExact, ScanOrdered and ScanSnoc state its properties |
| Cgrep.Do | src/cgrep1/cgrep.go:44-66 | Job.Do reports the matching lines of the file's reads, numbered from 1 and trimmed, the segment after the last '\n' included; a file that cannot be opened reports nothing |
| Cgrep.FileResults | src/cgrep1/cgrep.go:44-66 | the results Job.Do sends for a file: none when it cannot be opened, else Scan over its reads from line 1; Cgrep.Do is proved equal to it, and ScanExact and ScanOrdered state its properties |
| Cgrep.DoStep | src/cgrep1/cgrep.go:52-64 | one turn of Job.Do's loop: the next read's result follows those before it, and the loop ends exactly after the read that is not delimited |
| Cgrep.ScanSnoc | src/cgrep1/cgrep.go:52-58 | the result of the next read, if it matches, follows the results of the reads before it, with the next line number |
| Cgrep.ScanSnocStep | src/cgrep1/cgrep.go:52-58 | the inductive step of ScanSnoc: the first read's result stays in front of the rest |
| Cgrep.ScanExact | src/cgrep1/cgrep.go:55-58 | a result is reported exactly for each read whose trimmed text matches, and it holds the file name, that read's 1-based position and the trimmed text |
| Cgrep.ScanOrdered | src/cgrep1/cgrep.go:52-53 | one file's results have strictly increasing line numbers, within the numbers of the reads |
| Cgrep.NoLineEndReported | src/cgrep1/cgrep.go:54 | every reported line carries the job's file name and a line number of at least 1, and it does not end in '\n' or '\r' |
| Cgrep.ScanFirstLine | src/cgrep1/cgrep.go:52-58 | a file that starts with a line and its '\n' tests that line first, then the rest with the following numbers |
| Cgrep.ReadsFirstLine | src/cgrep1/cgrep.go:53 | the first ReadBytes('\n') of such a file returns the line with its '\n' |
| Cgrep.TrimPlainLine | src/cgrep1/cgrep.go:54 | trimming a line without line-end characters plus its '\n' gives the line |
| Cgrep.ScanEnd | src/cgrep1/cgrep.go:53-64 | the empty segment after the last '\n' is still tested as a line of its own |
| Cgrep.OneLineFile | src/cgrep1/cgrep.go:53-64 | a file of one line with its '\n' tests that line and then an empty line with the next number |
| Cgrep.TwoLineFile | src/cgrep1/cgrep.go:52-64 | a file of two '\n'-terminated lines tests lines 1 and 2 and the empty line 3 |
| Cgrep.TrailingNewlineTestsEmptyLine | src/cgrep1/cgrep.go:53-64 | for "foo\n" and a predicate that accepts only the empty line among them, the one result is line 2, "" |
| Cgrep.Minimum | src/cgrep1/cgrep.go:158-165 | minimum(x, ys...) is at most x and every y, and it is one of them |
| Cgrep.ResultsCapacity | src/cgrep1/cgrep.go:110 | the results channel holds min(1000, number of files) |
| Cgrep.AddJobs | src/cgrep1/cgrep.go:123-131 | one job per file name, in the given order, each with the same results sink |
| Cgrep.CommandLineFiles | src/cgrep1/cgrep.go:89-103 | outside Windows the names come back unchanged; on Windows each name becomes its glob matches in order, or itself for an invalid pattern |
| Cgrep.Grep | src/cgrep1/cgrep.go:105-121 | run sequentially, grep's results are each file's results, concatenated in file order |
| Cgrep.AnyJobOrderSameResults | src/cgrep1/cgrep.go:113-120 | whatever order the workers take the files in, the same multiset of results arrives |
| Cgrep.SearchExample | src/cgrep1/cgrep.go:52-58 | searching two files in order, lines a, b in the first and c in the second, where a and c match, reports (f1, 1, a) and then (f2, 1, c) |
| Cgrep.FooSearch | src/cgrep1/cgrep.go:105-121 | searching f1 = "foo\nbar\n" and f2 = "foobar\n" for foo reports (f1, 1, "foo") and then (f2, 1, "foobar") |
| ApacheReport.ReadLines | src/apachereport1/apachereport.go:46-70 | readLines sends the non-empty chunks of the reads in order, stops at the first end-of-file or read error, and logs exactly a read error |
| ApacheReport.LogLines | src/apachereport1/apachereport.go:46-70 | the lines readLines sends for a log; ReadLines is proved equal to it, and LogLinesPartition states its properties |
| ApacheReport.SentConcat | src/apachereport1/apachereport.go:55-60 | dropping empty chunks loses no text: the sent lines concatenate to the chunks' text |
| ApacheReport.SentShape | src/apachereport1/apachereport.go:55-60 | of the chunks of a read loop, the sent ones are non-empty; all but the last end in their only '\n', and the last, which may be unterminated, does too or holds no '\n' |
| ApacheReport.LogLinesPartition | src/apachereport1/apachereport.go:53-60 | the sent lines are non-empty and concatenate back to the log; every line but the last ends in its only '\n', and the last does too or holds no '\n' |
| ApacheReport.Incrementer | src/apachereport1/apachereport.go:76-82 | incrementer gives the stored value plus one when the key was found, and 1 when it was absent |
| ApacheReport.Keys | src/apachereport1/apachereport.go:86-91 | the keys Update is called with, one per matching line in line order; KeysPerMatchingLine and KeyOccurrences state its properties |
| ApacheReport.Tally | src/apachereport1/apachereport.go:76-92 | the map after Update(key, incrementer) for each key in order; TallyCount, TallyFromEmpty and TallyOrderIrrelevant state its properties |
| ApacheReport.Bump | src/apachereport1/apachereport.go:91 | Update(page, incrementer) adds the page to the keys and raises its count by exactly one, and every other count is unchanged |
| ApacheReport.TallyPrefixStep | src/apachereport1/apachereport.go:86-92 | counting one more key is one more Update |
| ApacheReport.TallyCount | src/apachereport1/apachereport.go:84-96 | after the updates each key's count is its earlier count plus how often it was extracted; no key is added that was not extracted |
| ApacheReport.TallyFromEmpty | src/apachereport1/apachereport.go:76-92 | from an empty map, a page is present iff it was extracted, and its count is how often, which is at least 1 |
| ApacheReport.TallyOrderIrrelevant | src/apachereport1/apachereport.go:84-96 | the updates of any reordering of the same keys leave the same map |
| ApacheReport.LineOrderIrrelevant | src/apachereport1/apachereport.go:84-96 | processing any permutation of the lines gives the same final map, whichever worker takes whichever line |
| ApacheReport.KeysPerMatchingLine | src/apachereport1/apachereport.go:86-92 | exactly one Update happens per line for which the extraction matches |
| ApacheReport.KeyOccurrences | src/apachereport1/apachereport.go:86-92 | a page occurs among the extracted keys exactly once per line whose capture it is |
| ApacheReport.SumOverRemove | src/apachereport1/apachereport.go:86-92 | a helper for CountsSumToMatchingLines: the sum of the counts can start from any key |
| ApacheReport.SumOverAgree | src/apachereport1/apachereport.go:86-92 | a helper for CountsSumToMatchingLines: sums over keys on which two maps agree are equal |
| ApacheReport.BumpTotal | src/apachereport1/apachereport.go:91 | each Update(page, incrementer) increases the sum of all counts by exactly one |
| ApacheReport.TallyTotal | src/apachereport1/apachereport.go:84-96 | the updates increase the sum of all counts by the number of keys extracted |
| ApacheReport.CountsSumToMatchingLines | src/apachereport1/apachereport.go:86-92 | starting from an empty map, the sum of all counts is the number of matching lines |
| ApacheReport.SafeMap.constructor | src/apachereport1/apachereport.go:39 | safemap.New gives an empty, open map |
| ApacheReport.SafeMap.Update | src/apachereport1/apachereport.go:91 | Update(key, updater) stores updater(current value, whether the key was present) under key and changes nothing else |
| ApacheReport.SafeMap.Close | src/apachereport1/apachereport.go:107 | Close returns the map's contents and ends its use |
| ApacheReport.ProcessStep | src/apachereport1/apachereport.go:86-92 | one more line bumps its extracted key, and a line without one changes nothing |
| ApacheReport.ProcessLines | src/apachereport1/apachereport.go:84-96 | the worker loop leaves the shared map as the earlier map with one Update(key, incrementer) per matching line, in line order |
| ApacheReport.Report | src/apachereport1/apachereport.go:39-43 | a log that cannot be opened gives no report; otherwise the closed map holds the counts of the extracted pages of all sent lines |
| ApacheReport.KeysArePages | src/apachereport1/apachereport.go:74 | with the page pattern every extracted key is a page name |
| ApacheReport.PageReport | src/apachereport1/apachereport.go:84-109 | with the page pattern, a page is reported iff some line's capture is that page; its count is the number of lines whose capture it is, and it is a page name |
| ApacheReport.FindsRequestedPage | src/apachereport1/apachereport.go:74 | the line "GET " followed by a page name captures exactly that page |
| ApacheReport.ExampleKeys | src/apachereport1/apachereport.go:86-91 | three request lines for pages a, b, a extract the keys a, b, a |
| ApacheReport.ExampleTally | src/apachereport1/apachereport.go:76-91 | updating an empty map with keys a, b, a gives a count of 2 for a and 1 for b |
| ApacheReport.CountingExample | src/apachereport1/apachereport.go:74-92 | the log "GET a", "GET b", "GET a" for two distinct pages gives a count of 2 for a and 1 for b |
| ApacheReport.ExamplePagesArePages | src/apachereport1/apachereport.go:74 | "/a.html" and "/b.html" are distinct page names |
| PagePattern.LongestPage | src/apachereport1/apachereport.go:74 | finds the longest page-name prefix of the path run, and None exactly when no prefix is a page name |
| PagePattern.GroupAfterBlanks | src/apachereport1/apachereport.go:74 | [ \t]+ takes the whole run of blanks after "GET", because the group cannot start with a blank |
| PagePattern.GroupInsideRun | src/apachereport1/apachereport.go:74 | a group made of path characters lies inside the run of path characters where it starts |
| PagePattern.LongestPageAtLeast | src/apachereport1/apachereport.go:74 | any page-name prefix of the run is no longer than the one found |
| PagePattern.PageAtAfterBlanks | src/apachereport1/apachereport.go:74 | after "GET" and its blanks, the capture is looked for at the first character that is not a blank |
| PagePattern.PageAtComplete | src/apachereport1/apachereport.go:74 | every match starting at a position is found, and what is found is at least as long as its group |
| PagePattern.PageAtSound | src/apachereport1/apachereport.go:74 | what is found at a position is the group of a real match there |
| PagePattern.PageAtCorrect | src/apachereport1/apachereport.go:74 | a capture is found at a position iff some match starts there, and it is the longest group of a match there |
| PagePattern.FindFromCorrect | src/apachereport1/apachereport.go:87-88 | the search from a position finds the leftmost match start and the longest group there, and finds nothing iff no match starts at or after it |
| PagePattern.FindPage | src/apachereport1/apachereport.go:87-88 | the model of FindStringSubmatch(line)[1] for the page pattern; FindPageCorrect and FindPageIsPage state its properties |
| PagePattern.FindPageCorrect | src/apachereport1/apachereport.go:87-88 | FindStringSubmatch(line)[1] is the longest group of the leftmost match, and nil exactly when nothing matches |
| PagePattern.FindPageIsPage | src/apachereport1/apachereport.go:74 | a captured key is non-empty before its suffix, holds no space, tab or '\n', and ends in .htm or .html |

## Left out

- Goroutines, channels and their buffering, the `done` counting (`doJobs`, `awaitCompletion`, `waitUntil`, the workers' `go func`), and `runtime.GOMAXPROCS`/`NumCPU`. The model computes their result sequentially, and two lemmas state order independence: `Cgrep.AnyJobOrderSameResults` and `ApacheReport.LineOrderIrrelevant`. Interleavings of concurrent `Update` calls are not modelled. The safemap's serialisation makes each call atomic, and the order lemmas cover every sequence of atomic calls.
- `main` in all three programs. This covers `os.Args` access, usage messages and `filepath.Base`, `os.Exit`, `log.Fatal`, opening and creating files, and `fmt.Printf` formatting. Arguments are passed as a sequence. A file that cannot be opened is `None`. The printed report is the returned map or sequence.
- `init`'s `filepath.Split`/`Join`: this foreign path computation is not modelled. The table file's text, or its absence, is an input.
- `ioutil.ReadFile` and bytes: text is a sequence of characters, and UTF-8 decoding is not modelled. `Strings.IsSpace` lists the white-space code points of Go's `unicode.IsSpace`.
- `regexp.Compile`/`MustCompile` and general regular expressions. cgrep's user-supplied pattern is an abstract predicate `string -> bool`. A compile failure is fatal setup and is not modelled.
- `filepath.Glob` on Windows is an oracle parameter (`None` for an invalid pattern).
- The bufio writer's internal buffering and partial writes. Each `WriteString` either succeeds or fails, as an oracle says, and `written` is the text the writer accepted.
- The safemap package: only the `Update`/`Close` contract as the report uses it. A map of `int` stands for the map of `interface{}`.
- ApacheReport.Incrementer: the value Go passes for an absent key is `nil`. The model passes 0, which `incrementer` ignores.
- Cgrep.Do: the `log.Printf` messages for an unopenable file and for a read error are not modelled. Only the results sent are.
- Americanise.FilenamesFromCommandLine: `log.Fatal("won't overwrite the infile")` ends the process. The model returns it as the `WontOverwrite` error, together with the names.
- Americanise.KeepsNonLetters: the equality of the non-letters holds only for tables whose translations are letters alone. The table accepts any field as a translation, and a translation such as "col-or" adds non-letters. For every table, Americanise.KeepsNonLettersInOrder states the subsequence form.
- Integer width: Go's `int` has 64 bits, so cgrep's `lino` and the report's counts would wrap past 2^63 - 1. The model uses unbounded integers. A file that long cannot be read in practice.
- ApacheReport.CountingExample: the example log is stated for any two distinct page names rather than for concrete lines. `ApacheReport.ExamplePagesArePages` supplies the instance "/a.html", "/b.html".
