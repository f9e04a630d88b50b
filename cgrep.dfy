/**
 * cgrep: searches files for lines matching a pattern and reports each match
 * as (file name, line number, line). The regular expression is an abstract
 * predicate on a line; the worker pool is replaced by running the jobs one
 * after another.
 */
module Cgrep {
  import opened Wrappers
  import opened Seqs
  import opened Reader
  import opened Strings

  /** One reported match. */
  datatype Result = Result(filename: string, lino: nat, line: string)

  /** The identity of the channel that results are sent to. */
  type Sink = nat

  /** A unit of work: one file to search, and where its results go. */
  datatype Job = Job(filename: string, results: Sink)

  /** The result a line would give, if it matches. */
  function Hit(filename: string, lino: nat, line: string, matches: string -> bool): seq<Result>
  {
    if matches(line) then [Result(filename, lino, line)] else []
  }

  /** The lines of a file's reads, numbered from lino, that satisfy matches, with their line ends trimmed. */
  function Scan(filename: string, rs: seq<Read>, matches: string -> bool, lino: nat): seq<Result>
    decreases |rs|
  {
    if rs == [] then []
    else
      Hit(filename, lino, TrimLineEnd(rs[0].text), matches) + Scan(filename, rs[1..], matches, lino + 1)
  }

  /** What Job.Do sends for a file: nothing when it cannot be opened, else the matching lines numbered from 1. */
  function FileResults(filename: string, file: Option<Stream>, matches: string -> bool): seq<Result>
  {
    match file
    case None => []
    case Some(s) => Scan(filename, Reads(s.data, s.failsAtEnd), matches, 1)
  }

  /**
   * Job.Do: reads the file a line at a time with line numbers from 1, trims
   * the line end and sends every matching line; the segment after the last
   * '\n' is tested too, and the loop stops at end-of-file or a read error
   * alike. A file that cannot be opened contributes nothing.
   */
  method Do(job: Job, file: Option<Stream>, matches: string -> bool) returns (results: seq<Result>)
    ensures results == FileResults(job.filename, file, matches)
  {
    results := [];
    if file.None? {
      return;
    }
    var input := file.value;
    ghost var rs := Reads(input.data, input.failsAtEnd);
    var rest := input.data;
    var lino := 1;
    assert rs[..0] == [] && rs[0..] == rs;
    while true
      invariant DoInvariant(job.filename, rs, matches, lino, rest, input.failsAtEnd, results)
      decreases |rs| - lino
    {
      DoStep(job.filename, rs, matches, lino, rest, input.failsAtEnd, results);
      var p := ReadString(rest, input.failsAtEnd);
      var line := TrimLineEnd(p.0.text);
      rest := p.1;
      if matches(line) {
        results := results + [Result(job.filename, lino, line)];
      }
      if p.0.status != Delimited {
        return;
      }
      lino := lino + 1;
    }
  }

  /** Before read lino: the reads left are those of rest, and the results are those of the reads before. */
  predicate DoInvariant(filename: string, rs: seq<Read>, matches: string -> bool, lino: nat, rest: string, failsAtEnd: bool, results: seq<Result>)
  {
    && 1 <= lino <= |rs|
    && rs[lino - 1..] == Reads(rest, failsAtEnd)
    && results == Scan(filename, rs[..lino - 1], matches, 1)
  }

  /** One turn of Job.Do's loop: read lino is the next read, and its result extends those before it. */
  lemma DoStep(filename: string, rs: seq<Read>, matches: string -> bool, lino: nat, rest: string, failsAtEnd: bool, results: seq<Result>)
    requires DoInvariant(filename, rs, matches, lino, rest, failsAtEnd, results)
    ensures var p := ReadString(rest, failsAtEnd);
      var results' := results + Hit(filename, lino, TrimLineEnd(p.0.text), matches);
      && (p.0.status != Delimited ==> results' == Scan(filename, rs, matches, 1))
      && (p.0.status == Delimited ==> lino < |rs| && DoInvariant(filename, rs, matches, lino + 1, p.1, failsAtEnd, results'))
  {
    ReadsStep(rs, lino - 1, rest, failsAtEnd);
    ScanPrefixStep(filename, rs, matches, lino - 1);
    if ReadString(rest, failsAtEnd).0.status != Delimited {
      assert rs[..lino] == rs;
    }
  }

  /** The next read's result, if any, comes after those of the reads before it. */
  lemma {:induction false} ScanSnoc(filename: string, rs: seq<Read>, r: Read, matches: string -> bool, lino: nat)
    ensures var line := TrimLineEnd(r.text);
      Scan(filename, rs + [r], matches, lino)
        == Scan(filename, rs, matches, lino) + Hit(filename, lino + |rs|, line, matches)
    decreases |rs|
  {
    if rs == [] {
      assert rs + [r] == [r];
    } else {
      ScanSnoc(filename, rs[1..], r, matches, lino + 1);
      ScanSnocStep(filename, rs, r, matches, lino);
    }
  }

  /** The inductive step of ScanSnoc: the first read's result stays in front. */
  lemma ScanSnocStep(filename: string, rs: seq<Read>, r: Read, matches: string -> bool, lino: nat)
    requires rs != []
    requires Scan(filename, rs[1..] + [r], matches, lino + 1)
      == Scan(filename, rs[1..], matches, lino + 1) + Hit(filename, lino + |rs|, TrimLineEnd(r.text), matches)
    ensures Scan(filename, rs + [r], matches, lino)
      == Scan(filename, rs, matches, lino) + Hit(filename, lino + |rs|, TrimLineEnd(r.text), matches)
  {
    var head := Hit(filename, lino, TrimLineEnd(rs[0].text), matches);
    var tailEnd := Hit(filename, lino + |rs|, TrimLineEnd(r.text), matches);
    assert (rs + [r])[0] == rs[0];
    assert (rs + [r])[1..] == rs[1..] + [r];
    calc {
      Scan(filename, rs + [r], matches, lino);
      head + Scan(filename, rs[1..] + [r], matches, lino + 1);
      head + (Scan(filename, rs[1..], matches, lino + 1) + tailEnd);
      (head + Scan(filename, rs[1..], matches, lino + 1)) + tailEnd;
    }
  }


  lemma ScanPrefixStep(filename: string, rs: seq<Read>, matches: string -> bool, n: nat)
    requires n < |rs|
    ensures var line := TrimLineEnd(rs[n].text);
      Scan(filename, rs[..n + 1], matches, 1)
        == Scan(filename, rs[..n], matches, 1) + Hit(filename, n + 1, line, matches)
  {
    assert rs[..n + 1] == rs[..n] + [rs[n]];
    ScanSnoc(filename, rs[..n], rs[n], matches, 1);
  }

  /** Read i of rs matches and is reported as r, numbered from lino. */
  predicate ReportedAt(filename: string, rs: seq<Read>, matches: string -> bool, lino: nat, i: int, r: Result)
  {
    && 0 <= i < |rs|
    && matches(TrimLineEnd(rs[i].text))
    && r == Result(filename, lino + i, TrimLineEnd(rs[i].text))
  }

  /**
   * A result is reported exactly for each read whose trimmed text matches,
   * carrying the file name, the read's 1-based position and the trimmed text.
   */
  lemma {:induction false} ScanExact(filename: string, rs: seq<Read>, matches: string -> bool, lino: nat, r: Result)
    ensures r in Scan(filename, rs, matches, lino) <==> exists i :: ReportedAt(filename, rs, matches, lino, i, r)
    decreases |rs|
  {
    if rs != [] {
      ScanExact(filename, rs[1..], matches, lino + 1, r);
      var line := TrimLineEnd(rs[0].text);
      var head := Hit(filename, lino, line, matches);
      var tail := Scan(filename, rs[1..], matches, lino + 1);
      assert Scan(filename, rs, matches, lino) == head + tail;
      if r in tail {
        var i :| ReportedAt(filename, rs[1..], matches, lino + 1, i, r);
        assert ReportedAt(filename, rs, matches, lino, i + 1, r) by {
          assert rs[i + 1] == rs[1..][i];
        }
      } else if r in head {
        assert ReportedAt(filename, rs, matches, lino, 0, r);
      }
      if exists i :: ReportedAt(filename, rs, matches, lino, i, r) {
        var i :| ReportedAt(filename, rs, matches, lino, i, r);
        if i > 0 {
          assert ReportedAt(filename, rs[1..], matches, lino + 1, i - 1, r) by {
            assert rs[1..][i - 1] == rs[i];
          }
        }
      }
    }
  }

  /** Every result's line number lies in [lo, hi). */
  predicate NumberedWithin(out: seq<Result>, lo: nat, hi: nat)
  {
    forall a :: 0 <= a < |out| ==> lo <= out[a].lino < hi
  }

  /** The results are in strictly increasing line order. */
  predicate InLineOrder(out: seq<Result>)
  {
    forall a, b :: 0 <= a < b < |out| ==> out[a].lino < out[b].lino
  }

  /** Results are in strictly increasing line order, numbered within [lino, lino + |rs|). */
  lemma {:induction false} ScanOrdered(filename: string, rs: seq<Read>, matches: string -> bool, lino: nat)
    ensures NumberedWithin(Scan(filename, rs, matches, lino), lino, lino + |rs|)
    ensures InLineOrder(Scan(filename, rs, matches, lino))
    decreases |rs|
  {
    if rs != [] {
      ScanOrdered(filename, rs[1..], matches, lino + 1);
      var line := TrimLineEnd(rs[0].text);
      var head := Hit(filename, lino, line, matches);
      var tail := Scan(filename, rs[1..], matches, lino + 1);
      var out := Scan(filename, rs, matches, lino);
      assert out == head + tail;
      assert NumberedWithin(tail, lino + 1, lino + 1 + |rs[1..]|) && InLineOrder(tail);
      forall a | 0 <= a < |out|
        ensures lino <= out[a].lino < lino + |rs|
        ensures a < |head| ==> out[a].lino == lino
        ensures a >= |head| ==> out[a] == tail[a - |head|]
      {
        if a < |head| {
          assert out[a] == head[a];
        } else {
          assert out[a] == tail[a - |head|];
        }
      }
      forall a, b | 0 <= a < b < |out|
        ensures out[a].lino < out[b].lino
      {
        if a >= |head| {
          assert out[a] == tail[a - |head|] && out[b] == tail[b - |head|];
        } else {
          assert out[b] == tail[b - |head|];
        }
      }
    }
  }

  /** No reported line ends in '\n' or '\r'. */
  lemma NoLineEndReported(filename: string, file: Option<Stream>, matches: string -> bool)
    ensures forall r :: r in FileResults(filename, file, matches) ==>
      r.filename == filename && r.lino >= 1 && (r.line == [] || !IsLineEnd(r.line[|r.line| - 1]))
  {
    if file.Some? {
      var rs := Reads(file.value.data, file.value.failsAtEnd);
      forall r | r in FileResults(filename, file, matches)
        ensures r.filename == filename && r.lino >= 1 && (r.line == [] || !IsLineEnd(r.line[|r.line| - 1]))
      {
        ScanExact(filename, rs, matches, 1, r);
      }
    }
  }

  /** A line with no line-end characters, as Job.Do sees it before its '\n'. */
  predicate IsPlainLine(line: string)
  {
    forall k :: 0 <= k < |line| ==> !IsLineEnd(line[k])
  }

  /** A file starting with a plain line and its '\n' reports that line, then the rest numbered on. */
  lemma ScanFirstLine(filename: string, line: string, rest: string, matches: string -> bool, lino: nat)
    requires IsPlainLine(line)
    ensures Scan(filename, Reads(line + "\n" + rest, false), matches, lino)
      == Hit(filename, lino, line, matches) + Scan(filename, Reads(rest, false), matches, lino + 1)
  {
    ReadsFirstLine(line, rest);
    TrimPlainLine(line);
    var rs := [Read(line + "\n", Delimited)] + Reads(rest, false);
    assert rs[0].text == line + "\n" && rs[1..] == Reads(rest, false);
  }

  lemma ReadsFirstLine(line: string, rest: string)
    requires IsPlainLine(line)
    ensures Reads(line + "\n" + rest, false) == [Read(line + "\n", Delimited)] + Reads(rest, false)
  {
    var s := line + "\n" + rest;
    assert s[|line|] == '\n';
    forall k | 0 <= k < |line|
      ensures s[k] != '\n'
    {
      assert s[k] == line[k];
    }
    ReadsFirstDelimiter(s, |line|, false);
    assert s[..|line| + 1] == line + "\n";
    assert s[|line| + 1..] == rest;
  }

  lemma TrimPlainLine(line: string)
    requires IsPlainLine(line)
    ensures TrimLineEnd(line + "\n") == line
  {
    var s := line + "\n";
    assert s[..|s| - 1] == line;
    if line != [] {
      assert !IsLineEnd(TrimLineEnd(s)[|line| - 1]) by {
        assert line[|line| - 1] == s[|line| - 1];
      }
    }
  }

  /** The empty segment after a file's last '\n' is tested as a line of its own. */
  lemma ScanEnd(filename: string, matches: string -> bool, lino: nat)
    ensures Scan(filename, Reads([], false), matches, lino) == Hit(filename, lino, [], matches)
  {
    ReadsUndelimited([], false);
  }

  /** A file of one plain line and its '\n' tests that line and then the empty line after it. */
  lemma OneLineFile(filename: string, a: string, matches: string -> bool, lino: nat)
    requires IsPlainLine(a)
    ensures Scan(filename, Reads(a + "\n", false), matches, lino)
      == Hit(filename, lino, a, matches) + Hit(filename, lino + 1, [], matches)
  {
    assert a + "\n" == a + "\n" + [];
    ScanFirstLine(filename, a, [], matches, lino);
    ScanEnd(filename, matches, lino + 1);
  }

  /** A file of two plain lines, each with its '\n', tests both and then the empty line after them. */
  lemma TwoLineFile(filename: string, a: string, b: string, matches: string -> bool)
    requires IsPlainLine(a) && IsPlainLine(b)
    ensures FileResults(filename, Some(Stream(a + "\n" + (b + "\n"), false)), matches)
      == Hit(filename, 1, a, matches) + (Hit(filename, 2, b, matches) + Hit(filename, 3, [], matches))
  {
    ScanFirstLine(filename, a, b + "\n", matches, 1);
    assert Scan(filename, Reads(b + "\n", false), matches, 2)
      == Hit(filename, 2, b, matches) + Hit(filename, 3, [], matches) by {
      OneLineFile(filename, b, matches, 2);
    }
  }

  /** "foo\n" is read as two lines, and the empty second line is tested too. */
  lemma TrailingNewlineTestsEmptyLine(matches: string -> bool)
    requires matches("") && !matches("foo")
    ensures FileResults("f", Some(Stream("foo\n", false)), matches) == [Result("f", 2, "")]
  {
    assert "foo\n" == "foo" + "\n";
    assert IsPlainLine("foo");
    OneLineFile("f", "foo", matches, 1);
  }

  // ------------------------------------------------------------ orchestration

  /**
   * minimum(x, ys...): the smallest of its arguments.
   */
  method Minimum(x: int, ys: seq<int>) returns (m: int)
    ensures m <= x && forall i :: 0 <= i < |ys| ==> m <= ys[i]
    ensures m == x || m in ys
  {
    m := x;
    for i := 0 to |ys|
      invariant m <= x && forall j :: 0 <= j < i ==> m <= ys[j]
      invariant m == x || m in ys[..i]
    {
      if ys[i] < m {
        m := ys[i];
      }
    }
  }

  /** The capacity grep gives its results channel: minimum(1000, number of files). */
  method ResultsCapacity(filenames: seq<string>) returns (n: int)
    ensures n == if |filenames| < 1000 then |filenames| else 1000
  {
    n := Minimum(1000, [|filenames|]);
    assert n <= [|filenames|][0];
    assert n == 1000 || n == [|filenames|][0];
  }

  /** addJobs: one job per file name, in the given order, all sending to the same sink. */
  method AddJobs(filenames: seq<string>, results: Sink) returns (jobs: seq<Job>)
    ensures |jobs| == |filenames|
    ensures forall i :: 0 <= i < |jobs| ==> jobs[i].filename == filenames[i] && jobs[i].results == results
  {
    jobs := [];
    for i := 0 to |filenames|
      invariant |jobs| == i
      invariant forall j :: 0 <= j < i ==> jobs[j].filename == filenames[j] && jobs[j].results == results
    {
      jobs := jobs + [Job(filenames[i], results)];
    }
  }

  /**
   * Glob expansion of one command-line name on Windows: the name itself for an
   * invalid pattern, otherwise the files it matches (none when it matches nothing).
   */
  function Expand(glob: string -> Option<seq<string>>): string -> seq<string>
  {
    (name: string) => match glob(name) case None => [name] case Some(ms) => ms
  }

  /**
   * commandLineFiles: outside Windows the names are returned as given; on
   * Windows every name is replaced by its glob expansion, in order.
   */
  method CommandLineFiles(files: seq<string>, onWindows: bool, glob: string -> Option<seq<string>>)
    returns (args: seq<string>)
    ensures !onWindows ==> args == files
    ensures onWindows ==> args == FlatMap(Expand(glob), files)
  {
    if !onWindows {
      return files;
    }
    args := [];
    for i := 0 to |files|
      invariant args == FlatMap(Expand(glob), files[..i])
    {
      FlatMapPrefixStep(Expand(glob), files, i);
      match glob(files[i])
      case None =>
        args := args + [files[i]];
      case Some(matches) =>
        args := args + matches;
    }
    assert files[..|files|] == files;
  }

  /** The results of one file as a function value, for FlatMap. */
  function JobResults(open: string -> Option<Stream>, matches: string -> bool): string -> seq<Result>
  {
    (name: string) => FileResults(name, open(name), matches)
  }

  /**
   * grep run sequentially: addJobs, then every job's Do in job order, all
   * sending to one sink; open gives each file's contents (None when it
   * cannot be opened).
   */
  method Grep(matches: string -> bool, filenames: seq<string>, open: string -> Option<Stream>)
    returns (results: seq<Result>)
    ensures results == FlatMap(JobResults(open, matches), filenames)
  {
    var jobs := AddJobs(filenames, 0);
    results := [];
    for i := 0 to |jobs|
      invariant results == FlatMap(JobResults(open, matches), filenames[..i])
    {
      var found := Do(jobs[i], open(jobs[i].filename), matches);
      FlatMapPrefixStep(JobResults(open, matches), filenames, i);
      results := results + found;
    }
    assert filenames[..|filenames|] == filenames;
  }

  /**
   * Whatever order the workers take the jobs in, the same results arrive, up
   * to their order: the sequential meaning of the worker pool.
   */
  lemma AnyJobOrderSameResults(matches: string -> bool, filenames: seq<string>, taken: seq<string>, open: string -> Option<Stream>)
    requires multiset(taken) == multiset(filenames)
    ensures multiset(FlatMap(JobResults(open, matches), taken)) == multiset(FlatMap(JobResults(open, matches), filenames))
  {
    FlatMapPermutation(JobResults(open, matches), taken, filenames);
  }

  /**
   * Two files searched in order: lines a and b of the first and line c of the
   * second, where only a and c match; each file reports its match as line 1.
   */
  lemma SearchExample(matches: string -> bool, open: string -> Option<Stream>, a: string, b: string, c: string)
    requires IsPlainLine(a) && IsPlainLine(b) && IsPlainLine(c)
    requires matches(a) && !matches(b) && matches(c) && !matches("")
    requires open("f1") == Some(Stream(a + "\n" + (b + "\n"), false))
    requires open("f2") == Some(Stream(c + "\n", false))
    ensures FlatMap(JobResults(open, matches), ["f1", "f2"]) == [Result("f1", 1, a), Result("f2", 1, c)]
  {
    var f := JobResults(open, matches);
    assert f("f1") == [Result("f1", 1, a)] by {
      TwoLineFile("f1", a, b, matches);
    }
    assert f("f2") == [Result("f2", 1, c)] by {
      assert c + "\n" == c + "\n" + [];
      OneLineFile("f2", c, matches, 1);
    }
    FlatMapPair(f, "f1", "f2");
  }

  /** Whether w occurs in s: what the regular expression made of the literal w matches. */
  predicate Contains(s: string, w: string)
    decreases |s|
  {
    |w| <= |s| && (s[..|w|] == w || (s != [] && Contains(s[1..], w)))
  }

  /**
   * Searching f1 = "foo\nbar\n" and f2 = "foobar\n" for foo reports
   * (f1, 1, "foo") and then (f2, 1, "foobar").
   */
  lemma FooSearch(open: string -> Option<Stream>)
    requires open("f1") == Some(Stream("foo\nbar\n", false))
    requires open("f2") == Some(Stream("foobar\n", false))
    ensures FlatMap(JobResults(open, (line: string) => Contains(line, "foo")), ["f1", "f2"])
      == [Result("f1", 1, "foo"), Result("f2", 1, "foobar")]
  {
    assert IsPlainLine("foo") && IsPlainLine("bar") && IsPlainLine("foobar");
    assert "foo\nbar\n" == "foo" + "\n" + ("bar" + "\n");
    assert "foobar\n" == "foobar" + "\n";
    assert Contains("foo", "foo") && Contains("foobar", "foo");
    assert !Contains("", "foo");
    assert !Contains("bar", "foo") by {
      assert "bar"[..3][0] != "foo"[0];
      assert !Contains("ar", "foo");
    }
    SearchExample((line: string) => Contains(line, "foo"), open, "foo", "bar", "foobar");
  }
}
