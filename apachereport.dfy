/**
 * apachereport: counts, per page, the log lines that request it. One reader
 * splits the log into chunks that end at a '\n', the last one possibly
 * unterminated, and sends the non-empty ones; workers extract the page of each
 * line and bump its count in a shared map. The workers are replaced by one
 * loop over the lines, and the lemmas show that the order the lines are taken
 * in does not change the final map.
 */
module ApacheReport {
  import opened Wrappers
  import opened Seqs
  import opened Reader
  import opened PagePattern

  // ------------------------------------------------------------ reading

  /** The chunk a read delivers to the lines channel: its text, unless it is empty. */
  function Sent(r: Read): seq<string>
  {
    if r.text == [] then [] else [r.text]
  }

  /** The lines readLines sends for a stream, in order. */
  function LogLines(input: Stream): seq<string>
  {
    FlatMap(Sent, Reads(input.data, input.failsAtEnd))
  }

  /**
   * readLines: reads chunks ending in '\n' until the first end-of-file or read
   * error, sends every non-empty chunk, and reports (logs) a read error that
   * is not end-of-file.
   */
  method ReadLines(input: Stream) returns (lines: seq<string>, logged: bool)
    ensures lines == LogLines(input)
    ensures logged == input.failsAtEnd
  {
    ghost var rs := Reads(input.data, input.failsAtEnd);
    var rest := input.data;
    lines := [];
    logged := false;
    var done := false;
    ghost var c: nat := 0;
    while !done
      invariant !done ==> c < |rs| && rs[c..] == Reads(rest, input.failsAtEnd)
      invariant done ==> c == |rs| && logged == input.failsAtEnd
      invariant lines == FlatMap(Sent, rs[..c])
      decreases |rs| - c
    {
      ReadsStep(rs, c, rest, input.failsAtEnd);
      var p := ReadString(rest, input.failsAtEnd);
      var line := p.0.text;
      rest := p.1;
      FlatMapPrefixStep(Sent, rs, c);
      if line != [] {
        lines := lines + [line];
      }
      if p.0.status != Delimited {
        logged := p.0.status == Failed;
        done := true;
      }
      c := c + 1;
    }
    TakeAll(rs);
  }

  lemma {:induction false} SentConcat(rs: seq<Read>)
    ensures Concat(FlatMap(Sent, rs)) == FlatMap(TextOf, rs)
  {
    if rs != [] {
      SentConcat(rs[1..]);
      var tail := FlatMap(Sent, rs[1..]);
      if rs[0].text != [] {
        var ls := [rs[0].text] + tail;
        assert ls == FlatMap(Sent, rs);
        assert ls[0] == rs[0].text && ls[1..] == tail;
      } else {
        assert FlatMap(Sent, rs) == tail;
      }
    }
  }

  /**
   * For reads whose chunks all end in their only '\n' except the last, which
   * holds none: the chunks sent are non-empty, all but the last end in their
   * only '\n', and the last does too or holds no '\n'.
   */
  lemma {:induction false} SentShape(rs: seq<Read>)
    requires |rs| >= 1
    requires forall i :: 0 <= i < |rs| - 1 ==> IsDelimitedChunk(rs[i].text)
    requires '\n' !in rs[|rs| - 1].text
    ensures var ls := FlatMap(Sent, rs);
      && (forall i :: 0 <= i < |ls| ==> ls[i] != [])
      && (forall i :: 0 <= i < |ls| - 1 ==> IsDelimitedChunk(ls[i]))
      && (|ls| > 0 ==> IsDelimitedChunk(ls[|ls| - 1]) || '\n' !in ls[|ls| - 1])
    decreases |rs|
  {
    var ls := FlatMap(Sent, rs);
    if |rs| == 1 {
      assert FlatMap(Sent, rs) == Sent(rs[0]) + FlatMap(Sent, rs[1..]);
    } else {
      assert rs[1..][|rs[1..]| - 1] == rs[|rs| - 1];
      forall i | 0 <= i < |rs[1..]| - 1
        ensures IsDelimitedChunk(rs[1..][i].text)
      {
        assert rs[1..][i] == rs[i + 1];
      }
      SentShape(rs[1..]);
      var tail := FlatMap(Sent, rs[1..]);
      assert ls == [rs[0].text] + tail;
      forall i | 0 <= i < |ls| - 1
        ensures IsDelimitedChunk(ls[i])
      {
        if i > 0 {
          assert ls[i] == tail[i - 1];
        }
      }
      forall i | 0 <= i < |ls|
        ensures ls[i] != []
      {
        if i > 0 {
          assert ls[i] == tail[i - 1];
        }
      }
      if |tail| > 0 {
        assert ls[|ls| - 1] == tail[|tail| - 1];
      }
    }
  }

  /**
   * The lines sent are non-empty and concatenate back to the whole stream;
   * every line but the last ends in '\n' and holds no other '\n', and the last
   * either does the same or holds no '\n' at all.
   */
  lemma LogLinesPartition(input: Stream)
    ensures var ls := LogLines(input);
      && Concat(ls) == input.data
      && (forall i :: 0 <= i < |ls| ==> ls[i] != [])
      && (forall i :: 0 <= i < |ls| - 1 ==> IsDelimitedChunk(ls[i]))
      && (|ls| > 0 ==> IsDelimitedChunk(ls[|ls| - 1]) || '\n' !in ls[|ls| - 1])
  {
    var rs := Reads(input.data, input.failsAtEnd);
    ReadsPartition(input.data, input.failsAtEnd);
    assert Concat(LogLines(input)) == input.data by {
      SentConcat(rs);
    }
    assert |rs| >= 1 && '\n' !in rs[|rs| - 1].text;
    assert forall i :: 0 <= i < |rs| - 1 ==> IsDelimitedChunk(rs[i].text);
    SentShape(rs);
  }

  // ------------------------------------------------------------ counting

  /** The count stored for k, 0 when k is absent. */
  function Count(m: map<string, int>, k: string): int
  {
    if k in m then m[k] else 0
  }

  /**
   * incrementer: the updater passed to Update; the stored value plus one when
   * the key is present, 1 when it is not. The absent value is passed as 0.
   */
  function Incrementer(value: int, found: bool): (r: int)
    ensures found ==> r == value + 1
    ensures !found ==> r == 1
  {
    if found then value + 1 else 1
  }

  /** One Update(k, incrementer) on a plain map. */
  function Bump(m: map<string, int>, k: string): (m': map<string, int>)
    ensures m'.Keys == m.Keys + {k}
    ensures Count(m', k) == Count(m, k) + 1
    ensures forall k' :: k' != k ==> Count(m', k') == Count(m, k')
  {
    m[k := Incrementer(Count(m, k), k in m)]
  }

  /** The map after Update(k, incrementer) for every key in keys, in order. */
  function Tally(m: map<string, int>, keys: seq<string>): map<string, int>
  {
    if keys == [] then m else Bump(Tally(m, keys[..|keys| - 1]), keys[|keys| - 1])
  }

  lemma TallyPrefixStep(m: map<string, int>, keys: seq<string>, n: nat)
    requires n < |keys|
    ensures Tally(m, keys[..n + 1]) == Bump(Tally(m, keys[..n]), keys[n])
  {
    assert keys[..n + 1][..n] == keys[..n];
  }

  /** The extracted key of a line, as a sequence of zero or one keys. */
  function KeyOf(extract: string -> Option<string>): string -> seq<string>
  {
    (line: string) => match extract(line) case None => [] case Some(k) => [k]
  }

  /** The keys Update is called with when the lines are processed in order. */
  function Keys(lines: seq<string>, extract: string -> Option<string>): seq<string>
  {
    FlatMap(KeyOf(extract), lines)
  }

  /**
   * After the keys are tallied into m, each key's count is its count in m plus
   * the number of times it occurs; no other key is added.
   */
  lemma {:induction false} TallyCount(m: map<string, int>, keys: seq<string>, k: string)
    ensures Count(Tally(m, keys), k) == Count(m, k) + multiset(keys)[k]
    ensures k in Tally(m, keys) <==> k in m || k in keys
    decreases |keys|
  {
    if keys != [] {
      var init := keys[..|keys| - 1];
      var last := keys[|keys| - 1];
      TallyCount(m, init, k);
      assert keys == init + [last];
      assert multiset(keys) == multiset(init) + multiset{last};
      assert k in keys <==> k in init || k == last;
    }
  }

  /** Counting from the empty map: a key is present iff it was extracted, and then its count is how often, at least 1. */
  lemma TallyFromEmpty(keys: seq<string>, k: string)
    ensures k in Tally(map[], keys) <==> k in keys
    ensures k in Tally(map[], keys) ==> Tally(map[], keys)[k] == multiset(keys)[k] >= 1
  {
    TallyCount(map[], keys, k);
  }

  /** Tallies of two orderings of the same keys are the same map. */
  lemma TallyOrderIrrelevant(m: map<string, int>, keys: seq<string>, keys': seq<string>)
    requires multiset(keys) == multiset(keys')
    ensures Tally(m, keys) == Tally(m, keys')
  {
    var a := Tally(m, keys);
    var b := Tally(m, keys');
    forall k
      ensures (k in a <==> k in b) && (k in a ==> a[k] == b[k])
    {
      TallyCount(m, keys, k);
      TallyCount(m, keys', k);
      assert k in keys <==> k in multiset(keys);
      assert k in keys' <==> k in multiset(keys');
    }
    assert a.Keys == b.Keys;
  }

  /**
   * Whichever worker takes whichever line: processing any reordering of the
   * lines gives the same final map.
   */
  lemma LineOrderIrrelevant(m: map<string, int>, lines: seq<string>, taken: seq<string>, extract: string -> Option<string>)
    requires multiset(taken) == multiset(lines)
    ensures Tally(m, Keys(taken, extract)) == Tally(m, Keys(lines, extract))
  {
    FlatMapPermutation(KeyOf(extract), taken, lines);
    TallyOrderIrrelevant(m, Keys(taken, extract), Keys(lines, extract));
  }

  /** The lines of which the extraction finds a key. */
  function Matching(lines: seq<string>, extract: string -> Option<string>): seq<string>
  {
    Filter((line: string) => extract(line).Some?, lines)
  }

  lemma {:induction false} KeysPerMatchingLine(lines: seq<string>, extract: string -> Option<string>)
    ensures |Keys(lines, extract)| == |Matching(lines, extract)|
  {
    if lines != [] {
      KeysPerMatchingLine(lines[1..], extract);
    }
  }

  /** The lines of which the extraction finds the key k. */
  function LinesWithKey(lines: seq<string>, extract: string -> Option<string>, k: string): seq<string>
  {
    Filter((line: string) => extract(line) == Some(k), lines)
  }

  /** A key occurs among the extracted keys once per line whose extraction is that key. */
  lemma {:induction false} KeyOccurrences(lines: seq<string>, extract: string -> Option<string>, k: string)
    ensures multiset(Keys(lines, extract))[k] == |LinesWithKey(lines, extract, k)|
  {
    if lines != [] {
      KeyOccurrences(lines[1..], extract, k);
      assert Keys(lines, extract) == KeyOf(extract)(lines[0]) + Keys(lines[1..], extract);
      assert LinesWithKey(lines, extract, k)
        == (if extract(lines[0]) == Some(k) then [lines[0]] else []) + LinesWithKey(lines[1..], extract, k);
    }
  }

  /** The sum of the counts of the keys in ks. */
  ghost function SumOver(m: map<string, int>, ks: set<string>): int
    requires ks <= m.Keys
  {
    if ks == {} then 0
    else
      var k :| k in ks;
      m[k] + SumOver(m, ks - {k})
  }

  /** The sum of all counts in m. */
  ghost function Total(m: map<string, int>): int
  {
    SumOver(m, m.Keys)
  }

  /** Any key of ks can be summed first. */
  lemma {:induction false} SumOverRemove(m: map<string, int>, ks: set<string>, k: string)
    requires ks <= m.Keys && k in ks
    ensures SumOver(m, ks) == m[k] + SumOver(m, ks - {k})
    decreases |ks|
  {
    var k' :| k' in ks && SumOver(m, ks) == m[k'] + SumOver(m, ks - {k'});
    if k' != k {
      SumOverRemove(m, ks - {k'}, k);
      SumOverRemove(m, ks - {k}, k');
      assert ks - {k'} - {k} == ks - {k} - {k'};
    }
  }

  /** Sums over keys on which two maps agree are equal. */
  lemma {:induction false} SumOverAgree(m: map<string, int>, m': map<string, int>, ks: set<string>)
    requires ks <= m.Keys && ks <= m'.Keys
    requires forall k :: k in ks ==> m[k] == m'[k]
    ensures SumOver(m, ks) == SumOver(m', ks)
    decreases |ks|
  {
    if ks != {} {
      var k :| k in ks && SumOver(m, ks) == m[k] + SumOver(m, ks - {k});
      SumOverRemove(m', ks, k);
      SumOverAgree(m, m', ks - {k});
    }
  }

  /** Each Update(k, incrementer) adds exactly one to the total. */
  lemma BumpTotal(m: map<string, int>, k: string)
    ensures Total(Bump(m, k)) == Total(m) + 1
  {
    var m' := Bump(m, k);
    if k in m {
      SumOverRemove(m, m.Keys, k);
      SumOverRemove(m', m'.Keys, k);
      assert m'.Keys == m.Keys;
      SumOverAgree(m, m', m.Keys - {k});
    } else {
      SumOverRemove(m', m'.Keys, k);
      assert m'.Keys - {k} == m.Keys;
      SumOverAgree(m, m', m.Keys);
    }
  }

  lemma {:induction false} TallyTotal(m: map<string, int>, keys: seq<string>)
    ensures Total(Tally(m, keys)) == Total(m) + |keys|
    decreases |keys|
  {
    if keys != [] {
      TallyTotal(m, keys[..|keys| - 1]);
      BumpTotal(Tally(m, keys[..|keys| - 1]), keys[|keys| - 1]);
    }
  }

  /** Starting from the empty map, the counts add up to the number of matching lines. */
  lemma CountsSumToMatchingLines(lines: seq<string>, extract: string -> Option<string>)
    ensures Total(Tally(map[], Keys(lines, extract))) == |Matching(lines, extract)|
  {
    TallyTotal(map[], Keys(lines, extract));
    KeysPerMatchingLine(lines, extract);
    assert Total(map[]) == 0;
  }

  // ------------------------------------------------------------ the shared map

  /**
   * safemap.SafeMap as the report uses it: a map from page to count that
   * Update changes in place and Close hands over; after Close the map may not
   * be used again.
   */
  class SafeMap {
    var entries: map<string, int>
    var closed: bool

    constructor ()
      ensures entries == map[] && !closed
    {
      entries := map[];
      closed := false;
    }

    /** Update(key, updater): stores updater(current value, whether key was present). */
    method Update(key: string, updater: (int, bool) -> int)
      requires !closed
      modifies this
      ensures entries == old(entries)[key := updater(Count(old(entries), key), key in old(entries))]
      ensures !closed
    {
      entries := entries[key := updater(Count(entries, key), key in entries)];
    }

    /** Close: ends the map's use and returns its contents. */
    method Close() returns (m: map<string, int>)
      requires !closed
      modifies this
      ensures m == old(entries) && entries == old(entries) && closed
    {
      m := entries;
      closed := true;
    }
  }

  /** Processing one more line bumps its key, if it has one. */
  lemma ProcessStep(m: map<string, int>, lines: seq<string>, i: nat, extract: string -> Option<string>)
    requires i < |lines|
    ensures Tally(m, Keys(lines[..i + 1], extract)) ==
      match extract(lines[i])
      case None => Tally(m, Keys(lines[..i], extract))
      case Some(page) => Bump(Tally(m, Keys(lines[..i], extract)), page)
  {
    FlatMapPrefixStep(KeyOf(extract), lines, i);
    var ks := Keys(lines[..i], extract);
    match extract(lines[i])
    case None =>
      assert ks + [] == ks;
    case Some(page) =>
      TallyPrefixStep(m, ks + [page], |ks|);
      assert (ks + [page])[..|ks|] == ks;
      assert (ks + [page])[..|ks| + 1] == ks + [page];
  }

  /** A worker's loop body over the lines: every line with a key causes Update(key, incrementer). */
  method ProcessLines(pageMap: SafeMap, lines: seq<string>, extract: string -> Option<string>)
    requires !pageMap.closed
    modifies pageMap
    ensures pageMap.entries == Tally(old(pageMap.entries), Keys(lines, extract))
    ensures !pageMap.closed
  {
    ghost var m0 := pageMap.entries;
    for i := 0 to |lines|
      invariant !pageMap.closed
      invariant pageMap.entries == Tally(m0, Keys(lines[..i], extract))
    {
      ProcessStep(m0, lines, i, extract);
      match extract(lines[i])
      case None =>
      case Some(page) =>
        pageMap.Update(page, Incrementer);
    }
    TakeAll(lines);
  }

  /**
   * The report for one log: None when the file cannot be opened (fatal),
   * otherwise the map of page counts once all lines are processed and the map
   * is closed.
   */
  method Report(file: Option<Stream>, extract: string -> Option<string>) returns (pages: Option<map<string, int>>)
    ensures file.None? ==> pages.None?
    ensures file.Some? ==> pages == Some(Tally(map[], Keys(LogLines(file.value), extract)))
  {
    if file.None? {
      return None;
    }
    var lines, _ := ReadLines(file.value);
    var pageMap := new SafeMap();
    ProcessLines(pageMap, lines, extract);
    var m := pageMap.Close();
    pages := Some(m);
  }

  /** With the page pattern as the extraction, every key of the report is a page name. */
  lemma {:induction false} KeysArePages(lines: seq<string>)
    ensures forall k :: k in Keys(lines, FindPage) ==> IsPage(k)
  {
    if lines != [] {
      KeysArePages(lines[1..]);
      FindPageIsPage(lines[0]);
      assert Keys(lines, FindPage) == KeyOf(FindPage)(lines[0]) + Keys(lines[1..], FindPage);
    }
  }

  /**
   * The report of a log with the page pattern: a page is present iff some
   * line requests it, its count is the number of lines whose capture it is,
   * and every key is a page name.
   */
  lemma PageReport(input: Stream, page: string)
    ensures var counts := Tally(map[], Keys(LogLines(input), FindPage));
      && (page in counts <==> page in Keys(LogLines(input), FindPage))
      && (page in counts <==> LinesWithKey(LogLines(input), FindPage, page) != [])
      && (page in counts ==> counts[page] == multiset(Keys(LogLines(input), FindPage))[page])
      && (page in counts ==> counts[page] == |LinesWithKey(LogLines(input), FindPage, page)| && IsPage(page))
  {
    TallyFromEmpty(Keys(LogLines(input), FindPage), page);
    KeyOccurrences(LogLines(input), FindPage, page);
    KeysArePages(LogLines(input));
  }

  /** A request line "GET " followed by a page name captures exactly that page. */
  lemma FindsRequestedPage(page: string)
    requires IsPage(page)
    ensures FindPage("GET " + page) == Some(page)
  {
    var s := "GET " + page;
    assert s[..3] == "GET";
    var t := s[3..];
    assert t[0] == ' ' && t[1] == page[0];
    SpanStops(t, IsBlank, 1);
    var w := s[4..];
    assert w == page;
    assert Span(w, IsPathChar) == |page|;
    assert w[..|page|] == page;
    assert PageAt(s, 0) == Some(page);
  }

  lemma ExampleKeys(a: string, b: string)
    requires IsPage(a) && IsPage(b)
    ensures Keys(["GET " + a, "GET " + b, "GET " + a], FindPage) == [a, b, a]
  {
    FindsRequestedPage(a);
    FindsRequestedPage(b);
    var lines := ["GET " + a, "GET " + b, "GET " + a];
    var k := KeyOf(FindPage);
    assert k(lines[0]) == [a] && k(lines[1]) == [b] && k(lines[2]) == [a];
    assert FlatMap(k, lines[2..]) == [a] by {
      assert lines[2..][1..] == [];
      assert lines[2..][0] == lines[2];
    }
    assert FlatMap(k, lines[1..]) == [b, a] by {
      assert lines[1..][1..] == lines[2..];
      assert lines[1..][0] == lines[1];
    }
  }

  lemma ExampleTally(a: string, b: string)
    requires a != b
    ensures Tally(map[], [a, b, a]) == map[a := 2, b := 1]
  {
    var ks := [a, b, a];
    assert ks[..2][..1][..0] == [];
    assert ks[..2][..1] == [a] && ks[..2] == [a, b];
    assert Tally(map[], [a]) == map[a := 1];
    assert Tally(map[], [a, b]) == map[a := 1, b := 1];
  }

  /** Three requests, two of them for the same page, give that page a count of 2 and the other a count of 1. */
  lemma CountingExample(a: string, b: string)
    requires IsPage(a) && IsPage(b) && a != b
    ensures Tally(map[], Keys(["GET " + a, "GET " + b, "GET " + a], FindPage)) == map[a := 2, b := 1]
  {
    ExampleKeys(a, b);
    ExampleTally(a, b);
  }

  /** "/a.html" and "/b.html" are page names, so the example above covers the log "GET /a.html", "GET /b.html", "GET /a.html". */
  lemma ExamplePagesArePages()
    ensures IsPage("/a.html") && IsPage("/b.html") && "/a.html" != "/b.html"
  {
    assert "/a.html"[2..] == ".html";
    assert "/b.html"[2..] == ".html";
    assert "/a.html"[1] != "/b.html"[1];
  }
}
