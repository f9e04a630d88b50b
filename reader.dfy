/**
 * A model of reading a text stream one '\n'-terminated chunk at a time, as
 * bufio.Reader's ReadString('\n') and ReadBytes('\n') do in all three programs.
 *
 * The reader's state is the part of the stream not yet read. A stream delivers
 * its data and then ends, either at end-of-file or with a read error; the
 * chunk that reaches the end of the data is returned together with that
 * ending, whether or not it is empty.
 */
module Reader {
  import opened Seqs

  /** How one read ended: at the delimiter, at end-of-file, or with a read error. */
  datatype Status = Delimited | AtEof | Failed

  /** A stream: the characters it delivers, and whether it then fails instead of reporting EOF. */
  datatype Stream = Stream(data: string, failsAtEnd: bool)

  /** The text one read returned and how it ended. */
  datatype Read = Read(text: string, status: Status)

  /** The status a read reaching the end of the data gets. */
  function EndStatus(failsAtEnd: bool): Status
  {
    if failsAtEnd then Failed else AtEof
  }

  /**
   * One ReadString('\n') call on the unread part `rest` of a stream: the chunk
   * read and the part left unread afterwards.
   */
  function ReadString(rest: string, failsAtEnd: bool): (p: (Read, string))
    ensures p.0.text + p.1 == rest
    ensures p.0.status == Delimited <==> '\n' in rest
    ensures p.0.status == Delimited ==>
      && p.0.text != []
      && p.0.text[|p.0.text| - 1] == '\n'
      && '\n' !in p.0.text[..|p.0.text| - 1]
    ensures p.0.status != Delimited ==> p.0.status == EndStatus(failsAtEnd) && p.1 == []
  {
    var i := FirstIndex(rest, '\n');
    if i < |rest| then
      assert rest == rest[..i + 1] + rest[i + 1..];
      (Read(rest[..i + 1], Delimited), rest[i + 1..])
    else
      (Read(rest, EndStatus(failsAtEnd)), [])
  }

  /** Every read a loop calling ReadString on `rest` performs until (and including) the first that does not end at a delimiter. */
  function Reads(rest: string, failsAtEnd: bool): (rs: seq<Read>)
    decreases |rest|
  {
    var p := ReadString(rest, failsAtEnd);
    if p.0.status == Delimited then [p.0] + Reads(p.1, failsAtEnd) else [p.0]
  }

  /** One step of a read loop: the next read is the next element of the reads still to come. */
  lemma ReadsStep(rs: seq<Read>, c: nat, rest: string, failsAtEnd: bool)
    requires c < |rs| && rs[c..] == Reads(rest, failsAtEnd)
    ensures var p := ReadString(rest, failsAtEnd);
      && rs[c] == p.0
      && (p.0.status == Delimited ==> c + 1 < |rs| && rs[c + 1..] == Reads(p.1, failsAtEnd))
      && (p.0.status != Delimited ==> c + 1 == |rs|)
  {
    var p := ReadString(rest, failsAtEnd);
    assert rs[c] == rs[c..][0];
    if p.0.status == Delimited {
      assert rs[c + 1..] == rs[c..][1..];
    }
  }

  /** A stream whose first '\n' is at i: the first read ends there. */
  lemma ReadsFirstDelimiter(rest: string, i: nat, failsAtEnd: bool)
    requires i < |rest| && rest[i] == '\n'
    requires forall k :: 0 <= k < i ==> rest[k] != '\n'
    ensures Reads(rest, failsAtEnd) == [Read(rest[..i + 1], Delimited)] + Reads(rest[i + 1..], failsAtEnd)
  {
    assert FirstIndex(rest, '\n') == i;
  }

  /** A stream with no '\n' is read in one call that ends the stream. */
  lemma ReadsUndelimited(rest: string, failsAtEnd: bool)
    requires forall k :: 0 <= k < |rest| ==> rest[k] != '\n'
    ensures Reads(rest, failsAtEnd) == [Read(rest, EndStatus(failsAtEnd))]
  {
    assert FirstIndex(rest, '\n') == |rest|;
  }

  function TextOf(r: Read): string
  {
    r.text
  }

  /** A chunk complete with its delimiter: ends in '\n' and holds no other '\n'. */
  predicate IsDelimitedChunk(s: string)
  {
    s != [] && s[|s| - 1] == '\n' && '\n' !in s[..|s| - 1]
  }

  /**
   * The reads partition the stream: their texts concatenate to the data; every
   * read but the last ends at a delimiter and holds exactly one '\n'; the last
   * holds no '\n' and carries the stream's ending (EOF or the read error).
   */
  lemma {:induction false} ReadsPartition(rest: string, failsAtEnd: bool)
    ensures var rs := Reads(rest, failsAtEnd);
      && |rs| >= 1
      && FlatMap(TextOf, rs) == rest
      && (forall i :: 0 <= i < |rs| - 1 ==> rs[i].status == Delimited && IsDelimitedChunk(rs[i].text))
      && rs[|rs| - 1].status == EndStatus(failsAtEnd)
      && '\n' !in rs[|rs| - 1].text
    decreases |rest|
  {
    var p := ReadString(rest, failsAtEnd);
    var rs := Reads(rest, failsAtEnd);
    if p.0.status == Delimited {
      ReadsPartition(p.1, failsAtEnd);
      var tail := Reads(p.1, failsAtEnd);
      assert rs == [p.0] + tail;
      assert rs[1..] == tail;
      forall i | 0 <= i < |rs| - 1
        ensures rs[i].status == Delimited && IsDelimitedChunk(rs[i].text)
      {
        if i > 0 {
          assert rs[i] == tail[i - 1];
        }
      }
    } else {
      assert rs == [p.0];
      assert FlatMap(TextOf, rs) == p.0.text + FlatMap(TextOf, rs[1..]);
    }
  }

  /** A delimited chunk holds exactly one '\n'. */
  lemma DelimitedChunkCount(t: string)
    requires IsDelimitedChunk(t)
    ensures multiset(t)['\n'] == 1
  {
    var u := t[..|t| - 1];
    assert t == u + ['\n'];
    assert multiset(t) == multiset(u) + multiset{'\n'};
    assert multiset(u)['\n'] == 0;
  }

  /** Counting a character is additive over concatenation. */
  lemma CountAppend(a: string, b: string, c: char)
    ensures multiset(a + b)[c] == multiset(a)[c] + multiset(b)[c]
  {
    assert multiset(a + b) == multiset(a) + multiset(b);
  }

  /** A read ending at a delimiter accounts for one read and one '\n'. */
  lemma ReadsCountStep(rest: string, failsAtEnd: bool)
    requires '\n' in rest
    ensures var p := ReadString(rest, failsAtEnd);
      && |Reads(rest, failsAtEnd)| == 1 + |Reads(p.1, failsAtEnd)|
      && multiset(rest)['\n'] == 1 + multiset(p.1)['\n']
  {
    var p := ReadString(rest, failsAtEnd);
    DelimitedChunkCount(p.0.text);
    CountAppend(p.0.text, p.1, '\n');
  }

  /** The number of reads is one more than the number of '\n' in the stream. */
  lemma {:induction false} ReadsCount(rest: string, failsAtEnd: bool)
    ensures |Reads(rest, failsAtEnd)| == multiset(rest)['\n'] + 1
    decreases |rest|
  {
    if '\n' in rest {
      var p := ReadString(rest, failsAtEnd);
      ReadsCount(p.1, failsAtEnd);
      ReadsCountStep(rest, failsAtEnd);
    } else {
      assert multiset(rest)['\n'] == 0;
      assert |Reads(rest, failsAtEnd)| == 1;
    }
  }
}
