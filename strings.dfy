/**
 * The Go library string functions the programs rely on: strings.Split with a
 * one-character separator, strings.Fields with unicode.IsSpace, and
 * bytes.TrimRight with the cut set "\n\r".
 */
module Strings {
  import opened Seqs

  /** Go's unicode.IsSpace. */
  predicate IsSpace(c: char)
  {
    || c == '\t' || c == '\n' || c as int == 0x0B || c as int == 0x0C || c == '\r' || c == ' '
    || c as int == 0x85 || c as int == 0xA0 || c as int == 0x1680
    || (0x2000 <= c as int <= 0x200A)
    || c as int == 0x2028 || c as int == 0x2029 || c as int == 0x202F
    || c as int == 0x205F || c as int == 0x3000
  }

  predicate IsFieldChar(c: char)
  {
    !IsSpace(c)
  }

  /** strings.Split(s, string(sep)): the pieces between separators; one more piece than separators. */
  function Split(s: string, sep: char): (parts: seq<string>)
    ensures |parts| == multiset(s)[sep] + 1
    ensures forall i :: 0 <= i < |parts| ==> sep !in parts[i]
    decreases |s|
  {
    var i := FirstIndex(s, sep);
    if i == |s| then
      assert multiset(s)[sep] == 0;
      [s]
    else
      assert s == s[..i] + [sep] + s[i + 1..];
      assert multiset(s[..i])[sep] == 0;
      [s[..i]] + Split(s[i + 1..], sep)
  }

  /** The pieces joined back together with sep between consecutive ones. */
  function Join(parts: seq<string>, sep: char): string
  {
    if parts == [] then [] else if |parts| == 1 then parts[0] else parts[0] + [sep] + Join(parts[1..], sep)
  }

  lemma {:induction false} SplitJoin(s: string, sep: char)
    ensures Join(Split(s, sep), sep) == s
    decreases |s|
  {
    var i := FirstIndex(s, sep);
    if i < |s| {
      SplitJoin(s[i + 1..], sep);
      assert s == s[..i] + [sep] + s[i + 1..];
    }
  }

  /** strings.Fields: the maximal runs of non-space characters, in order. */
  function Fields(s: string): (fs: seq<string>)
    ensures forall i :: 0 <= i < |fs| ==>
      fs[i] != [] && forall j :: 0 <= j < |fs[i]| ==> IsFieldChar(fs[i][j])
    decreases |s|
  {
    if s == [] then []
    else if IsSpace(s[0]) then Fields(s[1..])
    else
      var n := Span(s, IsFieldChar);
      [s[..n]] + Fields(s[n..])
  }

  lemma {:induction false} FilterKeepsAll<T>(p: T -> bool, s: seq<T>)
    requires forall i :: 0 <= i < |s| ==> p(s[i])
    ensures Filter(p, s) == s
  {
    if s != [] {
      FilterKeepsAll(p, s[1..]);
    }
  }

  /** The fields together hold exactly the non-space characters of s, in order. */
  lemma {:induction false} FieldsKeepNonSpace(s: string)
    ensures Concat(Fields(s)) == Filter(IsFieldChar, s)
    decreases |s|
  {
    if s == [] {
    } else if IsSpace(s[0]) {
      FieldsKeepNonSpace(s[1..]);
    } else {
      var n := Span(s, IsFieldChar);
      FieldsKeepNonSpace(s[n..]);
      assert s == s[..n] + s[n..];
      FilterAppend(IsFieldChar, s[..n], s[n..]);
      FilterKeepsAll(IsFieldChar, s[..n]);
      assert Concat(Fields(s)) == s[..n] + Concat(Fields(s[n..]));
    }
  }

  /** Fields separated by a space character split independently. */
  lemma {:induction false} FieldsAroundSpace(a: string, c: char, b: string)
    requires IsSpace(c)
    ensures Fields(a + [c] + b) == Fields(a) + Fields(b)
    decreases |a|
  {
    var s := a + [c] + b;
    if a == [] {
      assert s == [c] + b;
      assert s[0] == c && s[1..] == b;
      assert Fields(s) == Fields(b);
    } else if IsSpace(a[0]) {
      assert s[0] == a[0] && s[1..] == a[1..] + [c] + b;
      FieldsAroundSpace(a[1..], c, b);
      assert Fields(s) == Fields(s[1..]);
    } else {
      var n := Span(a, IsFieldChar);
      assert n >= 1 by {
        assert IsFieldChar(a[0]);
      }
      assert Span(s, IsFieldChar) == n by {
        SpanPrefix(a, [c] + b, IsFieldChar);
        assert s == a + ([c] + b);
      }
      assert s[0] == a[0];
      assert s[..n] == a[..n];
      assert s[n..] == a[n..] + [c] + b;
      FieldsAroundSpace(a[n..], c, b);
      assert Fields(s) == [a[..n]] + (Fields(a[n..]) + Fields(b));
      assert Fields(a) == [a[..n]] + Fields(a[n..]);
    }
  }

  /** A field: a non-empty run of non-space characters. */
  predicate IsWord(w: string)
  {
    w != [] && forall j :: 0 <= j < |w| ==> IsFieldChar(w[j])
  }

  /** Text that is one run of non-space characters is one field: runs are not split further. */
  lemma WordIsOneField(w: string)
    requires IsWord(w)
    ensures Fields(w) == [w]
  {
    assert Span(w, IsFieldChar) == |w|;
    assert w[..|w|] == w && w[|w|..] == [];
  }

  /** Words joined by a space character come back from Fields as exactly those words. */
  lemma {:induction false} FieldsOfJoin(ws: seq<string>, c: char)
    requires IsSpace(c)
    requires forall i :: 0 <= i < |ws| ==> IsWord(ws[i])
    ensures Fields(Join(ws, c)) == ws
    decreases |ws|
  {
    if |ws| == 1 {
      WordIsOneField(ws[0]);
    } else if |ws| > 1 {
      FieldsOfJoin(ws[1..], c);
      FieldsAroundSpace(ws[0], c, Join(ws[1..], c));
      WordIsOneField(ws[0]);
      assert ws == [ws[0]] + ws[1..];
    }
  }

  /** A run that ends inside a and is stopped there is not extended by what follows a. */
  lemma {:induction false} SpanPrefix<T>(a: seq<T>, b: seq<T>, p: T -> bool)
    requires b != [] && !p(b[0])
    ensures Span(a + b, p) == Span(a, p)
  {
    if a == [] {
      assert a + b == b;
    } else {
      assert (a + b)[0] == a[0];
      assert (a + b)[1..] == a[1..] + b;
      SpanPrefix(a[1..], b, p);
    }
  }

  predicate IsLineEnd(c: char)
  {
    c == '\n' || c == '\r'
  }

  /** bytes.TrimRight(s, "\n\r"): s without its longest suffix made of '\n' and '\r'. */
  function TrimLineEnd(s: string): (t: string)
    ensures |t| <= |s| && t == s[..|t|]
    ensures t == [] || !IsLineEnd(t[|t| - 1])
    ensures forall i :: |t| <= i < |s| ==> IsLineEnd(s[i])
  {
    if s != [] && IsLineEnd(s[|s| - 1]) then TrimLineEnd(s[..|s| - 1]) else s
  }
}
