/**
 The parsing of the filtered scan output in `scan` (src/main.rs:94-109).

 Every line of the scanner's output (already filtered to the lines naming a
 network) is split on ':' and its second segment is taken. A segment that is
 exactly `""` (a hidden network) is skipped; otherwise every '"' is removed
 and the name is kept unless it is already in the list. A line without ':'
 has no second segment, and the source panics on it.
 */
module ScanOutput {
  import opened Common

  const Colon := ':'
  const Quote := '"'
  /** The raw segment of a network that hides its name. */
  const HiddenSegment := "\"\""

  // ---------------------------------------------------------------------
  // Splitting a line

  /** Rust's `str::split` on one character: the pieces between separators. */
  function Split(s: string, sep: char): (parts: seq<string>)
    ensures |parts| >= 1
    ensures forall i :: 0 <= i < |parts| ==> sep !in parts[i]
    ensures |parts| >= 2 <==> sep in s
  {
    if s == [] then [[]]
    else
      var rest := Split(s[1..], sep);
      if s[0] == sep then [[]] + rest
      else [[s[0]] + rest[0]] + rest[1..]
  }

  /** The pieces put back together with the separator between them. */
  function Join(parts: seq<string>, sep: char): string
    requires |parts| >= 1
  {
    if |parts| == 1 then parts[0] else parts[0] + [sep] + Join(parts[1..], sep)
  }

  /** Splitting loses nothing: joining the pieces gives the line back. */
  lemma {:induction false} JoinSplit(s: string, sep: char)
    ensures Join(Split(s, sep), sep) == s
  {
    if s != [] {
      var rest := Split(s[1..], sep);
      JoinSplit(s[1..], sep);
      if s[0] != sep && |rest| > 1 {
        assert rest[1..][0] == rest[1];
        assert Join(rest, sep) == rest[0] + [sep] + Join(rest[1..], sep);
        assert ([s[0]] + rest[0]) + [sep] + Join(rest[1..], sep) == [s[0]] + Join(rest, sep);
      } else if s[0] == sep {
        assert ([[]] + rest)[1..] == rest;
      }
    }
  }

  /** A piece without separators splits into itself. */
  lemma {:induction false} SplitWithoutSeparator(s: string, sep: char)
    requires sep !in s
    ensures Split(s, sep) == [s]
  {
    if s != [] {
      SplitWithoutSeparator(s[1..], sep);
      assert [s[0]] + s[1..] == s;
    }
  }

  /** A piece followed by the separator splits off as the first part. */
  lemma {:induction false} SplitAtFirstSeparator(a: string, sep: char, rest: string)
    requires sep !in a
    ensures Split(a + [sep] + rest, sep) == [a] + Split(rest, sep)
  {
    if a == [] {
      assert [] + [sep] + rest == [sep] + rest;
      assert ([sep] + rest)[1..] == rest;
    } else {
      var s := a + [sep] + rest;
      assert s[0] == a[0] && s[1..] == a[1..] + [sep] + rest;
      SplitAtFirstSeparator(a[1..], sep, rest);
      assert [a[0]] + a[1..] == a;
    }
  }

  /** Joining pieces that hold no separator and splitting again gives the
      same pieces. */
  lemma {:induction false} SplitJoin(parts: seq<string>, sep: char)
    requires |parts| >= 1
    requires forall i :: 0 <= i < |parts| ==> sep !in parts[i]
    ensures Split(Join(parts, sep), sep) == parts
  {
    if |parts| == 1 {
      SplitWithoutSeparator(parts[0], sep);
    } else {
      SplitJoin(parts[1..], sep);
      SplitAtFirstSeparator(parts[0], sep, Join(parts[1..], sep));
      assert [parts[0]] + parts[1..] == parts;
    }
  }

  // ---------------------------------------------------------------------
  // Removing quotes

  /** Rust's `replace("\"", "")`: the string with every '"' taken out. */
  function StripQuotes(s: string): (r: string)
    ensures Quote !in r
    ensures multiset(r) == multiset(s)[Quote := 0]
  {
    if s == [] then []
    else
      var rest := StripQuotes(s[1..]);
      assert s == [s[0]] + s[1..];
      if s[0] == Quote then rest else [s[0]] + rest
  }

  /** Removal works piece by piece, so the order of the other characters is
      kept. */
  lemma {:induction false} StripQuotesAppend(a: string, b: string)
    ensures StripQuotes(a + b) == StripQuotes(a) + StripQuotes(b)
  {
    if a != [] {
      assert (a + b)[0] == a[0] && (a + b)[1..] == a[1..] + b;
      StripQuotesAppend(a[1..], b);
    } else {
      assert a + b == b;
    }
  }

  /** A string without quotes is left as it is. */
  lemma {:induction false} StripQuotesWithoutQuotes(s: string)
    requires Quote !in s
    ensures StripQuotes(s) == s
  {
    if s != [] {
      StripQuotesWithoutQuotes(s[1..]);
      assert [s[0]] + s[1..] == s;
    }
  }

  /** A name in quotes comes out as the bare name. */
  lemma QuotedName(name: string)
    requires Quote !in name
    ensures StripQuotes([Quote] + name + [Quote]) == name
  {
    StripQuotesAppend([Quote] + name, [Quote]);
    StripQuotesAppend([Quote], name);
    StripQuotesWithoutQuotes(name);
    assert StripQuotes([Quote]) == [];
  }

  // ---------------------------------------------------------------------
  // What one line contributes

  /** Segment 1 of the line split on ':', or `None` when the line has no ':'
      (where the source panics). */
  function SecondSegment(line: string): (r: Option<string>)
    ensures r.None? <==> Colon !in line
    ensures r.Some? ==> Colon !in r.value
  {
    var parts := Split(line, Colon);
    if |parts| >= 2 then Some(parts[1]) else None
  }

  /** The network name a line offers, if any. */
  function LineName(line: string): Option<string>
  {
    match SecondSegment(line)
    case Some(segment) => if segment == HiddenSegment then None else Some(StripQuotes(segment))
    case None => None
  }

  /** The names a line offers: none or one. */
  function Offered(line: string): seq<string>
  {
    match LineName(line)
    case Some(n) => [n]
    case None => []
  }

  /** What `f` gives for each line, one line after the other. */
  function Concat(f: string -> seq<string>, lines: seq<string>): seq<string>
  {
    if lines == [] then [] else Concat(f, lines[..|lines| - 1]) + f(lines[|lines| - 1])
  }

  /** The names offered by the lines, in line order, repeats included. */
  function Candidates(lines: seq<string>): seq<string>
  {
    Concat(Offered, lines)
  }

  /** One more line adds what `f` gives for it at the end. */
  lemma ConcatAppend(f: string -> seq<string>, lines: seq<string>, line: string)
    ensures Concat(f, lines + [line]) == Concat(f, lines) + f(line)
  {
    assert (lines + [line])[..|lines|] == lines;
  }

  /** Everything `f` gives for a line is in the concatenation. */
  lemma {:induction false} ConcatIncludes(f: string -> seq<string>, lines: seq<string>, k: nat, x: string)
    requires k < |lines| && x in f(lines[k])
    ensures x in Concat(f, lines)
  {
    var n := |lines| - 1;
    var init := lines[..n];
    if k < n {
      assert init[k] == lines[k];
      ConcatIncludes(f, init, k, x);
    }
  }

  /** Everything in the concatenation comes from some line. */
  lemma {:induction false} ConcatSource(f: string -> seq<string>, lines: seq<string>, x: string) returns (k: nat)
    requires x in Concat(f, lines)
    ensures k < |lines| && x in f(lines[k])
  {
    var n := |lines| - 1;
    var init := lines[..n];
    if x in Concat(f, init) {
      k := ConcatSource(f, init, x);
      assert init[k] == lines[k];
    } else {
      k := n;
    }
  }

  /** A line offers a name exactly when that is its name. */
  lemma OfferedName(line: string, x: string)
    ensures x in Offered(line) <==> LineName(line) == Some(x)
  {
  }

  /** A name is offered exactly when some line offers it. */
  lemma CandidatesContents(lines: seq<string>, x: string)
    ensures x in Candidates(lines) <==> exists k :: 0 <= k < |lines| && LineName(lines[k]) == Some(x)
  {
    if x in Candidates(lines) {
      var k := ConcatSource(Offered, lines, x);
      OfferedName(lines[k], x);
    }
    if k :| 0 <= k < |lines| && LineName(lines[k]) == Some(x) {
      OfferedName(lines[k], x);
      ConcatIncludes(Offered, lines, k, x);
    }
  }

  /** The same, for a prefix of the lines and the line after it. */
  lemma CandidatesOfPrefix(lines: seq<string>, i: nat)
    requires i < |lines|
    ensures Candidates(lines[..i + 1]) == Candidates(lines[..i]) + Offered(lines[i])
  {
    assert lines[..i + 1] == lines[..i] + [lines[i]];
    ConcatAppend(Offered, lines[..i], lines[i]);
  }

  // ---------------------------------------------------------------------
  // Keeping the first occurrence of each name

  /** The index of the first occurrence of `x` in `s`. */
  function FirstIndex(s: seq<string>, x: string): (i: nat)
    requires x in s
    ensures i < |s| && s[i] == x
    ensures forall j :: 0 <= j < i ==> s[j] != x
  {
    if s[0] == x then 0 else 1 + FirstIndex(s[1..], x)
  }

  predicate NoDuplicates(s: seq<string>)
  {
    forall i, j :: 0 <= i < j < |s| ==> s[i] != s[j]
  }

  /** `out` lists each element of `names` exactly once, ordered by where it
      first occurs in `names`. */
  ghost predicate FirstOccurrences(out: seq<string>, names: seq<string>)
  {
    && NoDuplicates(out)
    && (forall x :: x in out <==> x in names)
    && forall i, j :: 0 <= i < j < |out| ==> FirstIndex(names, out[i]) < FirstIndex(names, out[j])
  }

  /** Appending one more name: the list grows by that name exactly when it
      is new. */
  lemma FirstOccurrencesExtend(out: seq<string>, names: seq<string>, y: string)
    requires FirstOccurrences(out, names)
    ensures y in out ==> FirstOccurrences(out, names + [y])
    ensures y !in out ==> FirstOccurrences(out + [y], names + [y])
  {
    var names' := names + [y];
    forall x | x in names
      ensures FirstIndex(names', x) == FirstIndex(names, x)
    {
      var i := FirstIndex(names, x);
      assert names'[i] == x;
    }
    if y !in out {
      var out' := out + [y];
      assert FirstIndex(names', y) == |names|;
      forall i, j | 0 <= i < j < |out'|
        ensures FirstIndex(names', out'[i]) < FirstIndex(names', out'[j])
      {
        if j == |out| {
          assert out'[i] == out[i] && out[i] in names;
        } else {
          assert out'[i] == out[i] && out'[j] == out[j];
        }
      }
    }
  }

  /** Two lists with the same elements, both strictly increasing in `key`,
      start with the same element. */
  lemma SameHead(a: seq<string>, b: seq<string>, key: string -> int)
    requires a != [] && b != []
    requires forall x :: x in a <==> x in b
    requires forall i, j :: 0 <= i < j < |a| ==> key(a[i]) < key(a[j])
    requires forall i, j :: 0 <= i < j < |b| ==> key(b[i]) < key(b[j])
    ensures a[0] == b[0]
  {
    assert a[0] in b;
    var j :| 0 <= j < |b| && b[j] == a[0];
    assert b[0] in a;
    var i :| 0 <= i < |a| && a[i] == b[0];
    if i != 0 {
      assert false;
    }
  }

  /** Removing the same first element from two repeat-free lists with the
      same elements leaves lists with the same elements. */
  lemma SameTailElements(a: seq<string>, b: seq<string>)
    requires a != [] && b != [] && a[0] == b[0]
    requires NoDuplicates(a) && NoDuplicates(b)
    requires forall x :: x in a <==> x in b
    ensures forall x :: x in a[1..] <==> x in b[1..]
  {
    forall x
      ensures x in a[1..] ==> x in b[1..]
      ensures x in b[1..] ==> x in a[1..]
    {
      if x in a[1..] {
        var m :| 0 <= m < |a[1..]| && a[1..][m] == x;
        assert x != a[0] && x in b;
        var n :| 0 <= n < |b| && b[n] == x;
        assert n != 0 && b[1..][n - 1] == x;
      }
      if x in b[1..] {
        var m :| 0 <= m < |b[1..]| && b[1..][m] == x;
        assert x != b[0] && x in a;
        var n :| 0 <= n < |a| && a[n] == x;
        assert n != 0 && a[1..][n - 1] == x;
      }
    }
  }

  /** Lists with the same elements are empty together. */
  lemma EmptyTogether(a: seq<string>, b: seq<string>)
    requires forall x :: x in a <==> x in b
    ensures a == [] <==> b == []
  {
    if a != [] {
      assert a[0] in b;
    }
    if b != [] {
      assert b[0] in a;
    }
  }

  /** A list strictly increasing in `key` has no repeats, and neither has
      its tail, which is still increasing. */
  lemma IncreasingTail(a: seq<string>, key: string -> int)
    requires a != []
    requires forall i, j :: 0 <= i < j < |a| ==> key(a[i]) < key(a[j])
    ensures NoDuplicates(a)
    ensures forall i, j :: 0 <= i < j < |a[1..]| ==> key(a[1..][i]) < key(a[1..][j])
  {
    forall i, j | 0 <= i < j < |a[1..]|
      ensures key(a[1..][i]) < key(a[1..][j])
    {
      assert a[1..][i] == a[i + 1] && a[1..][j] == a[j + 1];
    }
  }

  /** Two lists with the same elements, both strictly increasing in `key`,
      are the same list. */
  lemma {:induction false} IncreasingUnique(a: seq<string>, b: seq<string>, key: string -> int)
    requires forall x :: x in a <==> x in b
    requires forall i, j :: 0 <= i < j < |a| ==> key(a[i]) < key(a[j])
    requires forall i, j :: 0 <= i < j < |b| ==> key(b[i]) < key(b[j])
    ensures a == b
  {
    if a == [] || b == [] {
      EmptyTogether(a, b);
    } else {
      SameHead(a, b, key);
      IncreasingTail(a, key);
      IncreasingTail(b, key);
      SameTailElements(a, b);
      IncreasingUnique(a[1..], b[1..], key);
      assert a == [a[0]] + a[1..] && b == [b[0]] + b[1..];
    }
  }

  /** The contract of the parser fixes its result: at most one list lists
      the names by first occurrence. */
  lemma FirstOccurrencesUnique(a: seq<string>, b: seq<string>, names: seq<string>)
    requires FirstOccurrences(a, names) && FirstOccurrences(b, names)
    ensures a == b
  {
    var key := x => if x in names then FirstIndex(names, x) else 0;
    forall i, j | 0 <= i < j < |a|
      ensures key(a[i]) < key(a[j])
    {
      assert a[i] in names && a[j] in names;
    }
    forall i, j | 0 <= i < j < |b|
      ensures key(b[i]) < key(b[j])
    {
      assert b[i] in names && b[j] in names;
    }
    IncreasingUnique(a, b, key);
  }

  /** The name offered by a line "<prefix>:<segment>" with no further ':'. */
  lemma LineNameOf(prefix: string, segment: string)
    requires Colon !in prefix && Colon !in segment
    ensures LineName(prefix + [Colon] + segment)
      == if segment == HiddenSegment then None else Some(StripQuotes(segment))
  {
    SplitAtFirstSeparator(prefix, Colon, segment);
    SplitWithoutSeparator(segment, Colon);
  }

  /** The scanner's line for a network: `<key>:"<name>"`. */
  function QuotedLine(key: string, name: string): string
  {
    key + [Colon] + [Quote] + name + [Quote]
  }

  /** Four lines give what `f` gives for each of them, in order. */
  lemma ConcatOfFour(f: string -> seq<string>, l1: string, l2: string, l3: string, l4: string)
    ensures Concat(f, [l1, l2, l3, l4]) == f(l1) + f(l2) + f(l3) + f(l4)
  {
    var s1, s2, s3, s4 := [l1], [l1, l2], [l1, l2, l3], [l1, l2, l3, l4];
    assert s1 == [] + [l1] && s2 == s1 + [l2] && s3 == s2 + [l3] && s4 == s3 + [l4];
    ConcatAppend(f, [], l1);
    ConcatAppend(f, s1, l2);
    ConcatAppend(f, s2, l3);
    ConcatAppend(f, s3, l4);
  }

  /** Lines for network A, a hidden network, A again and network B offer
      A, A and B (names not empty: `""` is the hidden network). */
  lemma ExampleCandidates(key: string, a: string, b: string)
    requires Colon !in key
    requires a != [] && Colon !in a && Quote !in a
    requires b != [] && Colon !in b && Quote !in b
    ensures Candidates([QuotedLine(key, a), key + [Colon] + HiddenSegment, QuotedLine(key, a), QuotedLine(key, b)])
      == [a, a, b]
  {
    var la, hidden, lb := QuotedLine(key, a), key + [Colon] + HiddenSegment, QuotedLine(key, b);
    QuotedLineName(key, a);
    QuotedLineName(key, b);
    LineNameOf(key, HiddenSegment);
    assert Offered(la) == [a] && Offered(hidden) == [] && Offered(lb) == [b];
    ConcatOfFour(Offered, la, hidden, la, lb);
  }

  /** The line of a visible network offers its name. */
  lemma QuotedLineName(key: string, name: string)
    requires Colon !in key
    requires name != [] && Colon !in name && Quote !in name
    ensures LineName(QuotedLine(key, name)) == Some(name)
  {
    var quoted := [Quote] + name + [Quote];
    assert QuotedLine(key, name) == key + [Colon] + quoted;
    assert |quoted| > 2;
    LineNameOf(key, quoted);
    QuotedName(name);
  }

  /** A hidden network and a repeated name: the hidden one and the repeat
      are dropped, and the order of first appearance is kept. */
  lemma HiddenAndRepeatedNames(key: string, a: string, b: string, out: seq<string>)
    requires Colon !in key
    requires a != [] && Colon !in a && Quote !in a
    requires b != [] && Colon !in b && Quote !in b
    requires a != b
    requires FirstOccurrences(out,
      Candidates([QuotedLine(key, a), key + [Colon] + HiddenSegment, QuotedLine(key, a), QuotedLine(key, b)]))
    ensures out == [a, b]
  {
    ExampleCandidates(key, a, b);
    var names := [a, a, b];
    assert FirstIndex(names, a) == 0;
    assert FirstIndex(names, b) == 2;
    assert FirstOccurrences([a, b], names);
    FirstOccurrencesUnique(out, [a, b], names);
  }

  // ---------------------------------------------------------------------
  // One step of the loop

  /** What a line with a second segment offers. */
  lemma OfferedBySegment(line: string, segment: string)
    requires SecondSegment(line) == Some(segment)
    ensures Offered(line) == if segment == HiddenSegment then [] else [StripQuotes(segment)]
  {
  }

  /** Handling one more line the way the loop does keeps the list in
      first-occurrence order. */
  lemma ScanStep(lines: seq<string>, i: nat, ssids: seq<string>)
    requires i < |lines|
    requires FirstOccurrences(ssids, Candidates(lines[..i]))
    ensures Offered(lines[i]) == [] ==> FirstOccurrences(ssids, Candidates(lines[..i + 1]))
    ensures |Offered(lines[i])| == 1 && Offered(lines[i])[0] in ssids ==>
      FirstOccurrences(ssids, Candidates(lines[..i + 1]))
    ensures |Offered(lines[i])| == 1 && Offered(lines[i])[0] !in ssids ==>
      FirstOccurrences(ssids + Offered(lines[i]), Candidates(lines[..i + 1]))
  {
    CandidatesOfPrefix(lines, i);
    var offered := Offered(lines[i]);
    if offered == [] {
      assert Candidates(lines[..i]) + offered == Candidates(lines[..i]);
    } else {
      FirstOccurrencesExtend(ssids, Candidates(lines[..i]), offered[0]);
      assert offered == [offered[0]];
    }
  }

  // ---------------------------------------------------------------------
  // The loop

  /** The network names of the scan output, or `None` where the source
      panics on a line without ':'. */
  method ParseScanLines(lines: seq<string>) returns (r: Option<seq<string>>)
    ensures r.None? <==> exists k :: 0 <= k < |lines| && Colon !in lines[k]
    ensures r.Some? ==> FirstOccurrences(r.value, Candidates(lines))
  {
    var ssids: seq<string> := [];
    for i := 0 to |lines|
      invariant forall k :: 0 <= k < i ==> Colon in lines[k]
      invariant FirstOccurrences(ssids, Candidates(lines[..i]))
    {
      var split := Split(lines[i], Colon);
      if |split| < 2 {
        return None;
      }
      var right := split[1];
      OfferedBySegment(lines[i], right);
      ScanStep(lines, i, ssids);
      if right != HiddenSegment {
        var name := StripQuotes(right);
        if name !in ssids {
          ssids := ssids + [name];
        }
      }
    }
    assert lines[..|lines|] == lines;
    return Some(ssids);
  }
}
