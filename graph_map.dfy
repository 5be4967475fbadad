/** ga-graph-color.c: the node map, read from lines of the form
    `node: adj1, adj2, ...`. Node m is the m-th line; its name is the
    findsep(':', strict) token and its adjacency list the findsep(',')
    tokens after it. Adjacencies to names not seen yet are bound after the
    last line. */
module GraphMap {
  import opened TextFields
  import opened Wrappers

  /** A line as it sits in the line buffer: its text, the NUL that replaced
      its newline and the terminator after it. Every line is read this way,
      the last one included; for a last line without a newline the C buffer
      differs (LastLineBufferAsWritten). */
  function LineBuffer(line: string): (b: seq<char>)
    ensures |b| == |line| + 2 && LineShaped(b) && b[..|line|] == line
  {
    line + [NUL, NUL]
  }

  /** A buffer that ends in two NULs, as a line is read and as findsep
      leaves it. */
  predicate LineShaped(b: seq<char>)
  {
    |b| >= 2 && b[|b| - 2] == NUL && b[|b| - 1] == NUL
  }

  lemma LineTerminated(b: seq<char>, s: int)
    requires LineShaped(b) && 0 <= s < |b|
    ensures Terminated(b, s)
  {
    assert b[s..][|b| - 1 - s] == NUL;
  }

  /** A token findsep can return: not empty, free of the separator and of
      NUL, and without whitespace at either end. */
  predicate Token(t: string, sep: char)
  {
    |t| > 0 && sep !in t && NUL !in t && !IsSpace(t[0]) && !IsSpace(t[|t| - 1])
  }

  /** Where the name token of a line ends: the first ':' or NUL after the
      leading whitespace. */
  function NameEnd(b: seq<char>): (e: int)
    requires LineShaped(b)
    ensures 0 <= e < |b| - 1 || e == |b| - 2
  {
    LineTerminated(b, 0);
    FieldEnd(b, SkipSpaces(b, 0), ':')
  }

  /** The name findsep(':', strict) yields at the start of a line: None when
      the line has no ':' or the name is empty. */
  function NameOf(b: seq<char>): (r: Option<string>)
    requires LineShaped(b)
    ensures r.Some? ==> Token(r.value, ':') && b[NameEnd(b)] == ':'
  {
    LineTerminated(b, 0);
    var start := SkipSpaces(b, 0);
    var e := FieldEnd(b, start, ':');
    if b[e] != ':' || e == start then None else Some(b[start..TrimEnd(b, start, e)])
  }

  /** The tokens successive findsep(',') calls yield from position s of an
      untouched line buffer, up to the first empty one. */
  function Tokens(b: seq<char>, s: int): (ts: seq<string>)
    requires LineShaped(b) && 0 <= s < |b|
    ensures forall t :: t in ts ==> Token(t, ',')
    decreases |b| - s
  {
    LineTerminated(b, s);
    var start := SkipSpaces(b, s);
    var e := FieldEnd(b, start, ',');
    if e == start then [] else
      var token := b[start..TrimEnd(b, start, e)];
      TokenCut(b, start, e, ',');
      var rest := Tokens(b, e + 1);
      assert forall t :: t in [token] + rest ==> t == token || t in rest;
      [token] + rest
  }

  /** A non-empty field cut from a non-blank start and trimmed is a token. */
  lemma TokenCut(b: seq<char>, start: int, e: int, sep: char)
    requires Terminated(b, start) && e == FieldEnd(b, start, sep) && e != start && !IsSpace(b[start])
    ensures Token(b[start..TrimEnd(b, start, e)], sep)
  {
    var t := TrimEnd(b, start, e);
    assert t > start;
    var token := b[start..t];
    assert token[0] == b[start] && token[|token| - 1] == b[t - 1];
    assert forall j :: 0 <= j < |token| ==> token[j] == b[start + j];
  }

  /** One node of the file: its name and its adjacency tokens. */
  datatype Entry = Entry(name: string, adjacent: seq<string>)

  /** What the reader makes of one line: None when it has no name. */
  function ParseLine(line: string): Option<Entry>
  {
    var b := LineBuffer(line);
    match NameOf(b)
    case None => None
    case Some(name) => Some(Entry(name, Tokens(b, NameEnd(b) + 1)))
  }

  /** A line with k commas gives at most k + 1 adjacencies: every token but
      the last ends at a comma, and the scan stops at the line's end. */
  lemma AdjacencyBound(line: string)
    requires NUL !in line && ParseLine(line).Some?
    ensures |ParseLine(line).value.adjacent| <= multiset(line)[','] + 1
  {
    var b := LineBuffer(line);
    var n := |line|;
    var s := NameEnd(b) + 1;
    assert b[NameEnd(b)] == ':';
    assert s <= n && b[..n] == line;
    TokensBound(b, s, n);
    assert b[s..n] == line[s..];
    assert line == line[..s] + line[s..];
  }

  /** The line buffer b of a line of length n without NULs, scanned from s. */
  predicate LineFrom(b: seq<char>, s: int, n: int)
  {
    LineShaped(b) && |b| == n + 2 && 0 <= s <= n && NUL !in b[..n]
  }

  lemma {:induction false} TokensBound(b: seq<char>, s: int, n: int)
    requires LineFrom(b, s, n)
    ensures |Tokens(b, s)| <= multiset(b[s..n])[','] + 1
    decreases n - s
  {
    LineTerminated(b, s);
    var e := FieldEnd(b, SkipSpaces(b, s), ',');
    if e == SkipSpaces(b, s) {
      BoundAtBlank(b, s, n);
    } else if e < n {
      assert b[..n][e] == b[e];
      TokensBound(b, e + 1, n);
      BoundAtComma(b, s, n, e);
    } else {
      BoundAtEnd(b, s, n);
    }
  }

  lemma BoundAtBlank(b: seq<char>, s: int, n: int)
    requires LineFrom(b, s, n) && Terminated(b, s)
    requires FieldEnd(b, SkipSpaces(b, s), ',') == SkipSpaces(b, s)
    ensures Tokens(b, s) == []
  {
    TokensEnd(b, s, SkipSpaces(b, s));
  }

  lemma BoundAtComma(b: seq<char>, s: int, n: int, e: int)
    requires LineFrom(b, s, n) && Terminated(b, s)
    requires e == FieldEnd(b, SkipSpaces(b, s), ',') && e != SkipSpaces(b, s) && e < n && b[e] == ','
    requires |Tokens(b, e + 1)| <= multiset(b[e + 1..n])[','] + 1
    ensures |Tokens(b, s)| <= multiset(b[s..n])[','] + 1
  {
    TokensStep(b, s, SkipSpaces(b, s), e);
    CommaSplit(b, s, e, n);
  }

  lemma BoundAtEnd(b: seq<char>, s: int, n: int)
    requires LineFrom(b, s, n) && Terminated(b, s)
    requires FieldEnd(b, SkipSpaces(b, s), ',') != SkipSpaces(b, s) && FieldEnd(b, SkipSpaces(b, s), ',') >= n
    ensures |Tokens(b, s)| == 1
  {
    TokensStep(b, s, SkipSpaces(b, s), FieldEnd(b, SkipSpaces(b, s), ','));
    LineTerminated(b, n + 1);
    TokensEnd(b, n + 1, n + 1);
  }

  lemma CommaSplit(b: seq<char>, s: int, e: int, n: int)
    requires 0 <= s <= e < n <= |b| && b[e] == ','
    ensures multiset(b[s..n])[','] == multiset(b[s..e])[','] + 1 + multiset(b[e + 1..n])[',']
  {
    assert b[s..n] == b[s..e] + [b[e]] + b[e + 1..n];
  }

  /** The line buffer as readline leaves it for a last line that does not
      end in '\n': fgets writes one NUL after the text, and the rest of the
      buffer still holds what the earlier lines left there (previous). */
  function LastLineBufferAsWritten(line: string, previous: seq<char>): (b: seq<char>)
    requires |line| + 2 <= |previous| && LineShaped(previous)
    ensures |b| == |previous| && LineShaped(b) && b[..|line|] == line && b[|line|] == NUL
  {
    line + [NUL] + previous[|line| + 1..]
  }

  /** The file "b: a, a\na: b" without a final newline. The cuts of the
      first line leave "b\0 a\0 a\0\0" in the buffer; the second line
      overwrites only "a: b\0", so the scan after ':' runs on into the stale
      " a" and node a gets the adjacencies b and a, one more than its line
      has commas allow, where the line itself names only b. */
  lemma StaleTokenAfterLastLine(previous: seq<char>, b: seq<char>)
    requires previous == Cleared(Cleared(Cleared(LineBuffer("b: a, a"), 1, 2), 4, 5), 7, 8)
    requires |previous| == 9 && LineShaped(previous) && b == LastLineBufferAsWritten("a: b", previous)
    ensures NameOf(b) == Some("a") && Tokens(b, NameEnd(b) + 1) == ["b", "a"]
    ensures ParseLine("a: b") == Some(Entry("a", ["b"])) && multiset("a: b")[','] == 0
  {
    StaleSuffix(previous);
    assert b[..4] == "a: b" && b[4] == NUL && b[5..] == previous[5..];
    assert b[5] == previous[5] && b[6] == previous[6] && b[7] == previous[7] && b[8] == previous[8];
    StaleLine(b);
    LastLineAlone();
    NoCommaInLastLine();
  }

  lemma NoCommaInLastLine()
    ensures multiset("a: b")[','] == 0
  {
    var line := "a: b";
    assert line == ['a', ':', ' ', 'b'];
    assert multiset(line) == multiset{'a', ':', ' ', 'b'};
  }

  /** What the cuts of "b: a, a" leave at positions 5 to 8. */
  lemma StaleSuffix(previous: seq<char>)
    requires previous == Cleared(Cleared(Cleared(LineBuffer("b: a, a"), 1, 2), 4, 5), 7, 8)
    ensures |previous| == 9 && previous[5] == ' ' && previous[6] == 'a' && previous[7] == NUL && previous[8] == NUL
  {
    var first := LineBuffer("b: a, a");
    assert first[5] == ' ' && first[6] == 'a' && first[7] == NUL && first[8] == NUL;
  }

  /** The buffer "a: b\0 a\0\0" the last line leaves. */
  predicate StaleShape(b: seq<char>)
  {
    |b| == 9 && b[0] == 'a' && b[1] == ':' && b[2] == ' ' && b[3] == 'b' && b[4] == NUL &&
    b[5] == ' ' && b[6] == 'a' && b[7] == NUL && b[8] == NUL
  }

  lemma StaleLine(b: seq<char>)
    requires StaleShape(b)
    ensures NameOf(b) == Some("a") && NameEnd(b) == 1 && Tokens(b, 2) == ["b", "a"]
  {
    StaleName(b);
    StaleRest(b);
    FieldAt(b, 2, 3, 4, ',');
    TokensStep(b, 2, 3, 4);
    assert b[3..4] == "b";
    assert Tokens(b, 2) == [b[3..4]] + ["a"];
  }

  lemma StaleName(b: seq<char>)
    requires StaleShape(b)
    ensures NameOf(b) == Some("a") && NameEnd(b) == 1
  {
    FieldAt(b, 0, 0, 1, ':');
    assert b[0..1] == "a";
  }

  lemma StaleRest(b: seq<char>)
    requires StaleShape(b)
    ensures Tokens(b, 5) == ["a"]
  {
    FieldAt(b, 8, 8, 8, ',');
    TokensEnd(b, 8, 8);
    FieldAt(b, 5, 6, 7, ',');
    TokensStep(b, 5, 6, 7);
    assert b[6..7] == "a";
  }

  lemma LastLineAlone()
    ensures ParseLine("a: b") == Some(Entry("a", ["b"]))
  {
    var c := LineBuffer("a: b");
    assert |c| == 6 && c[0] == 'a' && c[1] == ':' && c[2] == ' ' && c[3] == 'b' && c[4] == NUL && c[5] == NUL;
    FieldAt(c, 0, 0, 1, ':');
    assert c[0..1] == "a" && c[3..4] == "b";
    assert NameOf(c) == Some("a") && NameEnd(c) == 1;
    FieldAt(c, 5, 5, 5, ',');
    TokensEnd(c, 5, 5);
    FieldAt(c, 2, 3, 4, ',');
    TokensStep(c, 2, 3, 4);
    assert Tokens(c, 2) == ["b"];
  }

  /** The scans from s, given where they stop: the whitespace ends at
      start, the field at e and no whitespace precedes e in the field. */
  lemma FieldAt(b: seq<char>, s: int, start: int, e: int, sep: char)
    requires LineShaped(b) && 0 <= s <= start <= e < |b| && (b[e] == NUL || b[e] == sep)
    requires forall j :: s <= j < start ==> IsSpace(b[j]) && b[j] != NUL
    requires !IsSpace(b[start])
    requires forall j :: start <= j < e ==> b[j] != NUL && b[j] != sep
    requires e > start ==> !IsSpace(b[e - 1])
    ensures Terminated(b, s) && SkipSpaces(b, s) == start && FieldEnd(b, start, sep) == e
    ensures TrimEnd(b, start, e) == e
  {
    LineTerminated(b, s);
    LineTerminated(b, start);
  }

  predicate AllNamed(lines: seq<string>)
  {
    forall m :: 0 <= m < |lines| ==> ParseLine(lines[m]).Some?
  }

  function Entries(lines: seq<string>): (es: seq<Entry>)
    requires AllNamed(lines)
    ensures |es| == |lines| && forall m :: 0 <= m < |lines| ==> ParseLine(lines[m]) == Some(es[m])
  {
    seq(|lines|, m requires 0 <= m < |lines| => ParseLine(lines[m]).value)
  }

  /** No name is given to two nodes. */
  predicate Distinct(es: seq<Entry>)
  {
    forall a, b :: 0 <= a < b < |es| ==> es[a].name != es[b].name
  }

  /** Every adjacency token is the name of some node. */
  predicate Closed(es: seq<Entry>)
  {
    forall m, n :: 0 <= m < |es| && 0 <= n < |es[m].adjacent| ==> Named(es, es[m].adjacent[n])
  }

  predicate Named(es: seq<Entry>, name: string)
  {
    exists i :: 0 <= i < |es| && es[i].name == name
  }

  /** The files node_map_init_fromfile accepts. */
  predicate Parses(lines: seq<string>)
  {
    AllNamed(lines) && Distinct(Entries(lines)) && Closed(Entries(lines))
  }

  /** The whitespace skip and the token scan from s read nothing before s. */
  lemma ScansAgree(b: seq<char>, c: seq<char>, s: int, sep: char)
    requires Terminated(b, s) && |b| == |c|
    requires forall j :: s <= j < |b| ==> b[j] == c[j]
    ensures Terminated(c, s) && SkipSpaces(c, s) == SkipSpaces(b, s)
    ensures FieldEnd(c, SkipSpaces(b, s), sep) == FieldEnd(b, SkipSpaces(b, s), sep)
  {
    assert b[s..] == c[s..];
    var k := SkipSpaces(b, s);
    assert c[k] == b[k];
    var e := FieldEnd(b, k, sep);
    assert c[e] == b[e];
  }

  /** The trim of b[start..e] reads nothing outside it. */
  lemma TrimAgrees(b: seq<char>, c: seq<char>, start: int, e: int)
    requires 0 <= start <= e <= |b| == |c|
    requires forall j :: start <= j < e ==> b[j] == c[j]
    ensures TrimEnd(c, start, e) == TrimEnd(b, start, e)
  {
    var t := TrimEnd(b, start, e);
    if t > start {
      assert c[t - 1] == b[t - 1];
    }
    var u := TrimEnd(c, start, e);
    if u > start {
      assert c[u - 1] == b[u - 1];
    }
  }

  /** One findsep(',') step: an empty token ends the list, any other is
      followed by the tokens after its separator. */
  lemma TokensEnd(b: seq<char>, s: int, start: int)
    requires LineShaped(b) && 0 <= s < |b| && Terminated(b, s) && start == SkipSpaces(b, s)
    requires FieldEnd(b, start, ',') == start
    ensures Tokens(b, s) == []
  {
  }

  lemma TokensStep(b: seq<char>, s: int, start: int, e: int)
    requires LineShaped(b) && 0 <= s < |b| && Terminated(b, s) && start == SkipSpaces(b, s)
    requires e == FieldEnd(b, start, ',') && e != start
    ensures e + 1 < |b| && Tokens(b, s) == [b[start..TrimEnd(b, start, e)]] + Tokens(b, e + 1)
  {
    assert b[|b| - 2] == NUL;
    assert e + 1 < |b|;
    var ts := Tokens(b, s);
    assert ts == [b[start..TrimEnd(b, start, e)]] + Tokens(b, e + 1);
  }
  lemma SliceAgrees(b: seq<char>, c: seq<char>, lo: int, hi: int)
    requires 0 <= lo <= hi <= |b| == |c|
    requires forall j :: lo <= j < hi ==> b[j] == c[j]
    ensures b[lo..hi] == c[lo..hi]
  {
  }

  lemma SuffixAgrees(b: seq<char>, c: seq<char>, lo: int)
    requires 0 <= lo <= |b| == |c|
    requires forall j :: lo <= j < |b| ==> b[j] == c[j]
    ensures b[lo..] == c[lo..]
  {
  }

  /** strcpy from the C string at k. */
  method CopyString(buf: array<char>, k: int) returns (s: string)
    requires Terminated(buf[..], k)
    ensures s == CString(buf[..], k)
  {
    var j := k;
    s := [];
    while buf[j] != NUL
      invariant k <= j && Terminated(buf[..], j) && s + CString(buf[..], j) == CString(buf[..], k)
      decreases buf.Length - j
    {
      TerminatedStep(buf[..], j);
      assert CString(buf[..], j) == [buf[j]] + CString(buf[..], j + 1);
      s := s + [buf[j]];
      j := j + 1;
    }
  }

  /** reallocate: the new capacity is twice the old one (size << 1). */
  function Reallocate(size: nat): (r: nat)
    ensures r >= size && (size > 0 ==> r > size)
  {
    size * 2
  }

  /** The placeholder of an adjacency entry whose name is bound late. */
  const UNBOUND: int := -1

  /** A late binding: entry adjex of node nodex is the node called name. */
  datatype Binding = Binding(name: string, nodex: nat, adjex: nat)

  /** The adjacency loop of node_map_init_fromfile for one line: every
      findsep(',') token adds one entry to the row, the node's index when
      the name is already known, and otherwise a placeholder together with a
      late binding for the stack. The row's capacity starts at 8 and is
      doubled when it is full. */
  method ReadAdjacency(buf: array<char>, s: int, namemap: map<string, nat>, node: nat, ghost b: seq<char>)
    returns (row: seq<int>, pushed: seq<Binding>)
    requires LineShaped(b) && LineShaped(buf[..]) && buf.Length == |b| && 0 <= s < |b| && buf[s..] == b[s..]
    modifies buf
    ensures RowRead(Tokens(b, s), row, pushed, namemap, node)
  {
    ghost var done: seq<string> := [];
    var cur := s;
    var sz: nat := 8;
    row, pushed := [], [];
    while true
      invariant LineShaped(buf[..]) && s <= cur < buf.Length && buf[cur..] == b[cur..]
      invariant Tokens(b, s) == done + Tokens(b, cur) && |row| <= sz && 8 <= sz
      invariant RowRead(done, row, pushed, namemap, node)
      decreases buf.Length - cur
    {
      var item, next, none := NextAdjacency(buf, cur, b);
      if none {
        break;
      }
      Associative(done, [item], Tokens(b, next));
      if |row| >= sz {
        sz := Reallocate(sz);
      }
      ghost var row0, pushed0 := row, pushed;
      if item in namemap {
        row := row + [namemap[item]];
      } else {
        pushed := pushed + [Binding(item, node, |row|)];
        row := row + [UNBOUND];
      }
      RowReadStep(done, row0, pushed0, namemap, node, item, row, pushed);
      done := done + [item];
      cur := next;
    }
    assert Tokens(b, s) == done;
  }

  /** The row and the late bindings read for a line whose tokens are
      tokens: one entry per token, the known node's index or UNBOUND, and a
      binding on the stack for every UNBOUND entry. */
  predicate RowRead(tokens: seq<string>, row: seq<int>, pushed: seq<Binding>, namemap: map<string, nat>, node: nat)
  {
    |row| == |tokens| &&
    (forall n :: 0 <= n < |row| ==> row[n] == if tokens[n] in namemap then namemap[tokens[n]] else UNBOUND) &&
    (forall t :: 0 <= t < |pushed| ==> LateBinding(pushed[t], tokens, node) && pushed[t].name !in namemap) &&
    (forall n :: 0 <= n < |row| && tokens[n] !in namemap ==> Binding(tokens[n], node, n) in pushed)
  }

  lemma RowReadStep(tokens: seq<string>, row: seq<int>, pushed: seq<Binding>, namemap: map<string, nat>, node: nat,
                    item: string, row': seq<int>, pushed': seq<Binding>)
    requires RowRead(tokens, row, pushed, namemap, node)
    requires row' == row + [if item in namemap then namemap[item] else UNBOUND]
    requires pushed' == if item in namemap then pushed else pushed + [Binding(item, node, |row|)]
    ensures RowRead(tokens + [item], row', pushed', namemap, node)
  {
    var ts := tokens + [item];
    forall t | 0 <= t < |pushed'|
      ensures LateBinding(pushed'[t], ts, node) && pushed'[t].name !in namemap
    {
      if t < |pushed| {
        assert pushed'[t] == pushed[t];
      }
    }
    forall n | 0 <= n < |row'| && ts[n] !in namemap
      ensures Binding(ts[n], node, n) in pushed'
    {
      if n < |row| {
        assert ts[n] == tokens[n];
        assert Binding(tokens[n], node, n) in pushed;
      } else {
        assert pushed'[|pushed|] == Binding(ts[n], node, n);
      }
    }
  }

  /** A late binding for entry adjex of node nodex, whose token is name. */
  predicate LateBinding(x: Binding, tokens: seq<string>, node: nat)
  {
    x.nodex == node && x.adjex < |tokens| && x.name == tokens[x.adjex]
  }

  lemma Associative<T>(a: seq<T>, b: seq<T>, c: seq<T>)
    ensures a + (b + c) == (a + b) + c
  {
  }

  /** A buffer that findsep has cut up to cur, compared with the line
      buffer b it started from. */
  lemma Cursor(b: seq<char>, c: seq<char>, cur: int)
    requires LineShaped(b) && LineShaped(c) && |b| == |c| && 0 <= cur < |c| && c[cur..] == b[cur..]
    ensures Terminated(b, cur) && Terminated(c, cur) && SkipSpaces(c, cur) == SkipSpaces(b, cur)
    ensures FieldEnd(c, SkipSpaces(b, cur), ',') == FieldEnd(b, SkipSpaces(b, cur), ',')
    ensures TrimEnd(c, SkipSpaces(b, cur), FieldEnd(b, SkipSpaces(b, cur), ',')) ==
            TrimEnd(b, SkipSpaces(b, cur), FieldEnd(b, SkipSpaces(b, cur), ','))
    ensures forall j :: cur <= j < |b| ==> c[j] == b[j]
  {
    LineTerminated(b, cur);
    LineTerminated(c, cur);
    forall j | cur <= j < |b|
      ensures c[j] == b[j]
    {
      assert c[j] == c[cur..][j - cur];
    }
    ScansAgree(b, c, cur, ',');
    TrimAgrees(b, c, SkipSpaces(b, cur), FieldEnd(b, SkipSpaces(b, cur), ','));
  }

  /** What findsep leaves when it cuts a token at a separator or NUL before
      next: a line buffer that agrees with c from next on. */
  lemma Cut(c: seq<char>, d: seq<char>, t: int, next: int)
    requires LineShaped(c) && 0 <= t < next < |c|
    requires d == Cleared(c, t, next)
    ensures LineShaped(d) && d[next..] == c[next..]
  {
    SuffixAgrees(d, c, next);
  }

  lemma Agrees(b: seq<char>, c: seq<char>, d: seq<char>, lo: int, hi: int)
    requires |b| == |c| == |d| && 0 <= lo <= hi <= |b| && c[lo..] == b[lo..] && d[hi..] == c[hi..]
    ensures d[hi..] == b[hi..]
  {
    assert c[hi..] == c[lo..][hi - lo..];
    assert b[hi..] == b[lo..][hi - lo..];
  }

  lemma TokenFound(b: seq<char>, c: seq<char>, d: seq<char>, cur: int, field: int, e: int, next: int, item: string)
    requires LineShaped(b) && LineShaped(c) && |b| == |c| == |d| && 0 <= cur < |b| && c[cur..] == b[cur..]
    requires Terminated(c, cur) && field == SkipSpaces(c, cur)
    requires e == FieldEnd(c, field, ',') && e != field && next == e + 1
    requires d == Cleared(c, TrimEnd(c, field, e), next)
    requires item == c[field..TrimEnd(c, field, e)]
    ensures cur < next < |b| && LineShaped(d) && d[next..] == b[next..]
    ensures Tokens(b, cur) == [item] + Tokens(b, next)
  {
    var t := TrimEnd(c, field, e);
    SameToken(b, c, cur, field, e);
    TokensStep(b, cur, field, e);
    Cut(c, d, t, next);
    Agrees(b, c, d, cur, next);
    SliceAgrees(c, b, field, t);
  }

  /** The token findsep(',') finds in c is the one the scans find in b. */
  lemma SameToken(b: seq<char>, c: seq<char>, cur: int, field: int, e: int)
    requires LineShaped(b) && LineShaped(c) && |b| == |c| && 0 <= cur < |b| && c[cur..] == b[cur..]
    requires Terminated(c, cur) && field == SkipSpaces(c, cur) && e == FieldEnd(c, field, ',')
    ensures Terminated(b, cur) && SkipSpaces(b, cur) == field && FieldEnd(b, field, ',') == e
    ensures TrimEnd(b, field, e) == TrimEnd(c, field, e)
  {
    Cursor(b, c, cur);
  }

  lemma NoToken(b: seq<char>, c: seq<char>, cur: int, field: int)
    requires LineShaped(b) && LineShaped(c) && |b| == |c| && 0 <= cur < |b| && c[cur..] == b[cur..]
    requires Terminated(c, cur) && field == SkipSpaces(c, cur)
    ensures FieldEnd(c, field, ',') == field <==> Tokens(b, cur) == []
  {
    Cursor(b, c, cur);
    if FieldEnd(c, field, ',') == field {
      TokensEnd(b, cur, field);
    } else {
      TokensStep(b, cur, field, FieldEnd(c, field, ','));
    }
  }

  /** One findsep(',') call of the adjacency loop and the strcpy of its
      token: with the buffer in agreement with the line buffer b from the
      cursor on, the token is the first of b's tokens from the cursor. */
  method NextAdjacency(buf: array<char>, cur: int, ghost b: seq<char>) returns (item: string, next: int, none: bool)
    requires LineShaped(b) && LineShaped(buf[..]) && buf.Length == |b| && 0 <= cur < |b| && buf[cur..] == b[cur..]
    modifies buf
    ensures none <==> Tokens(b, cur) == []
    ensures !none ==> (cur < next < |b| && LineShaped(buf[..]) && buf[next..] == b[next..] &&
      Tokens(b, cur) == [item] + Tokens(b, next))
  {
    ghost var c := buf[..];
    LineTerminated(c, cur);
    var field;
    field, next, none := FindSep(buf, cur, ',', false);
    NoToken(b, c, cur, field);
    if none {
      item := [];
    } else {
      item := CopyString(buf, field);
      TokenFound(b, c, buf[..], cur, field, next - 1, next, item);
    }
  }

  /** The name findsep(':', strict) cuts from the start of a fresh line
      buffer b, copied out (strcpy), and the cursor after the ':'. */
  method LineName(buf: array<char>, ghost b: seq<char>) returns (name: string, next: int, none: bool)
    requires LineShaped(b) && buf[..] == b
    modifies buf
    ensures none <==> NameOf(b).None?
    ensures !none ==> (NameOf(b) == Some(name) && next == NameEnd(b) + 1 && next < |b| &&
      LineShaped(buf[..]) && buf[next..] == b[next..])
  {
    LineTerminated(b, 0);
    var field;
    field, next, none := FindSep(buf, 0, ':', true);
    NameFound(b, field, FieldEnd(b, field, ':'));
    if none {
      name := [];
    } else {
      name := CopyString(buf, field);
      NameCut(b, buf[..], field, next, name);
    }
  }

  /** The name findsep cut at a ':' and the buffer it leaves. */
  lemma NameCut(b: seq<char>, d: seq<char>, field: int, next: int, name: string)
    requires LineShaped(b) && Terminated(b, 0) && field == SkipSpaces(b, 0)
    requires b[FieldEnd(b, field, ':')] == ':' && FieldEnd(b, field, ':') != field
    requires next == FieldEnd(b, field, ':') + 1
    requires d == Cleared(b, TrimEnd(b, field, next - 1), next)
    requires name == b[field..TrimEnd(b, field, next - 1)]
    ensures NameOf(b) == Some(name) && next == NameEnd(b) + 1 && next < |b|
    ensures LineShaped(d) && d[next..] == b[next..]
  {
    NameFound(b, field, next - 1);
    Cut(b, d, TrimEnd(b, field, next - 1), next);
  }

  lemma NameFound(b: seq<char>, field: int, e: int)
    requires LineShaped(b) && Terminated(b, 0) && field == SkipSpaces(b, 0) && e == FieldEnd(b, field, ':')
    ensures NameEnd(b) == e
    ensures NameOf(b).None? <==> b[e] != ':' || e == field
    ensures NameOf(b).Some? ==> NameOf(b).value == b[field..TrimEnd(b, field, e)] && e + 1 < |b|
  {
  }

  /** Entry n of node m names the node it points to. */
  predicate Resolved(es: seq<Entry>, names: seq<string>, adj: seq<seq<int>>, m: int, n: int)
    requires 0 <= m < |es| == |adj| && 0 <= n < |adj[m]| == |es[m].adjacent|
  {
    0 <= adj[m][n] < |names| && names[adj[m][n]] == es[m].adjacent[n]
  }

  /** The node map represents the entries: node m is named es[m].name and
      its adjacency list holds, for each token of its line, the index of the
      node of that name. */
  predicate Represents(es: seq<Entry>, names: seq<string>, adj: seq<seq<int>>)
  {
    |names| == |adj| == |es| &&
    (forall m :: 0 <= m < |es| ==> names[m] == es[m].name && |adj[m]| == |es[m].adjacent|) &&
    (forall m, n :: 0 <= m < |es| && 0 <= n < |adj[m]| ==>
      0 <= adj[m][n] < |names| && names[adj[m][n]] == es[m].adjacent[n])
  }

  /** The state of node_map_init_fromfile after the lines with entries es:
      a node per line under its name, namemap holding exactly the names with
      their indices, and every adjacency entry either already bound or
      waiting on the stack of late bindings. */
  predicate Loaded(es: seq<Entry>, names: seq<string>, adj: seq<seq<int>>, namemap: map<string, nat>, stack: seq<Binding>)
  {
    |names| == |adj| == |es| && Distinct(es) &&
    (forall m :: 0 <= m < |es| ==> names[m] == es[m].name && |adj[m]| == |es[m].adjacent|) &&
    (forall m :: 0 <= m < |es| ==> names[m] in namemap) &&
    (forall k :: k in namemap ==> namemap[k] < |names| && names[namemap[k]] == k) &&
    (forall t :: 0 <= t < |stack| ==> Pending(es, stack[t])) &&
    (forall m, n :: 0 <= m < |es| && 0 <= n < |adj[m]| ==>
      Resolved(es, names, adj, m, n) || Binding(es[m].adjacent[n], m, n) in stack)
  }

  /** A late binding for a real entry, carrying that entry's token. */
  predicate Pending(es: seq<Entry>, x: Binding)
  {
    x.nodex < |es| && x.adjex < |es[x.nodex].adjacent| && es[x.nodex].adjacent[x.adjex] == x.name
  }

  /** One more line read: its node goes in at the end under a new name and
      its row comes from the adjacency loop run with the name already
      bound. */
  lemma LoadedStep(es: seq<Entry>, names: seq<string>, adj: seq<seq<int>>, namemap: map<string, nat>, stack: seq<Binding>,
                   name: string, tokens: seq<string>, row: seq<int>, pushed: seq<Binding>)
    requires Loaded(es, names, adj, namemap, stack) && name !in namemap
    requires RowRead(tokens, row, pushed, namemap[name := |names|], |names|)
    ensures Loaded(es + [Entry(name, tokens)], names + [name], adj + [row], namemap[name := |names|], stack + pushed)
  {
    var es', names', adj', nm', st' := es + [Entry(name, tokens)], names + [name], adj + [row], namemap[name := |names|], stack + pushed;
    var node := |names|;
    forall a, b | 0 <= a < b < |es'|
      ensures es'[a].name != es'[b].name
    {
      if b == node {
        assert names[a] in namemap;
      }
    }
    forall t | 0 <= t < |st'|
      ensures Pending(es', st'[t])
    {
      if t < |stack| {
        assert st'[t] == stack[t];
      } else {
        assert st'[t] == pushed[t - |stack|];
        assert LateBinding(pushed[t - |stack|], tokens, node);
      }
    }
    forall m, n | 0 <= m < |es'| && 0 <= n < |adj'[m]|
      ensures Resolved(es', names', adj', m, n) || Binding(es'[m].adjacent[n], m, n) in st'
    {
      if m < node {
        if Resolved(es, names, adj, m, n) {
          assert Resolved(es', names', adj', m, n);
        } else {
          assert Binding(es[m].adjacent[n], m, n) in stack;
        }
      } else {
        assert adj'[m] == row && es'[m].adjacent == tokens;
        if tokens[n] in nm' {
          assert row[n] == nm'[tokens[n]];
          assert Resolved(es', names', adj', m, n);
        } else {
          assert Binding(tokens[n], node, n) in pushed;
        }
      }
    }
  }

  /** es are the entries of the first |es| lines. */
  predicate ReadSoFar(lines: seq<string>, es: seq<Entry>)
  {
    |es| <= |lines| && forall m :: 0 <= m < |es| ==> ParseLine(lines[m]) == Some(es[m])
  }

  lemma ReadSoFarStep(lines: seq<string>, es: seq<Entry>, e: Entry)
    requires ReadSoFar(lines, es) && |es| < |lines| && ParseLine(lines[|es|]) == Some(e)
    ensures ReadSoFar(lines, es + [e])
  {
  }

  /** A line without a name makes the file unreadable. */
  lemma NoName(lines: seq<string>, i: int)
    requires 0 <= i < |lines| && ParseLine(lines[i]).None?
    ensures !Parses(lines)
  {
  }

  /** A line repeating the name of an earlier line makes the file
      unreadable (node name multiplicity). */
  lemma Multiplicity(lines: seq<string>, es: seq<Entry>, k: int)
    requires ReadSoFar(lines, es) && 0 <= k < |es| < |lines|
    requires ParseLine(lines[|es|]).Some? && ParseLine(lines[|es|]).value.name == es[k].name
    ensures !Parses(lines)
  {
    if AllNamed(lines) {
      assert Entries(lines)[k] == es[k];
      assert Entries(lines)[k].name == Entries(lines)[|es|].name;
    }
  }

  /** Every line read: the entries gathered are those of the file. */
  lemma AllRead(lines: seq<string>, es: seq<Entry>)
    requires ReadSoFar(lines, es) && |es| == |lines|
    ensures AllNamed(lines) && Entries(lines) == es
  {
  }

  /** A binding whose name no line has makes the file unreadable. */
  lemma Unbound(es: seq<Entry>, names: seq<string>, adj: seq<seq<int>>, namemap: map<string, nat>, stack: seq<Binding>, t: int)
    requires Loaded(es, names, adj, namemap, stack) && 0 <= t < |stack| && stack[t].name !in namemap
    ensures !Closed(es)
  {
    var x := stack[t];
    assert Pending(es, x);
    forall i | 0 <= i < |es|
      ensures es[i].name != x.name
    {
      assert names[i] in namemap;
    }
    assert !Named(es, es[x.nodex].adjacent[x.adjex]);
  }

  lemma NoneWaiting(es: seq<Entry>, names: seq<string>, adj: seq<seq<int>>, stack: seq<Binding>)
    requires |adj| == |es| && (forall m :: 0 <= m < |es| ==> |adj[m]| == |es[m].adjacent|)
    requires Waiting(es, names, adj, stack, 0)
    ensures Waiting(es, names, adj, [], 0)
  {
  }

  /** Once every entry is bound the node map represents the entries, and
      so every token names a node. */
  lemma AllResolved(es: seq<Entry>, names: seq<string>, adj: seq<seq<int>>)
    requires |names| == |adj| == |es|
    requires forall m :: 0 <= m < |es| ==> names[m] == es[m].name && |adj[m]| == |es[m].adjacent|
    requires Waiting(es, names, adj, [], 0)
    ensures Represents(es, names, adj) && Closed(es)
  {
    forall m, n | 0 <= m < |es| && 0 <= n < |adj[m]|
      ensures 0 <= adj[m][n] < |names| && names[adj[m][n]] == es[m].adjacent[n]
    {
      assert Resolved(es, names, adj, m, n);
    }
    forall m, n | 0 <= m < |es| && 0 <= n < |es[m].adjacent|
      ensures Named(es, es[m].adjacent[n])
    {
      assert es[adj[m][n]].name == es[m].adjacent[n];
    }
  }

  /** adj with entry n of node m set to v. */
  function Patch(adj: seq<seq<int>>, m: int, n: int, v: int): (r: seq<seq<int>>)
    requires 0 <= m < |adj| && 0 <= n < |adj[m]|
    ensures |r| == |adj| && forall k :: 0 <= k < |adj| ==> |r[k]| == |adj[k]|
    ensures forall k, l :: 0 <= k < |adj| && 0 <= l < |adj[k]| ==>
      r[k][l] == if k == m && l == n then v else adj[k][l]
  {
    adj[m := adj[m][n := v]]
  }

  /** The late-binding loop after binding stack[t]: the entries bound so
      far stay bound and stack[t]'s entry is bound too. */
  lemma BindStep(es: seq<Entry>, names: seq<string>, adj: seq<seq<int>>, namemap: map<string, nat>, stack: seq<Binding>, t: int)
    requires Loaded(es, names, adj, namemap, stack) && 0 <= t < |stack| && stack[t].name in namemap
    ensures Loaded(es, names, Patch(adj, stack[t].nodex, stack[t].adjex, namemap[stack[t].name]), namemap, stack)
    ensures forall m, n :: 0 <= m < |es| && 0 <= n < |adj[m]| && Resolved(es, names, adj, m, n) ==>
      Resolved(es, names, Patch(adj, stack[t].nodex, stack[t].adjex, namemap[stack[t].name]), m, n)
    ensures Resolved(es, names, Patch(adj, stack[t].nodex, stack[t].adjex, namemap[stack[t].name]), stack[t].nodex, stack[t].adjex)
  {
    var x := stack[t];
    assert Pending(es, x);
    var adj' := Patch(adj, x.nodex, x.adjex, namemap[x.name]);
    forall m, n | 0 <= m < |es| && 0 <= n < |adj'[m]|
      ensures Resolved(es, names, adj', m, n) || Binding(es[m].adjacent[n], m, n) in stack
    {
      if !Resolved(es, names, adj, m, n) {
        assert Binding(es[m].adjacent[n], m, n) in stack;
      }
    }
  }

  /** Every entry not yet resolved still has its binding among the first t
      of the stack. */
  predicate Waiting(es: seq<Entry>, names: seq<string>, adj: seq<seq<int>>, stack: seq<Binding>, t: int)
    requires |adj| == |es| && (forall m :: 0 <= m < |es| ==> |adj[m]| == |es[m].adjacent|) && 0 <= t <= |stack|
  {
    forall m, n :: 0 <= m < |es| && 0 <= n < |adj[m]| ==>
      Resolved(es, names, adj, m, n) || Binding(es[m].adjacent[n], m, n) in stack[..t]
  }

  lemma WaitingStep(es: seq<Entry>, names: seq<string>, adj: seq<seq<int>>, namemap: map<string, nat>, stack: seq<Binding>, t: int)
    requires Loaded(es, names, adj, namemap, stack) && 0 < t <= |stack| && stack[t - 1].name in namemap
    requires Waiting(es, names, adj, stack, t)
    ensures Loaded(es, names, Patch(adj, stack[t - 1].nodex, stack[t - 1].adjex, namemap[stack[t - 1].name]), namemap, stack)
    ensures Waiting(es, names, Patch(adj, stack[t - 1].nodex, stack[t - 1].adjex, namemap[stack[t - 1].name]), stack, t - 1)
  {
    var x := stack[t - 1];
    BindStep(es, names, adj, namemap, stack, t - 1);
    var adj' := Patch(adj, x.nodex, x.adjex, namemap[x.name]);
    forall m, n | 0 <= m < |es| && 0 <= n < |adj[m]| && !Resolved(es, names, adj', m, n)
      ensures Binding(es[m].adjacent[n], m, n) in stack[..t - 1]
    {
      assert stack[..t] == stack[..t - 1] + [x];
    }
  }

  /** The line buffer readline fills with one line. */
  method NewLineBuffer(line: string) returns (buf: array<char>)
    ensures fresh(buf) && buf[..] == LineBuffer(line)
  {
    var b := LineBuffer(line);
    buf := new char[|b|](k requires 0 <= k < |b| => b[k]);
    assert buf[..] == b;
  }

  /** One line of node_map_init_fromfile: the name cut by
      findsep(':', strict), the check that no earlier line has it, and, with
      the name bound to index node, the adjacency loop. */
  method ReadLine(line: string, namemap: map<string, nat>, node: nat)
    returns (name: string, row: seq<int>, pushed: seq<Binding>, none: bool, repeated: bool)
    ensures none <==> ParseLine(line).None?
    ensures !none ==> ParseLine(line).value.name == name && (repeated <==> name in namemap)
    ensures !none && !repeated ==>
      RowRead(ParseLine(line).value.adjacent, row, pushed, namemap[name := node], node)
  {
    ghost var b := LineBuffer(line);
    var buf := NewLineBuffer(line);
    var next;
    name, next, none := LineName(buf, b);
    row, pushed, repeated := [], [], false;
    if none {
      return;
    }
    ghost var tokens := Tokens(b, next);
    assert ParseLine(line) == Some(Entry(name, tokens));
    repeated := name in namemap;
    if !repeated {
      row, pushed := ReadAdjacency(buf, next, namemap[name := node], node, b);
    }
  }

  /** node_map: the names of the nodes, their adjacency lists (map and
      sizes in the source) and the capacity of those arrays. */
  class NodeMap {
    var names: seq<string>
    var adj: seq<seq<int>>
    var size: nat

    /** node_map_init_fromfile over the lines of a file: true exactly when
        every line has a name, no name repeats and every adjacency names a
        node; the map then holds a node per line and, for every adjacency
        token, the index of the node of that name. */
    method InitFromLines(lines: seq<string>) returns (ok: bool)
      modifies this
      ensures ok <==> Parses(lines)
      ensures ok ==> Represents(Entries(lines), names, adj) && |names| <= size
    {
      var ns: seq<string>, rows: seq<seq<int>>, sz: nat := [], [], 8;
      var namemap: map<string, nat> := map[];
      var stack: seq<Binding> := [];
      ghost var es: seq<Entry> := [];
      var i := 0;
      while i < |lines|
        invariant |es| == i && |ns| <= sz && 8 <= sz && ReadSoFar(lines, es)
        invariant Loaded(es, ns, rows, namemap, stack)
      {
        if |ns| >= sz {
          sz := Reallocate(sz);
        }
        var name, row, pushed, none, repeated := ReadLine(lines[i], namemap, |ns|);
        if none {
          NoName(lines, i);
          return false;
        }
        if repeated {
          Multiplicity(lines, es, namemap[name]);
          return false;
        }
        ghost var e := ParseLine(lines[i]).value;
        LoadedStep(es, ns, rows, namemap, stack, name, e.adjacent, row, pushed);
        ReadSoFarStep(lines, es, e);
        es := es + [e];
        ns, rows, namemap, stack := ns + [name], rows + [row], namemap[name := |ns|], stack + pushed;
        i := i + 1;
      }
      AllRead(lines, es);
      names, adj, size := ns, rows, sz;
      ok := Bind(es, namemap, stack);
    }

    /** The late bindings, from the top of the stack down: a name that no
        line has ends the reading with false; otherwise the entry gets the
        index of the node of that name. */
    method Bind(ghost es: seq<Entry>, namemap: map<string, nat>, stack: seq<Binding>) returns (ok: bool)
      requires Loaded(es, names, adj, namemap, stack)
      modifies this
      ensures names == old(names) && size == old(size)
      ensures ok <==> Closed(es)
      ensures ok ==> Represents(es, names, adj)
    {
      var rows := adj;
      var t := |stack|;
      assert stack[..t] == stack;
      while t > 0
        invariant 0 <= t <= |stack| && names == old(names) && size == old(size)
        invariant Loaded(es, names, rows, namemap, stack) && Waiting(es, names, rows, stack, t)
      {
        var x := stack[t - 1];
        if x.name !in namemap {
          Unbound(es, names, rows, namemap, stack, t - 1);
          return false;
        }
        WaitingStep(es, names, rows, namemap, stack, t);
        rows := Patch(rows, x.nodex, x.adjex, namemap[x.name]);
        t := t - 1;
      }
      NoneWaiting(es, names, rows, stack);
      AllResolved(es, names, rows);
      adj := rows;
      return true;
    }
  }
}
