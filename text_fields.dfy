/** The field tokenizers of the programs: commasep (identical in
    knapsack1.c, knapsack2.c and ga-knapsack.c) and findsep (ga-graph-color.c).
    Both work in place on a NUL-terminated line buffer: they skip leading
    whitespace, scan to the separator or the end of the line, overwrite the
    trailing whitespace of the token and the separator with NULs, and move
    the cursor one past the separator. */
module TextFields {

  const NUL: char := 0 as char

  /** isspace in the C locale. */
  predicate IsSpace(c: char)
  {
    c == ' ' || c == '\t' || c == '\n' || c == '\r' || c == 0x0B as char || c == 0x0C as char
  }

  /** The buffer holds a NUL at or after position s. */
  predicate Terminated(b: seq<char>, s: int)
  {
    0 <= s <= |b| && NUL in b[s..]
  }

  lemma TerminatedStep(b: seq<char>, s: int)
    requires Terminated(b, s) && b[s] != NUL
    ensures Terminated(b, s + 1)
  {
    assert b[s..] == [b[s]] + b[s + 1..];
  }

  /** Where the whitespace skip from s stops: the first character at or
      after s that is not whitespace. */
  function SkipSpaces(b: seq<char>, s: int): (k: int)
    requires Terminated(b, s)
    ensures s <= k < |b| && !IsSpace(b[k])
    ensures forall j :: s <= j < k ==> IsSpace(b[j])
    decreases |b| - s
  {
    if b[s] != NUL && IsSpace(b[s]) then
      TerminatedStep(b, s);
      SkipSpaces(b, s + 1)
    else s
  }

  /** Where the token scan from start stops: the first NUL or separator. */
  function FieldEnd(b: seq<char>, start: int, sep: char): (e: int)
    requires Terminated(b, start)
    ensures start <= e < |b| && (b[e] == NUL || b[e] == sep)
    ensures forall j :: start <= j < e ==> b[j] != NUL && b[j] != sep
    decreases |b| - start
  {
    if b[start] == NUL || b[start] == sep then start
    else
      TerminatedStep(b, start);
      FieldEnd(b, start + 1, sep)
  }

  /** The end of the token b[start..e] with its trailing whitespace removed;
      the trim never moves below start. */
  function TrimEnd(b: seq<char>, start: int, e: int): (t: int)
    requires 0 <= start <= e <= |b|
    ensures start <= t <= e
    ensures forall j :: t <= j < e ==> IsSpace(b[j])
    ensures t > start ==> !IsSpace(b[t - 1])
    decreases e
  {
    if e > start && IsSpace(b[e - 1]) then TrimEnd(b, start, e - 1) else e
  }

  /** The backward trim as the C loop is written: from position i it steps
      back over whitespace with no lower limit and stops at the first
      character that is not whitespace; -1 means the loop is about to read
      the byte before the buffer. */
  function TrimEndAsWritten(b: seq<char>, i: int): (r: int)
    requires -1 <= i < |b|
    ensures -1 <= r <= i
    ensures forall j :: r < j <= i ==> IsSpace(b[j])
    ensures r >= 0 ==> !IsSpace(b[r])
    decreases i + 1
  {
    if i >= 0 && IsSpace(b[i]) then TrimEndAsWritten(b, i - 1) else i
  }

  /** When the first field of a line is empty or only whitespace, the trim
      as written runs off the front of the line buffer. */
  lemma EmptyFirstFieldRunsOff(b: seq<char>, sep: char)
    requires Terminated(b, 0)
    requires b[SkipSpaces(b, 0)] == sep || b[SkipSpaces(b, 0)] == NUL
    ensures TrimEndAsWritten(b, FieldEnd(b, SkipSpaces(b, 0), sep) - 1) == -1
  {
    var start := SkipSpaces(b, 0);
    assert FieldEnd(b, start, sep) == start;
    TrimRunsOverSpaces(b, start - 1);
  }

  lemma {:induction false} TrimRunsOverSpaces(b: seq<char>, i: int)
    requires -1 <= i < |b|
    requires forall j :: 0 <= j <= i ==> IsSpace(b[j])
    ensures TrimEndAsWritten(b, i) == -1
    decreases i + 1
  {
    if i >= 0 {
      TrimRunsOverSpaces(b, i - 1);
    }
  }

  /** The line ",5,6" of an item file: its empty name field makes the trim
      as written read before the buffer. */
  lemma EmptyFieldReadsBeforeBuffer()
    ensures TrimEndAsWritten([',', '5', ',', '6', NUL, NUL], FieldEnd([',', '5', ',', '6', NUL, NUL], 0, ',') - 1) == -1
  {
    var b := [',', '5', ',', '6', NUL, NUL];
    assert b[4] == NUL;
    assert NUL in b[0..];
    assert FieldEnd(b, 0, ',') == 0;
  }

  /** b with the positions from..to-1 overwritten by NULs. */
  function Cleared(b: seq<char>, from: int, to: int): (r: seq<char>)
    ensures |r| == |b|
  {
    seq(|b|, k requires 0 <= k < |b| => if from <= k < to then NUL else b[k])
  }

  lemma ClearedIs(c: seq<char>, b: seq<char>, from: int, to: int)
    requires |c| == |b|
    requires forall k :: 0 <= k < |b| ==> c[k] == if from <= k < to then NUL else b[k]
    ensures c == Cleared(b, from, to)
  {
  }

  /** The C string at start once the tail of its field is cleared. */
  lemma ClearedCString(c: seq<char>, b: seq<char>, start: int, t: int, e: int)
    requires 0 <= start <= t <= e < |b|
    requires forall j :: start <= j < e ==> b[j] != NUL
    requires c == Cleared(b, t, e + 1)
    ensures Terminated(c, start) && CString(c, start) == b[start..t]
  {
    CStringUpTo(c, start, t);
    assert c[start..t] == b[start..t];
  }

  /** The C string starting at k: the characters up to the next NUL. */
  function CString(b: seq<char>, k: int): seq<char>
    requires Terminated(b, k)
    decreases |b| - k
  {
    if b[k] == NUL then []
    else
      TerminatedStep(b, k);
      [b[k]] + CString(b, k + 1)
  }

  lemma {:induction false} CStringUpTo(b: seq<char>, k: int, t: int)
    requires 0 <= k <= t < |b| && b[t] == NUL
    requires forall j :: k <= j < t ==> b[j] != NUL
    ensures Terminated(b, k) && CString(b, k) == b[k..t]
    decreases t - k
  {
    assert b[k..][t - k] == NUL;
    if k < t {
      CStringUpTo(b, k + 1, t);
      assert b[k..t] == [b[k]] + b[k + 1..t];
    }
  }

  /** The scan shared by commasep and findsep, with the trim stopped at the
      start of the token. The cursor s moves past the leading whitespace to
      `start` and on to the first NUL or separator. In strict mode a missing
      separator returns `ok` false with the cursor left on the NUL and the
      buffer untouched. Otherwise the trailing whitespace of the token and
      the separator are overwritten with NULs, the cursor moves one past the
      separator, and the C string at `start` is the trimmed token. */
  method Separate(buf: array<char>, s: int, sep: char, strict: bool) returns (start: int, next: int, ok: bool)
    requires Terminated(buf[..], s) && sep != NUL
    modifies buf
    ensures start == SkipSpaces(old(buf[..]), s)
    ensures ok <==> !strict || old(buf[FieldEnd(buf[..], start, sep)]) == sep
    ensures !ok ==> next == FieldEnd(old(buf[..]), start, sep) && buf[..] == old(buf[..])
    ensures ok ==> next == FieldEnd(old(buf[..]), start, sep) + 1
    ensures ok ==> buf[..] == Cleared(old(buf[..]), TrimEnd(old(buf[..]), start, next - 1), next)
    ensures ok ==> (Terminated(buf[..], start) &&
      CString(buf[..], start) == old(buf[..])[start..TrimEnd(old(buf[..]), start, next - 1)])
  {
    ghost var b := buf[..];
    var e;
    start, e := ScanField(buf, s, sep);
    if strict && buf[e] != sep {
      next, ok := e, false;
    } else {
      CutField(buf, start, e);
      next, ok := e + 1, true;
      ghost var c := buf[..];
      ClearedCString(c, b, start, TrimEnd(b, start, e), e);
    }
  }

  /** The scanning half of commasep and findsep: the cursor moves over the
      leading whitespace to the start of the token and on to the first NUL
      or separator; nothing is written. */
  method ScanField(buf: array<char>, s: int, sep: char) returns (start: int, e: int)
    requires Terminated(buf[..], s)
    ensures start == SkipSpaces(buf[..], s) && e == FieldEnd(buf[..], start, sep)
  {
    ghost var b := buf[..];
    var cur := s;
    while buf[cur] != NUL && IsSpace(buf[cur])
      invariant Terminated(b, cur) && SkipSpaces(b, cur) == SkipSpaces(b, s)
      decreases buf.Length - cur
    {
      TerminatedStep(b, cur);
      cur := cur + 1;
    }
    start := cur;
    while buf[cur] != NUL && buf[cur] != sep
      invariant start <= cur && Terminated(b, cur) && FieldEnd(b, cur, sep) == FieldEnd(b, start, sep)
      decreases buf.Length - cur
    {
      TerminatedStep(b, cur);
      cur := cur + 1;
    }
    e := cur;
  }

  /** The end of commasep and findsep: the trailing whitespace of the token
      buf[start..e] and the separator at e are overwritten with NULs. */
  method CutField(buf: array<char>, start: int, e: int)
    requires 0 <= start <= e < buf.Length
    modifies buf
    ensures buf[..] == Cleared(old(buf[..]), TrimEnd(old(buf[..]), start, e), e + 1)
  {
    ghost var b := buf[..];
    var i := e - 1;
    while i >= start && IsSpace(buf[i])
      invariant start - 1 <= i < e
      invariant TrimEnd(b, start, i + 1) == TrimEnd(b, start, e)
      invariant forall k :: 0 <= k <= i || e <= k < buf.Length ==> buf[k] == b[k]
      invariant forall k :: i < k < e ==> buf[k] == NUL
      decreases i + 1
    {
      buf[i] := NUL;
      i := i - 1;
    }
    buf[e] := NUL;
    ClearedIs(buf[..], b, i + 1, e + 1);
  }

  /** commasep: the next comma-separated field of the line, trimmed of
      whitespace on both sides; an empty field is the empty string. */
  method CommaSep(buf: array<char>, s: int) returns (field: int, next: int)
    requires Terminated(buf[..], s)
    modifies buf
    ensures field == SkipSpaces(old(buf[..]), s)
    ensures next == FieldEnd(old(buf[..]), field, ',') + 1
    ensures buf[..] == Cleared(old(buf[..]), TrimEnd(old(buf[..]), field, next - 1), next)
    ensures Terminated(buf[..], field) &&
      CString(buf[..], field) == old(buf[..])[field..TrimEnd(old(buf[..]), field, next - 1)]
  {
    var ok;
    field, next, ok := Separate(buf, s, ',', false);
  }

  /** findsep: like commasep with any separator, but it yields no token
      (`none`) in strict mode when the separator is missing, and for an
      empty token. */
  method FindSep(buf: array<char>, s: int, sep: char, strict: bool) returns (field: int, next: int, none: bool)
    requires Terminated(buf[..], s) && sep != NUL
    modifies buf
    ensures field == SkipSpaces(old(buf[..]), s)
    ensures none <==> (strict && old(buf[FieldEnd(buf[..], field, sep)]) != sep) ||
                      FieldEnd(old(buf[..]), field, sep) == field
    ensures strict && old(buf[FieldEnd(buf[..], field, sep)]) != sep ==>
      next == FieldEnd(old(buf[..]), field, sep) && buf[..] == old(buf[..])
    ensures !strict || old(buf[FieldEnd(buf[..], field, sep)]) == sep ==>
      next == FieldEnd(old(buf[..]), field, sep) + 1 &&
      buf[..] == Cleared(old(buf[..]), TrimEnd(old(buf[..]), field, next - 1), next)
    ensures !none ==> (Terminated(buf[..], field) &&
      CString(buf[..], field) == old(buf[..])[field..TrimEnd(old(buf[..]), field, next - 1)] &&
      |CString(buf[..], field)| > 0)
  {
    var ok;
    field, next, ok := Separate(buf, s, sep, strict);
    ghost var b := old(buf[..]);
    if !ok {
      none := true;
    } else {
      none := buf[field] == NUL;
      assert buf[field] == NUL <==> TrimEnd(b, field, next - 1) == field;
      assert TrimEnd(b, field, next - 1) == field <==> FieldEnd(b, field, sep) == field;
    }
  }
}
