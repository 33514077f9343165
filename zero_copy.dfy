/**
 * The zero-copy reader of csvParser2.c. The whole file sits in one buffer
 * that ends with a NUL; the header and the rows are String_Views, here
 * `Span(offset, size)` into that buffer, and slicing a field overwrites the
 * delimiter that ends it with a NUL, so that each span also reads as a C
 * string. The delimiters are ';', ',' and '\n'; a NUL also ends a field.
 *
 * The pure functions `Header` and `Rows` give what slicing does to a buffer
 * (the spans, the buffer afterwards and the cursor); the methods do it in
 * place on an array and are tied to those functions.
 */
module ZeroCopy {
  import opened Wrappers
  import opened Bytes
  import opened Tokens
  import opened TypeInference

  /** String_View: `size` bytes from `offset` in the buffer. */
  datatype Span = Span(offset: nat, size: nat)

  /** A byte that ends a field. */
  predicate IsStop(c: Byte) {
    c == ';' || c == ',' || c == '\n' || c == NUL
  }

  // ---------------------------------------------------------------------
  // Counting
  // ---------------------------------------------------------------------

  /** count_rows_from_buffer: the number of '\n' bytes before the terminator. */
  method CountRows(buf: array<Byte>) returns (rows: nat)
    requires NUL in buf[..]
    ensures rows == Occ(CStr(buf[..]), '\n')
  {
    var s := CStr(buf[..]);
    rows := CountChar(s, '\n');
  }

  /** Length of the run of '\n' and '\r' bytes that starts `s`. */
  function LeadingBreaks(s: Text): (n: nat)
    ensures n <= |s|
    ensures forall i :: 0 <= i < n ==> s[i] == '\n' || s[i] == '\r'
    ensures n < |s| ==> s[n] != '\n' && s[n] != '\r'
  {
    if s == [] || (s[0] != '\n' && s[0] != '\r') then 0 else 1 + LeadingBreaks(s[1..])
  }

  /** The first line of `s`: the bytes before its first '\n'. */
  function FirstLine(s: Text): (line: Text)
    ensures |line| <= |s| && line == s[..|line|]
    ensures forall i :: 0 <= i < |line| ==> s[i] != '\n'
    ensures |line| < |s| ==> s[|line|] == '\n'
  {
    match Chr(s, '\n', 0)
    case None => s
    case Some(k) => s[..k]
  }

  /**
   * The number of columns a buffer announces: after the blank lines at its
   * start, one more than the number of ';' and ',' bytes on the first line.
   */
  function ColumnCount(s: Text): (c: nat)
    ensures 1 <= c <= Separators(s) + 1
    ensures (forall i :: 0 <= i < |s| ==> s[i] != '\n' && s[i] != '\r') ==> c == Separators(s) + 1
  {
    var k := LeadingBreaks(s);
    var line := FirstLine(s[k..]);
    FirstLineSeparators(s, k, line);
    Separators(line) + 1
  }

  /** The first line after the leading line breaks has no more separators than the buffer, and all of them without a line break. */
  lemma FirstLineSeparators(s: Text, k: nat, line: Text)
    requires k == LeadingBreaks(s) && line == FirstLine(s[k..])
    ensures Separators(line) <= Separators(s)
    ensures (forall i :: 0 <= i < |s| ==> s[i] != '\n' && s[i] != '\r') ==> line == s
  {
    assert line == s[k..k + |line|];
    SeparatorsWithin(s, k, k + |line|);
  }

  /** A slice has no more separators than the whole. */
  lemma SeparatorsWithin(s: Text, a: nat, b: nat)
    requires a <= b <= |s|
    ensures Separators(s[a..b]) <= Separators(s)
  {
    assert s == s[..a] + (s[a..b] + s[b..]);
    OccSplit(s[..a], s[a..b] + s[b..], ';');
    OccSplit(s[..a], s[a..b] + s[b..], ',');
    OccSplit(s[a..b], s[b..], ';');
    OccSplit(s[a..b], s[b..], ',');
  }

  /** count_columns_from_buffer: skip the leading line breaks, then count the separators of the first line. */
  method CountColumns(buf: array<Byte>) returns (cols: nat)
    requires NUL in buf[..]
    ensures cols == ColumnCount(CStr(buf[..]))
  {
    ghost var s := CStr(buf[..]);
    CStrOfArray(buf);
    var p := SkipLineBreaks(buf, s);
    var count, q := CountSeparators(buf, p, s);
    ColumnCountIs(s, p, q);
    cols := count + 1;
  }

  /** The first loop of count_columns_from_buffer: past the '\n' and '\r' bytes. */
  method SkipLineBreaks(buf: array<Byte>, ghost s: Text) returns (p: nat)
    requires HoldsCStr(buf, s)
    ensures p == LeadingBreaks(s)
  {
    p := 0;
    while buf[p] != NUL && (buf[p] == '\n' || buf[p] == '\r')
      invariant p <= |s|
      invariant forall i :: 0 <= i < p ==> s[i] == '\n' || s[i] == '\r'
      decreases |s| - p
    {
      p := p + 1;
    }
    LeadingBreaksUnique(s, p);
  }

  /** The second loop of count_columns_from_buffer: ';' and ',' bytes up to the first '\n' or the end. */
  method CountSeparators(buf: array<Byte>, p: nat, ghost s: Text) returns (count: nat, q: nat)
    requires HoldsCStr(buf, s) && p <= |s|
    ensures p <= q <= |s|
    ensures (forall i :: p <= i < q ==> s[i] != '\n') && (q < |s| ==> s[q] == '\n')
    ensures count == Separators(s[p..q])
  {
    count := 0;
    q := p;
    while buf[q] != NUL && buf[q] != '\n'
      invariant p <= q <= |s|
      invariant forall i :: p <= i < q ==> s[i] != '\n'
      invariant count == Separators(s[p..q])
      decreases |s| - q
    {
      var c := buf[q];
      assert s[p..q + 1] == s[p..q] + [c];
      SeparatorsSnoc(s[p..q], c);
      if c == ';' || c == ',' {
        count := count + 1;
      }
      q := q + 1;
    }
  }

  /** The number of ';' and ',' bytes. */
  function Separators(s: Text): nat {
    Occ(s, ';') + Occ(s, ',')
  }

  lemma SeparatorsSnoc(s: Text, c: Byte)
    ensures Separators(s + [c]) == Separators(s) + if c == ';' || c == ',' then 1 else 0
  {
    OccSplit(s, [c], ';');
    OccSplit(s, [c], ',');
  }

  /** The first line after the leading line breaks ends at `q`, so its separators are those of s[p..q]. */
  lemma ColumnCountIs(s: Text, p: nat, q: nat)
    requires p == LeadingBreaks(s) && p <= q <= |s|
    requires (forall i :: p <= i < q ==> s[i] != '\n') && (q < |s| ==> s[q] == '\n')
    ensures ColumnCount(s) == Separators(s[p..q]) + 1
  {
    FirstLineOfSuffix(s, p, q);
  }

  /** A line of `s` that starts at `p` and ends at `q` is the first line of s[p..]. */
  lemma FirstLineOfSuffix(s: Text, p: nat, q: nat)
    requires p <= q <= |s|
    requires (forall i :: p <= i < q ==> s[i] != '\n') && (q < |s| ==> s[q] == '\n')
    ensures FirstLine(s[p..]) == s[p..q]
  {
    var t := s[p..];
    assert forall i :: 0 <= i < q - p ==> t[i] != '\n';
    FirstLineUnique(t, q - p);
    assert t[..q - p] == s[p..q];
  }

  lemma LeadingBreaksUnique(s: Text, n: nat)
    requires n <= |s|
    requires forall i :: 0 <= i < n ==> s[i] == '\n' || s[i] == '\r'
    requires n < |s| ==> s[n] != '\n' && s[n] != '\r'
    ensures LeadingBreaks(s) == n
  {
    var k := LeadingBreaks(s);
    assert forall i :: 0 <= i < k ==> s[i] == '\n' || s[i] == '\r';
    assert forall i :: 0 <= i < n ==> s[i] == '\n' || s[i] == '\r';
  }

  lemma FirstLineUnique(s: Text, n: nat)
    requires n <= |s| && (forall i :: 0 <= i < n ==> s[i] != '\n') && (n < |s| ==> s[n] == '\n')
    ensures FirstLine(s) == s[..n]
  {
    var line := FirstLine(s);
    assert forall i :: 0 <= i < |line| ==> s[i] != '\n';
    assert forall i :: 0 <= i < n ==> s[i] != '\n';
  }

  // ---------------------------------------------------------------------
  // Slicing one field
  // ---------------------------------------------------------------------

  /** The first stop byte at or after `p`; the terminator guarantees there is one. */
  function RunEnd(s: Text, p: nat): (q: nat)
    requires Terminated(s) && p < |s|
    ensures p <= q < |s| && IsStop(s[q])
    ensures forall i :: p <= i < q ==> !IsStop(s[i])
    decreases |s| - p
  {
    if IsStop(s[p]) then p else RunEnd(s, p + 1)
  }

  /** A span, the buffer after slicing it, and the cursor after it. */
  datatype Cut = Cut(span: Span, buf: Text, next: nat)

  /**
   * Slicing at cursor `p`: the span runs to the first stop byte; a delimiter
   * there becomes NUL and the cursor moves past it, while at a NUL the
   * cursor stays.
   */
  function CutAt(s: Text, p: nat): (r: Cut)
    requires Terminated(s) && p < |s|
    ensures |r.buf| == |s| && Terminated(r.buf) && r.next < |s|
  {
    var q := RunEnd(s, p);
    if s[q] != NUL then Cut(Span(p, q - p), s[q := NUL], q + 1)
    else Cut(Span(p, q - p), s, q)
  }

  /** How slicing may change a buffer: a byte either stays or was a stop byte and is now NUL. */
  predicate Changes(s: Text, t: Text) {
    |s| == |t| && forall i :: 0 <= i < |s| ==> t[i] == s[i] || (IsStop(s[i]) && t[i] == NUL)
  }

  /**
   * A span of the original buffer `s` as it stands in the buffer `t`: a
   * maximal run of non-stop bytes of `s` ending at a stop byte, unchanged in
   * `t`, where the byte after it is now NUL.
   */
  predicate Holds(s: Text, t: Text, sp: Span) {
    && |s| == |t|
    && sp.offset + sp.size < |s|
    && (forall i :: sp.offset <= i < sp.offset + sp.size ==> !IsStop(s[i]))
    && IsStop(s[sp.offset + sp.size])
    && (forall i :: sp.offset <= i < sp.offset + sp.size ==> t[i] == s[i])
    && t[sp.offset + sp.size] == NUL
  }

  /**
   * One slice: the span starts at the cursor and is the maximal run of
   * non-stop bytes there; only the byte ending it can change, to NUL; the
   * cursor moves one past a delimiter and stays on a NUL.
   */
  lemma CutMeaning(s: Text, p: nat)
    requires Terminated(s) && p < |s|
    ensures var r := CutAt(s, p); var e := p + r.span.size;
      && r.span.offset == p
      && Holds(s, r.buf, r.span)
      && Changes(s, r.buf)
      && (forall i :: 0 <= i < |s| && i != e ==> r.buf[i] == s[i])
      && r.next == (if s[e] == NUL then e else e + 1)
  {
    CutHolds(s, p);
  }

  /** The part of CutMeaning that the slicing loops build on. */
  lemma CutHolds(s: Text, p: nat)
    requires Terminated(s) && p < |s|
    ensures var r := CutAt(s, p); Holds(s, r.buf, r.span) && Changes(s, r.buf)
  {
  }

  lemma ChangesTrans(s: Text, t: Text, u: Text)
    requires Changes(s, t) && Changes(t, u)
    ensures Changes(s, u)
  {
  }

  /** A later slice leaves an earlier span holding. */
  lemma HoldsLater(s: Text, t: Text, u: Text, sp: Span)
    requires Holds(s, t, sp) && Changes(t, u)
    ensures Holds(s, u, sp)
  {
    var o, e := sp.offset, sp.offset + sp.size;
    forall i | o <= i < e
      ensures u[i] == s[i]
    {
      assert t[o..e][i - o] == t[i] && s[o..e][i - o] == s[i];
    }
  }

  /** A span sliced from an intermediate buffer is a span of the original one. */
  lemma HoldsEarlier(s: Text, t: Text, u: Text, sp: Span)
    requires Changes(s, t) && Holds(t, u, sp)
    ensures Holds(s, u, sp)
  {
    var o, e := sp.offset, sp.offset + sp.size;
    forall i | o <= i < e
      ensures t[i] == s[i]
    {
    }
    assert t[o..e] == s[o..e];
  }

  // ---------------------------------------------------------------------
  // parse_header and parse as functions
  // ---------------------------------------------------------------------

  /** Spans sliced from a buffer, the buffer afterwards and the cursor. */
  datatype Sliced = Sliced(spans: seq<Span>, buf: Text, next: nat)

  /** The header loop: `n` slices, one per column, taken whatever the cursor meets. */
  function Header(s: Text, p: nat, n: nat): (r: Sliced)
    requires Terminated(s) && p < |s|
    ensures |r.buf| == |s| && Terminated(r.buf) && r.next < |s|
    decreases n
  {
    if n == 0 then Sliced([], s, p)
    else
      var c := CutAt(s, p);
      var rest := Header(c.buf, c.next, n - 1);
      Sliced([c.span] + rest.spans, rest.buf, rest.next)
  }

  /** The cell loop of one row: slices while the cursor is not on a NUL and fewer than `n` are taken. */
  function RowCells(s: Text, p: nat, n: nat): (r: Sliced)
    requires Terminated(s) && p < |s|
    ensures |r.buf| == |s| && Terminated(r.buf) && r.next < |s|
    decreases n
  {
    if n == 0 || s[p] == NUL then Sliced([], s, p)
    else
      var c := CutAt(s, p);
      var rest := RowCells(c.buf, c.next, n - 1);
      Sliced([c.span] + rest.spans, rest.buf, rest.next)
  }

  /** The rows sliced by parse, the buffer afterwards and the cursor. */
  datatype Table = Table(rows: seq<seq<Span>>, buf: Text, next: nat)

  /** The row loop: `count` rows of at most `cols` cells, each starting where the last one stopped. */
  function Rows(s: Text, p: nat, count: nat, cols: nat): (r: Table)
    requires Terminated(s) && p < |s|
    ensures |r.buf| == |s| && Terminated(r.buf) && r.next < |s|
    decreases count
  {
    if count == 0 then Table([], s, p)
    else
      var row := RowCells(s, p, cols);
      var rest := Rows(row.buf, row.next, count - 1, cols);
      Table([row.spans] + rest.rows, rest.buf, rest.next)
  }

  // ---------------------------------------------------------------------
  // What slicing guarantees
  // ---------------------------------------------------------------------

  /** Every span of `spans` holds between `s` and `t`. */
  predicate AllHold(s: Text, t: Text, spans: seq<Span>) {
    forall k :: 0 <= k < |spans| ==> Holds(s, t, spans[k])
  }

  lemma AllHoldLater(s: Text, t: Text, u: Text, spans: seq<Span>)
    requires AllHold(s, t, spans) && Changes(t, u)
    ensures AllHold(s, u, spans)
  {
    forall k | 0 <= k < |spans|
      ensures Holds(s, u, spans[k])
    {
      HoldsLater(s, t, u, spans[k]);
    }
  }

  lemma AllHoldEarlier(s: Text, t: Text, u: Text, spans: seq<Span>)
    requires Changes(s, t) && AllHold(t, u, spans)
    ensures AllHold(s, u, spans)
  {
    forall k | 0 <= k < |spans|
      ensures Holds(s, u, spans[k])
    {
      HoldsEarlier(s, t, u, spans[k]);
    }
  }

  /** A slice followed by more slicing: the first span and all later ones hold in the end. */
  lemma PrependHolds(s: Text, t: Text, u: Text, first: Span, rest: seq<Span>)
    requires Changes(s, t) && Holds(s, t, first)
    requires Changes(t, u) && AllHold(t, u, rest)
    ensures Changes(s, u) && AllHold(s, u, [first] + rest)
  {
    ChangesTrans(s, t, u);
    HoldsLater(s, t, u, first);
    forall k | 0 < k < |[first] + rest|
      ensures Holds(s, u, ([first] + rest)[k])
    {
      HoldsEarlier(s, t, u, rest[k - 1]);
    }
  }

  /**
   * The header: exactly `n` spans; slicing only turns stop bytes into NUL;
   * every span is a maximal field of the original buffer whose bytes are
   * unchanged and followed by a NUL in the final buffer.
   */
  lemma HeaderSlices(s: Text, p: nat, n: nat)
    requires Terminated(s) && p < |s|
    ensures var r := Header(s, p, n);
      |r.spans| == n && Changes(s, r.buf) && AllHold(s, r.buf, r.spans)
    ensures var r := Header(s, p, n); Chained(s, r.spans, p, r.next) && Untouched(s, r.buf, r.next)
  {
    HeaderHolds(s, p, n);
    HeaderChain(s, p, n);
  }

  /** The first half of HeaderSlices. */
  lemma {:induction false} HeaderHolds(s: Text, p: nat, n: nat)
    requires Terminated(s) && p < |s|
    ensures var r := Header(s, p, n);
      |r.spans| == n && Changes(s, r.buf) && AllHold(s, r.buf, r.spans)
    decreases n
  {
    if n > 0 {
      var c := CutAt(s, p);
      var m: nat := n - 1;
      var rest := Header(c.buf, c.next, m);
      CutHolds(s, p);
      HeaderHolds(c.buf, c.next, m);
      PrependHolds(s, c.buf, rest.buf, c.span, rest.spans);
    }
  }

  /**
   * A row: at most `n` spans, each a field of the original buffer as in
   * HeaderSlices; when fewer than `n` are taken the cursor stops on a NUL.
   */
  lemma RowSlices(s: Text, p: nat, n: nat)
    requires Terminated(s) && p < |s|
    ensures var r := RowCells(s, p, n);
      && |r.spans| <= n
      && Changes(s, r.buf)
      && AllHold(s, r.buf, r.spans)
      && (|r.spans| < n ==> r.buf[r.next] == NUL)
    ensures var r := RowCells(s, p, n); Chained(s, r.spans, p, r.next) && Untouched(s, r.buf, r.next)
  {
    RowHolds(s, p, n);
    RowChain(s, p, n);
  }

  /** The first half of RowSlices. */
  lemma {:induction false} RowHolds(s: Text, p: nat, n: nat)
    requires Terminated(s) && p < |s|
    ensures var r := RowCells(s, p, n);
      && |r.spans| <= n
      && Changes(s, r.buf)
      && AllHold(s, r.buf, r.spans)
      && (|r.spans| < n ==> r.buf[r.next] == NUL)
    decreases n
  {
    if n > 0 && s[p] != NUL {
      var c := CutAt(s, p);
      var m: nat := n - 1;
      var rest := RowCells(c.buf, c.next, m);
      CutHolds(s, p);
      RowHolds(c.buf, c.next, m);
      PrependHolds(s, c.buf, rest.buf, c.span, rest.spans);
    }
  }

  /** A row that starts on a NUL takes no cell and leaves buffer and cursor as they are. */
  lemma StuckAtNul(s: Text, p: nat, n: nat)
    requires Terminated(s) && p < |s| && s[p] == NUL
    ensures RowCells(s, p, n) == Sliced([], s, p)
  {
  }

  /**
   * The rows: `count` of them, each of at most `cols` spans holding as in
   * HeaderSlices; once a row is cut short by the terminator, every later row
   * is empty.
   */
  ghost predicate RowsOk(s: Text, t: Table, count: nat, cols: nat) {
    && |t.rows| == count
    && Changes(s, t.buf)
    && (forall i :: 0 <= i < count ==> |t.rows[i]| <= cols && AllHold(s, t.buf, t.rows[i]))
    && (forall i, j :: 0 <= i < j < count && |t.rows[i]| < cols ==> t.rows[j] == [])
  }

  lemma {:induction false} RowsSlices(s: Text, p: nat, count: nat, cols: nat)
    requires Terminated(s) && p < |s|
    ensures RowsOk(s, Rows(s, p, count, cols), count, cols)
    ensures var r := Rows(s, p, count, cols);
      && Chained(s, Flatten(r.rows), p, r.next)
      && Untouched(s, r.buf, r.next)
      && (forall i :: 0 <= i < count && |r.rows[i]| < cols ==> r.buf[r.next] == NUL)
    decreases count
  {
    RowsChain(s, p, count, cols);
    if count > 0 {
      var row := RowCells(s, p, cols);
      var m: nat := count - 1;
      var rest := Rows(row.buf, row.next, m, cols);
      RowHolds(s, p, cols);
      RowsSlices(row.buf, row.next, m, cols);
      if |row.spans| < cols {
        EmptyAfterNul(row.buf, row.next, m, cols);
      }
      assert Rows(s, p, count, cols) == Table([row.spans] + rest.rows, rest.buf, rest.next);
      RowsPrepend(s, row, rest, count, cols);
    }
  }

  /** A row taken in front of the later rows keeps RowsOk. */
  lemma RowsPrepend(s: Text, row: Sliced, rest: Table, count: nat, cols: nat)
    requires 0 < count && |row.spans| <= cols && Changes(s, row.buf) && AllHold(s, row.buf, row.spans)
    requires RowsOk(row.buf, rest, count - 1, cols)
    requires |row.spans| < cols ==> forall i :: 0 <= i < count - 1 ==> rest.rows[i] == []
    ensures RowsOk(s, Table([row.spans] + rest.rows, rest.buf, rest.next), count, cols)
  {
    var r := Table([row.spans] + rest.rows, rest.buf, rest.next);
    ChangesTrans(s, row.buf, rest.buf);
    assert r.rows[0] == row.spans;
    assert forall i :: 0 < i < count ==> r.rows[i] == rest.rows[i - 1];
    AllHoldLater(s, row.buf, rest.buf, row.spans);
    forall i | 0 < i < count
      ensures AllHold(s, r.buf, r.rows[i])
    {
      AllHoldEarlier(s, row.buf, rest.buf, rest.rows[i - 1]);
    }
  }

  /** From a cursor on a NUL, every row is empty. */
  lemma {:induction false} EmptyAfterNul(s: Text, p: nat, count: nat, cols: nat)
    requires Terminated(s) && p < |s| && s[p] == NUL
    ensures |Rows(s, p, count, cols).rows| == count
    ensures forall i :: 0 <= i < count ==> Rows(s, p, count, cols).rows[i] == []
    ensures Rows(s, p, count, cols).buf == s && Rows(s, p, count, cols).next == p
    decreases count
  {
    if count > 0 {
      var m: nat := count - 1;
      StuckAtNul(s, p, cols);
      EmptyAfterNul(s, p, m, cols);
    }
  }

  // ---------------------------------------------------------------------
  // The order of the spans
  // ---------------------------------------------------------------------

  /** Where the cursor goes after slicing `sp` from the buffer `s`: past a delimiter, or onto the NUL. */
  function After(s: Text, sp: Span): nat
    requires sp.offset + sp.size < |s|
  {
    var e := sp.offset + sp.size;
    if s[e] == NUL then e else e + 1
  }

  /**
   * `spans` are sliced one after another from cursor `p` of the buffer `s`:
   * the first starts at `p`, each later one where the previous one left the
   * cursor, and `next` is where the last one left it (`p` when there is none).
   */
  predicate Chained(s: Text, spans: seq<Span>, p: nat, next: nat) {
    && p <= next
    && (forall k :: 0 <= k < |spans| ==> p <= spans[k].offset && spans[k].offset + spans[k].size < |s|)
    && (if spans == [] then next == p else spans[0].offset == p && next == After(s, spans[|spans| - 1]))
    && (forall k :: 0 <= k < |spans| - 1 ==> spans[k + 1].offset == After(s, spans[k]))
  }

  /** The bytes of `t` from `q` on are those of `s`. */
  predicate Untouched(s: Text, t: Text, q: nat) {
    |s| == |t| && forall i :: q <= i < |s| ==> t[i] == s[i]
  }

  /** The spans of all rows, in order. */
  function Flatten(rows: seq<seq<Span>>): seq<Span> {
    if rows == [] then [] else rows[0] + Flatten(rows[1..])
  }

  /** One slice starts at the cursor, leaves it where After says, and touches nothing from there on. */
  lemma CutChain(s: Text, p: nat)
    requires Terminated(s) && p < |s|
    ensures var c := CutAt(s, p);
      && c.span.offset == p && c.span.offset + c.span.size < |s|
      && After(s, c.span) == c.next
      && Untouched(s, c.buf, c.next)
  {
  }

  /** Two chains, the second starting where the first stops, make one chain. */
  lemma ChainedAppend(s: Text, a: seq<Span>, b: seq<Span>, p: nat, q: nat, r: nat)
    requires Chained(s, a, p, q) && Chained(s, b, q, r)
    ensures Chained(s, a + b, p, r)
  {
    var ab := a + b;
    forall k | 0 <= k < |ab| - 1
      ensures ab[k + 1].offset == After(s, ab[k])
    {
      if k + 1 < |a| {
        assert ab[k + 1] == a[k + 1] && ab[k] == a[k];
      } else if k + 1 == |a| {
        assert ab[k + 1] == b[0] && ab[k] == a[|a| - 1];
      } else {
        assert ab[k + 1] == b[k + 1 - |a|] && ab[k] == b[k - |a|];
      }
    }
    if b == [] {
      assert ab == a;
    } else {
      assert ab[|ab| - 1] == b[|b| - 1];
      if a != [] {
        assert ab[0] == a[0];
      }
    }
  }

  /** A chain depends only on the bytes from its start on. */
  lemma ChainedAgree(s: Text, u: Text, spans: seq<Span>, p: nat, next: nat)
    requires Untouched(s, u, p) && Chained(u, spans, p, next)
    ensures Chained(s, spans, p, next)
  {
    assert forall k :: 0 <= k < |spans| ==> After(s, spans[k]) == After(u, spans[k]);
  }

  lemma UntouchedTrans(s: Text, t: Text, u: Text, p: nat, q: nat)
    requires Untouched(s, t, p) && Untouched(t, u, q) && p <= q
    ensures Untouched(s, u, q)
  {
  }

  /** One slice in front of a chain that starts where it leaves the cursor. */
  lemma PrependChain(s: Text, p: nat, c: Cut, rest: Sliced, r: Sliced)
    requires Terminated(s) && p < |s| && c == CutAt(s, p)
    requires Chained(c.buf, rest.spans, c.next, rest.next) && Untouched(c.buf, rest.buf, rest.next)
    requires r == Sliced([c.span] + rest.spans, rest.buf, rest.next)
    ensures Chained(s, r.spans, p, r.next) && Untouched(s, r.buf, r.next)
  {
    CutChain(s, p);
    ChainedAgree(s, c.buf, rest.spans, c.next, rest.next);
    ChainedAppend(s, [c.span], rest.spans, p, c.next, rest.next);
    UntouchedTrans(s, c.buf, rest.buf, c.next, rest.next);
  }

  /** The header's spans are the consecutive fields from the cursor; nothing after them is touched. */
  lemma {:induction false} HeaderChain(s: Text, p: nat, n: nat)
    requires Terminated(s) && p < |s|
    ensures var r := Header(s, p, n); Chained(s, r.spans, p, r.next) && Untouched(s, r.buf, r.next)
    decreases n
  {
    if n > 0 {
      var c := CutAt(s, p);
      var m: nat := n - 1;
      var rest := Header(c.buf, c.next, m);
      HeaderChain(c.buf, c.next, m);
      assert Header(s, p, n) == Sliced([c.span] + rest.spans, rest.buf, rest.next);
      PrependChain(s, p, c, rest, Header(s, p, n));
    }
  }

  /** A row's spans are the consecutive fields from the cursor; nothing after them is touched. */
  lemma {:induction false} RowChain(s: Text, p: nat, n: nat)
    requires Terminated(s) && p < |s|
    ensures var r := RowCells(s, p, n); Chained(s, r.spans, p, r.next) && Untouched(s, r.buf, r.next)
    decreases n
  {
    if n > 0 && s[p] != NUL {
      var c := CutAt(s, p);
      var m: nat := n - 1;
      var rest := RowCells(c.buf, c.next, m);
      RowChain(c.buf, c.next, m);
      assert RowCells(s, p, n) == Sliced([c.span] + rest.spans, rest.buf, rest.next);
      PrependChain(s, p, c, rest, RowCells(s, p, n));
    }
  }

  lemma FlattenCons(row: seq<Span>, rest: seq<seq<Span>>)
    ensures Flatten([row] + rest) == row + Flatten(rest)
  {
    assert ([row] + rest)[1..] == rest;
  }

  /**
   * The rows, read in order, are the consecutive fields from the cursor: each
   * row starts where the previous one stopped. Nothing after the final cursor
   * is touched, and once a row is cut short the cursor ends on a NUL.
   */
  lemma {:induction false} RowsChain(s: Text, p: nat, count: nat, cols: nat)
    requires Terminated(s) && p < |s|
    ensures var r := Rows(s, p, count, cols);
      && Chained(s, Flatten(r.rows), p, r.next)
      && Untouched(s, r.buf, r.next)
      && (forall i :: 0 <= i < |r.rows| && |r.rows[i]| < cols ==> r.buf[r.next] == NUL)
    decreases count
  {
    if count > 0 {
      var row := RowCells(s, p, cols);
      var m: nat := count - 1;
      var rest := Rows(row.buf, row.next, m, cols);
      RowChain(s, p, cols);
      RowHolds(s, p, cols);
      RowsChain(row.buf, row.next, m, cols);
      ChainedAgree(s, row.buf, Flatten(rest.rows), row.next, rest.next);
      ChainedAppend(s, row.spans, Flatten(rest.rows), p, row.next, rest.next);
      UntouchedTrans(s, row.buf, rest.buf, row.next, rest.next);
      FlattenCons(row.spans, rest.rows);
      if |row.spans| < cols {
        EmptyAfterNul(row.buf, row.next, m, cols);
      }
      RowsChainStep(s, p, count, m, cols, row, rest);
    }
  }

  /** The last conjunct of RowsChain, from the first row and the later ones. */
  lemma RowsChainStep(s: Text, p: nat, count: nat, m: nat, cols: nat, row: Sliced, rest: Table)
    requires Terminated(s) && p < |s| && count == m + 1
    requires row == RowCells(s, p, cols) && rest == Rows(row.buf, row.next, m, cols)
    requires |row.spans| < cols ==> rest.buf[rest.next] == NUL
    requires forall i :: 0 <= i < |rest.rows| && |rest.rows[i]| < cols ==> rest.buf[rest.next] == NUL
    ensures var r := Rows(s, p, count, cols);
      && r == Table([row.spans] + rest.rows, rest.buf, rest.next)
      && (forall i :: 0 <= i < |r.rows| && |r.rows[i]| < cols ==> r.buf[r.next] == NUL)
  {
    var r := Table([row.spans] + rest.rows, rest.buf, rest.next);
    assert forall i :: 0 < i < |r.rows| ==> r.rows[i] == rest.rows[i - 1];
  }

  /** The text of a span: its bytes. */
  function SpanText(t: Text, sp: Span): Text
    requires sp.offset + sp.size <= |t|
  {
    t[sp.offset .. sp.offset + sp.size]
  }

  /** A span that holds reads, as a C string from its offset, as exactly its field. */
  lemma HoldsReadsAsCString(s: Text, t: Text, sp: Span)
    requires Holds(s, t, sp)
    ensures NUL in t[sp.offset..] && CStr(t[sp.offset..]) == SpanText(s, sp)
  {
    var o, z := sp.offset, sp.size;
    assert t[o..][z] == NUL;
    assert t[o..][..z] == t[o..o + z];
    assert forall i :: 0 <= i < z ==> t[o..][i] == s[o + i];
    StrLenUnique(t[o..], z);
  }

  // ---------------------------------------------------------------------
  // The slicing loops
  // ---------------------------------------------------------------------

  /** The inner loop of parse_header and parse: run to a stop byte, NUL it and step past a delimiter. */
  method SliceField(buf: array<Byte>, p: nat) returns (span: Span, next: nat)
    requires Terminated(buf[..]) && p < buf.Length
    modifies buf
    ensures Cut(span, buf[..], next) == CutAt(old(buf[..]), p)
  {
    ghost var s := buf[..];
    var current := p;
    while !IsStop(buf[current])
      invariant p <= current < buf.Length
      invariant forall i :: p <= i < current ==> !IsStop(s[i])
      invariant buf[..] == s
      decreases buf.Length - current
    {
      current := current + 1;
    }
    RunEndUnique(s, p, current);
    span := Span(p, current - p);
    if buf[current] != NUL {
      buf[current] := NUL;
      current := current + 1;
    }
    next := current;
  }

  lemma RunEndUnique(s: Text, p: nat, q: nat)
    requires Terminated(s) && p <= q < |s| && IsStop(s[q])
    requires forall i :: p <= i < q ==> !IsStop(s[i])
    ensures RunEnd(s, p) == q
  {
    var e := RunEnd(s, p);
    assert forall i :: p <= i < e ==> !IsStop(s[i]);
  }

  /**
   * parse_header: slices `cols` header names starting at `start`, the
   * column counter starting at 0.
   */
  method ParseHeader(buf: array<Byte>, start: nat, cols: nat) returns (header: seq<Span>, next: nat)
    requires Terminated(buf[..]) && start < buf.Length
    modifies buf
    ensures Sliced(header, buf[..], next) == Header(old(buf[..]), start, cols)
  {
    header := [];
    var current: nat := start;
    var col: nat := 0;
    ghost var target := Header(buf[..], start, cols);
    ghost var left: nat := cols;
    while col < cols
      invariant col <= cols && left == cols - col && current < buf.Length && Terminated(buf[..])
      invariant target == Continue(header, Header(buf[..], current, left))
    {
      ghost var m: nat := left - 1;
      var span, after := TakeField(buf, current, header, left, m);
      header := header + [span];
      current := after;
      col := col + 1;
      left := m;
    }
    next := current;
  }

  /** One iteration of the header loop of parse_header: slice the field at the cursor. */
  method TakeField(buf: array<Byte>, current: nat, ghost taken: seq<Span>, ghost n: nat, ghost m: nat)
    returns (span: Span, after: nat)
    requires Terminated(buf[..]) && current < buf.Length && n == m + 1
    modifies buf
    ensures Terminated(buf[..]) && after < buf.Length
    ensures Continue(taken, Header(old(buf[..]), current, n)) == Continue(taken + [span], Header(buf[..], after, m))
  {
    ghost var before := buf[..];
    span, after := SliceField(buf, current);
    HeaderStep(before, current, n, m, taken, Cut(span, buf[..], after));
  }

  /** One iteration of the header loop moves one span from the remaining slices to the taken ones. */
  lemma HeaderStep(s: Text, p: nat, n: nat, m: nat, taken: seq<Span>, c: Cut)
    requires Terminated(s) && p < |s| && n == m + 1 && c == CutAt(s, p)
    ensures Continue(taken, Header(s, p, n)) == Continue(taken + [c.span], Header(c.buf, c.next, m))
  {
    AppendAssoc(taken, [c.span], Header(c.buf, c.next, m).spans);
  }

  /** The result of the remaining loop iterations, after the spans already taken. */
  function Continue(taken: seq<Span>, rest: Sliced): Sliced {
    Sliced(taken + rest.spans, rest.buf, rest.next)
  }

  /** The cell loop of parse for one row. */
  method ParseRow(buf: array<Byte>, start: nat, cols: nat) returns (cells: seq<Span>, next: nat)
    requires Terminated(buf[..]) && start < buf.Length
    modifies buf
    ensures Sliced(cells, buf[..], next) == RowCells(old(buf[..]), start, cols)
  {
    cells := [];
    var current: nat := start;
    var col: nat := 0;
    ghost var target := RowCells(buf[..], start, cols);
    ghost var left: nat := cols;
    while buf[current] != NUL && col < cols
      invariant col <= cols && left == cols - col && current < buf.Length && Terminated(buf[..])
      invariant target == Continue(cells, RowCells(buf[..], current, left))
      decreases left
    {
      ghost var m: nat := left - 1;
      var span, after := TakeCell(buf, current, cells, left, m);
      cells := cells + [span];
      current := after;
      col := col + 1;
      left := m;
    }
    next := current;
  }

  /** One iteration of the cell loop of parse: slice the field at the cursor. */
  method TakeCell(buf: array<Byte>, current: nat, ghost taken: seq<Span>, ghost n: nat, ghost m: nat)
    returns (span: Span, after: nat)
    requires Terminated(buf[..]) && current < buf.Length && buf[current] != NUL && n == m + 1
    modifies buf
    ensures Terminated(buf[..]) && after < buf.Length
    ensures Continue(taken, RowCells(old(buf[..]), current, n)) == Continue(taken + [span], RowCells(buf[..], after, m))
  {
    ghost var before := buf[..];
    span, after := SliceField(buf, current);
    RowCellsStep(before, current, n, m, taken, Cut(span, buf[..], after));
  }

  /** One iteration of the cell loop, on a cursor that is not on a NUL. */
  lemma RowCellsStep(s: Text, p: nat, n: nat, m: nat, taken: seq<Span>, c: Cut)
    requires Terminated(s) && p < |s| && n == m + 1 && s[p] != NUL && c == CutAt(s, p)
    ensures Continue(taken, RowCells(s, p, n)) == Continue(taken + [c.span], RowCells(c.buf, c.next, m))
  {
    AppendAssoc(taken, [c.span], RowCells(c.buf, c.next, m).spans);
  }

  /**
   * The number of data rows parse slices: one fewer than the number of
   * newlines (the header line), and none when there is no newline.
   */
  function DataRows(rowsCount: nat): (r: nat)
    ensures r <= rowsCount && (rowsCount > 0 ==> r + 1 == rowsCount)
  {
    if rowsCount == 0 then 0 else rowsCount - 1
  }

  /**
   * The bound `csv->rows_count - 1` of the row loops of parse and
   * detect_column_type as written: rows_count is an unsigned 64-bit count,
   * so the subtraction wraps when it is 0.
   */
  function RowBoundAsWritten(rowsCount: nat): (b: nat)
    requires rowsCount < U64
    ensures b < U64
  {
    (rowsCount + U64 - 1) % U64
  }

  /**
   * A buffer with no newline (a one-line file without its final '\n') has
   * rows_count 0, and the bound as written wraps to 2^64 - 1 rows, while
   * there is no data row to slice.
   */
  lemma NoNewlineWraps()
    ensures var s: Text := ['a', ',', 'b'];
      && Occ(s, '\n') == 0
      && RowBoundAsWritten(Occ(s, '\n')) == U64 - 1
      && DataRows(Occ(s, '\n')) == 0
  {
    var s: Text := ['a', ',', 'b'];
    assert s[1..] == [',', 'b'] && s[1..][1..] == ['b'] && s[1..][1..][1..] == [];
  }

  /**
   * The corrected bound agrees with the one as written on every count the
   * source can see except 0, and never exceeds the number of newlines.
   */
  lemma DataRowsAgrees(rowsCount: nat)
    requires rowsCount < U64
    ensures DataRows(rowsCount) <= rowsCount
    ensures rowsCount > 0 ==> DataRows(rowsCount) == RowBoundAsWritten(rowsCount)
    ensures rowsCount == 0 ==> RowBoundAsWritten(rowsCount) == U64 - 1 && DataRows(rowsCount) == 0
  {
  }

  /** parse: the row loop from `start`, with rows_count from count_rows_from_buffer. */
  method Parse(buf: array<Byte>, start: nat, rowsCount: nat, cols: nat) returns (rows: seq<seq<Span>>, next: nat)
    requires Terminated(buf[..]) && start < buf.Length
    modifies buf
    ensures Table(rows, buf[..], next) == Rows(old(buf[..]), start, DataRows(rowsCount), cols)
  {
    rows := [];
    var current: nat := start;
    var row: nat := 0;
    ghost var target := Rows(buf[..], start, DataRows(rowsCount), cols);
    ghost var left: nat := DataRows(rowsCount);
    while row < DataRows(rowsCount)
      invariant row <= DataRows(rowsCount) && left == DataRows(rowsCount) - row
      invariant current < buf.Length && Terminated(buf[..])
      invariant target == ContinueRows(rows, Rows(buf[..], current, left, cols))
    {
      ghost var before := buf[..];
      ghost var m: nat := left - 1;
      var cells, after := ParseRow(buf, current, cols);
      RowsStep(before, current, left, m, cols, rows, Sliced(cells, buf[..], after));
      rows := rows + [cells];
      current := after;
      row := row + 1;
      left := m;
    }
    next := current;
  }

  function ContinueRows(taken: seq<seq<Span>>, rest: Table): Table {
    Table(taken + rest.rows, rest.buf, rest.next)
  }

  /** One iteration of the row loop moves one row from the remaining rows to the taken ones. */
  lemma RowsStep(s: Text, p: nat, count: nat, left: nat, cols: nat, taken: seq<seq<Span>>, row: Sliced)
    requires Terminated(s) && p < |s| && count == left + 1 && row == RowCells(s, p, cols)
    ensures ContinueRows(taken, Rows(s, p, count, cols))
      == ContinueRows(taken + [row.spans], Rows(row.buf, row.next, left, cols))
  {
    AppendAssoc(taken, [row.spans], Rows(row.buf, row.next, left, cols).rows);
  }

  // ---------------------------------------------------------------------
  // detect_column_type of csvParser2.c
  // ---------------------------------------------------------------------

  /** A span that reads as a C string of exactly its bytes. */
  predicate Terminates(t: Text, sp: Span) {
    sp.offset + sp.size < |t| && t[sp.offset + sp.size] == NUL && NoNul(SpanText(t, sp))
  }

  /** Every row has a cell `col`, and it terminates. */
  predicate ColumnTerminates(t: Text, rows: seq<seq<Span>>, col: nat) {
    forall r :: 0 <= r < |rows| ==> col < |rows[r]| && Terminates(t, rows[r][col])
  }

  /** The texts of column `col` of the rows. */
  function ColumnTexts(t: Text, rows: seq<seq<Span>>, col: nat): (texts: seq<Text>)
    requires ColumnTerminates(t, rows, col)
    ensures |texts| == |rows|
    ensures forall r :: 0 <= r < |rows| ==> texts[r] == SpanText(t, rows[r][col])
  {
    seq(|rows|, r requires 0 <= r < |rows| => SpanText(t, rows[r][col]))
  }

  /** Parsed spans terminate in the final buffer, with the text of the original field. */
  lemma ParsedSpansTerminate(s: Text, p: nat, count: nat, cols: nat, i: nat, k: nat)
    requires Terminated(s) && p < |s|
    requires var r := Rows(s, p, count, cols); i < |r.rows| && k < |r.rows[i]|
    ensures var r := Rows(s, p, count, cols);
      Terminates(r.buf, r.rows[i][k]) && SpanText(r.buf, r.rows[i][k]) == SpanText(s, r.rows[i][k])
  {
    RowsSlices(s, p, count, cols);
    var r := Rows(s, p, count, cols);
    assert AllHold(s, r.buf, r.rows[i]);
    HoldsTerminates(s, r.buf, r.rows[i][k]);
  }

  /** A span that holds reads, in the final buffer, as a C string of its original bytes. */
  lemma HoldsTerminates(s: Text, t: Text, sp: Span)
    requires Holds(s, t, sp)
    ensures Terminates(t, sp) && SpanText(t, sp) == SpanText(s, sp)
  {
    assert forall j :: 0 <= j < sp.size ==> SpanText(s, sp)[j] == s[sp.offset + j];
  }

  /** The byte loop over a span, reading up to the NUL that ends it. */
  method ScanSpan(buf: array<Byte>, sp: Span, flags: Flags) returns (r: Flags)
    requires Terminates(buf[..], sp)
    ensures r == ScanFrom(flags, SpanText(buf[..], sp), 0, false)
  {
    ghost var s := SpanText(buf[..], sp);
    var isInteger, isFloat := flags.isInteger, flags.isFloat;
    var hasDot := false;
    var c := 0;
    while buf[sp.offset + c] != NUL
      invariant 0 <= c <= sp.size
      invariant ScanFrom(Flags(isInteger, isFloat, flags.isBoolean), s, c, hasDot) == ScanFrom(flags, s, 0, false)
      decreases sp.size - c
    {
      assert s[c] == buf[sp.offset + c];
      if !IsDigit(buf[sp.offset + c]) {
        if buf[sp.offset + c] == '.' && !hasDot && c > 0 {
          isFloat := true;
          hasDot := true;
          isInteger := false;
        } else {
          isInteger := false;
          isFloat := false;
          break;
        }
      }
      c := c + 1;
    }
    r := Flags(isInteger, isFloat, flags.isBoolean);
  }

  /** detect_column_type: every row's cell `col` is scanned, empty or not; only types[col] is written. */
  method DetectColumnType2(buf: array<Byte>, rows: seq<seq<Span>>, col: nat, types: array<ColumnType>)
    requires col < types.Length
    requires ColumnTerminates(buf[..], rows, col)
    modifies types
    ensures types[..] == old(types[..])[col := InferType2(ColumnTexts(buf[..], rows, col))]
  {
    var flags := ScanColumnSpans(buf, rows, col);
    types[col] := Classify(flags);
  }

  /** The row loop of detect_column_type: the flags of the pass over every span of column `col`. */
  method ScanColumnSpans(buf: array<Byte>, rows: seq<seq<Span>>, col: nat) returns (flags: Flags)
    requires ColumnTerminates(buf[..], rows, col)
    ensures flags == ScanColumn(Present(ColumnTexts(buf[..], rows, col)), false)
  {
    ghost var texts := ColumnTexts(buf[..], rows, col);
    ghost var cells := Present(texts);
    flags := INITIAL;
    for row := 0 to |rows|
      invariant flags == ScanColumn(cells[..row], false)
    {
      assert cells[..row + 1][..row] == cells[..row];
      assert cells[row] == Some(SpanText(buf[..], rows[row][col]));
      flags := ScanColumnCell(buf, rows[row][col], flags);
    }
    assert cells[..|rows|] == cells;
  }

  /** One iteration of the row loop of detect_column_type: is_bool on the span, then its byte scan. */
  method ScanColumnCell(buf: array<Byte>, data: Span, flags: Flags) returns (r: Flags)
    requires Terminates(buf[..], data)
    ensures r == CellStep(flags, Some(SpanText(buf[..], data)), false)
  {
    var f := flags;
    if !IsBool(buf[data.offset .. data.offset + data.size]) {
      f := f.(isBoolean := false);
    }
    r := ScanSpan(buf, data, f);
  }

  // ---------------------------------------------------------------------
  // Examples
  // ---------------------------------------------------------------------

  /**
   * "1\n2,3\n" with two columns: the short first line takes its second cell
   * from the next line, and the second row has the one cell left.
   */
  lemma RaggedLines()
    ensures var s: Text := ['1', '\n', '2', ',', '3', '\n', NUL];
      Rows(s, 0, 2, 2).rows == [[Span(0, 1), Span(2, 1)], [Span(4, 1)]]
  {
    var s: Text := ['1', '\n', '2', ',', '3', '\n', NUL];
    assert RunEnd(s, 0) == 1;
    var s1 := s[1 := NUL];
    assert RunEnd(s1, 2) == 3;
    var s2 := s1[3 := NUL];
    assert RowCells(s2, 4, 0) == Sliced([], s2, 4);
    assert RowCells(s, 0, 2).spans == [Span(0, 1), Span(2, 1)];
    assert RunEnd(s2, 4) == 5;
    var s3 := s2[5 := NUL];
    assert RowCells(s3, 6, 1) == Sliced([], s3, 6);
    assert RowCells(s2, 4, 2).spans == [Span(4, 1)];
  }

  /** Two delimiters in a row give a span of size 0. */
  lemma EmptyField()
    ensures var s: Text := ['a', ',', ',', 'b', NUL];
      Header(s, 0, 3).spans == [Span(0, 1), Span(2, 0), Span(3, 1)]
  {
    var s: Text := ['a', ',', ',', 'b', NUL];
    var s1 := s[1 := NUL];
    var s2 := s1[2 := NUL];
    assert RunEnd(s, 0) == 1;
    assert RunEnd(s1, 2) == 2;
    assert RunEnd(s2, 3) == 4;
  }
}
