/**
 * The copying tokenizer of csvParser.c: whitespace trimming of a C string in
 * place, the boolean spellings, field counting and the token-before-delimiter
 * scanner that the line loop of `parse` applies to each line.
 *
 * A C string is modelled by the bytes before its terminator (`NoNul`); the
 * in-place trims work on a buffer (`array<Byte>`) that holds a terminator.
 */
module Tokens {
  import opened Wrappers
  import opened Bytes

  // ---------------------------------------------------------------------
  // Trimming
  // ---------------------------------------------------------------------

  predicate AllSpace(s: Text) {
    forall i :: 0 <= i < |s| ==> IsSpace(s[i])
  }

  lemma SpacePrefix(s: Text, n: nat)
    requires n <= |s| && forall i :: 0 <= i < n ==> IsSpace(s[i])
    ensures AllSpace(s[..n])
  {
  }

  lemma SpaceSuffix(s: Text, n: nat)
    requires n <= |s| && forall i :: n <= i < |s| ==> IsSpace(s[i])
    ensures AllSpace(s[n..])
  {
  }

  /** Length of the maximal run of whitespace that starts `s`. */
  function LeadingSpaces(s: Text): (n: nat)
    ensures n <= |s|
    ensures forall i :: 0 <= i < n ==> IsSpace(s[i])
    ensures n < |s| ==> !IsSpace(s[n])
  {
    if s == [] || !IsSpace(s[0]) then 0 else 1 + LeadingSpaces(s[1..])
  }

  /** Length of `s` without the maximal run of whitespace that ends it. */
  function KeptLength(s: Text): (n: nat)
    ensures n <= |s|
    ensures forall i :: n <= i < |s| ==> IsSpace(s[i])
    ensures n > 0 ==> !IsSpace(s[n - 1])
  {
    if s == [] || !IsSpace(s[|s| - 1]) then |s| else KeptLength(s[..|s| - 1])
  }

  /** Any boundary with whitespace before it and a non-space byte (or the end) after it is LeadingSpaces. */
  lemma LeadingSpacesUnique(s: Text, n: nat)
    requires n <= |s| && (forall i :: 0 <= i < n ==> IsSpace(s[i])) && (n < |s| ==> !IsSpace(s[n]))
    ensures LeadingSpaces(s) == n
  {
  }

  /** Any boundary with whitespace after it and a non-space byte (or the start) before it is KeptLength. */
  lemma KeptLengthUnique(s: Text, n: nat)
    requires n <= |s| && (forall i :: n <= i < |s| ==> IsSpace(s[i])) && (n > 0 ==> !IsSpace(s[n - 1]))
    ensures KeptLength(s) == n
  {
  }

  /** `s` with its leading whitespace removed: a suffix after whitespace, empty or starting with a non-space byte. */
  function StripLeading(s: Text): (r: Text)
    ensures |r| <= |s| && forall i :: 0 <= i < |r| ==> r[i] == s[|s| - |r| + i]
    ensures forall i :: 0 <= i < |s| - |r| ==> IsSpace(s[i])
    ensures r != [] ==> !IsSpace(r[0])
  {
    s[LeadingSpaces(s)..]
  }

  /** `s` with its trailing whitespace removed: a prefix before whitespace, empty or ending with a non-space byte. */
  function StripTrailing(s: Text): (r: Text)
    ensures |r| <= |s| && forall i :: 0 <= i < |r| ==> r[i] == s[i]
    ensures forall i :: |r| <= i < |s| ==> IsSpace(s[i])
    ensures r != [] ==> !IsSpace(r[|r| - 1])
  {
    s[..KeptLength(s)]
  }

  /** trim = l_trim then r_trim: no longer than `s`, and empty or with non-space bytes at both ends. */
  function Strip(s: Text): (r: Text)
    ensures |r| <= |s|
    ensures r != [] ==> !IsSpace(r[0]) && !IsSpace(r[|r| - 1])
  {
    StripTrailing(StripLeading(s))
  }

  /**
   * What trim does to a string: it is cut into a leading whitespace run, the
   * result, and a trailing whitespace run; the result is an unchanged slice
   * of the input that is empty or starts and ends with a non-space byte.
   */
  lemma StripShape(s: Text)
    ensures var r := Strip(s); var k := LeadingSpaces(s);
      && k + |r| <= |s|
      && s == s[..k] + r + s[k + |r|..]
      && AllSpace(s[..k]) && AllSpace(s[k + |r|..])
      && (r != [] ==> !IsSpace(r[0]) && !IsSpace(r[|r| - 1]))
  {
    var k := LeadingSpaces(s);
    var n := KeptLength(s[k..]);
    StripSlice(s, k, n);
    StripEnds(s, k, n);
    SplitThree(s, k, n);
  }

  /** trim's result is the slice between the two whitespace runs. */
  lemma StripSlice(s: Text, k: nat, n: nat)
    requires k == LeadingSpaces(s) && n == KeptLength(s[k..])
    ensures k + n <= |s| && Strip(s) == s[k..k + n]
    ensures AllSpace(s[..k]) && AllSpace(s[k + n..])
  {
    DropTake(s, k, n);
    SpacePrefix(s, k);
    SpaceSuffix(s[k..], n);
  }

  /** A non-empty trim result starts and ends with a non-space byte. */
  lemma StripEnds(s: Text, k: nat, n: nat)
    requires k == LeadingSpaces(s) && n == KeptLength(s[k..])
    ensures var r := Strip(s); r != [] ==> !IsSpace(r[0]) && !IsSpace(r[|r| - 1])
  {
    var l := s[k..];
    var r := l[..n];
    assert r == Strip(s);
    if r != [] {
      assert r[0] == s[k];
      assert r[n - 1] == l[n - 1];
    }
  }

  /**
   * trim is determined by that shape: whenever `s` is a whitespace run, a
   * middle part that is empty or has non-space ends, and a whitespace run,
   * trim gives exactly the middle part.
   */
  lemma StripUnique(a: Text, m: Text, b: Text)
    requires AllSpace(a) && AllSpace(b)
    requires m != [] ==> !IsSpace(m[0]) && !IsSpace(m[|m| - 1])
    ensures Strip(a + m + b) == m
  {
    var s := a + m + b;
    var k := LeadingSpaces(s);
    if m != [] {
      assert s[|a|] == m[0];
      assert k == |a|;
      var l := s[k..];
      assert l == m + b;
      var n := KeptLength(l);
      assert l[|m| - 1] == m[|m| - 1];
      KeptLengthUnique(l, |m|);
      assert l[..n] == m;
    } else {
      assert AllSpace(s);
      assert k == |s|;
    }
  }

  /** Trimming twice is trimming once. */
  lemma StripIdempotent(s: Text)
    ensures Strip(Strip(s)) == Strip(s)
  {
    StripFixed(Strip(s));
  }

  /** A string that is empty or has non-space bytes at both ends is left as it is by trim. */
  lemma StripFixed(r: Text)
    requires r != [] ==> !IsSpace(r[0]) && !IsSpace(r[|r| - 1])
    ensures Strip(r) == r
  {
    LeadingSpacesUnique(r, 0);
    assert r[0..] == r;
    KeptLengthUnique(r, |r|);
  }

  /** r_trim on a buffer: a NUL written right after the last non-space byte of its string. */
  function RTrimmed(s: Text): Text
    requires NUL in s
  {
    s[|StripTrailing(CStr(s))| := NUL]
  }

  /**
   * l_trim on a buffer: when the string starts with k > 0 spaces, its last
   * n - k + 1 bytes (terminator included) are moved to the front.
   */
  function LTrimmed(s: Text): (r: Text)
    requires NUL in s
    ensures |r| == |s|
  {
    var n := StrLen(s);
    var k := LeadingSpaces(CStr(s));
    s[k .. n + 1] + s[n + 1 - k ..]
  }

  /** The string left in a buffer by r_trim is its old string without trailing whitespace. */
  lemma RTrimmedString(s: Text)
    requires NUL in s
    ensures NUL in RTrimmed(s) && CStr(RTrimmed(s)) == StripTrailing(CStr(s))
  {
    var t := StripTrailing(CStr(s));
    var r := RTrimmed(s);
    assert r[|t|] == NUL;
    assert r[..|t|] == t;
    StrLenUnique(r, |t|);
  }

  /** The string left in a buffer by l_trim is its old string without leading whitespace. */
  lemma LTrimmedString(s: Text)
    requires NUL in s
    ensures NUL in LTrimmed(s) && CStr(LTrimmed(s)) == StripLeading(CStr(s))
  {
    var n := StrLen(s);
    var c := CStr(s);
    var k := LeadingSpaces(c);
    var r := LTrimmed(s);
    var t := StripLeading(c);
    assert r[n - k] == NUL;
    assert r[..n - k] == t;
    StrLenUnique(r, n - k);
  }

  /** r_trim */
  method RTrim(a: array<Byte>)
    requires NUL in a[..]
    modifies a
    ensures NUL in a[..]
    ensures a[..] == RTrimmed(old(a[..]))
  {
    ghost var c := CStr(a[..]);
    var len := StrLen(a[..]);
    var e := len;
    while e > 0 && IsSpace(a[e - 1])
      invariant 0 <= e <= len
      invariant AllSpace(c[e..])
    {
      e := e - 1;
    }
    KeptLengthUnique(c, e);
    a[e] := NUL;
    RTrimmedString(old(a[..]));
  }

  /** l_trim: skip the leading spaces, then memmove the rest (terminator included) to the front. */
  method LTrim(a: array<Byte>)
    requires NUL in a[..]
    modifies a
    ensures NUL in a[..]
    ensures a[..] == LTrimmed(old(a[..]))
  {
    ghost var s := a[..];
    var start := SkipSpaces(a);
    if start > 0 {
      var len := StrLen(a[..]);
      MoveDown(a, start, len);
    } else {
      assert s[0 .. StrLen(s) + 1] + s[StrLen(s) + 1 ..] == s;
    }
    LTrimmedString(s);
  }

  /** The first loop of l_trim: the number of leading whitespace bytes of the string. */
  method SkipSpaces(a: array<Byte>) returns (start: nat)
    requires NUL in a[..]
    ensures start == LeadingSpaces(CStr(a[..]))
  {
    ghost var c := CStr(a[..]);
    CStrOfArray(a);
    start := 0;
    while IsSpace(a[start])
      invariant start <= |c|
      invariant forall i :: 0 <= i < start ==> IsSpace(c[i])
      decreases |c| - start
    {
      start := start + 1;
    }
    LeadingSpacesUnique(c, start);
  }

  /** memmove(str, str + start, len - start + 1): the string from `start`, terminator included, moves to the front. */
  method MoveDown(a: array<Byte>, start: nat, len: nat)
    requires 0 < start <= len < a.Length
    modifies a
    ensures a[..] == old(a[..])[start .. len + 1] + old(a[..])[len + 1 - start ..]
  {
    forall i | 0 <= i <= len - start {
      a[i] := a[i + start];
    }
  }

  /** trim: l_trim then r_trim; the buffer's string becomes its old string trimmed. */
  method Trim(a: array<Byte>)
    requires NUL in a[..]
    modifies a
    ensures NUL in a[..]
    ensures a[..] == RTrimmed(LTrimmed(old(a[..])))
    ensures CStr(a[..]) == Strip(old(CStr(a[..])))
  {
    LTrim(a);
    RTrim(a);
    LTrimmedString(old(a[..]));
    RTrimmedString(LTrimmed(old(a[..])));
  }

  // ---------------------------------------------------------------------
  // Booleans, field counting, tokens
  // ---------------------------------------------------------------------

  /** is_bool: exactly the four spellings true, TRUE, false, FALSE. */
  predicate IsBool(s: Text): (b: bool)
    ensures b ==> 4 <= |s| <= 5
    ensures b ==> forall i :: 0 <= i < |s| ==> !IsDigit(s[i]) && !IsSpace(s[i]) && s[i] != NUL
  {
    s == "true" || s == "TRUE" || s == "false" || s == "FALSE"
  }

  /** strchr(s + from, c): the first index at or after `from` holding `c`. */
  function Chr(s: Text, c: Byte, from: nat): (r: Option<nat>)
    requires from <= |s|
    ensures r.Some? ==> from <= r.value < |s| && s[r.value] == c
    ensures r.Some? ==> forall i :: from <= i < r.value ==> s[i] != c
    ensures r.None? ==> forall i :: from <= i < |s| ==> s[i] != c
    decreases |s| - from
  {
    if from == |s| then None
    else if s[from] == c then Some(from)
    else Chr(s, c, from + 1)
  }

  lemma OccAbsent(s: Text, c: Byte)
    requires forall i :: 0 <= i < |s| ==> s[i] != c
    ensures Occ(s, c) == 0
  {
    assert c !in s;
  }

  /** The strchr loop of count_fields and count_rows_from_buffer: the number of `c` bytes in `s`. */
  method CountChar(s: Text, c: Byte) returns (count: nat)
    requires NoNul(s) && c != NUL
    ensures count == Occ(s, c)
  {
    count := 0;
    var p := 0;
    var pos := Chr(s, c, p);
    while pos.Some?
      invariant 0 <= p <= |s|
      invariant pos == Chr(s, c, p)
      invariant count == Occ(s[..p], c)
      decreases |s| - p
    {
      var q := pos.value;
      assert s[..q + 1] == s[..p] + s[p..q] + [s[q]];
      OccAbsent(s[p..q], c);
      OccSplit(s[..p] + s[p..q], [s[q]], c);
      OccSplit(s[..p], s[p..q], c);
      count := count + 1;
      p := q + 1;
      pos := Chr(s, c, p);
    }
    assert s == s[..p] + s[p..];
    OccAbsent(s[p..], c);
    OccSplit(s[..p], s[p..], c);
  }

  /** count_fields: one more than the number of occurrences of the delimiter. */
  method CountFields(header: Text, delimiter: Byte) returns (fields: nat)
    requires NoNul(header) && delimiter != NUL
    ensures fields == Occ(header, delimiter) + 1
  {
    var count := CountChar(header, delimiter);
    fields := count + 1;
  }

  const NULL_TOKEN: Text := "NULL"

  /** The delimiters the copying parser splits lines on. */
  const DELIMS: Text := ";,\n"

  /** The earliest index of `s` that holds one of `delims`. */
  function FirstDelim(s: Text, delims: Text): (r: Option<nat>)
    ensures r.Some? ==> r.value < |s| && s[r.value] in delims
    ensures r.Some? ==> forall i :: 0 <= i < r.value ==> s[i] !in delims
    ensures r.None? ==> forall i :: 0 <= i < |s| ==> s[i] !in delims
  {
    if s == [] then None
    else if s[0] in delims then Some(0)
    else
      var r := FirstDelim(s[1..], delims);
      if r.None? then None else Some(r.value + 1)
  }

  /**
   * get_token_before_delim as a function: the bytes before the earliest
   * delimiter (or the literal "NULL" when there are none), and the cursor one
   * past that delimiter, or NULL (None) when no delimiter occurs.
   */
  function TokenBefore(s: Text, delims: Text): (r: (Text, Option<nat>))
    ensures r.1.Some? ==> 0 < r.1.value <= |s|
  {
    var d := FirstDelim(s, delims);
    var len := if d.Some? then d.value else |s|;
    (if len == 0 then NULL_TOKEN else s[..len], if d.Some? then Some(d.value + 1) else None)
  }

  /**
   * What get_token_before_delim returns, stated on the bytes: with a cursor,
   * the byte before it is a delimiter and none comes earlier; without one, the
   * string holds no delimiter; the token is everything before the delimiter
   * (or the whole string), and "NULL" when that is empty.
   */
  lemma TokenBeforeMeaning(s: Text, delims: Text)
    ensures var r := TokenBefore(s, delims);
      && (r.1.Some? ==> s[r.1.value - 1] in delims && forall i :: 0 <= i < r.1.value - 1 ==> s[i] !in delims)
      && (r.1.None? ==> forall i :: 0 <= i < |s| ==> s[i] !in delims)
      && var len := if r.1.Some? then r.1.value - 1 else |s|;
         r.0 == if len == 0 then NULL_TOKEN else s[..len]
  {
  }

  /** get_token_before_delim: one strchr per delimiter, keeping the earliest hit. */
  method GetTokenBeforeDelim(str: Text, delims: Text) returns (token: Text, next: Option<nat>)
    requires NoNul(str) && NoNul(delims)
    ensures (token, next) == TokenBefore(str, delims)
  {
    var first: Option<nat> := None;
    for i := 0 to |delims|
      invariant first.Some? ==> first.value < |str| && str[first.value] in delims[..i]
      invariant first.Some? ==> forall j :: 0 <= j < first.value ==> str[j] !in delims[..i]
      invariant first.None? ==> forall j :: 0 <= j < |str| ==> str[j] !in delims[..i]
    {
      assert delims[..i + 1] == delims[..i] + [delims[i]];
      var pos := Chr(str, delims[i], 0);
      if pos.Some? && (first.None? || pos.value < first.value) {
        first := pos;
      }
    }
    assert delims[..|delims|] == delims;
    var d := FirstDelim(str, delims);
    assert first == d;
    next := if first.Some? then Some(first.value + 1) else None;
    var len := if first.Some? then first.value else |str|;
    if len == 0 {
      token := NULL_TOKEN;
    } else {
      token := str[..len];
    }
  }

  /**
   * The cells the line loop of `parse` stores for one line: tokens taken one
   * after another while the cursor is not NULL, not at the terminator, and
   * fewer than `cols` cells have been taken.
   */
  function LineCells(line: Text, cols: nat): seq<Text>
    decreases |line|
  {
    if cols == 0 || line == [] then []
    else
      var t := TokenBefore(line, DELIMS);
      if t.1.None? then [t.0] else [t.0] + LineCells(line[t.1.value..], cols - 1)
  }

  /** The cells still to come when the cursor is `current` and `n` more may be taken. */
  function Pending(line: Text, current: Option<nat>, n: nat): seq<Text>
    requires current.Some? ==> current.value <= |line|
  {
    if current.None? then [] else LineCells(line[current.value..], n)
  }

  /** The line loop of `parse` (without the fgets that reads the line). */
  method SplitLine(line: Text, cols: nat) returns (cells: seq<Text>)
    requires NoNul(line)
    ensures cells == LineCells(line, cols)
  {
    cells := [];
    var current: Option<nat> := Some(0);
    var col: nat := 0;
    assert line[0..] == line;
    while current.Some? && current.value < |line| && col < cols
      invariant col <= cols
      invariant current.Some? ==> current.value <= |line|
      invariant LineCells(line, cols) == cells + Pending(line, current, cols - col)
      decreases if current.Some? then |line| - current.value + 1 else 0
    {
      var token, next := GetTokenBeforeDelim(line[current.value..], DELIMS);
      var following: Option<nat> := if next.Some? then Some(current.value + next.value) else None;
      var k: nat := cols - col;
      var n: nat := k - 1;
      PendingStep(line, current, k, n, token, next, following);
      AppendAssoc(cells, [token], Pending(line, following, n));
      cells := cells + [token];
      current := following;
      col := col + 1;
      assert cols - col == n;
    }
  }

  lemma AppendAssoc<T>(a: seq<T>, b: seq<T>, c: seq<T>)
    ensures a + (b + c) == (a + b) + c
  {
  }

  /** One step of the line loop, seen from the cursor `current` of the whole line. */
  lemma PendingStep(line: Text, current: Option<nat>, k: nat, n: nat, token: Text, next: Option<nat>, following: Option<nat>)
    requires current.Some? && current.value < |line| && k == n + 1
    requires (token, next) == TokenBefore(line[current.value..], DELIMS)
    requires following == if next.Some? then Some(current.value + next.value) else None
    ensures following.Some? ==> following.value <= |line|
    ensures Pending(line, current, k) == [token] + Pending(line, following, n)
  {
    var rest := line[current.value..];
    LineCellsStep(rest, k, n);
    var t := TokenBefore(rest, DELIMS);
    assert t.0 == token && t.1 == next;
    assert Pending(line, current, k) == LineCells(rest, k);
    if next.Some? {
      var tail := rest[next.value..];
      DropDrop(line, current.value, next.value);
      assert following.value == current.value + next.value;
      assert line[following.value..] == tail;
      assert LineCells(rest, k) == [token] + LineCells(tail, n);
    } else {
      assert Pending(line, following, n) == [];
      assert LineCells(rest, k) == [token];
    }
  }

  /** One step of the line loop: the first cell, then the cells after its delimiter. */
  lemma LineCellsStep(line: Text, cols: nat, m: nat)
    requires cols == m + 1 && line != []
    ensures var t := TokenBefore(line, DELIMS);
      LineCells(line, cols) == [t.0] + if t.1.None? then [] else LineCells(line[t.1.value..], m)
  {
  }

  /** Number of delimiter bytes in `s`. */
  function DelimCount(s: Text): nat {
    if s == [] then 0 else (if s[0] in DELIMS then 1 else 0) + DelimCount(s[1..])
  }

  /**
   * The cells of a line: at most `cols` of them, each non-empty (an empty
   * field becomes "NULL") and free of delimiters.
   */
  lemma {:induction false} LineCellsClean(line: Text, cols: nat)
    ensures var cells := LineCells(line, cols);
      |cells| <= cols && AllClean(cells)
    decreases |line|
  {
    if cols > 0 && line != [] {
      var t := TokenBefore(line, DELIMS);
      TokenClean(line);
      if t.1.Some? {
        var rest := line[t.1.value..];
        var n: nat := cols - 1;
        LineCellsClean(rest, n);
        CleanStep(line, cols, t, rest, n);
      } else {
        CellsCons(t.0, [], cols);
      }
    }
  }

  /** The induction step of LineCellsClean, on the exact terms of the recursion. */
  lemma CleanStep(line: Text, cols: nat, t: (Text, Option<nat>), rest: Text, n: nat)
    requires cols > 0 && line != [] && t == TokenBefore(line, DELIMS) && t.1.Some?
    requires rest == line[t.1.value..] && n == cols - 1
    requires CleanCell(t.0) && |LineCells(rest, n)| <= n && AllClean(LineCells(rest, n))
    ensures |LineCells(line, cols)| <= cols && AllClean(LineCells(line, cols))
  {
    assert LineCells(line, cols) == [t.0] + LineCells(rest, n);
    CellsCons(t.0, LineCells(rest, n), cols);
  }

  /** A cell in front of at most `cols - 1` clean cells. */
  lemma CellsCons(c: Text, cells: seq<Text>, cols: nat)
    requires 0 < cols && |cells| <= cols - 1
    requires CleanCell(c) && AllClean(cells)
    ensures |[c] + cells| <= cols && AllClean([c] + cells)
  {
    assert forall i :: 0 < i < |[c] + cells| ==> ([c] + cells)[i] == cells[i - 1];
  }

  /** The token get_token_before_delim returns is never empty and holds no delimiter. */
  lemma TokenClean(line: Text)
    ensures CleanCell(TokenBefore(line, DELIMS).0)
  {
    TokenBeforeMeaning(line, DELIMS);
  }

  /**
   * With enough columns a line has one cell per delimiter, plus one for a
   * last field that no delimiter ends.
   */
  lemma {:induction false} LineCellsCount(line: Text, cols: nat)
    requires cols >= DelimCount(line) + 1
    ensures |LineCells(line, cols)| == DelimCount(line) + (if line == [] || line[|line| - 1] in DELIMS then 0 else 1)
    decreases |line|
  {
    if line != [] {
      var t := TokenBefore(line, DELIMS);
      TokenBeforeMeaning(line, DELIMS);
      if t.1.None? {
        NoDelimCount(line);
      } else {
        var j := t.1.value - 1;
        var rest := line[j + 1..];
        DelimCountSplit(line, j);
        var m: nat := cols - 1;
        LineCellsStep(line, cols, m);
        LineCellsCount(rest, m);
        assert LineCells(line, cols) == [t.0] + LineCells(rest, m);
        if rest != [] {
          assert line[|line| - 1] == rest[|rest| - 1];
        }
      }
    }
  }

  /** A stored cell: non-empty and free of delimiters. */
  predicate CleanCell(c: Text) {
    c != [] && forall k :: 0 <= k < |c| ==> c[k] !in DELIMS
  }

  predicate AllClean(cells: seq<Text>) {
    forall i :: 0 <= i < |cells| ==> CleanCell(cells[i])
  }

  lemma {:induction false} NoDelimCount(s: Text)
    requires forall i :: 0 <= i < |s| ==> s[i] !in DELIMS
    ensures DelimCount(s) == 0
  {
    if s != [] {
      NoDelimCount(s[1..]);
    }
  }

  /** A line whose first delimiter is at `j` has one more delimiter than what follows `j`. */
  lemma {:induction false} DelimCountSplit(s: Text, j: nat)
    requires j < |s| && s[j] in DELIMS
    requires forall i :: 0 <= i < j ==> s[i] !in DELIMS
    ensures DelimCount(s) == 1 + DelimCount(s[j + 1..])
  {
    if j > 0 {
      DelimCountSplit(s[1..], j - 1);
      assert s[1..][j..] == s[j + 1..];
    }
  }
}
