/**
 * Column type inference (detect_column_type), shared by both parsers.
 *
 * One pass over the cells of a column keeps three flags, is_integer,
 * is_float and is_boolean, starting at (1, 0, 1); a fixed precedence then
 * picks the column type. csvParser.c skips a missing (NULL) or empty cell;
 * csvParser2.c scans every cell. `ScanColumn` is the pass for both, with
 * `skipEmpty` telling them apart; a cell is `None` when it is NULL.
 */
module TypeInference {
  import opened Wrappers
  import opened Bytes
  import opened Tokens

  /** ColumnType of csvParser.h, CSV_TYPE_UNKNOWN aside (inference never yields it). */
  datatype ColumnType = Integer | Float | Boolean | String

  datatype Flags = Flags(isInteger: bool, isFloat: bool, isBoolean: bool)

  const INITIAL: Flags := Flags(true, false, true)

  // ---------------------------------------------------------------------
  // Reference predicates on a cell
  // ---------------------------------------------------------------------

  predicate AllDigits(s: Text) {
    forall i :: 0 <= i < |s| ==> IsDigit(s[i])
  }

  /** Digits, one '.' that is not the first byte, then digits: "12.", "1.5", not ".5" or "1.2.3". */
  predicate IsDecimal(s: Text) {
    exists k :: 0 < k < |s| && s[k] == '.' && AllDigits(s[..k]) && AllDigits(s[k + 1..])
  }

  /** Index of the first non-digit at or after `from`, or |s|. */
  function NonDigitFrom(s: Text, from: nat): (k: nat)
    requires from <= |s|
    ensures from <= k <= |s|
    ensures forall i :: from <= i < k ==> IsDigit(s[i])
    ensures k < |s| ==> !IsDigit(s[k])
    decreases |s| - from
  {
    if from == |s| || !IsDigit(s[from]) then from else NonDigitFrom(s, from + 1)
  }

  // ---------------------------------------------------------------------
  // The scan of one cell
  // ---------------------------------------------------------------------

  /**
   * The inner loop over the bytes of a cell from index `c` on: a digit is
   * passed over; the first '.' at an index above 0 sets is_float and clears
   * is_integer; any other non-digit clears both and ends the scan.
   */
  function ScanFrom(f: Flags, s: Text, c: nat, hasDot: bool): Flags
    requires c <= |s|
    decreases |s| - c
  {
    if c == |s| then f
    else if IsDigit(s[c]) then ScanFrom(f, s, c + 1, hasDot)
    else if s[c] == '.' && !hasDot && c > 0 then ScanFrom(f.(isFloat := true, isInteger := false), s, c + 1, true)
    else f.(isInteger := false, isFloat := false)
  }

  lemma {:induction false} SkipDigits(f: Flags, s: Text, c: nat, hasDot: bool, k: nat)
    requires c <= k <= |s|
    requires forall i :: c <= i < k ==> IsDigit(s[i])
    ensures ScanFrom(f, s, c, hasDot) == ScanFrom(f, s, k, hasDot)
    decreases k - c
  {
    if c < k {
      SkipDigits(f, s, c + 1, hasDot, k);
    }
  }

  /**
   * What the scan of a cell does to the flags: nothing to an all-digit cell;
   * is_float set and is_integer cleared for a decimal; both cleared for
   * anything else. is_boolean is never touched by the scan.
   */
  lemma CellEffect(f: Flags, s: Text)
    ensures ScanFrom(f, s, 0, false) ==
      if AllDigits(s) then f
      else if IsDecimal(s) then f.(isInteger := false, isFloat := true)
      else f.(isInteger := false, isFloat := false)
  {
    var k := NonDigitFrom(s, 0);
    SkipDigits(f, s, 0, false, k);
    // No '.' before k, and every prefix longer than k holds the non-digit s[k].
    forall j | k < j <= |s|
      ensures !AllDigits(s[..j])
    {
      assert s[..j][k] == s[k];
    }
    assert forall j :: 0 <= j < k ==> s[j] != '.';
    if k < |s| && s[k] == '.' && k > 0 {
      var f' := f.(isFloat := true, isInteger := false);
      var k2 := NonDigitFrom(s, k + 1);
      SkipDigits(f', s, k + 1, true, k2);
      assert AllDigits(s[..k]);
      if k2 == |s| {
        assert AllDigits(s[k + 1..]);
      } else {
        assert s[k + 1..][k2 - k - 1] == s[k2];
      }
    }
  }

  // ---------------------------------------------------------------------
  // The pass over a column
  // ---------------------------------------------------------------------

  /** Whether the pass looks at a cell: always in csvParser2.c; in csvParser.c only when set and non-empty. */
  predicate Scanned(c: Option<Text>, skipEmpty: bool) {
    c.Some? && !(skipEmpty && c.value == [])
  }

  /** One iteration of the row loop: is_bool, then the byte scan. */
  function CellStep(f: Flags, c: Option<Text>, skipEmpty: bool): Flags {
    if !Scanned(c, skipEmpty) then f
    else ScanFrom(f.(isBoolean := f.isBoolean && IsBool(c.value)), c.value, 0, false)
  }

  /** The flags after the row loop has visited `cells` in order. */
  function ScanColumn(cells: seq<Option<Text>>, skipEmpty: bool): Flags {
    if cells == [] then INITIAL
    else CellStep(ScanColumn(cells[..|cells| - 1], skipEmpty), cells[|cells| - 1], skipEmpty)
  }

  /** The precedence: Integer, then Boolean, then Float, else String. */
  function Classify(f: Flags): (t: ColumnType)
    ensures t == Integer <==> f.isInteger
    ensures t == Boolean <==> !f.isInteger && f.isBoolean
    ensures t == Float <==> !f.isInteger && !f.isBoolean && f.isFloat
  {
    if f.isInteger then Integer
    else if f.isBoolean then Boolean
    else if f.isFloat then Float
    else String
  }

  /** detect_column_type of csvParser.c: NULL and empty cells are skipped. */
  function InferType1(cells: seq<Option<Text>>): (t: ColumnType)
    ensures t == TypeOn(cells, true)
  {
    InferTypeMeaning(cells, true);
    Classify(ScanColumn(cells, true))
  }

  /** The cells of csvParser2.c: every span has a content. */
  function Present(texts: seq<Text>): (cells: seq<Option<Text>>)
    ensures |cells| == |texts| && forall i :: 0 <= i < |texts| ==> cells[i] == Some(texts[i])
  {
    seq(|texts|, i requires 0 <= i < |texts| => Some(texts[i]))
  }

  /** detect_column_type of csvParser2.c: no cell is skipped. */
  function InferType2(texts: seq<Text>): (t: ColumnType)
    ensures t == TypeOn(Present(texts), false)
  {
    InferTypeMeaning(Present(texts), false);
    Classify(ScanColumn(Present(texts), false))
  }

  // ---------------------------------------------------------------------
  // What the flags mean
  // ---------------------------------------------------------------------

  predicate ScannedDigits(cells: seq<Option<Text>>, skipEmpty: bool) {
    forall i :: 0 <= i < |cells| && Scanned(cells[i], skipEmpty) ==> AllDigits(cells[i].value)
  }

  predicate ScannedBools(cells: seq<Option<Text>>, skipEmpty: bool) {
    forall i :: 0 <= i < |cells| && Scanned(cells[i], skipEmpty) ==> IsBool(cells[i].value)
  }

  /** Every scanned cell after index i is all digits. */
  predicate DigitsAfter(cells: seq<Option<Text>>, skipEmpty: bool, i: int) {
    forall j :: 0 <= j < |cells| && i < j && Scanned(cells[j], skipEmpty) ==> AllDigits(cells[j].value)
  }

  /** Some scanned cell is a decimal, and no later scanned cell has a non-digit. */
  predicate FloatCandidate(cells: seq<Option<Text>>, skipEmpty: bool) {
    exists i :: 0 <= i < |cells| && Scanned(cells[i], skipEmpty) && IsDecimal(cells[i].value)
      && DigitsAfter(cells, skipEmpty, i)
  }

  /**
   * The type a column's cells call for: Integer when every scanned cell is
   * all digits (so also for a column with nothing scanned); else Boolean
   * when every scanned cell is a boolean spelling; else Float when the float
   * condition holds; else String.
   */
  function TypeOn(cells: seq<Option<Text>>, skipEmpty: bool): ColumnType {
    if ScannedDigits(cells, skipEmpty) then Integer
    else if ScannedBools(cells, skipEmpty) then Boolean
    else if FloatCandidate(cells, skipEmpty) then Float
    else String
  }

  lemma DigitsNotDecimal(s: Text)
    requires AllDigits(s)
    ensures !IsDecimal(s)
  {
  }

  /**
   * The flags after the pass: is_integer holds iff every scanned cell is all
   * digits, is_boolean iff every scanned cell is one of the four boolean
   * spellings, and is_float iff some scanned cell is a decimal after which
   * every scanned cell is all digits (a later cell can set is_float again).
   */
  lemma {:induction false} ScanColumnFlags(cells: seq<Option<Text>>, skipEmpty: bool)
    ensures ScanColumn(cells, skipEmpty)
      == Flags(ScannedDigits(cells, skipEmpty), FloatCandidate(cells, skipEmpty), ScannedBools(cells, skipEmpty))
  {
    if cells != [] {
      var n := |cells| - 1;
      var init := cells[..n];
      var x := cells[n];
      ScanColumnFlags(init, skipEmpty);
      AllCellsSnoc(cells, skipEmpty);
      var f := ScanColumn(init, skipEmpty);
      if Scanned(x, skipEmpty) {
        CellEffect(f.(isBoolean := f.isBoolean && IsBool(x.value)), x.value);
        if AllDigits(x.value) {
          FloatCandidateExtends(cells, skipEmpty);
        } else if IsDecimal(x.value) {
          assert DigitsAfter(cells, skipEmpty, n);
        } else {
          FloatCandidateBroken(cells, skipEmpty);
        }
      } else {
        FloatCandidateExtends(cells, skipEmpty);
      }
    }
  }

  /** The digit and boolean conditions on a column are those on its prefix and on its last cell. */
  lemma AllCellsSnoc(cells: seq<Option<Text>>, skipEmpty: bool)
    requires cells != []
    ensures var n := |cells| - 1; var x := cells[n];
      && ScannedDigits(cells, skipEmpty) == (ScannedDigits(cells[..n], skipEmpty) && (Scanned(x, skipEmpty) ==> AllDigits(x.value)))
      && ScannedBools(cells, skipEmpty) == (ScannedBools(cells[..n], skipEmpty) && (Scanned(x, skipEmpty) ==> IsBool(x.value)))
  {
    var n := |cells| - 1;
    assert forall i :: 0 <= i < n ==> cells[..n][i] == cells[i];
  }

  /** A scanned last cell that is neither all digits nor a decimal leaves no float candidate. */
  lemma FloatCandidateBroken(cells: seq<Option<Text>>, skipEmpty: bool)
    requires cells != []
    requires var x := cells[|cells| - 1]; Scanned(x, skipEmpty) && !AllDigits(x.value) && !IsDecimal(x.value)
    ensures !FloatCandidate(cells, skipEmpty)
  {
    var n := |cells| - 1;
    forall i | 0 <= i < n
      ensures !DigitsAfter(cells, skipEmpty, i)
    {
      assert i < n < |cells|;
    }
  }

  /**
   * When the last cell is skipped or all digits, the float condition on the
   * whole column is the float condition on the column without it.
   */
  lemma FloatCandidateExtends(cells: seq<Option<Text>>, skipEmpty: bool)
    requires cells != []
    requires var x := cells[|cells| - 1]; Scanned(x, skipEmpty) ==> AllDigits(x.value)
    ensures FloatCandidate(cells, skipEmpty) == FloatCandidate(cells[..|cells| - 1], skipEmpty)
  {
    var n := |cells| - 1;
    var init := cells[..n];
    assert forall i :: 0 <= i < n ==> init[i] == cells[i];
    if Scanned(cells[n], skipEmpty) {
      DigitsNotDecimal(cells[n].value);
    }
    if FloatCandidate(cells, skipEmpty) {
      var i :| 0 <= i < |cells| && Scanned(cells[i], skipEmpty) && IsDecimal(cells[i].value)
        && DigitsAfter(cells, skipEmpty, i);
      assert DigitsAfter(init, skipEmpty, i);
    }
    if FloatCandidate(init, skipEmpty) {
      var i :| 0 <= i < |init| && Scanned(init[i], skipEmpty) && IsDecimal(init[i].value)
        && DigitsAfter(init, skipEmpty, i);
      assert DigitsAfter(cells, skipEmpty, i);
    }
  }

  /** The flags of the pass, classified by precedence, give the type the cells call for. */
  lemma InferTypeMeaning(cells: seq<Option<Text>>, skipEmpty: bool)
    ensures Classify(ScanColumn(cells, skipEmpty)) == TypeOn(cells, skipEmpty)
  {
    ScanColumnFlags(cells, skipEmpty);
  }

  /** is_integer and is_boolean are never set again once cleared: they can only hold on a prefix. */
  lemma FlagsMonotone(cells: seq<Option<Text>>, skipEmpty: bool, k: nat)
    requires k <= |cells|
    ensures ScanColumn(cells, skipEmpty).isInteger ==> ScanColumn(cells[..k], skipEmpty).isInteger
    ensures ScanColumn(cells, skipEmpty).isBoolean ==> ScanColumn(cells[..k], skipEmpty).isBoolean
  {
    ScanColumnFlags(cells, skipEmpty);
    ScanColumnFlags(cells[..k], skipEmpty);
    assert forall i :: 0 <= i < k ==> cells[..k][i] == cells[i];
  }

  // ---------------------------------------------------------------------
  // detect_column_type of csvParser.c
  // ---------------------------------------------------------------------

  /** Column `col` of a table whose rows hold at least col + 1 cells. */
  function Column(rows: seq<seq<Option<Text>>>, col: nat): (cells: seq<Option<Text>>)
    requires forall r :: 0 <= r < |rows| ==> col < |rows[r]|
    ensures |cells| == |rows| && forall r :: 0 <= r < |rows| ==> cells[r] == rows[r][col]
  {
    seq(|rows|, r requires 0 <= r < |rows| => rows[r][col])
  }

  /**
   * The byte loop of one cell: runs from `flags` to ScanFrom(flags, s, 0, false),
   * leaving early on a non-numeric byte.
   */
  method ScanCell(flags: Flags, s: Text) returns (r: Flags)
    ensures r == ScanFrom(flags, s, 0, false)
  {
    var isInteger, isFloat := flags.isInteger, flags.isFloat;
    var hasDot := false;
    var c := 0;
    while c < |s|
      invariant 0 <= c <= |s|
      invariant ScanFrom(Flags(isInteger, isFloat, flags.isBoolean), s, c, hasDot) == ScanFrom(flags, s, 0, false)
    {
      if !IsDigit(s[c]) {
        if s[c] == '.' && !hasDot && c > 0 {
          isFloat := true;
          hasDot := true;
          isInteger := false;
        } else {
          isInteger := false;
          isFloat := false;
          break;
        }
      }
      c := c + 1;
    }
    r := Flags(isInteger, isFloat, flags.isBoolean);
  }

  /**
   * detect_column_type: the row loop over column `col` (skipping NULL and
   * empty cells), then the precedence; only types[col] is written.
   */
  method DetectColumnType1(rows: seq<seq<Option<Text>>>, col: nat, types: array<ColumnType>)
    requires col < types.Length
    requires forall r :: 0 <= r < |rows| ==> col < |rows[r]|
    modifies types
    ensures types[..] == old(types[..])[col := InferType1(Column(rows, col))]
  {
    ghost var cells := Column(rows, col);
    var flags := INITIAL;
    for row := 0 to |rows|
      invariant flags == ScanColumn(cells[..row], true)
      invariant types[..] == old(types[..])
    {
      assert cells[..row + 1][..row] == cells[..row];
      var data := rows[row][col];
      if data.None? || data.value == [] {
        continue;
      }
      if !IsBool(data.value) {
        flags := flags.(isBoolean := false);
      }
      flags := ScanCell(flags, data.value);
    }
    assert cells[..|rows|] == cells;
    types[col] := Classify(flags);
  }

  // ---------------------------------------------------------------------
  // The two variants compared
  // ---------------------------------------------------------------------

  /** On a column with no empty cell the two variants infer the same type. */
  lemma VariantsAgree(texts: seq<Text>)
    requires forall i :: 0 <= i < |texts| ==> texts[i] != []
    ensures InferType2(texts) == InferType1(Present(texts))
  {
    SameScan(Present(texts));
  }

  lemma {:induction false} SameScan(cells: seq<Option<Text>>)
    requires forall i :: 0 <= i < |cells| ==> cells[i].Some? ==> cells[i].value != []
    ensures ScanColumn(cells, false) == ScanColumn(cells, true)
  {
    if cells != [] {
      SameScan(cells[..|cells| - 1]);
      assert cells[..|cells| - 1][..] == cells[..|cells| - 1];
    }
  }

  /**
   * csvParser2.c reads an empty cell as a non-boolean that leaves is_integer
   * alone: a column holding an empty span is never Boolean, while
   * csvParser.c skips that cell.
   */
  lemma EmptySpanNotBoolean(texts: seq<Text>, i: nat)
    requires i < |texts| && texts[i] == []
    ensures InferType2(texts) != Boolean
  {
    var cells := Present(texts);
    InferTypeMeaning(cells, false);
    assert Scanned(cells[i], false) && !IsBool(cells[i].value);
  }

  // ---------------------------------------------------------------------
  // Examples
  // ---------------------------------------------------------------------

  /** All-digit cells give Integer. */
  lemma ExampleIntegers()
    ensures InferType1([Some("1"), Some("23")]) == Integer
  {
    var cells := [Some("1"), Some("23")];
    InferTypeMeaning(cells, true);
    assert AllDigits(cells[0].value) && AllDigits(cells[1].value);
  }

  /** The four spellings give Boolean. */
  lemma ExampleBooleans()
    ensures InferType1([Some("true"), Some("FALSE")]) == Boolean
  {
    var cells := [Some("true"), Some("FALSE")];
    InferTypeMeaning(cells, true);
    assert !IsDigit(cells[0].value[0]);
  }

  /** A decimal after a word sets is_float again: Float, not String. */
  lemma ExampleFloatAgain()
    ensures InferType1([Some("abc"), Some("1.5")]) == Float
  {
    var cells := [Some("abc"), Some("1.5")];
    assert cells[..1] == [Some("abc")];
  }

  /** A sign or a leading '.' is not numeric. */
  lemma ExampleNotNumeric()
    ensures InferType1([Some("-1")]) == String
    ensures InferType1([Some(".5")]) == String
  {
    assert [Some("-1")][..0] == [];
    assert [Some(".5")][..0] == [];
  }

  /**
   * A blank field in the csvParser.c pipeline: get_token_before_delim turns
   * it into the text "NULL", which is scanned like any word, so "true" and a
   * blank field make a String column.
   */
  lemma ExampleBlankField()
    ensures TokenBefore([','], DELIMS).0 == "NULL"
    ensures InferType1([Some("true"), Some("NULL")]) == String
  {
    var cells := [Some("true"), Some("NULL")];
    InferTypeMeaning(cells, true);
    assert !IsDigit(cells[0].value[0]) && !IsBool(cells[1].value);
    assert !IsDecimal(cells[0].value) by {
      assert !AllDigits(cells[0].value[..1]);
    }
    assert !IsDecimal(cells[1].value) by {
      assert !AllDigits(cells[1].value[..1]);
    }
  }

  /** An empty cell: skipped by csvParser.c, a non-boolean for csvParser2.c. */
  lemma ExampleEmptyCell()
    ensures InferType1([Some("true"), Some("")]) == Boolean
    ensures InferType2(["true", ""]) == String
  {
    var cells := [Some("true"), Some("")];
    InferTypeMeaning(cells, true);
    assert !IsDigit(cells[0].value[0]);
    assert Present(["true", ""]) == cells;
    EmptySpanNotBoolean(["true", ""], 1);
    assert cells[..1] == [Some("true")];
  }
}
