/**
 `is_valid_xlsx_cell_reference`: the names of the cells of the spreadsheet grid, column letters in
 bijective base 26 followed by a decimal row.
 */
module CellReference {
  import opened Utf8
  import opened Numerals

  const MAX_COLUMN: nat := 16_384
  const MAX_ROW: nat := 1_048_576
  const U32_MAX: nat := 0xFFFF_FFFF

  predicate IsUpper(b: byte) {
    0x41 <= b <= 0x5A
  }

  predicate AllUpper(s: Bytes) {
    forall k :: 0 <= k < |s| ==> IsUpper(s[k])
  }

  /** The column name of column `c`; A is column 1. */
  function Letters(c: nat): (s: Bytes)
    ensures AllUpper(s) && (c > 0 ==> |s| > 0)
  {
    if c == 0 then [] else Letters((c - 1) / 26) + [(0x41 + (c - 1) % 26) as byte]
  }

  function ColumnOf(s: Bytes): nat
    requires AllUpper(s)
  {
    if s == [] then 0 else 26 * ColumnOf(s[..|s| - 1]) + ((s[|s| - 1] - 0x41) as nat + 1)
  }

  lemma {:induction false} LettersRoundTrip(c: nat)
    ensures ColumnOf(Letters(c)) == c
  {
    if c > 0 {
      var s := Letters(c);
      LettersRoundTrip((c - 1) / 26);
      assert s[..|s| - 1] == Letters((c - 1) / 26);
    }
  }

  lemma {:induction false} ColumnRoundTrip(s: Bytes)
    requires AllUpper(s)
    ensures Letters(ColumnOf(s)) == s && (s != [] ==> ColumnOf(s) > 0)
    decreases |s|
  {
    if s != [] {
      var front := s[..|s| - 1];
      ColumnRoundTrip(front);
      assert s == front + [s[|s| - 1]];
      assert (ColumnOf(s) - 1) / 26 == ColumnOf(front);
    }
  }

  /** Names of up to three letters are exactly those of the first 18278 columns. */
  lemma ColumnNameLength(c: nat)
    ensures |Letters(c)| <= 3 <==> c <= 18_278
  {
    if c > 0 {
      var c1 := (c - 1) / 26;
      assert |Letters(c)| == |Letters(c1)| + 1;
      if c1 > 0 {
        var c2 := (c1 - 1) / 26;
        assert |Letters(c1)| == |Letters(c2)| + 1;
        if c2 > 0 {
          var c3 := (c2 - 1) / 26;
          assert |Letters(c2)| == |Letters(c3)| + 1;
        }
      }
    }
  }

  /** The length of the leading run of capital letters. */
  function UpperPrefix(s: Bytes): (n: nat)
    ensures n <= |s| && AllUpper(s[..n]) && (n < |s| ==> !IsUpper(s[n]))
  {
    if s == [] || !IsUpper(s[0]) then 0
    else
      var n := UpperPrefix(s[1..]);
      assert s[..n + 1] == [s[0]] + s[1..][..n];
      n + 1
  }

  /** The conditions the recogniser checks. */
  predicate IsCellReference(value: Bytes) {
    var end := UpperPrefix(value);
    && 1 <= end <= 3 && end < |value|
    && ColumnOf(value[..end]) <= MAX_COLUMN
    && var row := value[end..];
       && row[0] != ZERO && AllDigits(row)
       && ParseUnsigned(row, U32_MAX).Some?
       && 1 <= ParseUnsigned(row, U32_MAX).value <= MAX_ROW
  }

  function SaturatingStep(column: nat, digit: nat): nat {
    var scaled := if 26 * column > U32_MAX then U32_MAX else 26 * column;
    if scaled + digit > U32_MAX then U32_MAX else scaled + digit
  }

  method IsValidXlsxCellReference(value: Bytes) returns (valid: bool)
    ensures valid <==> IsCellReference(value)
  {
    var columnEnd := 0;
    while columnEnd < |value| && IsUpper(value[columnEnd])
      invariant columnEnd <= |value| && AllUpper(value[..columnEnd])
    {
      columnEnd := columnEnd + 1;
    }
    PrefixIsUnique(value, columnEnd);
    if !(1 <= columnEnd <= 3) || columnEnd == |value| {
      return false;
    }
    var column := 0;
    for next := 0 to columnEnd
      invariant column == ColumnOf(value[..next])
      invariant next <= 1 ==> column <= 26
      invariant next <= 2 ==> column <= 702
      invariant column <= 18_278 && (next == 0 ==> column == 0)
    {
      assert value[..next + 1][..next] == value[..next];
      column := SaturatingStep(column, (value[next] - 0x41) as nat + 1);
    }
    if column > MAX_COLUMN {
      return false;
    }
    var row := value[columnEnd..];
    if row[0] == ZERO || !AllDigits(row) {
      return false;
    }
    var parsed := ParseUnsigned(row, U32_MAX);
    return parsed.Some? && 1 <= parsed.value <= MAX_ROW;
  }

  lemma {:induction false} PrefixIsUnique(s: Bytes, n: nat)
    requires n <= |s| && AllUpper(s[..n]) && (n < |s| ==> !IsUpper(s[n]))
    ensures UpperPrefix(s) == n
    decreases n
  {
    if n > 0 {
      assert s[..n][0] == s[0];
      assert s[1..][..n - 1] == s[..n][1..];
      PrefixIsUnique(s[1..], n - 1);
    }
  }

  /** A string is accepted exactly when it is the name of a cell of the grid. */
  lemma AcceptedIffInGrid(value: Bytes)
    ensures IsCellReference(value)
            <==> exists c: nat, r: nat ::
                   1 <= c <= MAX_COLUMN && 1 <= r <= MAX_ROW && value == CellName(c, r)
  {
    hide IsCellReference, CellName;
    if IsCellReference(value) {
      var c, r := AcceptedHasName(value);
    }
    if c: nat, r: nat :|
        1 <= c <= MAX_COLUMN && 1 <= r <= MAX_ROW && value == CellName(c, r) {
      NameIsAccepted(c, r);
    }
  }

  lemma AcceptedHasName(value: Bytes) returns (c: nat, r: nat)
    requires IsCellReference(value)
    ensures 1 <= c <= MAX_COLUMN && 1 <= r <= MAX_ROW && value == CellName(c, r)
  {
    hide ColumnOf, Letters, NumberOf, Decimal;
    var end := UpperPrefix(value);
    c, r := ColumnOf(value[..end]), NumberOf(value[end..]);
    ColumnRoundTrip(value[..end]);
    NumeralRoundTrip(value[end..]);
    assert value == value[..end] + value[end..];
  }

  function CellName(c: nat, r: nat): Bytes {
    Letters(c) + Decimal(r)
  }

  lemma NameIsAccepted(c: nat, r: nat)
    requires 1 <= c <= MAX_COLUMN && 1 <= r <= MAX_ROW
    ensures IsCellReference(CellName(c, r))
  {
    var value := CellName(c, r);
    SplitName(c, r);
    LettersRoundTrip(c);
    ColumnNameLength(c);
    DecimalRoundTrip(r);
    assert Decimal(r)[0] != PLUS;
  }

  lemma SplitName(c: nat, r: nat)
    ensures var value := CellName(c, r);
            && UpperPrefix(value) == |Letters(c)|
            && value[..|Letters(c)|] == Letters(c) && value[|Letters(c)|..] == Decimal(r)
  {
    var value := CellName(c, r);
    assert value[..|Letters(c)|] == Letters(c) && value[|Letters(c)|..] == Decimal(r);
    assert value[|Letters(c)|] == Decimal(r)[0];
    assert IsDigit(Decimal(r)[0]);
    PrefixIsUnique(value, |Letters(c)|);
  }

  /** Different cells have different names. */
  lemma NamesAreDistinct(c: nat, r: nat, c': nat, r': nat)
    requires CellName(c, r) == CellName(c', r')
    ensures c == c' && r == r'
  {
    SplitName(c, r);
    SplitName(c', r');
    LettersRoundTrip(c);
    LettersRoundTrip(c');
    DecimalRoundTrip(r);
    DecimalRoundTrip(r');
  }
}
