/** Writing and reading comma-separated values (RFC 4180) the way the shell does it. */
module Csv {
  import opened ByteStrings
  import opened Wrappers

  const EOF: int := -1
  const LF: Byte := 10
  const CR: Byte := 13
  const QUOTE: Byte := 34

  // ----- Writing

  /** The table of bytes that call for quotes: controls, blank, both quotes and everything from 127 on. */
  predicate NeedsQuote(b: Byte) {
    b <= 32 || b == 34 || b == 39 || b >= 127
  }

  predicate Special(z: Text, sep: Byte) {
    exists i | 0 <= i < |z| :: NeedsQuote(z[i]) || z[i] == sep
  }

  /** Every quote doubled. */
  function Escaped(z: Text): Text {
    if z == [] then [] else (if z[0] == QUOTE then [QUOTE, QUOTE] else [z[0]]) + Escaped(z[1..])
  }

  /** A field as it stands in the file. */
  function FieldText(z: Text, sep: Byte): Text {
    if z == [] || Special(z, sep) then [QUOTE] + Escaped(z) + [QUOTE] else z
  }

  function RowText(row: seq<Text>, sep: Byte, rowSeparator: Text): Text {
    if row == [] then rowSeparator
    else FieldText(row[0], sep) + (if |row| > 1 then [sep] else []) + RowText(row[1..], sep, rowSeparator)
  }

  /** A row without fields is not written at all. */
  function Written(row: seq<Text>, sep: Byte, rowSeparator: Text): Text {
    if row == [] then [] else RowText(row, sep, rowSeparator)
  }

  /** A cell as it stands in the file: the value for null, as it is, or a field. */
  function CellText(z: Option<Text>, sep: Byte, nullValue: Text): Text {
    if z.None? then nullValue else FieldText(z.value, sep)
  }

  /** A row of cells, some of which may be null. */
  function CellsText(row: seq<Option<Text>>, sep: Byte, rowSeparator: Text, nullValue: Text): Text {
    if row == [] then rowSeparator
    else CellText(row[0], sep, nullValue) + (if |row| > 1 then [sep] else [])
         + CellsText(row[1..], sep, rowSeparator, nullValue)
  }

  /** Column names, with nothing for one that is missing. */
  function Names(columns: seq<Option<Text>>): (names: seq<Option<Text>>)
    ensures |names| == |columns|
    ensures forall i | 0 <= i < |columns| :: names[i] == if columns[i].None? then Some([]) else columns[i]
  {
    if columns == [] then [] else [Name(columns[0])] + Names(columns[1..])
  }

  function Name(column: Option<Text>): Option<Text> {
    if column.None? then Some([]) else column
  }

  /** Without nulls that is the text of a row. */
  lemma {:induction false} CellsAreFields(row: seq<Text>, sep: Byte, rowSeparator: Text, nullValue: Text)
    ensures CellsText(Cells(row), sep, rowSeparator, nullValue) == RowText(row, sep, rowSeparator)
    decreases row
  {
    if row != [] {
      CellsAreFields(row[1..], sep, rowSeparator, nullValue);
      assert Cells(row)[1..] == Cells(row[1..]);
      CellsLength(row);
    }
  }

  lemma {:induction false} CellsLength(row: seq<Text>)
    ensures |Cells(row)| == |row|
  {
    if row != [] {
      CellsLength(row[1..]);
    }
  }

  function TableText(rows: seq<seq<Text>>, sep: Byte, rowSeparator: Text): Text {
    if rows == [] then [] else Written(rows[0], sep, rowSeparator) + TableText(rows[1..], sep, rowSeparator)
  }

  lemma {:induction false} EscapedConcat(a: Text, b: Text)
    ensures Escaped(a + b) == Escaped(a) + Escaped(b)
  {
    if a == [] {
      assert a + b == b;
    } else {
      assert (a + b)[1..] == a[1..] + b;
      EscapedConcat(a[1..], b);
    }
  }

  lemma EscapedNext(z: Text, i: nat)
    requires i < |z|
    ensures Escaped(z[..i + 1]) == Escaped(z[..i]) + (if z[i] == QUOTE then [QUOTE] else []) + [z[i]]
  {
    assert z[..i + 1] == z[..i] + [z[i]];
    EscapedConcat(z[..i], [z[i]]);
    assert Escaped([z[i]]) == (if z[i] == QUOTE then [QUOTE] else []) + [z[i]];
  }

  lemma Associate(a: Text, b: Text, c: Text, d: Text)
    ensures a + b + c + d == a + (b + c + d)
  {}

  lemma CellsTextNext(row: seq<Option<Text>>, i: nat, sep: Byte, rowSeparator: Text, nullValue: Text)
    requires i < |row|
    ensures CellsText(row[i..], sep, rowSeparator, nullValue)
         == CellText(row[i], sep, nullValue) + (if i < |row| - 1 then [sep] else [])
            + CellsText(row[i + 1..], sep, rowSeparator, nullValue)
  {
    assert row[i..][1..] == row[i + 1..];
  }

  class Writer {
    const colSeparator: Byte
    const rowSeparator: Text
    const nullValue: Text
    const showHeader: bool
    var cnt: nat
    var out: Text

    constructor (colSeparator: Byte, rowSeparator: Text, nullValue: Text, showHeader: bool)
      ensures this.colSeparator == colSeparator && this.rowSeparator == rowSeparator
      ensures this.nullValue == nullValue && this.showHeader == showHeader && cnt == 0 && out == []
    {
      this.colSeparator, this.rowSeparator, this.nullValue := colSeparator, rowSeparator, nullValue;
      this.showHeader := showHeader;
      cnt, out := 0, [];
    }

    method OutputCsv(z: Option<Text>, bSep: bool)
      modifies this`out
      ensures out == old(out) + CellText(z, colSeparator, nullValue) + (if bSep then [colSeparator] else [])
      ensures z.None? ==> out == old(out) + nullValue + (if bSep then [colSeparator] else [])
    {
      if z.None? {
        out := out + nullValue;
      } else {
        OutputField(z.value);
      }
      if bSep {
        out := out + [colSeparator];
      }
    }

    method OutputField(z: Text)
      modifies this`out
      ensures out == old(out) + FieldText(z, colSeparator)
    {
      var i := 0;
      while i < |z|
        invariant i <= |z| && out == old(out)
        invariant forall j | 0 <= j < i :: !NeedsQuote(z[j]) && z[j] != colSeparator
      {
        if NeedsQuote(z[i]) || z[i] == colSeparator {
          i := 0;
          break;
        }
        i := i + 1;
      }
      if i == 0 {
        OutputQuoted(z);
      } else {
        out := out + z;
      }
    }

    method OutputQuoted(z: Text)
      modifies this`out
      ensures out == old(out) + ([QUOTE] + Escaped(z) + [QUOTE])
    {
      out := out + [QUOTE];
      var i := 0;
      while i < |z|
        invariant i <= |z| && out == old(out) + [QUOTE] + Escaped(z[..i])
      {
        EscapedNext(z, i);
        if z[i] == QUOTE {
          out := out + [QUOTE];
        }
        out := out + [z[i]];
        i := i + 1;
      }
      assert z[..i] == z;
      out := out + [QUOTE];
    }

    method OutputCells(row: seq<Option<Text>>)
      modifies this`out
      ensures out == old(out) + CellsText(row, colSeparator, rowSeparator, nullValue)
    {
      assert row[0..] == row;
      for i := 0 to |row|
        invariant out + CellsText(row[i..], colSeparator, rowSeparator, nullValue)
               == old(out) + CellsText(row, colSeparator, rowSeparator, nullValue)
      {
        CellsTextNext(row, i, colSeparator, rowSeparator, nullValue);
        ghost var cell := CellText(row[i], colSeparator, nullValue);
        Associate(out, cell, if i < |row| - 1 then [colSeparator] else [],
                  CellsText(row[i + 1..], colSeparator, rowSeparator, nullValue));
        OutputCsv(row[i], i < |row| - 1);
      }
      out := out + rowSeparator;
    }

    /** Writes a row of a result, and the names of its columns before the first one if they are asked for. */
    method OutputRow(row: seq<Option<Text>>, columns: seq<Option<Text>>)
      modifies this`out, this`cnt
      ensures cnt == old(cnt) + 1
      ensures out == old(out)
        + (if old(cnt) == 0 && showHeader then CellsText(Names(columns), colSeparator, rowSeparator, nullValue) else [])
        + (if row == [] then [] else CellsText(row, colSeparator, rowSeparator, nullValue))
    {
      cnt := cnt + 1;
      if cnt == 1 && showHeader {
        OutputCells(Names(columns));
      }
      if |row| > 0 {
        OutputCells(row);
      }
    }
  }

  // ----- Reading

  /** A field that was read, or none at the end of the file; what ended it; and what is left of the file. */
  datatype Field = Field(z: Option<Text>, cTerm: int, rest: Text)

  function Next(t: Text): int {
    if t == [] then EOF else t[0]
  }

  function Skip(t: Text): Text {
    if t == [] then [] else t[1..]
  }

  /** The text before the last quote. */
  function BeforeQuote(z: Text): Text {
    if z == [] then [] else if z[|z| - 1] == QUOTE then z[..|z| - 1] else BeforeQuote(z[..|z| - 1])
  }

  /** Whether `c` ends a quoted field, given the two characters before. */
  predicate Closes(c: int, pc: int, ppc: int, cSep: int, rSep: int) {
    || (c == cSep && pc == QUOTE)
    || (c == rSep && pc == QUOTE)
    || (c == rSep && pc == CR && ppc == QUOTE)
    || (c == EOF && pc == QUOTE)
  }

  /** The rest of a quoted field with `z` gathered so far. */
  function Quoted(t: Text, z: Text, pc: int, ppc: int, cSep: int, rSep: int): (f: Field)
    ensures f.z.Some?
    decreases |t|
  {
    var c := Next(t);
    if c == QUOTE && pc == QUOTE then Quoted(t[1..], z, 0, ppc, cSep, rSep)
    else if Closes(c, pc, ppc, cSep, rSep) then Field(Some(BeforeQuote(z)), c, Skip(t))
    else if c == EOF then Field(Some(z), c, [])
    else Quoted(t[1..], z + [t[0]], c, pc, cSep, rSep)
  }

  function WithoutCr(z: Text): Text {
    if |z| > 0 && z[|z| - 1] == CR then z[..|z| - 1] else z
  }

  /** The rest of an unquoted field with `z` gathered so far. */
  function Unquoted(t: Text, z: Text, cSep: int, rSep: int): (f: Field)
    ensures f.z.Some?
    decreases |t|
  {
    var c := Next(t);
    if c == EOF || c == cSep || c == rSep then
      Field(Some(if c == rSep then WithoutCr(z) else z), c, Skip(t))
    else
      Unquoted(t[1..], z + [t[0]], cSep, rSep)
  }

  function ReadField(t: Text, cSep: int, rSep: int): Field {
    if t == [] then Field(None, EOF, [])
    else if t[0] == QUOTE then Quoted(t[1..], [], 0, 0, cSep, rSep)
    else Unquoted(t, [], cSep, rSep)
  }

  lemma {:induction false} QuotedProgress(t: Text, z: Text, pc: int, ppc: int, cSep: int, rSep: int)
    ensures |Quoted(t, z, pc, ppc, cSep, rSep).rest| <= |t|
    decreases |t|
  {
    if t != [] {
      var c := Next(t);
      if c == QUOTE && pc == QUOTE {
        QuotedProgress(t[1..], z, 0, ppc, cSep, rSep);
      } else if !Closes(c, pc, ppc, cSep, rSep) {
        QuotedProgress(t[1..], z + [t[0]], c, pc, cSep, rSep);
      }
    }
  }

  lemma {:induction false} UnquotedProgress(t: Text, z: Text, cSep: int, rSep: int)
    ensures var f := Unquoted(t, z, cSep, rSep); |f.rest| <= |t| && (f.cTerm != EOF ==> |f.rest| < |t|)
    decreases |t|
  {
    if t != [] && t[0] != cSep && t[0] != rSep {
      UnquotedProgress(t[1..], z + [t[0]], cSep, rSep);
    }
  }

  /** Unless a field ends the file it takes something off it. */
  lemma FieldProgress(t: Text, cSep: int, rSep: int)
    ensures var f := ReadField(t, cSep, rSep); |f.rest| <= |t| && (f.cTerm != EOF ==> |f.rest| < |t|)
  {
    if t != [] {
      if t[0] == QUOTE {
        QuotedProgress(t[1..], [], 0, 0, cSep, rSep);
      } else {
        UnquotedProgress(t, [], cSep, rSep);
      }
    }
  }

  /** The row loop: the cells of one row from column `i` on, missing ones null. */
  datatype Row = Row(cells: seq<Option<Text>>, cTerm: int, rest: Text)

  function Nulls(n: nat): (s: seq<Option<Text>>)
    ensures |s| == n && forall i | 0 <= i < n :: s[i] == None
  {
    seq(n, _ => None)
  }

  function ReadCells(t: Text, i: nat, nCol: nat, cSep: int, rSep: int): (r: Row)
    requires i < nCol
    ensures |r.cells| == nCol - i
    decreases nCol - i
  {
    var f := ReadField(t, cSep, rSep);
    if i < nCol - 1 && f.cTerm != cSep then
      Row([f.z] + Nulls(nCol - i - 1), f.cTerm, f.rest)
    else if i == nCol - 1 then
      Row([f.z], f.cTerm, f.rest)
    else
      var r := ReadCells(f.rest, i + 1, nCol, cSep, rSep);
      Row([f.z] + r.cells, r.cTerm, r.rest)
  }

  /** A row with cells that were read before. */
  function Prefixed(cells: seq<Option<Text>>, r: Row): Row {
    Row(cells + r.cells, r.cTerm, r.rest)
  }

  lemma CellsStep(cells: seq<Option<Text>>, t: Text, i: nat, nCol: nat, cSep: int, rSep: int)
    requires i < nCol
    ensures var f := ReadField(t, cSep, rSep);
      Prefixed(cells, ReadCells(t, i, nCol, cSep, rSep))
      == if i < nCol - 1 && f.cTerm != cSep then Row(cells + [f.z] + Nulls(nCol - i - 1), f.cTerm, f.rest)
         else if i == nCol - 1 then Row(cells + [f.z], f.cTerm, f.rest)
         else Prefixed(cells + [f.z], ReadCells(f.rest, i + 1, nCol, cSep, rSep))
  {
    var f := ReadField(t, cSep, rSep);
    if i < nCol - 1 && f.cTerm == cSep {
      var more := ReadCells(f.rest, i + 1, nCol, cSep, rSep).cells;
      assert cells + ([f.z] + more) == cells + [f.z] + more;
    } else if i < nCol - 1 {
      assert cells + ([f.z] + Nulls(nCol - i - 1)) == cells + [f.z] + Nulls(nCol - i - 1);
    }
  }

  /** Reads over the fields beyond the last column. */
  function SkipExtra(t: Text, cTerm: int, cSep: int, rSep: int): (int, Text)
    requires cSep != EOF
    decreases |t|, cTerm == cSep
  {
    if cTerm != cSep then (cTerm, t)
    else
      FieldProgress(t, cSep, rSep);
      var f := ReadField(t, cSep, rSep);
      SkipExtra(f.rest, f.cTerm, cSep, rSep)
  }

  lemma {:induction false} CellsProgress(t: Text, i: nat, nCol: nat, cSep: int, rSep: int)
    requires i < nCol
    ensures var r := ReadCells(t, i, nCol, cSep, rSep); |r.rest| <= |t| && (r.cTerm != EOF ==> |r.rest| < |t|)
    decreases nCol - i
  {
    FieldProgress(t, cSep, rSep);
    if i < nCol - 1 {
      CellsProgress(ReadField(t, cSep, rSep).rest, i + 1, nCol, cSep, rSep);
    }
  }

  lemma {:induction false} SkipProgress(t: Text, cTerm: int, cSep: int, rSep: int)
    requires cSep != EOF
    ensures |SkipExtra(t, cTerm, cSep, rSep).1| <= |t|
    decreases |t|, cTerm == cSep
  {
    if cTerm == cSep {
      FieldProgress(t, cSep, rSep);
      var f := ReadField(t, cSep, rSep);
      SkipProgress(f.rest, f.cTerm, cSep, rSep);
    }
  }

  /** The rows of a file with `nCol` columns. */
  function ReadRows(t: Text, nCol: nat, cSep: int, rSep: int): seq<seq<Option<Text>>>
    requires nCol >= 1 && cSep != EOF
    decreases |t|
  {
    if t == [] then []
    else
      CellsProgress(t, 0, nCol, cSep, rSep);
      var r := ReadCells(t, 0, nCol, cSep, rSep);
      SkipProgress(r.rest, r.cTerm, cSep, rSep);
      var (c, rest) := SkipExtra(r.rest, r.cTerm, cSep, rSep);
      [r.cells] + if c == EOF || r.cTerm == EOF then [] else ReadRows(rest, nCol, cSep, rSep)
  }

  /** The import's view of a file. `input` is what is left to read. */
  class Reader {
    var input: Text
    var z: Text
    var cTerm: int
    const cColSep: int
    const cRowSep: int

    constructor (input: Text, cColSep: int, cRowSep: int)
      ensures this.input == input && this.cColSep == cColSep && this.cRowSep == cRowSep
    {
      this.input, this.cColSep, this.cRowSep := input, cColSep, cRowSep;
      z, cTerm := [], 0;
    }

    method Getc() returns (c: int)
      modifies this`input
      ensures c == Next(old(input)) && input == Skip(old(input))
    {
      if input == [] {
        return EOF;
      }
      c := input[0];
      input := input[1..];
    }

    method ReadOneField() returns (r: Option<Text>)
      modifies this`input, this`z, this`cTerm
      ensures Field(r, cTerm, input) == ReadField(old(input), cColSep, cRowSep)
    {
      z := [];
      ghost var all := input;
      var c := Getc();
      if c == EOF {
        cTerm := EOF;
        return None;
      }
      if c == QUOTE {
        ReadQuoted();
      } else {
        while c != EOF && c != cColSep && c != cRowSep
          invariant c == EOF ==> input == []
          invariant c != EOF ==> 0 <= c < 256
          invariant Unquoted(all, [], cColSep, cRowSep)
                 == Unquoted(if c == EOF then [] else [c] + input, z, cColSep, cRowSep)
          decreases |input|, c != EOF
        {
          assert ([c] + input)[1..] == input;
          ghost var left := input;
          z := z + [c];
          c := Getc();
          assert left == if c == EOF then [] else [c] + input;
        }
        assert c != EOF ==> Skip([c] + input) == input;
        if c == cRowSep {
          if |z| > 0 && z[|z| - 1] == CR {
            z := z[..|z| - 1];
          }
        }
        cTerm := c;
      }
      return Some(z);
    }

    /** What follows the opening quote. */
    method ReadQuoted()
      requires z == []
      modifies this`input, this`z, this`cTerm
      ensures Field(Some(z), cTerm, input) == Quoted(old(input), old(z), 0, 0, cColSep, cRowSep)
    {
      var pc, ppc := 0, 0;
      ghost var end := Quoted(input, z, 0, 0, cColSep, cRowSep);
      while true
        invariant Quoted(input, z, pc, ppc, cColSep, cRowSep) == end
        invariant pc == QUOTE ==> |z| >= 1 && z[|z| - 1] == QUOTE
        invariant pc == CR && ppc == QUOTE ==> |z| >= 2 && z[|z| - 2] == QUOTE
        decreases |input|
      {
        var c := Getc();
        if c == QUOTE && pc == QUOTE {
          pc := 0;
          continue;
        }
        if (c == cColSep && pc == QUOTE) || (c == cRowSep && pc == QUOTE) ||
           (c == cRowSep && pc == CR && ppc == QUOTE) || (c == EOF && pc == QUOTE)
        {
          DropToQuote();
          cTerm := c;
          break;
        }
        if c == EOF {
          cTerm := c;
          break;
        }
        z := z + [c];
        ppc := pc;
        pc := c;
      }
    }

    /** Takes characters off the end up to and including the last quote. There is one. */
    method DropToQuote()
      requires QUOTE in z
      modifies this`z
      ensures z == BeforeQuote(old(z))
    {
      var last := z[|z| - 1];
      z := z[..|z| - 1];
      while last != QUOTE
        invariant last != QUOTE ==> QUOTE in z && BeforeQuote(z) == BeforeQuote(old(z))
        invariant last == QUOTE ==> z == BeforeQuote(old(z))
        decreases |z|, last != QUOTE
      {
        last := z[|z| - 1];
        z := z[..|z| - 1];
      }
    }

    /** Reads the cells of one row; missing ones are null. At the end of the file there is no row. */
    method ReadRow(nCol: nat) returns (row: Option<seq<Option<Text>>>)
      requires nCol >= 1
      modifies this`input, this`z, this`cTerm
      ensures if old(input) == [] then
                row.None? && cTerm == EOF && input == []
              else
                row.Some? && Row(row.value, cTerm, input) == ReadCells(old(input), 0, nCol, cColSep, cRowSep)
    {
      var cells := [];
      var i := 0;
      ghost var all := ReadCells(input, 0, nCol, cColSep, cRowSep);
      ghost var empty := input == [];
      while i < nCol
        invariant i <= nCol && |cells| == i && (i > 0 ==> !empty) && (i == 0 ==> input == old(input))
        invariant if i < nCol then
                    all == Prefixed(cells, ReadCells(input, i, nCol, cColSep, cRowSep))
                  else
                    all == Row(cells, cTerm, input)
      {
        CellsStep(cells, input, i, nCol, cColSep, cRowSep);
        var r := ReadOneField();
        if r.None? && i == 0 {
          return None;
        }
        cells := cells + [r];
        if i < nCol - 1 && cTerm != cColSep {
          cells := cells + Nulls(nCol - i - 1);
          i := nCol;
        } else {
          i := i + 1;
        }
      }
      return Some(cells);
    }

    method ReadExtra()
      requires cColSep != EOF
      modifies this`input, this`z, this`cTerm
      ensures (cTerm, input) == SkipExtra(old(input), old(cTerm), cColSep, cRowSep)
      ensures cTerm != cColSep
    {
      while cTerm == cColSep
        invariant SkipExtra(input, cTerm, cColSep, cRowSep) == SkipExtra(old(input), old(cTerm), cColSep, cRowSep)
        decreases |input|, cTerm == cColSep
      {
        FieldProgress(input, cColSep, cRowSep);
        var r := ReadOneField();
      }
    }

    /** Reads all rows of a table with `nCol` columns. */
    method Import(nCol: nat) returns (rows: seq<seq<Option<Text>>>)
      requires nCol >= 1 && cColSep != EOF
      modifies this`input, this`z, this`cTerm
      ensures rows == ReadRows(old(input), nCol, cColSep, cRowSep)
    {
      rows := [];
      var done := false;
      while !done
        invariant rows + (if done then [] else ReadRows(input, nCol, cColSep, cRowSep))
               == ReadRows(old(input), nCol, cColSep, cRowSep)
        decreases |input|, !done
      {
        CellsProgress(input, 0, nCol, cColSep, cRowSep);
        var row := ReadRow(nCol);
        ghost var end := cTerm == EOF;
        SkipProgress(input, cTerm, cColSep, cRowSep);
        ReadExtra();
        if row.Some? {
          rows := rows + [row.value];
        }
        done := cTerm == EOF;
      }
    }
  }

  // ----- What is written is read back

  /** What may follow a field in a written file: the separator, or a row separator of LF or CRLF. */
  predicate Follows(tail: Text, sep: Byte, term: int, rest: Text) {
    || (tail == [sep] + rest && term == sep)
    || (tail == [LF] + rest && term == LF)
    || (tail == [CR, LF] + rest && term == LF)
  }

  predicate Separator(sep: Byte) {
    sep != 0 && sep != QUOTE && sep != CR && sep != LF
  }

  lemma {:induction false} QuotedReadsBack(z: Text, tail: Text, sep: Byte, term: int, rest: Text,
                                           buffer: Text, pc: int, ppc: int)
    requires Separator(sep) && Follows(tail, sep, term, rest) && pc != QUOTE && ppc != QUOTE
    ensures Quoted(Escaped(z) + [QUOTE] + tail, buffer, pc, ppc, sep, LF) == Field(Some(buffer + z), term, rest)
    decreases z
  {
    var t := Escaped(z) + [QUOTE] + tail;
    if z == [] {
      assert t == [QUOTE] + tail && t[1..] == tail;
      ClosingQuote(tail, sep, term, rest, buffer, pc);
      assert Quoted(t, buffer, pc, ppc, sep, LF) == Quoted(tail, buffer + [QUOTE], QUOTE, pc, sep, LF);
      assert buffer + z == buffer;
    } else {
      var more := Escaped(z[1..]) + [QUOTE] + tail;
      if z[0] == QUOTE {
        assert t == [QUOTE, QUOTE] + more && t[1..] == [QUOTE] + more && t[1..][1..] == more;
        QuotedReadsBack(z[1..], tail, sep, term, rest, buffer + [QUOTE], 0, pc);
      } else {
        assert t == [z[0]] + more && t[1..] == more;
        QuotedReadsBack(z[1..], tail, sep, term, rest, buffer + [z[0]], z[0], pc);
      }
      assert buffer + [z[0]] + z[1..] == buffer + z;
    }
  }

  lemma ClosingQuote(tail: Text, sep: Byte, term: int, rest: Text, buffer: Text, pc: int)
    requires Separator(sep) && Follows(tail, sep, term, rest)
    ensures Quoted(tail, buffer + [QUOTE], QUOTE, pc, sep, LF) == Field(Some(buffer), term, rest)
  {
    if tail == [CR, LF] + rest {
      assert tail[1..] == [LF] + rest;
      assert BeforeQuote(buffer + [QUOTE] + [CR]) == BeforeQuote(buffer + [QUOTE]);
      assert Quoted([LF] + rest, buffer + [QUOTE] + [CR], CR, QUOTE, sep, LF) == Field(Some(buffer), LF, rest);
    }
  }

  /** An unquoted field takes up everything but separators. */
  lemma {:induction false} UnquotedTakes(z: Text, tail: Text, buffer: Text, cSep: int, rSep: int)
    requires forall i | 0 <= i < |z| :: z[i] != cSep && z[i] != rSep
    ensures Unquoted(z + tail, buffer, cSep, rSep) == Unquoted(tail, buffer + z, cSep, rSep)
    decreases z
  {
    if z == [] {
      assert z + tail == tail && buffer + z == buffer;
    } else {
      assert (z + tail)[1..] == z[1..] + tail;
      UnquotedTakes(z[1..], tail, buffer + [z[0]], cSep, rSep);
      assert buffer + [z[0]] + z[1..] == buffer + z;
    }
  }

  lemma UnquotedEnds(z: Text, tail: Text, cSep: int, term: int, rest: Text)
    requires z != [] && z[|z| - 1] != CR && cSep != CR
    requires (tail == [term] + rest && (term == cSep || term == LF)) || (tail == [CR, LF] + rest && term == LF)
    ensures Unquoted(tail, z, cSep, LF) == Field(Some(z), term, rest)
  {
    if tail == [CR, LF] + rest {
      assert tail[1..] == [LF] + rest;
      assert WithoutCr(z + [CR]) == z;
      assert Unquoted([LF] + rest, z + [CR], cSep, LF) == Field(Some(z), LF, rest);
    }
  }

  lemma QuotedFieldReadsBack(z: Text, tail: Text, sep: Byte, term: int, rest: Text)
    requires Separator(sep) && Follows(tail, sep, term, rest)
    ensures ReadField([QUOTE] + Escaped(z) + [QUOTE] + tail, sep, LF) == Field(Some(z), term, rest)
  {
    var t := [QUOTE] + Escaped(z) + [QUOTE] + tail;
    assert t[1..] == Escaped(z) + [QUOTE] + tail;
    QuotedReadsBack(z, tail, sep, term, rest, [], 0, 0);
    assert [] + z == z;
  }

  lemma PlainFieldReadsBack(z: Text, tail: Text, sep: Byte, term: int, rest: Text)
    requires Separator(sep) && Follows(tail, sep, term, rest) && z != [] && !Special(z, sep)
    ensures ReadField(z + tail, sep, LF) == Field(Some(z), term, rest)
  {
    assert (z + tail)[0] == z[0] && !NeedsQuote(z[0]) && !NeedsQuote(z[|z| - 1]);
    UnquotedTakes(z, tail, [], sep, LF);
    assert [] + z == z;
    UnquotedEnds(z, tail, sep, term, rest);
  }

  /** A written field is read back, whatever bytes are in it. */
  lemma FieldReadsBack(z: Text, tail: Text, sep: Byte, term: int, rest: Text)
    requires Separator(sep) && Follows(tail, sep, term, rest)
    ensures ReadField(FieldText(z, sep) + tail, sep, LF) == Field(Some(z), term, rest)
  {
    if z == [] || Special(z, sep) {
      QuotedFieldReadsBack(z, tail, sep, term, rest);
    } else {
      PlainFieldReadsBack(z, tail, sep, term, rest);
    }
  }

  predicate RowSeparator(rowSeparator: Text) {
    rowSeparator == [LF] || rowSeparator == [CR, LF]
  }

  function Cells(row: seq<Text>): seq<Option<Text>> {
    if row == [] then [] else [Some(row[0])] + Cells(row[1..])
  }

  lemma {:induction false} RowReadsBack(row: seq<Text>, i: nat, nCol: nat, sep: Byte, rowSeparator: Text, rest: Text)
    requires Separator(sep) && RowSeparator(rowSeparator) && |row| >= 1 && i + |row| == nCol
    ensures ReadCells(RowText(row, sep, rowSeparator) + rest, i, nCol, sep, LF) == Row(Cells(row), LF, rest)
    decreases row
  {
    var t := RowText(row, sep, rowSeparator) + rest;
    if |row| == 1 {
      assert row[1..] == [];
      assert t == FieldText(row[0], sep) + (rowSeparator + rest);
      FieldReadsBack(row[0], rowSeparator + rest, sep, LF, rest);
    } else {
      var more := RowText(row[1..], sep, rowSeparator) + rest;
      assert t == FieldText(row[0], sep) + ([sep] + more);
      FieldReadsBack(row[0], [sep] + more, sep, sep, more);
      RowReadsBack(row[1..], i + 1, nCol, sep, rowSeparator, rest);
    }
  }

  function CellsOf(rows: seq<seq<Text>>): seq<seq<Option<Text>>> {
    if rows == [] then [] else [Cells(rows[0])] + CellsOf(rows[1..])
  }

  /** The CSV round trip: a table written with a one-byte column separator and LF or CRLF after each row is read
      back cell for cell and row for row. */
  lemma {:induction false} TableReadsBack(rows: seq<seq<Text>>, nCol: nat, sep: Byte, rowSeparator: Text)
    requires Separator(sep) && RowSeparator(rowSeparator) && nCol >= 1
    requires forall k | 0 <= k < |rows| :: |rows[k]| == nCol
    ensures ReadRows(TableText(rows, sep, rowSeparator), nCol, sep, LF) == CellsOf(rows)
    decreases rows
  {
    if rows != [] {
      var t := TableText(rows, sep, rowSeparator);
      var rest := TableText(rows[1..], sep, rowSeparator);
      RowReadsBack(rows[0], 0, nCol, sep, rowSeparator, rest);
      CellsProgress(t, 0, nCol, sep, LF);
      TableReadsBack(rows[1..], nCol, sep, rowSeparator);
    }
  }

  // ----- Rows of other lengths

  /** What is kept of a row in a table with `nCol` columns: its first cells, and null for each one that is missing. */
  function Fitted(row: seq<Text>, nCol: nat): (cells: seq<Option<Text>>)
    ensures |cells| == nCol
    ensures forall k | 0 <= k < nCol :: cells[k] == if k < |row| then Some(row[k]) else None
  {
    seq(nCol, k requires 0 <= k < nCol => if k < |row| then Some(row[k]) else None)
  }

  function AllFitted(rows: seq<seq<Text>>, nCol: nat): (table: seq<seq<Option<Text>>>)
    ensures |table| == |rows| && forall k | 0 <= k < |rows| :: table[k] == Fitted(rows[k], nCol)
  {
    if rows == [] then [] else [Fitted(rows[0], nCol)] + AllFitted(rows[1..], nCol)
  }

  lemma RowTextFirst(row: seq<Text>, sep: Byte, rowSeparator: Text, rest: Text)
    requires row != []
    ensures RowText(row, sep, rowSeparator) + rest
         == FieldText(row[0], sep)
            + if |row| == 1 then rowSeparator + rest else [sep] + (RowText(row[1..], sep, rowSeparator) + rest)
  {
    if |row| == 1 {
      assert row[1..] == [];
    }
  }

  lemma FirstFieldReadsBack(row: seq<Text>, sep: Byte, rowSeparator: Text, rest: Text)
    requires Separator(sep) && RowSeparator(rowSeparator) && row != []
    ensures ReadField(RowText(row, sep, rowSeparator) + rest, sep, LF)
         == if |row| == 1 then Field(Some(row[0]), LF, rest)
            else Field(Some(row[0]), sep, RowText(row[1..], sep, rowSeparator) + rest)
  {
    RowTextFirst(row, sep, rowSeparator, rest);
    if |row| == 1 {
      FieldReadsBack(row[0], rowSeparator + rest, sep, LF, rest);
    } else {
      var more := RowText(row[1..], sep, rowSeparator) + rest;
      FieldReadsBack(row[0], [sep] + more, sep, sep, more);
    }
  }

  /** The cells of a row from column `i` on, and what is left of it. */
  lemma {:induction false} FittedReadsBack(row: seq<Text>, i: nat, nCol: nat, sep: Byte, rowSeparator: Text, rest: Text)
    requires Separator(sep) && RowSeparator(rowSeparator) && row != [] && i < nCol
    ensures ReadCells(RowText(row, sep, rowSeparator) + rest, i, nCol, sep, LF)
         == if |row| <= nCol - i then Row(Fitted(row, nCol - i), LF, rest)
            else Row(Fitted(row, nCol - i), sep, RowText(row[nCol - i..], sep, rowSeparator) + rest)
    decreases row
  {
    hide RowText, ReadField;
    FirstFieldReadsBack(row, sep, rowSeparator, rest);
    var cells := Fitted(row, nCol - i);
    if |row| == 1 {
      assert cells == [Some(row[0])] + Nulls(nCol - i - 1);
    } else if i < nCol - 1 {
      FittedReadsBack(row[1..], i + 1, nCol, sep, rowSeparator, rest);
      assert cells == [Some(row[0])] + Fitted(row[1..], nCol - i - 1);
      assert |row| > nCol - i ==> row[1..][nCol - i - 1..] == row[nCol - i..];
    } else {
      assert cells == [Some(row[0])];
    }
  }

  /** Surplus fields are read over to the end of their row. */
  lemma {:induction false} SurplusIsSkipped(row: seq<Text>, sep: Byte, rowSeparator: Text, rest: Text)
    requires Separator(sep) && RowSeparator(rowSeparator) && row != []
    ensures SkipExtra(RowText(row, sep, rowSeparator) + rest, sep, sep, LF) == (LF as int, rest)
    decreases row
  {
    hide RowText, ReadField;
    FirstFieldReadsBack(row, sep, rowSeparator, rest);
    FieldProgress(RowText(row, sep, rowSeparator) + rest, sep, LF);
    if |row| > 1 {
      SurplusIsSkipped(row[1..], sep, rowSeparator, rest);
    }
  }

  lemma OneRowRead(t: Text, nCol: nat, cSep: int, rSep: int)
    requires nCol >= 1 && cSep != EOF && t != []
    ensures var r := ReadCells(t, 0, nCol, cSep, rSep);
      var (c, rest) := SkipExtra(r.rest, r.cTerm, cSep, rSep);
      r.cTerm != EOF && c != EOF ==> ReadRows(t, nCol, cSep, rSep) == [r.cells] + ReadRows(rest, nCol, cSep, rSep)
  {}

  lemma RowIsNotEmpty(row: seq<Text>, sep: Byte, rowSeparator: Text)
    requires RowSeparator(rowSeparator)
    ensures RowText(row, sep, rowSeparator) != []
  {
    if row != [] {
      assert FieldText(row[0], sep) != [];
    }
  }

  /** A written table is read back row for row whatever the lengths of its rows and the number of columns: cells
      beyond the last column are dropped, missing ones are null. */
  lemma {:induction false} RaggedTableReadsBack(rows: seq<seq<Text>>, nCol: nat, sep: Byte, rowSeparator: Text)
    requires Separator(sep) && RowSeparator(rowSeparator) && nCol >= 1
    requires forall k | 0 <= k < |rows| :: rows[k] != []
    ensures ReadRows(TableText(rows, sep, rowSeparator), nCol, sep, LF) == AllFitted(rows, nCol)
    decreases rows
  {
    hide RowText, ReadRows, ReadCells, SkipExtra;
    if rows == [] {
      NoRows(nCol, sep, LF);
    } else {
      var row := rows[0];
      var rest := TableText(rows[1..], sep, rowSeparator);
      var t := RowText(row, sep, rowSeparator) + rest;
      RowIsNotEmpty(row, sep, rowSeparator);
      FittedReadsBack(row, 0, nCol, sep, rowSeparator, rest);
      if |row| > nCol {
        SurplusIsSkipped(row[nCol..], sep, rowSeparator, rest);
      } else {
        NothingSkipped(rest, LF, sep, LF);
      }
      OneRowRead(t, nCol, sep, LF);
      RaggedTableReadsBack(rows[1..], nCol, sep, rowSeparator);
    }
  }

  lemma NoRows(nCol: nat, cSep: int, rSep: int)
    requires nCol >= 1 && cSep != EOF
    ensures ReadRows([], nCol, cSep, rSep) == []
  {}

  lemma NothingSkipped(t: Text, cTerm: int, cSep: int, rSep: int)
    requires cSep != EOF && cTerm != cSep
    ensures SkipExtra(t, cTerm, cSep, rSep) == (cTerm, t)
  {}

  // ----- A last row that nothing ends

  lemma {:induction false} QuotedEnds(z: Text, sep: Byte, buffer: Text, pc: int, ppc: int)
    requires Separator(sep) && pc != QUOTE && ppc != QUOTE
    ensures Quoted(Escaped(z) + [QUOTE], buffer, pc, ppc, sep, LF) == Field(Some(buffer + z), EOF, [])
    decreases z
  {
    var t := Escaped(z) + [QUOTE];
    if z == [] {
      assert t == [QUOTE] && t[1..] == [] && buffer + z == buffer;
      assert Quoted(t, buffer, pc, ppc, sep, LF) == Quoted([], buffer + [QUOTE], QUOTE, pc, sep, LF);
    } else {
      var more := Escaped(z[1..]) + [QUOTE];
      if z[0] == QUOTE {
        assert t == [QUOTE, QUOTE] + more && t[1..] == [QUOTE] + more && t[1..][1..] == more;
        QuotedEnds(z[1..], sep, buffer + [QUOTE], 0, pc);
      } else {
        assert t == [z[0]] + more && t[1..] == more;
        QuotedEnds(z[1..], sep, buffer + [z[0]], z[0], pc);
      }
      assert buffer + [z[0]] + z[1..] == buffer + z;
    }
  }

  /** A written field at the end of the file. */
  lemma LastFieldReadsBack(z: Text, sep: Byte)
    requires Separator(sep)
    ensures ReadField(FieldText(z, sep), sep, LF) == Field(Some(z), EOF, [])
  {
    if z == [] || Special(z, sep) {
      LastQuotedReadsBack(z, sep);
    } else {
      LastPlainReadsBack(z, sep);
    }
  }

  lemma LastQuotedReadsBack(z: Text, sep: Byte)
    requires Separator(sep)
    ensures ReadField([QUOTE] + Escaped(z) + [QUOTE], sep, LF) == Field(Some(z), EOF, [])
  {
    hide Quoted, Escaped;
    var t := [QUOTE] + Escaped(z) + [QUOTE];
    assert t[0] == QUOTE && t[1..] == Escaped(z) + [QUOTE] && [] + z == z;
    QuotedEnds(z, sep, [], 0, 0);
  }

  lemma LastPlainReadsBack(z: Text, sep: Byte)
    requires Separator(sep) && z != [] && !Special(z, sep)
    ensures ReadField(z, sep, LF) == Field(Some(z), EOF, [])
  {
    assert !NeedsQuote(z[0]) && z + [] == z && [] + z == z;
    UnquotedTakes(z, [], [], sep, LF);
  }

  lemma FirstOfLastRow(row: seq<Text>, sep: Byte)
    requires Separator(sep) && row != []
    ensures ReadField(RowText(row, sep, []), sep, LF)
         == if |row| == 1 then Field(Some(row[0]), EOF, []) else Field(Some(row[0]), sep, RowText(row[1..], sep, []))
  {
    RowTextFirst(row, sep, [], []);
    assert RowText(row, sep, []) + [] == RowText(row, sep, []);
    if |row| == 1 {
      LastFieldReadsBack(row[0], sep);
      assert FieldText(row[0], sep) + ([] + []) == FieldText(row[0], sep);
    } else {
      var more := RowText(row[1..], sep, []);
      assert more + [] == more;
      FieldReadsBack(row[0], [sep] + more, sep, sep, more);
    }
  }

  lemma {:induction false} LastCellsReadBack(row: seq<Text>, i: nat, nCol: nat, sep: Byte)
    requires Separator(sep) && row != [] && i < nCol
    ensures ReadCells(RowText(row, sep, []), i, nCol, sep, LF)
         == if |row| <= nCol - i then Row(Fitted(row, nCol - i), EOF, [])
            else Row(Fitted(row, nCol - i), sep, RowText(row[nCol - i..], sep, []))
    decreases row
  {
    hide RowText, ReadField;
    FirstOfLastRow(row, sep);
    var cells := Fitted(row, nCol - i);
    if |row| == 1 {
      assert cells == [Some(row[0])] + Nulls(nCol - i - 1);
    } else if i < nCol - 1 {
      LastCellsReadBack(row[1..], i + 1, nCol, sep);
      assert cells == [Some(row[0])] + Fitted(row[1..], nCol - i - 1);
      assert |row| > nCol - i ==> row[1..][nCol - i - 1..] == row[nCol - i..];
    } else {
      assert cells == [Some(row[0])];
    }
  }

  lemma {:induction false} LastSurplusIsSkipped(row: seq<Text>, sep: Byte)
    requires Separator(sep) && row != []
    ensures SkipExtra(RowText(row, sep, []), sep, sep, LF) == (EOF, [])
    decreases row
  {
    hide RowText, ReadField;
    FirstOfLastRow(row, sep);
    FieldProgress(RowText(row, sep, []), sep, LF);
    if |row| > 1 {
      LastSurplusIsSkipped(row[1..], sep);
    }
  }

  lemma LastRowRead(t: Text, nCol: nat, cSep: int, rSep: int)
    requires nCol >= 1 && cSep != EOF && t != []
    ensures var r := ReadCells(t, 0, nCol, cSep, rSep);
      var c := SkipExtra(r.rest, r.cTerm, cSep, rSep).0;
      c == EOF ==> ReadRows(t, nCol, cSep, rSep) == [r.cells]
  {}

  /** Nothing is lost if the row separator of the last row is missing. */
  lemma {:induction false} UnendedTableReadsBack(rows: seq<seq<Text>>, last: seq<Text>, nCol: nat, sep: Byte,
                                                 rowSeparator: Text)
    requires Separator(sep) && RowSeparator(rowSeparator) && nCol >= 1 && last != []
    requires forall k | 0 <= k < |rows| :: rows[k] != []
    ensures ReadRows(TableText(rows, sep, rowSeparator) + RowText(last, sep, []), nCol, sep, LF)
         == AllFitted(rows + [last], nCol)
    decreases rows
  {
    hide RowText, ReadRows, ReadCells, SkipExtra;
    var end := RowText(last, sep, []);
    if rows == [] {
      assert TableText(rows, sep, rowSeparator) + end == end && rows + [last] == [last] && [last][1..] == [];
      LastRowIsNotEmpty(last, sep);
      LastCellsReadBack(last, 0, nCol, sep);
      if |last| > nCol {
        LastSurplusIsSkipped(last[nCol..], sep);
      } else {
        NothingSkipped([], EOF, sep, LF);
      }
      LastRowRead(end, nCol, sep, LF);
    } else {
      var row, more := rows[0], rows[1..];
      var rest := TableText(more, sep, rowSeparator) + end;
      var t := RowText(row, sep, rowSeparator) + rest;
      assert TableText(rows, sep, rowSeparator) + end == t;
      RowIsNotEmpty(row, sep, rowSeparator);
      FittedReadsBack(row, 0, nCol, sep, rowSeparator, rest);
      if |row| > nCol {
        SurplusIsSkipped(row[nCol..], sep, rowSeparator, rest);
      } else {
        NothingSkipped(rest, LF, sep, LF);
      }
      OneRowRead(t, nCol, sep, LF);
      UnendedTableReadsBack(more, last, nCol, sep, rowSeparator);
      assert (rows + [last])[1..] == more + [last];
    }
  }

  lemma LastRowIsNotEmpty(row: seq<Text>, sep: Byte)
    requires row != []
    ensures RowText(row, sep, []) != []
  {
    assert FieldText(row[0], sep) != [];
  }

  // ----- What is quoted

  lemma {:induction false} EscapedLonger(z: Text)
    ensures |Escaped(z)| >= |z|
  {
    if z != [] {
      EscapedLonger(z[1..]);
    }
  }

  /** A field stands in the file as it is exactly if it is not empty and consists of printable characters other than
      blanks, quotes of both kinds and the separator. */
  lemma PlainExactly(z: Text, sep: Byte)
    ensures FieldText(z, sep) == z <==>
      z != [] && forall i | 0 <= i < |z| :: 33 <= z[i] <= 126 && z[i] != 34 && z[i] != 39 && z[i] != sep
  {
    EscapedLonger(z);
  }

  /** Every other field stands between quotes, with each quote in it doubled. */
  lemma QuotesDoubled(a: Text, b: Text, sep: Byte)
    ensures FieldText(a, sep) != a ==> FieldText(a, sep) == [34] + Escaped(a) + [34]
    ensures Escaped(a + [34] + b) == Escaped(a) + [34, 34] + Escaped(b)
    ensures 34 !in a ==> Escaped(a) == a
  {
    EscapedConcat(a, [QUOTE] + b);
    assert a + [QUOTE] + b == a + ([QUOTE] + b) && ([QUOTE] + b)[1..] == b;
    if QUOTE !in a {
      NotEscaped(a);
    }
  }

  lemma {:induction false} NotEscaped(z: Text)
    requires QUOTE !in z
    ensures Escaped(z) == z
  {
    if z != [] {
      assert z[0] in z;
      NotEscaped(z[1..]);
    }
  }

  // ----- Nulls

  /** What a null cell is read back as: a field with the text that stands for null. It is one if that text, which is
      written as it is, needs no quotes. */
  lemma NullReadsBack(nullValue: Text, tail: Text, sep: Byte, term: int, rest: Text)
    requires Separator(sep) && Follows(tail, sep, term, rest) && !Special(nullValue, sep)
    ensures ReadField(CellText(None, sep, nullValue) + tail, sep, LF) == Field(Some(nullValue), term, rest)
  {
    if nullValue == [] {
      assert nullValue + tail == tail;
      if tail == [CR, LF] + rest {
        assert tail[1..] == [LF] + rest;
        assert WithoutCr([CR]) == [];
        assert Skip([LF] + rest) == rest;
        assert Unquoted([LF] + rest, [CR], sep, LF) == Field(Some([]), LF, rest);
        assert [] + [tail[0]] == [CR];
      }
    } else {
      PlainFieldReadsBack(nullValue, tail, sep, term, rest);
    }
  }

  /** A row with nulls is read back with that text in their places. */
  lemma {:induction false} RowWithNullsReadsBack(row: seq<Option<Text>>, i: nat, nCol: nat, sep: Byte,
                                                 rowSeparator: Text, nullValue: Text, rest: Text)
    requires Separator(sep) && RowSeparator(rowSeparator) && |row| >= 1 && i + |row| == nCol
    requires !Special(nullValue, sep)
    ensures var r := ReadCells(CellsText(row, sep, rowSeparator, nullValue) + rest, i, nCol, sep, LF);
      && r.cTerm == LF && r.rest == rest && |r.cells| == |row|
      && forall k | 0 <= k < |row| :: r.cells[k] == if row[k].None? then Some(nullValue) else row[k]
    decreases row
  {
    hide FieldText, ReadField, Special;
    var t := CellsText(row, sep, rowSeparator, nullValue) + rest;
    if |row| == 1 {
      assert row[1..] == [];
      assert t == CellText(row[0], sep, nullValue) + (rowSeparator + rest);
      CellReadsBack(row[0], rowSeparator + rest, sep, LF, rest, nullValue);
    } else {
      var more := CellsText(row[1..], sep, rowSeparator, nullValue) + rest;
      assert t == CellText(row[0], sep, nullValue) + ([sep] + more);
      CellReadsBack(row[0], [sep] + more, sep, sep, more, nullValue);
      RowWithNullsReadsBack(row[1..], i + 1, nCol, sep, rowSeparator, nullValue, rest);
    }
  }

  lemma CellReadsBack(z: Option<Text>, tail: Text, sep: Byte, term: int, rest: Text, nullValue: Text)
    requires Separator(sep) && Follows(tail, sep, term, rest) && !Special(nullValue, sep)
    ensures ReadField(CellText(z, sep, nullValue) + tail, sep, LF)
         == Field(Some(if z.None? then nullValue else z.value), term, rest)
  {
    if z.None? {
      NullReadsBack(nullValue, tail, sep, term, rest);
    } else {
      FieldReadsBack(z.value, tail, sep, term, rest);
    }
  }

  // ----- The separator as the reader sees it

  /** The reader keeps the separator as a signed character, but reads unsigned ones. */
  function Signed(b: Byte): int {
    if b < 128 then b else b - 256
  }

  /** What the loop over extra fields leaves, if it ends within `turns` turns. */
  function ExtraTurns(t: Text, cTerm: int, cSep: int, rSep: int, turns: nat): (r: Option<(int, Text)>)
    ensures r.Some? ==> |r.value.1| <= |t| && r.value.0 != cSep
    decreases turns
  {
    if cTerm != cSep then Some((cTerm, t))
    else if turns == 0 then None
    else
      FieldProgress(t, cSep, rSep);
      var f := ReadField(t, cSep, rSep);
      ExtraTurns(f.rest, f.cTerm, cSep, rSep, turns - 1)
  }

  /** Whether the import ends when no row takes more than `turns` turns of that loop. */
  predicate Ends(t: Text, nCol: nat, cSep: int, rSep: int, turns: nat)
    requires nCol >= 1
    decreases |t|
  {
    if t == [] then
      ExtraTurns([], EOF, cSep, rSep, turns).Some?
    else
      CellsProgress(t, 0, nCol, cSep, rSep);
      var row := ReadCells(t, 0, nCol, cSep, rSep);
      match ExtraTurns(row.rest, row.cTerm, cSep, rSep, turns)
      case None => false
      case Some((c, rest)) => c == EOF || row.cTerm == EOF || Ends(rest, nCol, cSep, rSep, turns)
  }

  lemma {:induction false} EndOfFileStays(rSep: int, turns: nat)
    ensures ExtraTurns([], EOF, EOF, rSep, turns).None?
  {
    if turns > 0 {
      EndOfFileStays(rSep, turns - 1);
    }
  }

  /** A field that ends the file leaves nothing of it, and so does a row. */
  lemma {:induction false} FileEnds(t: Text, i: nat, nCol: nat, cSep: int, rSep: int)
    requires i < nCol && rSep != EOF
    ensures var r := ReadCells(t, i, nCol, cSep, rSep); r.cTerm == EOF ==> r.rest == []
    decreases nCol - i
  {
    FieldEndsFile(t, cSep, rSep);
    if i < nCol - 1 {
      FileEnds(ReadField(t, cSep, rSep).rest, i + 1, nCol, cSep, rSep);
    }
  }

  lemma FieldEndsFile(t: Text, cSep: int, rSep: int)
    ensures var f := ReadField(t, cSep, rSep); f.cTerm == EOF ==> f.rest == []
  {
    if t != [] {
      if t[0] == QUOTE {
        QuotedEndsFile(t[1..], [], 0, 0, cSep, rSep);
      } else {
        UnquotedEndsFile(t, [], cSep, rSep);
      }
    }
  }

  lemma {:induction false} QuotedEndsFile(t: Text, z: Text, pc: int, ppc: int, cSep: int, rSep: int)
    ensures var f := Quoted(t, z, pc, ppc, cSep, rSep); f.cTerm == EOF ==> f.rest == []
    decreases |t|
  {
    if t != [] {
      var c := Next(t);
      if c == QUOTE && pc == QUOTE {
        QuotedEndsFile(t[1..], z, 0, ppc, cSep, rSep);
      } else if !Closes(c, pc, ppc, cSep, rSep) {
        QuotedEndsFile(t[1..], z + [t[0]], c, pc, cSep, rSep);
      }
    }
  }

  lemma {:induction false} UnquotedEndsFile(t: Text, z: Text, cSep: int, rSep: int)
    ensures var f := Unquoted(t, z, cSep, rSep); f.cTerm == EOF ==> f.rest == []
    decreases |t|
  {
    if t != [] && t[0] != cSep && t[0] != rSep {
      UnquotedEndsFile(t[1..], z + [t[0]], cSep, rSep);
    }
  }

  lemma {:induction false} NeverEnds(t: Text, nCol: nat, rSep: int, turns: nat)
    requires nCol >= 1 && rSep != EOF
    ensures !Ends(t, nCol, EOF, rSep, turns)
    decreases |t|
  {
    EndOfFileStays(rSep, turns);
    if t != [] {
      CellsProgress(t, 0, nCol, EOF, rSep);
      FileEnds(t, 0, nCol, EOF, rSep);
      var row := ReadCells(t, 0, nCol, EOF, rSep);
      if row.cTerm != EOF {
        NeverEnds(row.rest, nCol, rSep, turns);
      }
    }
  }

  lemma {:induction false} EnoughTurns(t: Text, cTerm: int, cSep: int, rSep: int, turns: nat)
    requires cSep != EOF && turns > |t|
    ensures ExtraTurns(t, cTerm, cSep, rSep, turns).Some?
    decreases |t|, cTerm == cSep
  {
    if cTerm == cSep {
      FieldProgress(t, cSep, rSep);
      var f := ReadField(t, cSep, rSep);
      if f.cTerm == cSep {
        EnoughTurns(f.rest, f.cTerm, cSep, rSep, turns - 1);
      }
    }
  }

  lemma {:induction false} EndsInTime(t: Text, nCol: nat, cSep: int, rSep: int, turns: nat)
    requires nCol >= 1 && cSep != EOF && turns > |t|
    ensures Ends(t, nCol, cSep, rSep, turns)
    decreases |t|
  {
    if t != [] {
      CellsProgress(t, 0, nCol, cSep, rSep);
      var row := ReadCells(t, 0, nCol, cSep, rSep);
      EnoughTurns(row.rest, row.cTerm, cSep, rSep, turns);
      var (c, rest) := ExtraTurns(row.rest, row.cTerm, cSep, rSep, turns).value;
      if c != EOF && row.cTerm != EOF {
        EndsInTime(rest, nCol, cSep, rSep, turns);
      }
    }
  }

  predicate EndsWithin(turns: nat, t: Text, nCol: nat, cSep: int, rSep: int)
    requires nCol >= 1
  {
    Ends(t, nCol, cSep, rSep, turns)
  }

  /** The import of a file, whatever is in it, ends exactly if the separator is not taken for the end of the file. */
  lemma ImportEnds(t: Text, nCol: nat, cSep: int, rSep: int)
    requires nCol >= 1 && rSep != EOF
    ensures (exists turns: nat :: EndsWithin(turns, t, nCol, cSep, rSep)) <==> cSep != EOF
  {
    if cSep == EOF {
      forall turns: nat ensures !EndsWithin(turns, t, nCol, cSep, rSep) {
        NeverEnds(t, nCol, rSep, turns);
      }
    } else {
      var turns := |t| + 1;
      EndsInTime(t, nCol, cSep, rSep, turns);
      assert EndsWithin(turns, t, nCol, cSep, rSep);
    }
  }

  /** What is written of a table with `sep` is read to its end, and read back. */
  ghost predicate ReadsBack(rows: seq<seq<Text>>, nCol: nat, sep: Byte, rowSeparator: Text)
    requires nCol >= 1
  {
    var t := TableText(rows, sep, rowSeparator);
    && (exists turns: nat :: EndsWithin(turns, t, nCol, Signed(sep), LF))
    && (Signed(sep) != EOF ==> ReadRows(t, nCol, Signed(sep), LF) == CellsOf(rows))
  }

  /** Every table that is written with `sep` is read back. */
  ghost predicate RoundTrips(sep: Byte, rowSeparator: Text) {
    forall rows: seq<seq<Text>>, nCol: nat | nCol >= 1 && forall k | 0 <= k < |rows| :: |rows[k]| == nCol ::
      ReadsBack(rows, nCol, sep, rowSeparator)
  }

  /** So a separator that is not a quote, CR or LF serves for all tables exactly if it is ASCII. With 255 the reader
      takes the end of the file for a separator, and does not end. */
  lemma SeparatorsThatServe(sep: Byte, rowSeparator: Text)
    requires Separator(sep) && RowSeparator(rowSeparator)
    ensures RoundTrips(sep, rowSeparator) <==> sep < 128
  {
    if sep < 128 {
      forall rows: seq<seq<Text>>, nCol: nat | nCol >= 1 && forall k | 0 <= k < |rows| :: |rows[k]| == nCol
        ensures ReadsBack(rows, nCol, sep, rowSeparator)
      {
        ImportEnds(TableText(rows, sep, rowSeparator), nCol, Signed(sep), LF);
        TableReadsBack(rows, nCol, sep, rowSeparator);
      }
    } else {
      var rows: seq<seq<Text>> := [[[65], [66]]];
      ImportEnds(TableText(rows, sep, rowSeparator), 2, Signed(sep), LF);
      if Signed(sep) != EOF {
        HighSeparatorIsRead(sep, rowSeparator);
        assert ReadRows(TableText(rows, sep, rowSeparator), 2, Signed(sep), LF)[0][0] == Some([65, sep, 66]);
        assert CellsOf(rows)[0][0] == Some([65]);
      }
      assert !ReadsBack(rows, 2, sep, rowSeparator);
    }
  }

  /** A separator beyond ASCII is read as part of the field. */
  lemma HighSeparatorIsRead(sep: Byte, rowSeparator: Text)
    requires sep >= 128 && RowSeparator(rowSeparator) && Signed(sep) != EOF
    ensures TableText([[[65], [66]]], sep, rowSeparator) == [65, sep, 66] + rowSeparator
    ensures ReadField([65, sep, 66] + rowSeparator, Signed(sep), LF).z == Some([65, sep, 66])
  {
    var fields: seq<Text> := [[65], [66]];
    assert !Special([65], sep) && !Special([66], sep);
    assert fields[1..] == [[66]] && fields[1..][1..] == [];
    assert RowText(fields[1..], sep, rowSeparator) == [66] + rowSeparator;
    assert RowText(fields, sep, rowSeparator) == [65, sep, 66] + rowSeparator;
    assert [fields][1..] == [];
    var z: Text := [65, sep, 66];
    UnquotedTakes(z, rowSeparator, [], Signed(sep), LF);
    assert [] + z == z && rowSeparator + [] == rowSeparator;
    UnquotedEnds(z, rowSeparator, Signed(sep), LF, []);
  }
}
