/** The screen memory at 0xB8000 and the cursor, written in place (kernel/vga.c). */
module Screen {
  import opened Console

  lemma {:induction false} WriteAppend(t: Tape, a: string, b: string)
    requires t.Valid()
    ensures Write(t, a + b) == Write(Write(t, a), b)
    decreases |a|
  {
    if a == [] {
      assert a + b == b;
    } else {
      hide Put, NewLine;
      PutValid(t, a[0]);
      assert (a + b)[1..] == a[1..] + b;
      WriteAppend(if a[0] == '\n' then NewLine(t) else Put(t, a[0]), a[1..], b);
    }
  }

  lemma WriteOne(t: Tape, c: char)
    requires t.Valid() && c != '\n'
    ensures Write(t, [c]) == Put(t, c)
  {
    hide Put, NewLine;
    PutValid(t, c);
    assert [c][1..] == [];
  }

  lemma WriteNothing(t: Tape)
    requires t.Valid()
    ensures Write(t, []) == t
  {
  }

  class Vga {
    const cells: array<Cell>
    var cursor: nat
    ghost var tape: Tape

    /** The screen is the last 25 rows of the tape, and the cursor stands at the tape's position. */
    ghost predicate Valid()
      reads this, cells
    {
      && cells.Length == 2000 && tape.Valid()
      && cursor == tape.pos - (|tape.cells| - 2000)
      && cells[..] == tape.cells[|tape.cells| - 2000..]
    }

    /** Any screen, with the cursor on it. */
    constructor (cells: array<Cell>, cursor: nat)
      requires cells.Length == 2000 && cursor < 2000
      ensures Valid() && this.cells == cells && this.cursor == cursor && tape == Tape(cells[..], cursor)
    {
      this.cells, this.cursor := cells, cursor;
      tape := Tape(cells[..], cursor);
    }

    /** `add_line`: move every row up, blank the last, and bring the cursor back if it ran off. */
    method AddLine()
      requires cells.Length == 2000
      modifies cells, this`cursor
      ensures cells[..] == old(cells[80..]) + seq(80, _ => BLANK)
      ensures cursor == if old(cursor) >= 2000 then old(cursor) - 80 else old(cursor)
    {
      for row := 1 to 25
        invariant cursor == old(cursor)
        invariant forall j :: 0 <= j < 80 * (row - 1) ==> cells[j] == old(cells[j + 80])
        invariant forall j :: 80 * (row - 1) <= j < 2000 ==> cells[j] == old(cells[j])
      {
        for col := 0 to 80
          invariant cursor == old(cursor)
          invariant forall j :: 0 <= j < 80 * (row - 1) + col ==> cells[j] == old(cells[j + 80])
          invariant forall j :: 80 * (row - 1) + col <= j < 2000 ==> cells[j] == old(cells[j])
        {
          cells[(row - 1) * 80 + col] := cells[row * 80 + col];
        }
      }
      for col := 0 to 80
        invariant cursor == old(cursor)
        invariant forall j :: 0 <= j < 1920 ==> cells[j] == old(cells[j + 80])
        invariant forall j :: 1920 <= j < 1920 + col ==> cells[j] == BLANK
      {
        cells[24 * 80 + col] := BLANK;
      }
      assert forall j :: 1920 <= j < 2000 ==> cells[j] == BLANK;
      if cursor >= 2000 {
        cursor := cursor - 80;
      }
    }

    /** Scroll if the cursor has run off the screen: the tape grows by the row that comes into view. */
    method AddLineIfNeeded(ghost ahead: Tape)
      requires cells.Length == 2000
      requires |ahead.cells| % 80 == 0 && |ahead.cells| >= 2000 && |ahead.cells| - 2000 <= ahead.pos <= |ahead.cells|
      requires cursor == ahead.pos - (|ahead.cells| - 2000)
      requires cells[..] == ahead.cells[|ahead.cells| - 2000..]
      modifies this, cells
      ensures Valid() && tape == Grown(ahead)
    {
      tape := ahead;
      if cursor >= 2000 {
        AddLine();
        tape := Grown(ahead);
        var n := |ahead.cells|;
        assert ahead.cells[n - 2000..][80..] == ahead.cells[n - 1920..];
        assert tape.cells[n - 1920..] == ahead.cells[n - 1920..] + seq(80, _ => BLANK);
      }
    }

    /** Print one character, not a newline. */
    method PutChar(c: char)
      requires Valid()
      modifies this, cells
      ensures Valid() && tape == Put(old(tape), c)
    {
      ghost var n := |tape.cells|;
      ghost var cell := Cell(c, 0x0F);
      cells[cursor] := Cell(c, 0x0F);
      assert tape.cells[tape.pos := cell][n - 2000..] == tape.cells[n - 2000..][cursor := cell];
      cursor := cursor + 1;
      AddLineIfNeeded(Tape(tape.cells[tape.pos := cell], tape.pos + 1));
    }

    method StartNewLine()
      requires Valid()
      modifies this, cells
      ensures Valid() && tape == NewLine(old(tape))
    {
      NextRow(tape.pos, |tape.cells|);
      SameColumn(tape.pos, |tape.cells| - 2000);
      cursor := cursor + (80 - cursor % 80);
      AddLineIfNeeded(tape.(pos := tape.pos + 80 - tape.pos % 80));
    }

    static lemma SameColumn(pos: nat, start: nat)
      requires start % 80 == 0 && start <= pos
      ensures (pos - start) % 80 == pos % 80
    {
      var q, r := pos / 80, start / 80;
      assert pos - start == 80 * (q - r) + pos % 80;
      DivModUnique(80, q - r, pos % 80);
    }

    /** `print_string`; C strings hold no NUL. */
    method PrintString(str: string)
      requires Valid()
      modifies this, cells
      ensures Valid() && tape == Write(old(tape), str)
    {
      hide Put, NewLine;
      for k := 0 to |str|
        invariant Valid()
        invariant Write(tape, str[k..]) == Write(old(tape), str)
      {
        assert str[k..][1..] == str[k + 1..];
        if str[k] == '\n' {
          StartNewLine();
        } else {
          PutChar(str[k]);
        }
      }
    }

    /** `print_number`: collect the digits from the right, then print them from the left. */
    method PrintNumber(n: nat)
      requires Valid() && n < 0x1_0000_0000
      modifies this, cells
      ensures Valid() && tape == Write(old(tape), Decimal(n))
    {
      hide Put, Write;
      if n == 0 {
        WriteOne(tape, '0');
        PutChar('0');
        return;
      }
      var buffer := new char[21];
      var counter := Digits(n, buffer);
      PrintBuffer(n, buffer, counter);
    }

    /** The digits of `n`, least significant first. */
    method Digits(n: nat, buffer: array<char>) returns (counter: nat)
      requires 0 < n < 0x1_0000_0000 && buffer.Length == 21
      modifies buffer
      ensures counter == |Decimal(n)| <= 10
      ensures forall i :: 0 <= i < counter ==> buffer[i] == Decimal(n)[counter - 1 - i]
    {
      ghost var digits := Decimal(n);
      TenDigits(n);
      var rest: nat := n;
      counter := 0;
      while rest > 0
        invariant counter <= |digits|
        invariant rest > 0 ==> Decimal(rest) == digits[..|digits| - counter]
        invariant rest == 0 ==> counter == |digits|
        invariant forall i :: 0 <= i < counter ==> buffer[i] == digits[|digits| - 1 - i]
      {
        assert Decimal(rest)[|Decimal(rest)| - 1] == DigitChar(rest % 10);
        assert rest >= 10 ==> Decimal(rest / 10) == Decimal(rest)[..|Decimal(rest)| - 1];
        buffer[counter] := DigitChar(rest % 10);
        counter := counter + 1;
        rest := rest / 10;
      }
    }

    static lemma {:induction false} DecimalLength(n: nat, k: nat)
      requires 0 < k && n < Power10(k)
      ensures |Decimal(n)| <= k
      decreases k
    {
      if n >= 10 {
        assert k > 1;
        DecimalLength(n / 10, k - 1);
      }
    }

    static lemma TenDigits(n: nat)
      requires n < 0x1_0000_0000
      ensures |Decimal(n)| <= 10
    {
      assert Power10(3) == 1000;
      assert Power10(6) == 1000000;
      assert Power10(9) == 1000000000;
      DecimalLength(n, 10);
    }

    static function Power10(k: nat): nat {
      if k == 0 then 1 else 10 * Power10(k - 1)
    }

    method PrintBuffer(n: nat, buffer: array<char>, count: nat)
      requires Valid() && count == |Decimal(n)| <= buffer.Length
      requires forall i :: 0 <= i < count ==> buffer[i] == Decimal(n)[count - 1 - i]
      modifies this, cells
      ensures Valid() && tape == Write(old(tape), Decimal(n))
    {
      hide Put, Write;
      ghost var digits := Decimal(n);
      ghost var chars := buffer[..];
      DecimalDecodes(n);
      WriteNothing(tape);
      var counter: nat := count;
      while counter > 0
        invariant 0 <= counter <= count && Valid() && buffer[..] == chars
        invariant tape == Write(old(tape), digits[..count - counter])
      {
        counter := counter - 1;
        ghost var k := count - 1 - counter;
        assert buffer[counter] == chars[counter] == digits[k];
        assert digits[..k + 1] == digits[..k] + [digits[k]];
        WriteAppend(old(tape), digits[..k], [digits[k]]);
        WriteOne(tape, digits[k]);
        PutChar(buffer[counter]);
      }
      assert digits[..count] == digits;
    }

    /** `print_hex`: "0x" and the eight hexadecimal digits of `n`, from the top four bits down. */
    method PrintHex(n: nat)
      requires Valid() && n < 0x1_0000_0000
      modifies this, cells
      ensures Valid() && tape == Write(old(tape), "0x" + Hex(n, 8))
    {
      hide Put, Hex, Power16, Write;
      WriteOne(tape, '0');
      PutChar('0');
      WriteOne(tape, 'x');
      WriteAppend(old(tape), "0", "x");
      PutChar('x');
      assert "0" + "x" == "0x";
      NoHexYet(n);
      var left: nat := 8;
      while left > 0
        invariant 0 <= left <= 8 && Valid()
        invariant tape == Write(old(tape), HexFrom(n, left))
      {
        left := left - 1;
        var digit := n / Power16(left) % 16;
        NextHex(n, left);
        WriteAppend(old(tape), HexFrom(n, left + 1), [DigitChar(digit)]);
        WriteOne(tape, DigitChar(digit));
        PutChar(DigitChar(digit));
      }
      AllHex(n);
    }

    /** What is printed when `left` digits are still to come. */
    static ghost function HexFrom(n: nat, left: nat): string
      requires left <= 8
    {
      "0x" + Hex(Quotient(n, Power16(left)), 8 - left)
    }

    static lemma NoHexYet(n: nat)
      ensures HexFrom(n, 8) == "0x"
    {
    }

    static lemma AllHex(n: nat)
      ensures HexFrom(n, 0) == "0x" + Hex(n, 8)
    {
      assert n / 1 == n;
    }

    static lemma NextHex(n: nat, left: nat)
      requires left < 8
      ensures var digit := n / Power16(left) % 16;
        HexFrom(n, left) == HexFrom(n, left + 1) + [DigitChar(digit)] && DigitChar(digit) != '\n'
    {
      DivChain(n, Power16(left));
      DigitRoundTrip(n / Power16(left) % 16);
    }
  }
}
