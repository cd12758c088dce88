/** What a text looks like on the console: which cell each character stands in (kernel/vga.c). */
module ConsoleText {
  import opened Console

  /** The place after character `c` at place `pos`: the next cell, or the start of the next row. */
  function Next(pos: nat, c: char): nat {
    if c == '\n' then (pos / 80 + 1) * 80 else pos + 1
  }

  /** The place after a text that starts at `pos`. */
  function PlaceAfter(pos: nat, s: string): nat {
    if s == [] then pos else Next(PlaceAfter(pos, s[..|s| - 1]), s[|s| - 1])
  }

  /** A newline goes on at the first multiple of 80 above the position and writes nothing. */
  lemma NewLineEffect(t: Tape)
    requires t.Valid()
    ensures var t' := NewLine(t);
      && t'.pos == (t.pos / 80 + 1) * 80 && t'.pos % 80 == 0 && t.pos < t'.pos <= t.pos + 80
      && Extends(t.cells, t'.cells)
  {
    var q := t.pos / 80;
    assert t.pos == 80 * q + t.pos % 80;
    DivModUnique(80, q + 1, 0);
  }

  /** Any other character is written at the position, in white on black; no other cell changes. */
  lemma PutEffect(t: Tape, c: char)
    requires t.Valid()
    ensures var t' := Put(t, c);
      && t'.pos == t.pos + 1
      && t.pos < |t'.cells| && t'.cells[t.pos] == Cell(c, 0x0F)
      && Extends(t.cells[t.pos := Cell(c, 0x0F)], t'.cells)
  {
  }

  /** The same cells, and then blank ones, white on black. */
  ghost predicate Extends(cells: seq<Cell>, cells': seq<Cell>) {
    && |cells| <= |cells'|
    && (forall i :: 0 <= i < |cells| ==> cells'[i] == cells[i])
    && (forall i :: |cells| <= i < |cells'| ==> cells'[i] == Cell(' ', 0x0F))
  }

  /** Cell `i` of the tape, unwritten ones included. */
  function At(t: Tape, i: nat): Cell {
    if i < |t.cells| then t.cells[i] else Cell(' ', 0x0F)
  }

  /** Where character `k` of a text written from `pos` on goes. */
  function Place(pos: nat, s: string, k: nat): nat
    requires k <= |s|
  {
    PlaceAfter(pos, s[..k])
  }

  lemma PlaceNext(pos: nat, s: string, k: nat)
    requires k < |s|
    ensures Place(pos, s, k + 1) == Next(Place(pos, s, k), s[k])
  {
    assert s[..k + 1][..k] == s[..k];
  }

  /** Writing one character. */
  lemma WriteStep(t: Tape, c: char, i: nat)
    requires t.Valid()
    ensures var t' := if c == '\n' then NewLine(t) else Put(t, c);
      && t'.pos == Next(t.pos, c)
      && At(t', i) == if c != '\n' && i == t.pos then Cell(c, 0x0F) else At(t, i)
  {
    NewLineEffect(t);
    PutEffect(t, c);
  }

  /** Places ascend. */
  lemma {:induction false} PlacesGrow(pos: nat, s: string, k: nat)
    requires k < |s|
    ensures Place(pos, s, k) < PlaceAfter(pos, s)
    decreases |s|
  {
    var n := |s| - 1;
    if k < n {
      PlacesGrow(pos, s[..n], k);
      assert s[..n][..k] == s[..k];
    }
  }

  lemma {:induction false} WriteLast(t: Tape, s: string, c: char)
    requires t.Valid()
    ensures Write(t, s + [c]) ==
            if c == '\n' then NewLine(Write(t, s)) else Put(Write(t, s), c)
    decreases |s|
  {
    hide Put, NewLine;
    if s == [] {
      PutValid(t, c);
      assert ([] + [c])[1..] == [];
    } else {
      PutValid(t, s[0]);
      assert (s + [c])[1..] == s[1..] + [c];
      WriteLast(if s[0] == '\n' then NewLine(t) else Put(t, s[0]), s[1..], c);
    }
  }

  /** A text written from the position on leaves the position at the place after it. */
  lemma {:induction false} TextEnds(t: Tape, s: string)
    requires t.Valid()
    ensures Write(t, s).pos == PlaceAfter(t.pos, s)
    decreases |s|
  {
    hide Put, NewLine;
    if s != [] {
      var n := |s| - 1;
      TextEnds(t, s[..n]);
      assert s[..n] + [s[n]] == s;
      WriteLast(t, s[..n], s[n]);
      hide Write;
      WriteStep(Write(t, s[..n]), s[n], 0);
    }
  }

  /** Every character of it but the newlines stands in its place, white on black. */
  lemma {:induction false} TextStands(t: Tape, s: string, k: nat)
    requires t.Valid() && k < |s| && s[k] != '\n'
    ensures At(Write(t, s), Place(t.pos, s, k)) == Cell(s[k], 0x0F)
    decreases |s|
  {
    hide Put, NewLine, Write, At;
    var n := |s| - 1;
    var before := s[..n];
    assert before + [s[n]] == s && before[..k] == s[..k];
    WriteLast(t, before, s[n]);
    TextEnds(t, before);
    WriteStep(Write(t, before), s[n], Place(t.pos, s, k));
    if k < n {
      TextStands(t, before, k);
      PlacesGrow(t.pos, before, k);
    }
  }

  /** All other cells are as they were. */
  lemma {:induction false} TextSpares(t: Tape, s: string, i: nat)
    requires t.Valid()
    requires forall k :: 0 <= k < |s| && s[k] != '\n' ==> Place(t.pos, s, k) != i
    ensures At(Write(t, s), i) == At(t, i)
    decreases |s|
  {
    if s != [] {
      hide Put, NewLine, Write, At, PlaceAfter;
      var n := |s| - 1;
      var before := s[..n];
      assert before + [s[n]] == s;
      forall k | 0 <= k < n && before[k] != '\n' ensures Place(t.pos, before, k) != i {
        assert before[..k] == s[..k];
        assert Place(t.pos, s, k) == Place(t.pos, before, k);
      }
      TextSpares(t, before, i);
      WriteLast(t, before, s[n]);
      TextEnds(t, before);
      WriteStep(Write(t, before), s[n], i);
      assert s[n] != '\n' ==> Place(t.pos, s, n) != i;
    } else {
      assert Write(t, s) == t;
    }
  }

  /** From any point on, text without newlines stands in consecutive cells. */
  lemma {:induction false} OneLine(pos: nat, s: string, j: nat, k: nat)
    requires j <= k <= |s| && forall i :: j <= i < k ==> s[i] != '\n'
    ensures Place(pos, s, k) == Place(pos, s, j) + (k - j)
    decreases k
  {
    if j < k {
      OneLine(pos, s, j, k - 1);
      PlaceNext(pos, s, k - 1);
    }
  }

  /** After a newline the text goes on in column 0 of the next row. */
  lemma LineStarts(pos: nat, s: string, k: nat)
    requires k < |s| && s[k] == '\n'
    ensures Place(pos, s, k + 1) == 80 * (Place(pos, s, k) / 80 + 1)
  {
    PlaceNext(pos, s, k);
  }

  /** So every line of a text starts in column 0, in the row below the line before, and stands there in
      consecutive cells. */
  lemma LineStands(t: Tape, s: string, j: nat, k: nat)
    requires t.Valid() && j < k < |s| && s[j] == '\n' && forall i :: j < i <= k ==> s[i] != '\n'
    ensures At(Write(t, s), 80 * (Place(t.pos, s, j) / 80 + 1) + (k - j - 1)) == Cell(s[k], 0x0F)
  {
    hide Write, Place, At;
    LineStarts(t.pos, s, j);
    OneLine(t.pos, s, j + 1, k);
    TextStands(t, s, k);
  }

  /** And a text without newlines stands in consecutive cells from the position on. */
  lemma LineFromHere(t: Tape, s: string, k: nat)
    requires t.Valid() && '\n' !in s && k < |s|
    ensures At(Write(t, s), t.pos + k) == Cell(s[k], 0x0F)
    ensures Write(t, s).pos == t.pos + |s|
  {
    hide Write;
    assert s[..|s|] == s;
    OneLine(t.pos, s, 0, k);
    OneLine(t.pos, s, 0, |s|);
    TextStands(t, s, k);
    TextEnds(t, s);
  }

  // ----- Numbers -----

  predicate IsDecimal(c: char) { '0' <= c <= '9' }

  predicate IsHex(c: char) { '0' <= c <= '9' || 'A' <= c <= 'F' }

  lemma DigitIsHex(d: nat)
    requires d < 16
    ensures IsHex(DigitChar(d)) && (d < 10 ==> DigitChar(d) == ('0' as int + d) as char)
    ensures d >= 10 ==> DigitChar(d) == ('A' as int + d - 10) as char
  {
  }

  /** A decimal number is printed in the digits 0 to 9, without leading zeros. */
  lemma {:induction false} DecimalPlain(n: nat)
    ensures forall k :: 0 <= k < |Decimal(n)| ==> IsDecimal(Decimal(n)[k])
    ensures n > 0 ==> Decimal(n)[0] != '0'
  {
    DigitIsHex(n % 10);
    if n >= 10 {
      DecimalPlain(n / 10);
    }
  }

  /** A hexadecimal one in the digits 0 to 9 and A to F. */
  lemma {:induction false} HexPlain(n: nat, digits: nat)
    ensures forall k :: 0 <= k < digits ==> IsHex(Hex(n, digits)[k])
    decreases digits
  {
    if digits > 0 {
      DigitIsHex(n % 16);
      HexPlain(n / 16, digits - 1);
    }
  }
}
