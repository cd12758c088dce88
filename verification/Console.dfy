/** The VGA console of kernel/vga.c: 25 rows of 80 cells that scroll.

    What an unscrolled writer would have produced is a tape without end. The screen is always a window
    of 2000 cells on it, starting at a multiple of 80. */
module Console {

  /** A cell: a character and its attribute byte. */
  datatype Cell = Cell(c: char, attribute: nat)

  const BLANK := Cell(' ', 0x0F)

  /** The tape: what is written, and where the next character goes. Unwritten cells are blank. */
  datatype Tape = Tape(cells: seq<Cell>, pos: nat) {
    /** The tape reaches past the position in whole rows. */
    ghost predicate Valid() { |cells| % 80 == 0 && |cells| >= 2000 && |cells| - 2000 <= pos < |cells| }
  }

  /** The tape one row longer, if the position has run off its end. */
  function Grown(t: Tape): Tape {
    if t.pos >= |t.cells| then t.(cells := t.cells + seq(80, _ => BLANK)) else t
  }

  function Put(t: Tape, c: char): Tape
    requires t.pos < |t.cells|
  {
    Grown(Tape(t.cells[t.pos := Cell(c, 0x0F)], t.pos + 1))
  }

  /** To the start of the next row. */
  function NewLine(t: Tape): Tape {
    Grown(t.(pos := t.pos + 80 - t.pos % 80))
  }

  function Write(t: Tape, s: string): (t': Tape)
    requires t.Valid()
    ensures t'.Valid() && |t.cells| <= |t'.cells| && t.pos <= t'.pos
    decreases |s|
  {
    if s == [] then t else
      PutValid(t, s[0]);
      Write(if s[0] == '\n' then NewLine(t) else Put(t, s[0]), s[1..])
  }

  lemma PutValid(t: Tape, c: char)
    requires t.Valid()
    ensures NewLine(t).Valid() && Put(t, c).Valid()
    ensures t.pos < NewLine(t).pos && t.pos < Put(t, c).pos
    ensures |t.cells| <= |NewLine(t).cells| && |t.cells| <= |Put(t, c).cells|
  {
    NextRow(t.pos, |t.cells|);
  }

  lemma NextRow(pos: nat, n: nat)
    requires n % 80 == 0 && pos < n
    ensures pos < pos + 80 - pos % 80 <= n
  {
    var q, r := pos / 80, n / 80;
    assert pos == 80 * q + pos % 80 && n == 80 * r;
    assert q < r;
  }

  // ----- Digits -----

  /** The decimal digits of `n`, most significant first. */
  function Decimal(n: nat): (s: string)
    ensures |s| > 0
  {
    if n < 10 then [DigitChar(n)] else Decimal(n / 10) + [DigitChar(n % 10)]
  }

  /** Digits and the letters A to F, as in the table of `print_hex`. */
  const HEX := "0123456789ABCDEF"

  function DigitChar(d: nat): char
    requires d < 16
  {
    HEX[d]
  }

  function DigitValue(c: char): nat {
    if '0' <= c <= '9' then c as int - '0' as int
    else if 'A' <= c <= 'F' then c as int - 'A' as int + 10
    else 0
  }

  /** The number a string of digits stands for. */
  function Decode(s: string, base: nat): nat {
    if s == [] then 0 else Decode(s[..|s| - 1], base) * base + DigitValue(s[|s| - 1])
  }

  lemma DigitRoundTrip(d: nat)
    requires d < 16
    ensures DigitValue(DigitChar(d)) == d && DigitChar(d) != '\n'
  {
  }

  lemma {:induction false} DecimalDecodes(n: nat)
    ensures Decode(Decimal(n), 10) == n && '\n' !in Decimal(n)
  {
    DigitRoundTrip(n % 10);
    if n < 10 {
      assert Decimal(n)[..0] == [];
    } else {
      DecimalDecodes(n / 10);
      assert Decimal(n)[..|Decimal(n)| - 1] == Decimal(n / 10);
    }
  }

  /** The last `k` hexadecimal digits of `n`. */
  function Hex(n: nat, k: nat): (s: string)
    ensures |s| == k
  {
    if k == 0 then [] else Hex(n / 16, k - 1) + [DigitChar(n % 16)]
  }

  function Power16(k: nat): (p: nat)
    ensures p > 0
  {
    if k == 0 then 1 else 16 * Power16(k - 1)
  }

  lemma {:induction false} HexDecodes(n: nat, k: nat)
    requires n < Power16(k)
    ensures Decode(Hex(n, k), 16) == n && '\n' !in Hex(n, k)
    decreases k
  {
    if k > 0 {
      DigitRoundTrip(n % 16);
      assert n == 16 * (n / 16) + n % 16;
      HexDecodes(n / 16, k - 1);
      assert Hex(n, k)[..k - 1] == Hex(n / 16, k - 1);
    }
  }

  /** `print_hex` shows all 32 bits. */
  lemma HexShowsAll(n: nat)
    requires n < 0x1_0000_0000
    ensures Decode(Hex(n, 8), 16) == n
  {
    Powers();
    HexDecodes(n, 8);
  }

  lemma Powers()
    ensures Power16(8) == 0x1_0000_0000
  {
    assert Power16(2) == 256;
    assert Power16(4) == 0x1_0000;
    assert Power16(6) == 0x100_0000;
  }

  lemma MulMono(m: nat, a: int, b: int)
    requires a <= b
    ensures m * a <= m * b
  {
  }

  lemma DivModUnique(m: nat, a: nat, x: nat)
    requires x < m
    ensures (m * a + x) % m == x && (m * a + x) / m == a
  {
    var n := m * a + x;
    var q := n / m;
    assert n == m * q + n % m;
    if q > a {
      MulMono(m, a + 1, q);
    } else if q < a {
      MulMono(m, q + 1, a);
    }
  }

  lemma Regroup(p: nat, q: nat, d: nat, x: nat)
    requires d < 16 && x < p
    ensures p * (16 * q + d) + x == (16 * p) * q + (p * d + x)
    ensures p * d + x < 16 * p
  {
    MulMono(p, d, 15);
  }

  /** Shifting by four bits once more. */
  lemma DivChain(n: nat, p: nat)
    requires p > 0
    ensures n / p / 16 == n / (16 * p)
  {
    var a, x := Quotient(n, p), n % p;
    var q, d := a / 16, a % 16;
    Regroup(p, q, d, x);
    DivModUnique(16 * p, q, p * d + x);
  }

  function Quotient(n: nat, p: nat): (q: nat)
    requires p > 0
    ensures q == n / p && n == p * q + n % p
  {
    n / p
  }
}
