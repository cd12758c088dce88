/** 32-bit page-table words: a frame address in the upper 20 bits, flags in the lower 12
    (Intel SDM Volume 3A, section 4.3). Bit operations are written as the arithmetic they stand for. */
module Words {
  const PRESENT: nat := 1
  const WRITE: nat := 2
  const USER: nat := 4

  /** `w & 0xFFFFF000`: the start of the page that address `w` lies in, and the frame of word `w`. */
  function PageStart(w: nat): nat { w - w % 4096 }

  predicate IsPresent(w: nat) { w % 2 == 1 }

  predicate IsWritable(w: nat) { w / 2 % 2 == 1 }

  predicate IsUser(w: nat) { w % 8 >= 4 }

  /** `w | PAGE_USER`. */
  function WithUser(w: nat): nat { if IsUser(w) then w else w + 4 }

  /** The flags a caller may pass: any combination of present, write and user. */
  predicate IsFlags(flags: nat) { flags < 8 }

  lemma Mod8(q: int, r: int)
    requires 0 <= r < 8
    ensures (8 * q + r) % 8 == r && (8 * q + r) / 8 == q
  {
  }

  lemma Mod2(q: int, r: int)
    requires 0 <= r < 2
    ensures (2 * q + r) % 2 == r
  {
  }

  lemma WordBits(a: nat, b: nat)
    requires b < 4096
    ensures (4096 * a + b) / 2 % 2 == b / 2 % 2
    ensures (4096 * a + b) % 4096 == b
    ensures (4096 * a + b) % 8 == b % 8
    ensures (4096 * a + b) % 2 == b % 2
  {
    Mod8(512 * a + b / 8, b % 8);
    assert 4096 * a + b == 8 * (512 * a + b / 8) + b % 8;
    Mod2(2048 * a + b / 2, b % 2);
    assert 4096 * a + b == 2 * (2048 * a + b / 2) + b % 2;
    SecondBit(a, b);
  }

  lemma SecondBit(a: nat, b: nat)
    ensures (4096 * a + b) / 2 % 2 == b / 2 % 2
  {
    assert (4096 * a + b) / 2 == 2 * (1024 * a + b / 4) + b / 2 % 2;
    Mod2(1024 * a + b / 4, b / 2 % 2);
  }

  lemma SetUserBit(b: nat)
    requires b < 4096 && b % 8 < 4
    ensures b + 4 < 4096 && (b + 4) % 8 >= 4 && (b + 4) % 2 == b % 2 && (b + 4) / 2 % 2 == b / 2 % 2
  {
    assert b == 8 * (b / 8) + b % 8;
    Mod8(b / 8, b % 8 + 4);
    Mod2(b / 2 + 2, b % 2);
    assert b + 4 == 2 * (b / 2 + 2) + b % 2;
  }

  /** Setting the user bit of a word changes neither its frame nor its other bits. */
  lemma WithUserFrame(w: nat)
    ensures PageStart(WithUser(w)) == PageStart(w) && (IsPresent(WithUser(w)) <==> IsPresent(w)) && IsUser(WithUser(w))
    ensures IsWritable(WithUser(w)) <==> IsWritable(w)
  {
    var a, b := w / 4096, w % 4096;
    assert w == 4096 * a + b;
    WordBits(a, b);
    if b % 8 < 4 {
      SetUserBit(b);
      WordBits(a, b + 4);
    }
  }

  /** A frame or-ed with flags keeps both apart. */
  lemma FlagsWord(physical: nat, flags: nat)
    requires IsFlags(flags)
    ensures IsUser(PageStart(physical) + flags) <==> IsUser(flags)
    ensures IsPresent(PageStart(physical) + flags) <==> IsPresent(flags)
    ensures IsWritable(PageStart(physical) + flags) <==> IsWritable(flags)
    ensures PageStart(PageStart(physical) + flags) == PageStart(physical)
    ensures physical % 4096 == 0 ==> PageStart(physical) == physical
  {
    assert PageStart(physical) == 4096 * (physical / 4096);
    WordBits(physical / 4096, flags);
  }
}
