/** Bytes, bitwise AND and powers of two.

    The flash driver rounds with masks such as `start & (pageSize - 1)`, builds address bytes with
    `(address & 0xFF0000) >> 16`, and a NOR cell keeps `old & new`.  All three use the same AND on
    naturals here, defined bit by bit, so the mask arithmetic is proved rather than assumed. */
module Bits {
  import opened Common

  type byte = x: nat | x < 256

  type u32 = x: nat | x < WRAP32

  function Pow2(k: nat): (p: nat)
    ensures p > 0
  {
    if k == 0 then 1 else 2 * Pow2(k - 1)
  }

  /** Bitwise AND of two naturals. */
  function And(x: nat, y: nat): (r: nat)
    ensures r <= x && r <= y
    decreases x, y
  {
    if x == 0 || y == 0 then 0
    else (if x % 2 == 1 && y % 2 == 1 then 1 else 0) + 2 * And(x / 2, y / 2)
  }

  lemma {:induction false} AndCommutes(x: nat, y: nat)
    ensures And(x, y) == And(y, x)
    decreases x
  {
    if x == 0 || y == 0 {
    } else {
      AndCommutes(x / 2, y / 2);
    }
  }

  lemma Halves(x: nat, m: nat)
    requires m > 0
    ensures x % (2 * m) == x % 2 + 2 * ((x / 2) % m)
  {
    var q, r := (x / 2) / m, (x / 2) % m;
    assert x / 2 == q * m + r;
    assert x == 2 * (q * m + r) + x % 2;
    assert x == q * (2 * m) + (2 * r + x % 2) by {
      assert 2 * (q * m) == q * (2 * m);
    }
    ModIs(x, 2 * m, q, 2 * r + x % 2);
  }

  /** Quotient and remainder are unique. */
  lemma ModIs(x: nat, m: nat, q: nat, r: nat)
    requires m > 0 && r < m && x == q * m + r
    ensures x % m == r && x / m == q
  {
    var q', r' := x / m, x % m;
    assert x == q' * m + r';
    assert (q' - q) * m == r - r' && (q - q') * m == r' - r;
    if q < q' {
      MulAtLeast(q' - q, m);
    } else if q' < q {
      MulAtLeast(q - q', m);
    }
  }

  lemma MulAtLeast(k: nat, m: nat)
    requires k >= 1
    ensures k * m >= m
  {
    assert k * m == (k - 1) * m + m;
  }

  /** One unfolding of AND. */
  lemma AndBit(x: nat, y: nat)
    ensures And(x, y) == (if x % 2 == 1 && y % 2 == 1 then 1 else 0) + 2 * And(x / 2, y / 2)
  {
  }

  /** `x & (2^k - 1)` is `x mod 2^k`: what every alignment mask in the driver relies on. */
  lemma {:induction false} MaskIsMod(x: nat, k: nat)
    ensures And(x, Pow2(k) - 1) == x % Pow2(k)
    decreases k
  {
    hide And;
    if k == 0 {
    } else {
      var h := Pow2(k - 1);
      Halves(x, h);
      MaskIsMod(x / 2, k - 1);
      AndBit(x, 2 * h - 1);
      assert (2 * h - 1) / 2 == h - 1;
    }
  }

  /** An even mask drops the lowest bit. */
  lemma AndEven(x: nat, m: nat)
    ensures And(x, 2 * m) == 2 * And(x / 2, m)
  {
    var y := 2 * m;
    assert y / 2 == m && y % 2 == 0;
    AndBit(x, y);
  }

  /** AND with a mask whose low k bits are clear acts on the quotient by 2^k. */
  lemma {:induction false} AndShifted(x: nat, y: nat, k: nat, p: nat, xp: nat, yp: nat)
    requires p == Pow2(k) && xp == x / p && yp == y * p
    ensures And(x, yp) == And(xp, y) * p
    decreases k
  {
    hide And;
    if k == 0 {
    } else {
      var h := Pow2(k - 1);
      var yh: nat := y * h;
      DoubleProduct(y, h);
      AndEven(x, yh);
      DivDiv(x, h);
      AndShifted(x / 2, y, k - 1, h, xp, yh);
      DoubleProduct(And(xp, y), h);
    }
  }

  lemma DoubleProduct(a: nat, h: nat)
    ensures a * (2 * h) == 2 * (a * h)
  {
  }

  lemma DivDiv(x: nat, h: nat)
    requires h > 0
    ensures (x / 2) / h == x / (2 * h)
  {
    var q, r := (x / 2) / h, (x / 2) % h;
    assert x / 2 == q * h + r;
    assert x == q * (2 * h) + (2 * r + x % 2) by { assert 2 * (q * h) == q * (2 * h); }
    ModIs(x, 2 * h, q, 2 * r + x % 2);
  }

  lemma ByteMasks()
    ensures Pow2(8) == 0x100 && Pow2(16) == 0x10000 && Pow2(24) == 0x100_0000
  {
    assert Pow2(8) == 16 * Pow2(4) == 0x100;
    assert Pow2(16) == 16 * Pow2(12) == 256 * Pow2(8);
    assert Pow2(24) == 16 * Pow2(20) == 256 * Pow2(16);
  }

  /** AND with 0xFF keeps a byte, from either side. */
  lemma AndAllOnes(b: byte)
    ensures And(b, 0xFF) == b && And(0xFF, b) == b
  {
    LowByte(b, 0xFF);
    AndCommutes(b, 0xFF);
  }

  lemma LowByte(x: nat, m: nat)
    requires m == 0xFF
    ensures And(x, m) == x % 0x100
  {
    ByteMasks();
    MaskIsMod(x, 8);
  }

  lemma {:induction false} Pow2Splits(j: nat, k: nat)
    requires j <= k
    ensures Pow2(k) == Pow2(k - j) * Pow2(j) && Pow2(j) <= Pow2(k)
    decreases k
  {
    if j == k {
      assert Pow2(0) == 1;
    } else {
      Pow2Splits(j, k - 1);
      assert Pow2(k) == 2 * (Pow2(k - 1 - j) * Pow2(j)) == Pow2(k - j) * Pow2(j);
    }
  }

  /** One address byte: `(address & mask) >> k`, cast to eight bits; p is 2^k. */
  function AddressByte(address: nat, mask: nat, p: nat): byte
    requires p > 0
  {
    And(address, mask) / p % 0x100
  }

  lemma AddressByteIs(x: nat, m: nat, mask: nat, k: nat, p: nat, xp: nat)
    requires p == Pow2(k) && m == 0xFF && mask == m * p && xp == x / p
    ensures AddressByte(x, mask, p) == xp % 0x100
  {
    hide And;
    AndShifted(x, m, k, p, xp, mask);
    LowByte(xp, m);
    ModIs(And(x, mask), p, xp % 0x100, 0);
  }

  /** The three address bytes of a flash command, most significant first. */
  function AddressBytes(address: nat): (bs: seq<byte>)
    ensures |bs| == 3
  {
    [AddressByte(address, 0xFF0000, 0x10000), AddressByte(address, 0x00FF00, 0x100), AddressByte(address, 0x0000FF, 1)]
  }

  /** What the chip makes of three address bytes. */
  function DecodeAddress(bs: seq<byte>): nat
    requires |bs| == 3
  {
    bs[0] as nat * 0x10000 + bs[1] as nat * 0x100 + bs[2] as nat
  }

  /** Sending an address transmits exactly its low 24 bits. */
  lemma AddressRoundTrip(address: nat)
    ensures DecodeAddress(AddressBytes(address)) == address % 0x100_0000
  {
    ByteMasks();
    AddressByteIs(address, 0xFF, 0x0000FF, 0, 1, address);
    AddressByteIs(address, 0xFF, 0x00FF00, 8, 0x100, address / 0x100);
    AddressByteIs(address, 0xFF, 0xFF0000, 16, 0x10000, address / 0x10000);
    var bs := AddressBytes(address);
    ThreeDigits(address, bs[0], bs[1], bs[2]);
  }

  lemma ThreeDigits(x: nat, h: nat, m: nat, l: nat)
    requires h == x / 0x10000 % 0x100 && m == x / 0x100 % 0x100 && l == x % 0x100
    ensures h * 0x10000 + m * 0x100 + l == x % 0x100_0000
  {
    var x1 := x / 0x100;
    var x2 := x1 / 0x100;
    assert x2 == x / 0x10000;
    assert x == x2 * 0x10000 + m * 0x100 + l;
    assert x2 == x2 / 0x100 * 0x100 + h;
    ModIs(x, 0x100_0000, x2 / 0x100, h * 0x10000 + m * 0x100 + l);
  }

  /** A 32-bit field in memory order. */
  function Le32(x: u32): (bs: seq<byte>)
    ensures |bs| == 4
  {
    [x % 0x100, x / 0x100 % 0x100, x / 0x10000 % 0x100, x / 0x100_0000]
  }

  function FromLe32(b0: byte, b1: byte, b2: byte, b3: byte): u32 {
    b0 as nat + b1 as nat * 0x100 + b2 as nat * 0x10000 + b3 as nat * 0x100_0000
  }

  /** Four bytes are told apart by the number they stand for. */
  lemma FromLe32Injective(b0: byte, b1: byte, b2: byte, b3: byte, c0: byte, c1: byte, c2: byte, c3: byte)
    ensures FromLe32(b0, b1, b2, b3) == FromLe32(c0, c1, c2, c3) <==> b0 == c0 && b1 == c1 && b2 == c2 && b3 == c3
  {
    if FromLe32(b0, b1, b2, b3) == FromLe32(c0, c1, c2, c3) {
      var x2, y2 := b2 + 0x100 * b3, c2 + 0x100 * c3;
      var x1, y1 := b1 + 0x100 * x2, c1 + 0x100 * y2;
      LowDigit(b0, x1, c0, y1);
      LowDigit(b1, x2, c1, y2);
      LowDigit(b2, b3, c2, c3);
    }
  }

  lemma LowDigit(b: byte, x: nat, c: byte, y: nat)
    requires b + 0x100 * x == c + 0x100 * y
    ensures b == c && x == y
  {
  }

  lemma Le32RoundTrip(x: u32)
    ensures var b := Le32(x); FromLe32(b[0], b[1], b[2], b[3]) == x
  {
    var x1, x2 := x / 0x100, x / 0x10000;
    assert x1 / 0x100 == x2 && x2 / 0x100 == x / 0x100_0000;
  }

  /** The four bytes from position i on, lowest first, show x as far as 32 bits do. */
  predicate LeAt(bs: seq<byte>, i: nat, x: nat) {
    i + 4 <= |bs|
    && bs[i] as nat + bs[i + 1] as nat * 0x100 + bs[i + 2] as nat * 0x1_0000 + bs[i + 3] as nat * 0x100_0000 == x % WRAP32
  }

  lemma Le32Shows(x: u32)
    ensures LeAt(Le32(x), 0, x)
  {
    hide Le32;
    Le32RoundTrip(x);
    SmallMod(x);
  }

  lemma SmallMod(x: u32)
    ensures x % WRAP32 == x
  {
  }
}
