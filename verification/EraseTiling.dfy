/** Covering a range of flash with sector and block erases. */
module EraseTiling {
  import opened Bits
  import opened NorChip

  ghost predicate Units(s: nat, b: nat) {
    s > 0 && b > 0 && b % s == 0
  }

  function SizeOf(u: EraseUnit, s: nat, b: nat): nat {
    if u.Block? then b else s
  }

  /** `ts` covers [a, a + n) exactly, in address order, with sectors of s and blocks of b bytes, each
      aligned to its own size. */
  ghost predicate IsTiling(s: nat, b: nat, ts: seq<EraseUnit>, a: nat, n: nat)
    requires Units(s, b)
  {
    if ts == [] then n == 0
    else
      && !ts[0].Whole?
      && ts[0].address == a
      && SizeOf(ts[0], s, b) <= n
      && a % SizeOf(ts[0], s, b) == 0
      && IsTiling(s, b, ts[1..], a + SizeOf(ts[0], s, b), n - SizeOf(ts[0], s, b))
  }

  lemma AlignedAdd(x: nat, y: nat, s: nat)
    requires s > 0 && x % s == 0 && y % s == 0
    ensures (x + y) % s == 0
  {
    assert x == (x / s) * s && y == (y / s) * s;
    assert x + y == (x / s + y / s) * s;
    ModIs(x + y, s, x / s + y / s, 0);
  }

  lemma AlignedSub(x: nat, y: nat, s: nat)
    requires s > 0 && x % s == 0 && y % s == 0 && y <= x
    ensures (x - y) % s == 0
  {
    var qx, qy := x / s, y / s;
    assert x == qx * s && y == qy * s;
    assert x - y == (qx - qy) * s && y - x == (qy - qx) * s;
    if qx < qy {
      MulAtLeast(qy - qx, s);
    }
    ModIs(x - y, s, qx - qy, 0);
  }

  lemma AlignedAtLeast(n: nat, s: nat)
    requires s > 0 && n % s == 0 && n > 0
    ensures n >= s
  {
    if n < s {
      ModIs(n, s, 0, n);
    }
  }

  /** What every step of a covering keeps: the rest is aligned and in range. */
  lemma Rest(s: nat, b: nat, a: nat, n: nat, u: nat)
    requires Units(s, b) && a % s == 0 && n % s == 0 && u % s == 0 && u <= n
    ensures (a + u) % s == 0 && (n - u) % s == 0
  {
    AlignedAdd(a, u, s);
    AlignedSub(n, u, s);
  }

  /** The driver's choice: a block wherever one is aligned and fits, otherwise a sector. */
  function Greedy(s: nat, b: nat, a: nat, n: nat): seq<EraseUnit>
    requires Units(s, b) && a % s == 0 && n % s == 0
    decreases n
  {
    if n == 0 then []
    else if a % b != 0 || n < b then
      AlignedAtLeast(n, s);
      ModIs(s, s, 1, 0);
      Rest(s, b, a, n, s);
      [Sector(a)] + Greedy(s, b, a + s, n - s)
    else
      Rest(s, b, a, n, b);
      [Block(a)] + Greedy(s, b, a + b, n - b)
  }

  lemma GreedyNothing(s: nat, b: nat, a: nat)
    requires Units(s, b) && a % s == 0
    ensures Greedy(s, b, a, 0) == []
  {
  }

  /** The first unit, and what remains after it. */
  lemma GreedyStep(s: nat, b: nat, a: nat, n: nat)
    requires Units(s, b) && a % s == 0 && n % s == 0 && n > 0
    ensures var ts := Greedy(s, b, a, n);
            var u := if a % b != 0 || n < b then s else b;
            && ts != [] && ts[0] == (if a % b != 0 || n < b then Sector(a) else Block(a))
            && u % s == 0 && 0 < u <= n && a % u == 0 && (a + u) % s == 0 && (n - u) % s == 0
            && ts == [ts[0]] + Greedy(s, b, a + u, n - u)
  {
    var u := if a % b != 0 || n < b then s else b;
    AlignedAtLeast(n, s);
    ModIs(s, s, 1, 0);
    Rest(s, b, a, n, u);
  }

  lemma {:induction false} GreedyIsTiling(s: nat, b: nat, a: nat, n: nat)
    requires Units(s, b) && a % s == 0 && n % s == 0
    ensures IsTiling(s, b, Greedy(s, b, a, n), a, n)
    decreases n
  {
    if n == 0 {
    } else {
      GreedyStep(s, b, a, n);
      var u := if a % b != 0 || n < b then s else b;
      GreedyIsTiling(s, b, a + u, n - u);
      assert Greedy(s, b, a, n)[1..] == Greedy(s, b, a + u, n - u);
    }
  }

  /** How many bytes the units cover together. */
  function Extent(s: nat, b: nat, ts: seq<EraseUnit>): nat {
    if ts == [] then 0 else Extent(s, b, ts[..|ts| - 1]) + SizeOf(ts[|ts| - 1], s, b)
  }

  lemma ExtentAppend(s: nat, b: nat, ts: seq<EraseUnit>, u: EraseUnit)
    ensures Extent(s, b, ts + [u]) == Extent(s, b, ts) + SizeOf(u, s, b)
  {
    assert (ts + [u])[..|ts|] == ts;
  }

  lemma {:induction false} ExtentJoin(s: nat, b: nat, ts: seq<EraseUnit>, us: seq<EraseUnit>)
    ensures Extent(s, b, ts + us) == Extent(s, b, ts) + Extent(s, b, us)
    decreases |us|
  {
    if us == [] {
      assert ts + us == ts;
    } else {
      var n := |us| - 1;
      ExtentJoin(s, b, ts, us[..n]);
      ExtentAppend(s, b, ts + us[..n], us[n]);
      assert ts + us == (ts + us[..n]) + [us[n]];
    }
  }

  /** The driver's units cover just the range, and any first few of them no more. */
  lemma {:induction false} GreedyExtent(s: nat, b: nat, a: nat, n: nat, j: nat)
    requires Units(s, b) && a % s == 0 && n % s == 0 && j <= |Greedy(s, b, a, n)|
    ensures Extent(s, b, Greedy(s, b, a, n)) == n
    ensures Extent(s, b, Greedy(s, b, a, n)[..j]) <= n
    decreases n
  {
    hide Greedy, Extent;
    NothingExtends(s, b);
    if n == 0 {
      GreedyNothing(s, b, a);
    } else {
      GreedyStep(s, b, a, n);
      var ts := Greedy(s, b, a, n);
      var u := SizeOf(ts[0], s, b);
      var rest := Greedy(s, b, a + u, n - u);
      GreedyExtent(s, b, a + u, n - u, if j > 0 then j - 1 else 0);
      ExtentAppend(s, b, [], ts[0]);
      assert [] + [ts[0]] == [ts[0]];
      ExtentJoin(s, b, [ts[0]], rest);
      if j > 0 {
        ExtentJoin(s, b, [ts[0]], rest[..j - 1]);
        assert ts[..j] == [ts[0]] + rest[..j - 1];
      } else {
        assert ts[..j] == [];
      }
    }
  }

  lemma NothingExtends(s: nat, b: nat)
    ensures Extent(s, b, []) == 0
  {
  }

  /** How many units of `ts` touch byte x. */
  function TimesErased(s: nat, b: nat, ts: seq<EraseUnit>, x: nat): nat {
    if ts == [] then 0
    else (if !ts[0].Whole? && ts[0].address <= x < ts[0].address + SizeOf(ts[0], s, b) then 1 else 0)
         + TimesErased(s, b, ts[1..], x)
  }

  /** An exact covering erases every byte of the range once and no other byte. */
  lemma {:induction false} TilingErasesOnce(s: nat, b: nat, ts: seq<EraseUnit>, a: nat, n: nat, x: nat)
    requires Units(s, b) && IsTiling(s, b, ts, a, n)
    ensures TimesErased(s, b, ts, x) == if a <= x < a + n then 1 else 0
    decreases |ts|
  {
    if ts == [] {
    } else {
      var u := SizeOf(ts[0], s, b);
      TilingErasesOnce(s, b, ts[1..], a + u, n - u, x);
    }
  }

  /** Up to the next block boundary only sectors fit, so reaching it saves nothing. */
  lemma {:induction false} RunToBoundary(s: nat, b: nat, a: nat, n: nat, d: nat)
    requires Units(s, b) && a % s == 0 && n % s == 0 && d % s == 0
    requires d < b && d <= n && (a + d) % b == 0
    ensures (a + d) % s == 0 && (n - d) % s == 0
    ensures |Greedy(s, b, a + d, n - d)| <= |Greedy(s, b, a, n)|
    decreases d
  {
    Rest(s, b, a, n, d);
    if d == 0 {
    } else {
      if a % b == 0 {
        ModIs(a + d, b, a / b, d);
      }
      AlignedAtLeast(d, s);
      ModIs(s, s, 1, 0);
      AlignedSub(d, s, s);
      Rest(s, b, a, n, s);
      RunToBoundary(s, b, a + s, n - s, d - s);
    }
  }

  /** Spending a sector where the driver picks a block never pays off. */
  lemma SectorFirstIsNoBetter(s: nat, b: nat, a: nat, n: nat)
    requires Units(s, b) && a % s == 0 && n % s == 0 && n >= s
    ensures (a + s) % s == 0 && (n - s) % s == 0
    ensures |Greedy(s, b, a, n)| <= 1 + |Greedy(s, b, a + s, n - s)|
  {
    ModIs(s, s, 1, 0);
    Rest(s, b, a, n, s);
    if a % b == 0 && n >= b {
      AlignedAtLeast(b, s);
      AlignedSub(b, s, s);
      ModIs(b, b, 1, 0);
      AlignedAdd(a, b, b);
      RunToBoundary(s, b, a + s, n - s, b - s);
    }
  }

  /** No exact covering of the range by aligned sectors and blocks uses fewer commands. */
  lemma {:induction false} GreedyIsMinimal(s: nat, b: nat, ts: seq<EraseUnit>, a: nat, n: nat)
    requires Units(s, b) && a % s == 0 && n % s == 0 && IsTiling(s, b, ts, a, n)
    ensures |Greedy(s, b, a, n)| <= |ts|
    decreases |ts|
  {
    if ts == [] {
    } else {
      var u := SizeOf(ts[0], s, b);
      ModIs(s, s, 1, 0);
      Rest(s, b, a, n, u);
      GreedyIsMinimal(s, b, ts[1..], a + u, n - u);
      if ts[0].Sector? {
        SectorFirstIsNoBetter(s, b, a, n);
      }
    }
  }
}
