/** A count-min sketch: `depth` rows of `width` 32-bit counters.  A name is
    counted in one slot per row, chosen by mixing its hash with the row's
    seed, and estimated by the smallest of those slots. */
module Sketch {
  import opened Names

  newtype u32 = x: int | 0 <= x < 0x1_0000_0000
  newtype u64 = x: int | 0 <= x < 0x1_0000_0000_0000_0000

  /** The odd 32-bit constant the row seeds are multiples of. */
  const PRIME: u32 := 0x9E37_79B9
  /** Counters wrap modulo 2^32. */
  const COUNTER_MODULUS: nat := 0x1_0000_0000
  /** `estimate` over zero rows. */
  const U64_MAX: nat := 0xFFFF_FFFF_FFFF_FFFF

  /** The seed of row `i`: `(i + 1) * PRIME` truncated to 32 bits. */
  function SeedFor(i: nat): u32
  {
    ((i + 1) * PRIME as int % COUNTER_MODULUS) as u32
  }

  /** Bitwise exclusive or of the low `bits` bits of `a` and `b`. */
  function Xor(a: nat, b: nat, bits: nat): nat
    decreases bits
  {
    if bits == 0 then 0
    else (a + b) % 2 + 2 * Xor(a / 2, b / 2, bits - 1)
  }

  /** Per-row mix: the base hash XOR the row seed, over 64 bits. */
  function Mix(base: u64, seed: u32): nat
  {
    Xor(base as nat, seed as nat, 64)
  }

    /** 2 to the power `n`. */
  function Pow2(n: nat): (p: nat)
    ensures p > 0
  {
    if n == 0 then 1 else 2 * Pow2(n - 1)
  }

  lemma {:induction false} Pow2Add(a: nat, b: nat)
    ensures Pow2(a + b) == Pow2(a) * Pow2(b)
  {
    if a > 0 {
      Pow2Add(a - 1, b);
      assert Pow2(a + b) == 2 * Pow2(a - 1 + b);
    }
  }

  lemma Pow2Of64()
    ensures Pow2(64) == U64_MAX + 1
  {
    assert Pow2(2) == 4;
    Pow2Add(2, 2);
    assert Pow2(4) == 16;
    Pow2Add(4, 4);
    assert Pow2(8) == 0x100;
    Pow2Add(8, 8);
    assert Pow2(16) == 0x1_0000;
    Pow2Add(16, 16);
    assert Pow2(32) == 0x1_0000_0000;
    Pow2Add(32, 32);
  }

  /** The exclusive or of the low `bits` bits fits in `bits` bits. */
  lemma {:induction false} XorBound(a: nat, b: nat, bits: nat)
    ensures Xor(a, b, bits) < Pow2(bits)
  {
    if bits > 0 {
      XorBound(a / 2, b / 2, bits - 1);
    }
  }

  /** The lowest bit of an exclusive or, and the exclusive or of the rest. */
  lemma XorStep(a: nat, b: nat, bits: nat)
    requires bits > 0
    ensures Xor(a, b, bits) % 2 == (a + b) % 2
    ensures Xor(a, b, bits) / 2 == Xor(a / 2, b / 2, bits - 1)
  {
  }

  /** Adding `b` twice leaves the parity of `a`. */
  lemma ParityTwice(a: nat, b: nat, x: nat)
    requires x % 2 == (a + b) % 2
    ensures (x + b) % 2 == a % 2
  {
  }

  /** Xor-ing a `bits`-bit value with the same value twice gives it back. */
  lemma {:induction false} XorInvolutive(a: nat, b: nat, bits: nat)
    requires a < Pow2(bits)
    ensures Xor(Xor(a, b, bits), b, bits) == a
  {
    if bits > 0 {
      var x := Xor(a, b, bits);
      XorStep(a, b, bits);
      XorStep(x, b, bits);
      XorInvolutive(a / 2, b / 2, bits - 1);
      var z := Xor(x, b, bits);
      assert z / 2 == a / 2;
      ParityTwice(a, b, x);
    }
  }

  /** The row mix fits in 64 bits and is undone by mixing with the same
      seed again, so within one row different base hashes never mix to the
      same value. */
  lemma MixFacts(base: u64, seed: u32)
    ensures Mix(base, seed) <= U64_MAX
    ensures Xor(Mix(base, seed), seed as nat, 64) == base as nat
  {
    Pow2Of64();
    XorBound(base as nat, seed as nat, 64);
    XorInvolutive(base as nat, seed as nat, 64);
  }

  lemma MixInjective(b1: u64, b2: u64, seed: u32)
    ensures Mix(b1, seed) == Mix(b2, seed) ==> b1 == b2
  {
    MixFacts(b1, seed);
    MixFacts(b2, seed);
  }

  /** The seeds of the first four rows: four distinct odd constants. */
  lemma SeedsOfFourRows()
    ensures SeedFor(0) == 0x9E37_79B9 && SeedFor(1) == 0x3C6E_F372
    ensures SeedFor(2) == 0xDAA6_6D2B && SeedFor(3) == 0x78DD_E6E4
  {
  }

/** The slot index probed for a base hash in the row with `seed`. */
  function SlotOf(base: u64, seed: u32, width: nat): (idx: nat)
    requires width > 0
    ensures idx < width
  {
    Mix(base, seed) as int % width
  }

  /** A counter after `++` on a `uint32_t`. */
  function Bump(c: u32): (r: u32)
    ensures r as int == (c as int + 1) % COUNTER_MODULUS
  {
    if c as int == COUNTER_MODULUS - 1 then 0 else c + 1
  }

  /** Counting one more commutes with reducing modulo 2^32. */
  lemma ModSucc(x: nat)
    ensures (x % COUNTER_MODULUS + 1) % COUNTER_MODULUS == (x + 1) % COUNTER_MODULUS
  {
    var q, r := x / COUNTER_MODULUS, x % COUNTER_MODULUS;
    assert x == q * COUNTER_MODULUS + r;
    if r + 1 == COUNTER_MODULUS {
      assert x + 1 == (q + 1) * COUNTER_MODULUS;
    } else {
      assert x + 1 == q * COUNTER_MODULUS + (r + 1);
    }
  }

  /** A count below 2^32 survives the reduction unchanged. */
  lemma ModSmall(x: nat)
    requires x < COUNTER_MODULUS
    ensures x % COUNTER_MODULUS == x
  {
  }

  /** The running minimum the estimate loop computes over `s`, starting
      from `U64_MAX`. */
  function SeqMin(s: seq<nat>): (m: nat)
    ensures m <= U64_MAX
    ensures |s| == 0 ==> m == U64_MAX
  {
    if |s| == 0 then U64_MAX
    else
      var m0 := SeqMin(s[..|s| - 1]);
      if s[|s| - 1] < m0 then s[|s| - 1] else m0
  }

  /** The running minimum is below every element and, over elements that fit
      in 64 bits, equal to one of them. */
  lemma {:induction false} SeqMinIsMinimum(s: seq<nat>)
    ensures forall i :: 0 <= i < |s| ==> SeqMin(s) <= s[i]
    ensures (forall i :: 0 <= i < |s| ==> s[i] <= U64_MAX) && |s| > 0 ==>
              exists i :: 0 <= i < |s| && SeqMin(s) == s[i]
  {
    if |s| > 0 {
      var init := s[..|s| - 1];
      SeqMinIsMinimum(init);
      assert forall i :: 0 <= i < |init| ==> init[i] == s[i];
      if forall i :: 0 <= i < |s| ==> s[i] <= U64_MAX {
        var last := |s| - 1;
        if s[last] < SeqMin(init) || init == [] {
          assert SeqMin(s) == s[last];
        } else {
          var k :| 0 <= k < |init| && SeqMin(init) == init[k];
          assert SeqMin(s) == s[k];
        }
      }
    }
  }

  /** Raising every probed counter by one raises the minimum by one. */
  lemma {:induction false} SeqMinShift(a: seq<nat>, b: seq<nat>)
    requires |a| == |b| > 0
    requires forall i :: 0 <= i < |a| ==> a[i] < U64_MAX && b[i] == a[i] + 1
    ensures SeqMin(b) == SeqMin(a) + 1
  {
    if |a| > 1 {
      SeqMinShift(a[..|a| - 1], b[..|b| - 1]);
    }
  }

  /** Raising no counter lowers the minimum of none. */
  lemma {:induction false} SeqMinMonotone(a: seq<nat>, b: seq<nat>)
    requires |a| == |b|
    requires forall i :: 0 <= i < |a| ==> a[i] <= b[i]
    ensures SeqMin(a) <= SeqMin(b)
  {
    if |a| > 0 {
      SeqMinMonotone(a[..|a| - 1], b[..|b| - 1]);
    }
  }

  /** How many names of `h` the probe `slot` sends to `col`. */
  ghost function Hits(h: seq<Name>, slot: Name -> nat, col: nat): (n: nat)
    ensures n <= |h|
  {
    if h == [] then 0
    else Hits(h[..|h| - 1], slot, col) + (if slot(h[|h| - 1]) == col then 1 else 0)
  }

  /** One more name adds one hit exactly where it is probed. */
  lemma HitsSnoc(h: seq<Name>, k: Name, slot: Name -> nat, col: nat)
    ensures Hits(h + [k], slot, col) == Hits(h, slot, col) + (if slot(k) == col then 1 else 0)
  {
    assert (h + [k])[..|h|] == h;
  }

  /** A counter that held the hits of `h` modulo 2^32, bumped exactly when
      `name` is probed at it, holds the hits of `h + [name]`. */
  lemma CounterAfterBump(h: seq<Name>, name: Name, slot: Name -> nat, col: nat, before: u32, after: u32)
    requires before as int == Hits(h, slot, col) % COUNTER_MODULUS
    requires after == if slot(name) == col then Bump(before) else before
    ensures after as int == Hits(h + [name], slot, col) % COUNTER_MODULUS
  {
    HitsSnoc(h, name, slot, col);
    if slot(name) == col {
      ModSucc(Hits(h, slot, col));
    }
  }

  /** The slot a name is probed at counts at least every occurrence of that
      name. */
  lemma {:induction false} HitsCoverOccurrences(h: seq<Name>, slot: Name -> nat, name: Name)
    ensures Hits(h, slot, slot(name)) >= multiset(h)[name]
  {
    if h != [] {
      var init := h[..|h| - 1];
      HitsCoverOccurrences(init, slot, name);
      assert h == init + [h[|h| - 1]];
      assert multiset(h) == multiset(init) + multiset{h[|h| - 1]};
    }
  }

  class CountMinSketch {
    const depth: nat
    const width: nat
    /** Stands for `std::hash` of the name's URI. */
    const hash: Name -> u64
    const table: array2<u32>
    const seed: array<u32>
    /** Every name incremented so far, oldest first. */
    ghost var history: seq<Name>

    /** The slot of `name` in row `row`. */
    function RowSlot(name: Name, row: nat): (idx: nat)
      requires width > 0
      ensures idx < width
    {
      SlotOf(hash(name), SeedFor(row), width)
    }

    /** The slot of each name in row `row`. */
    function RowProbe(row: nat): (probe: Name -> nat)
      requires width > 0
      ensures forall name :: probe(name) == RowSlot(name, row)
    {
      name => RowSlot(name, row)
    }

    /** Every counter holds, modulo 2^32, the number of increments that
        landed in it. */
    ghost predicate Valid()
      reads this, table, seed
    {
      && table.Length0 == depth && table.Length1 == width && seed.Length == depth
      && (depth > 0 ==> width > 0)
      && (forall i :: 0 <= i < depth ==> seed[i] == SeedFor(i))
      && (forall i, j {:trigger Hits(history, RowProbe(i), j)} :: 0 <= i < depth && 0 <= j < width ==>
            table[i, j] as int == Hits(history, RowProbe(i), j) % COUNTER_MODULUS)
    }

    /** The counters that `estimate(name)` reads, one per row. */
    ghost function RowValues(name: Name): (vs: seq<nat>)
      reads this, table, seed
      requires Valid()
      ensures |vs| == depth
      ensures forall i :: 0 <= i < depth ==> vs[i] == table[i, RowSlot(name, i)] as nat
    {
      seq(depth, i requires 0 <= i < depth reads this, table => table[i, RowSlot(name, i)] as nat)
    }

    ghost function EstimateOf(name: Name): nat
      reads this, table, seed
      requires Valid()
    {
      SeqMin(RowValues(name))
    }

    constructor (d: nat, w: nat, hash: Name -> u64)
      requires d == 0 || w > 0
      ensures Valid() && fresh(table) && fresh(seed)
      ensures depth == d && width == w && this.hash == hash && history == []
      ensures forall i, j :: 0 <= i < d && 0 <= j < w ==> table[i, j] == 0
      ensures forall i :: 0 <= i < d ==> seed[i] == SeedFor(i)
    {
      depth := d;
      width := w;
      this.hash := hash;
      var s := new u32[d];
      for i := 0 to d
        invariant forall j :: 0 <= j < i ==> s[j] == SeedFor(j)
      {
        s[i] := SeedFor(i);
      }
      seed := s;
      table := new u32[d, w]((i, j) => 0);
      history := [];
      new;
      forall i, j | 0 <= i < d && 0 <= j < w
        ensures table[i, j] as int == Hits(history, RowProbe(i), j) % COUNTER_MODULUS
      {
        assert Hits([], RowProbe(i), j) == 0;
      }
    }

    /** The loop of `increment`: one `++` per row, on the slot of `name`. */
    method BumpSlots(name: Name)
      requires table.Length0 == depth && table.Length1 == width && seed.Length == depth
      requires depth > 0 ==> width > 0
      requires forall i :: 0 <= i < depth ==> seed[i] == SeedFor(i)
      modifies table
      ensures forall i, j :: 0 <= i < depth && 0 <= j < width ==>
                table[i, j] == if j == RowSlot(name, i) then Bump(old(table[i, j])) else old(table[i, j])
    {
      var base := hash(name);
      ghost var slots := Slots(name);
      for i := 0 to depth
        invariant forall r, c :: 0 <= r < i && 0 <= c < width ==>
                    table[r, c] == if c == slots[r] then Bump(old(table[r, c])) else old(table[r, c])
        invariant forall r, c :: i <= r < depth && 0 <= c < width ==> table[r, c] == old(table[r, c])
      {
        var idx := SlotOf(base, seed[i], width);
        assert idx == RowSlot(name, i) == slots[i];
        BumpCounter(i, idx);
      }
    }

    /** `++` on one counter. */
    method BumpCounter(row: nat, col: nat)
      requires row < table.Length0 && col < table.Length1
      modifies table
      ensures forall r, c :: 0 <= r < table.Length0 && 0 <= c < table.Length1 ==>
                table[r, c] == if r == row && c == col then Bump(old(table[r, c])) else old(table[r, c])
    {
      table[row, col] := Bump(table[row, col]);
    }

    /** The slot of `name` in each row. */
    ghost function Slots(name: Name): (s: seq<nat>)
      requires depth > 0 ==> width > 0
      ensures |s| == depth && forall r {:trigger RowSlot(name, r)} :: 0 <= r < depth ==> s[r] == RowSlot(name, r)
    {
      seq(depth, r requires 0 <= r < depth => RowSlot(name, r))
    }

    /** Adds one, modulo 2^32, to the slot of `name` in every row. */
    method Increment(name: Name)
      requires Valid()
      modifies this, table
      ensures Valid() && history == old(history) + [name]
      ensures forall i, j :: 0 <= i < depth && 0 <= j < width ==>
                table[i, j] == if j == RowSlot(name, i) then Bump(old(table[i, j])) else old(table[i, j])
      ensures (forall i :: 0 <= i < depth ==> old(table[i, RowSlot(name, i)]) as int < COUNTER_MODULUS - 1) ==>
                (depth > 0 ==> EstimateOf(name) == old(EstimateOf(name)) + 1)
                && forall k :: EstimateOf(k) >= old(EstimateOf(k))
    {
      BumpSlots(name);
      history := history + [name];
      BumpKeepsValid(name);
      if forall i :: 0 <= i < depth ==> old(table[i, RowSlot(name, i)]) as int < COUNTER_MODULUS - 1 {
        BumpRaisesEstimates(name);
      }
    }

    /** Bumping the slots of `name` while appending it to the history keeps
        every counter equal to its hit count modulo 2^32. */
    twostate lemma BumpKeepsValid(name: Name)
      requires old(Valid())
      requires table.Length0 == depth && table.Length1 == width && seed.Length == depth
      requires forall i :: 0 <= i < depth ==> seed[i] == SeedFor(i)
      requires history == old(history) + [name]
      requires forall i, j :: 0 <= i < depth && 0 <= j < width ==>
                 table[i, j] == if j == RowSlot(name, i) then Bump(old(table[i, j])) else old(table[i, j])
      ensures Valid()
    {
      forall r, c | 0 <= r < depth && 0 <= c < width
        ensures table[r, c] as int == Hits(history, RowProbe(r), c) % COUNTER_MODULUS
      {
        CounterAfterBump(old(history), name, RowProbe(r), c, old(table[r, c]), table[r, c]);
      }
    }

    /** The estimates depend on the counters and the seeds alone. */
    twostate lemma EstimatesUnchanged()
      requires old(Valid()) && unchanged(this, table, seed)
      ensures Valid() && forall k :: EstimateOf(k) == old(EstimateOf(k))
    {
    }

    /** Bumping the slots of `name` without wrap-around raises its estimate
        by one and lowers no estimate. */
    twostate lemma BumpRaisesEstimates(name: Name)
      requires old(Valid()) && Valid()
      requires forall i, j :: 0 <= i < depth && 0 <= j < width ==>
                 table[i, j] == if j == RowSlot(name, i) then Bump(old(table[i, j])) else old(table[i, j])
      requires forall i :: 0 <= i < depth ==> old(table[i, RowSlot(name, i)]) as int < COUNTER_MODULUS - 1
      ensures depth > 0 ==> EstimateOf(name) == old(EstimateOf(name)) + 1
      ensures forall k :: EstimateOf(k) >= old(EstimateOf(k))
    {
      if depth > 0 {
        ghost var a, b := old(RowValues(name)), RowValues(name);
        forall i | 0 <= i < depth ensures a[i] < U64_MAX && b[i] == a[i] + 1 {
          var c := RowSlot(name, i);
          assert a[i] == old(table[i, c]) as nat;
          assert b[i] == Bump(old(table[i, c])) as nat;
        }
        SeqMinShift(a, b);
      }
      forall k ensures EstimateOf(k) >= old(EstimateOf(k)) {
        ghost var a, b := old(RowValues(k)), RowValues(k);
        forall i | 0 <= i < depth ensures a[i] <= b[i] {
          var c := RowSlot(k, i);
          assert a[i] == old(table[i, c]) as nat;
          if c == RowSlot(name, i) {
            assert old(table[i, c]) as int < COUNTER_MODULUS - 1;
            assert b[i] == Bump(old(table[i, c])) as nat;
          } else {
            assert b[i] == old(table[i, c]) as nat;
          }
        }
        SeqMinMonotone(a, b);
      }
    }

    /** The smallest counter among the slots of `name`; see
        `EstimateBounds` for what that value satisfies. */
    method Estimate(name: Name) returns (est: nat)
      requires Valid()
      ensures est == EstimateOf(name)
    {
      var base := hash(name);
      ghost var vs := RowValues(name);
      est := U64_MAX;
      for i := 0 to depth
        invariant est == SeqMin(vs[..i])
      {
        var idx := SlotOf(base, seed[i], width);
        assert vs[..i + 1][..i] == vs[..i];
        est := if table[i, idx] as nat < est then table[i, idx] as nat else est;
      }
      assert vs[..depth] == vs;
    }

    /** The estimate is `U64_MAX` with no rows, otherwise the smallest of the
        slots of `name`; absent wrap-around it never undercounts. */
    lemma EstimateBounds(name: Name)
      requires Valid()
      ensures depth == 0 ==> EstimateOf(name) == U64_MAX
      ensures forall i :: 0 <= i < depth ==> EstimateOf(name) <= table[i, RowSlot(name, i)] as int
      ensures depth > 0 ==> exists i :: 0 <= i < depth && EstimateOf(name) == table[i, RowSlot(name, i)] as int
      ensures |history| < COUNTER_MODULUS ==> EstimateOf(name) >= multiset(history)[name]
    {
      var vs := RowValues(name);
      SeqMinIsMinimum(vs);
      if |history| < COUNTER_MODULUS && depth > 0 {
        forall i | 0 <= i < depth ensures vs[i] >= multiset(history)[name] {
          var col := RowSlot(name, i);
          var hits := Hits(history, RowProbe(i), col);
          HitsCoverOccurrences(history, RowProbe(i), name);
          assert table[i, col] as int == hits % COUNTER_MODULUS;
          ModSmall(hits);
        }
      }
    }
  }
}
