/**
 * Random sources. `Math.random` and every injected `rng` are modelled as an
 * oracle returning a `Fraction` in [0, 1); the seeded generators of the apps
 * are Mulberry32 on 32-bit words, modelled bit for bit.
 */
module Random {
  import opened Wrappers
  import Text

  /** A value an `rng()` call can return. */
  type Fraction = u: real | 0.0 <= u < 1.0

  /** An rng stream: the value returned by the n-th call. */
  type Stream = nat -> Fraction

  /** `Math.floor(u * n)`: for n > 0 one of 0 .. n-1. */
  function FloorScaled(u: Fraction, n: int): (k: int)
    ensures n > 0 ==> 0 <= k < n
    ensures n <= 0 ==> n <= k <= 0
  {
    var x := u * n as real;
    if n > 0 then
      assert 0.0 <= x < n as real by { assert u * n as real < 1.0 * n as real; }
      x.Floor
    else
      assert n as real <= x <= 0.0 by { assert 1.0 * n as real <= u * n as real; }
      x.Floor
  }

  /** utils.js `randomIntInclusive`: `Math.floor(u * (max - min + 1)) + min`. */
  function RandomIntInclusive(lo: int, hi: int, u: Fraction): (r: int)
    ensures lo <= hi ==> lo <= r <= hi
  {
    FloorScaled(u, hi - lo + 1) + lo
  }

  /** Every integer of [lo, hi] is reachable: some draw yields it. */
  lemma RandomIntInclusiveOnto(lo: int, hi: int, r: int)
    requires lo <= r <= hi
    ensures RandomIntInclusive(lo, hi, (r - lo) as real / (hi - lo + 1) as real) == r
  {
    var n := hi - lo + 1;
    var u: real := (r - lo) as real / n as real;
    assert u * n as real == (r - lo) as real;
  }

  /** utils.js `generateSeed`: a five-digit seed from one `Math.random` draw. */
  function GenerateSeed(u: Fraction): (seed: int)
    ensures 10000 <= seed <= 99999
  {
    RandomIntInclusive(10000, 99999, u)
  }

  /**
   * utils.js `resolveSeedFromMode`: the trimmed input, read by `parseInt`,
   * is kept only in manual mode and when it lies in [10000, 99999];
   * otherwise a fresh seed is drawn. The chosen seed is also the new text
   * of the input element.
   */
  function ResolveSeedFromMode(mode: string, input: string, u: Fraction): (r: (int, string))
    ensures 10000 <= r.0 <= 99999
    ensures r.1 == Text.IntToString(r.0)
    ensures (mode == "manual" && Text.ParseIntPrefix(Text.Trim(input)).Some? &&
             10000 <= Text.ParseIntPrefix(Text.Trim(input)).value <= 99999)
            ==> r.0 == Text.ParseIntPrefix(Text.Trim(input)).value
    ensures !(mode == "manual" && Text.ParseIntPrefix(Text.Trim(input)).Some? &&
              10000 <= Text.ParseIntPrefix(Text.Trim(input)).value <= 99999)
            ==> r.0 == GenerateSeed(u)
  {
    var raw := Text.Trim(input);
    var parsed := if raw == "" then None else Text.ParseIntPrefix(raw);
    var isValid := parsed.Some? && 10000 <= parsed.value <= 99999;
    var seed := if mode == "manual" && isValid then parsed.value else GenerateSeed(u);
    (seed, Text.IntToString(seed))
  }

  /** A manual seed typed as its own decimal text is used as typed. */
  lemma ManualSeedKept(seed: int, u: Fraction)
    requires 10000 <= seed <= 99999
    ensures ResolveSeedFromMode("manual", Text.IntToString(seed), u).0 == seed
  {
    Text.ParseIntPrefixOfInt(seed);
    Text.IntToStringTrimmed(seed);
    var s := Text.IntToString(seed);
    assert s[0] != '-';
    assert !Text.IsSpace(s[0]) && !Text.IsSpace(s[|s| - 1]);
    assert Text.Trim(s) == s by {
      assert Text.TrimEnd(s) == s;
    }
  }

  // ---------------------------------------------------------------------
  // Mulberry32
  // ---------------------------------------------------------------------

  /** An unsigned 32-bit word, as the bit operations of JavaScript read a number. */
  type Word = x: int | 0 <= x < 0x1_0000_0000

  const Increment: Word := 0x6D2B79F5

  /** `(a + 0x6D2B79F5) | 0`, read as an unsigned word. */
  function Advance(a: Word): (b: Word)
    ensures b == a + Increment || b == a + Increment - 0x1_0000_0000
  {
    (a + Increment) % 0x1_0000_0000
  }

  /** The first two lines of the output mix of Mulberry32 (`Math.imul` is `*` on bv32). */
  function Mix(a: Word): bv32
  {
    var w := a as bv32;
    var t := (w ^ (w >> 15)) * (w | 1);
    (t + (t ^ (t >> 7)) * (t | 61)) ^ t
  }

  /** Undoes `x ^ (x >>> 14)` on a 32-bit word. */
  function UnshiftXor14(y: bv32): bv32
  {
    y ^ (y >> 14) ^ (y >> 28)
  }

  /**
   * The output mix of Mulberry32 applied to an advanced state word: `Mix`,
   * then `t ^ (t >>> 14)`, a last step that loses nothing, since the word
   * before it is recovered from the output.
   */
  function Temper(a: Word): (r: bv32)
    ensures UnshiftXor14(r) == Mix(a)
  {
    var t2 := Mix(a);
    UnshiftXor14Inverts(t2);
    t2 ^ (t2 >> 14)
  }

  lemma UnshiftXor14Inverts(x: bv32)
    ensures UnshiftXor14(x ^ (x >> 14)) == x
  {
  }

  /** `word / 2^32`: a 32-bit unsigned word as a fraction of 2^32. */
  function WordFraction(w: bv32): (u: Fraction)
    ensures u * 4294967296.0 == (w as int) as real
  {
    (w as int) as real / 4294967296.0
  }

  /** The number a generator whose word is `a` returns on its next call: the tempered advanced word over 2^32. */
  function Output(a: Word): (u: Fraction)
    ensures u * 4294967296.0 == (Temper(Advance(a)) as int) as real
  {
    WordFraction(Temper(Advance(a)))
  }

  /** The word after `k` calls of a generator whose word is `seed`. */
  function StateAfter(seed: Word, k: nat): Word
    decreases k
  {
    if k == 0 then seed else StateAfter(Advance(seed), k - 1)
  }

  /** The remainder modulo 2^32 is the one r with n = q·2^32 + r and 0 <= r < 2^32. */
  lemma ModWord(n: int, q: int, r: int)
    requires n == q * 0x1_0000_0000 + r && 0 <= r < 0x1_0000_0000
    ensures n % 0x1_0000_0000 == r
  {
  }

  /** Reading a number modulo 2^32 commutes with adding the increment. */
  lemma WordOfSum(x: nat)
    ensures (x + Increment) % 0x1_0000_0000 == Advance(x % 0x1_0000_0000)
  {
    var m := 0x1_0000_0000;
    var q, r := x / m, x % m;
    ModWord(x, q, r);
    if r + Increment < m {
      ModWord(x + Increment, q, r + Increment);
      ModWord(r + Increment, 0, r + Increment);
    } else {
      ModWord(x + Increment, q + 1, r + Increment - m);
      ModWord(r + Increment, 1, r + Increment - m);
    }
  }

  /** The closure returned by simulation.js `makeRng`: its captured word `a` advances on every call. */
  class Mulberry32 {
    var a: Word

    constructor (seed: Word)
      ensures a == seed
    {
      a := seed;
    }

    method Next() returns (u: Fraction)
      modifies this
      ensures a == Advance(old(a))
      ensures u == Output(old(a))
    {
      a := (a + Increment) % 0x1_0000_0000;
      u := WordFraction(Temper(a));
    }
  }

  /**
   * The closure returned by utils.js `createSeededRng`: its captured `state`
   * is a plain JavaScript number that grows by the increment on every call;
   * the bit operations read it modulo 2^32.
   */
  class SeededRng {
    var state: nat

    constructor (seed: int)
      ensures state == seed % 0x1_0000_0000
    {
      state := seed % 0x1_0000_0000;
    }

    method Next() returns (u: Fraction)
      modifies this
      ensures state == old(state) + Increment
      ensures state % 0x1_0000_0000 == Advance(old(state) % 0x1_0000_0000)
      ensures u == Output(old(state) % 0x1_0000_0000)
    {
      var word: Word := state % 0x1_0000_0000;
      WordOfSum(state);
      state := state + Increment;
      u := Output(word);
    }
  }

  /**
   * An injected `rng` closure: the n-th call returns `draws(n)`. Each call
   * advances the count of draws taken so far.
   */
  class Oracle {
    const draws: Stream
    var calls: nat

    constructor (draws: Stream)
      ensures this.draws == draws && calls == 0
    {
      this.draws := draws;
      calls := 0;
    }

    method Next() returns (u: Fraction)
      modifies this
      ensures calls == old(calls) + 1
      ensures u == draws(old(calls))
    {
      u := draws(calls);
      calls := calls + 1;
    }
  }
}
