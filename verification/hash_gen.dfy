/**
 * `utils::HashGen`, the XOR/shift combiner used to hash pipeline specifications
 * (levk/graphics/include/levk/graphics/utils/utils.hpp). The hash is a 64-bit
 * `std::size_t`, modelled as its 64 bits (bit 0 first); the offset is a
 * `std::uint8_t` that wraps back to 0 once it reaches `sizeof(std::size_t)`.
 */
module HashGen {
  import opened Arith

  /** Bits in a `std::size_t` on a 64-bit target. */
  const Width: nat := 64

  /** `sizeof(std::size_t)` on a 64-bit target. */
  const SizeOfSizeT: nat := 8

  /** `std::uint8_t`. */
  type U8 = x: nat | x < 256

  /** A `std::size_t`, bit `i` at index `i`. */
  type Word = s: seq<bool> | |s| == Width witness Zero()

  /** The word whose bits are all clear. */
  function Zero(): seq<bool> {
    seq(Width, i => false)
  }

  /** Bitwise exclusive or. */
  function Xor(a: Word, b: Word): (r: Word)
    ensures forall i :: 0 <= i < Width ==> r[i] == (a[i] != b[i])
  {
    seq(Width, i requires 0 <= i < Width => a[i] != b[i])
  }

  /** `v << n`: bit `i` of the result is bit `i - n` of `v`; bits pushed past bit 63 are lost. */
  function Shl(v: Word, n: nat): (r: Word)
    ensures forall i :: 0 <= i < Width ==> r[i] == (i >= n && v[i - n])
  {
    seq(Width, i requires 0 <= i < Width => i >= n && v[i - n])
  }

  datatype HashGen = HashGen(hash: Word, offset: U8)

  /** The offset the combiner keeps: in [0, sizeof(size_t)). */
  predicate Valid(g: HashGen) {
    g.offset < SizeOfSizeT
  }

  /** A value-initialised generator. */
  function Fresh(): (g: HashGen)
    ensures Valid(g)
    ensures g.hash == Zero() && g.offset == 0
  {
    HashGen(Zero(), 0)
  }

  /** `operator std::size_t`: a generator converts to its hash. */
  function Value(g: HashGen): (r: Word)
    ensures r == g.hash
  {
    g.hash
  }

  /** The offset after one `<<`: the `uint8_t` is incremented, then reset at `sizeof(size_t)`. */
  function NextOffset(o: U8): (r: U8)
    ensures r < SizeOfSizeT
    ensures o < SizeOfSizeT ==> r == (o + 1) % SizeOfSizeT
  {
    var inc := (o + 1) % 256;
    if inc >= SizeOfSizeT then 0 else inc
  }

  /**
   * `out << next`: XOR `next` (already converted to `std::size_t`) shifted left
   * by the current offset into the hash, then advance the offset.
   */
  function Feed(g: HashGen, next: Word): (r: HashGen)
    ensures Valid(r)
    ensures forall i :: 0 <= i < Width ==>
      r.hash[i] == (g.hash[i] != (i >= g.offset && next[i - g.offset]))
  {
    HashGen(Xor(g.hash, Shl(next, g.offset)), NextOffset(g.offset))
  }

  /** A chain `g << v0 << v1 << ...`: each `<<` returns the same generator, so feeds accumulate. */
  function FeedAll(g: HashGen, vs: seq<Word>): (r: HashGen)
    decreases |vs|
  {
    if vs == [] then g else FeedAll(Feed(g, vs[0]), vs[1..])
  }

  /** Feeding the same value twice in a row at one offset restores the hash. */
  lemma XorTwice(h: Word, x: Word)
    ensures Xor(Xor(h, x), x) == h
  {
  }

  /** A feed can be undone: XOR-ing the shifted value again recovers the previous hash. */
  lemma FeedUndo(g: HashGen, next: Word)
    ensures Xor(Feed(g, next).hash, Shl(next, g.offset)) == g.hash
  {
    XorTwice(g.hash, Shl(next, g.offset));
  }

  /** Feeding `a` and then `b` is feeding `a + b`. */
  lemma {:induction false} FeedAllConcat(g: HashGen, a: seq<Word>, b: seq<Word>)
    ensures FeedAll(g, a + b) == FeedAll(FeedAll(g, a), b)
    decreases |a|
  {
    if a == [] {
      assert a + b == b;
    } else {
      assert (a + b)[1..] == a[1..] + b;
      FeedAllConcat(Feed(g, a[0]), a[1..], b);
    }
  }

  /** A chain of feeds keeps the offset in range. */
  lemma {:induction false} FeedAllValid(g: HashGen, vs: seq<Word>)
    requires Valid(g)
    ensures Valid(FeedAll(g, vs))
    decreases |vs|
  {
    if vs != [] {
      FeedAllValid(Feed(g, vs[0]), vs[1..]);
    }
  }

  /** After `n` feeds the offset has advanced by `n` modulo `sizeof(size_t)`. */
  lemma {:induction false} FeedAllOffset(g: HashGen, vs: seq<Word>)
    requires Valid(g)
    ensures FeedAll(g, vs).offset == (g.offset + |vs|) % SizeOfSizeT
    decreases |vs|
  {
    if vs != [] {
      FeedAllOffset(Feed(g, vs[0]), vs[1..]);
      ModAdd(g.offset + 1, |vs| - 1, SizeOfSizeT);
    }
  }

  /** One feed commutes with XOR-ing a constant into the hash. */
  lemma FeedLinear(g: HashGen, x: Word, v: Word)
    ensures Feed(HashGen(Xor(g.hash, x), g.offset), v) == HashGen(Xor(Feed(g, v).hash, x), Feed(g, v).offset)
  {
  }

  /** XOR-ing a constant into the starting hash XORs it into the final hash; the offset is unaffected. */
  lemma {:induction false} FeedAllLinear(g: HashGen, x: Word, vs: seq<Word>)
    ensures FeedAll(HashGen(Xor(g.hash, x), g.offset), vs)
         == HashGen(Xor(FeedAll(g, vs).hash, x), FeedAll(g, vs).offset)
    decreases |vs|
  {
    if vs != [] {
      FeedLinear(g, x, vs[0]);
      FeedAllLinear(Feed(g, vs[0]), x, vs[1..]);
    }
  }

  /**
   * Feeding the same value twice at the same offset, `sizeof(size_t)` feeds
   * apart, cancels out: the result is the same as feeding zeros in those two
   * places.
   */
  lemma FeedTwiceCancels(g: HashGen, v: Word, w: seq<Word>)
    requires Valid(g)
    requires |w| == SizeOfSizeT - 1
    ensures FeedAll(g, [v] + w + [v]) == FeedAll(g, [Zero()] + w + [Zero()])
  {
    var d := Shl(v, g.offset);
    var z := Feed(g, Zero());
    var mid := FeedAll(z, w);
    FeedSplit(g, v);
    FeedAllLinear(z, d, w);
    LapOffset(g, w);
    FeedAllAround(g, v, w, v);
    FeedAllAround(g, Zero(), w, Zero());
    FeedCancel(mid, v, d);
  }

  /** `sizeof(size_t)` feeds bring the offset back to where it started. */
  lemma LapOffset(g: HashGen, w: seq<Word>)
    requires Valid(g) && |w| == SizeOfSizeT - 1
    ensures FeedAll(Feed(g, Zero()), w).offset == g.offset
  {
    var z := Feed(g, Zero());
    FeedAllOffset(z, w);
    if g.offset < SizeOfSizeT - 1 {
      assert z.offset == g.offset + 1;
    } else {
      assert z.offset == 0;
    }
  }

  /** Feeding `v` is feeding zero, then XOR-ing `v` shifted by the old offset into the hash. */
  lemma FeedSplit(g: HashGen, v: Word)
    ensures Feed(g, v) == HashGen(Xor(Feed(g, Zero()).hash, Shl(v, g.offset)), Feed(g, Zero()).offset)
  {
  }

  /** Feeding `v` at the offset it was XOR-ed in at (`d` is `v` shifted by it) takes it out again. */
  lemma FeedCancel(m: HashGen, v: Word, d: Word)
    requires d == Shl(v, m.offset)
    ensures Feed(HashGen(Xor(m.hash, d), m.offset), v) == Feed(m, Zero())
  {
  }

  /** Feeding `a`, then `w`, then `b`. */
  lemma FeedAllAround(g: HashGen, a: Word, w: seq<Word>, b: Word)
    ensures FeedAll(g, [a] + w + [b]) == Feed(FeedAll(Feed(g, a), w), b)
  {
    FeedAllConcat(g, [a] + w, [b]);
    FeedAllConcat(g, [a], w);
    assert FeedAll(g, [a]) == Feed(g, a);
    var m := FeedAll(Feed(g, a), w);
    assert FeedAll(m, [b]) == Feed(m, b);
  }
}
