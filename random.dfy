/** The seeded generator `rand::rngs::SmallRng`, abstracted as a stream of raw draws.
    A seed fixes the stream; the generator remembers how many draws it has consumed. Every
    call of the source (`gen_range`, `next_u32`) consumes one draw, and only the range of each
    result is relied on, not the exact output function of the library. */
module Random {

  datatype Rng = Rng(stream: nat -> nat, drawn: nat) {

    /** `from_seed`: a generator at the start of the stream chosen by the seed. */
    static function FromSeed(stream: nat -> nat): (r: Rng)
      ensures r.stream == stream && r.drawn == 0
    {
      Rng(stream, 0)
    }

    /** The generator after n more draws. */
    function Skip(n: nat): (r: Rng)
      ensures r.stream == stream && r.drawn == drawn + n
    {
      Rng(stream, drawn + n)
    }

    /** `gen_range(lo..hi)`: a value in [lo, hi), consuming one draw. */
    function GenRange(lo: int, hi: int): (r: (int, Rng))
      requires lo < hi
      ensures lo <= r.0 < hi
      ensures r.1 == Skip(1)
    {
      (lo + stream(drawn) % (hi - lo), Skip(1))
    }

    /** `next_u32()`: a value in [0, 2^32), consuming one draw. */
    function NextU32(): (r: (nat, Rng))
      ensures r.0 < 0x1_0000_0000
      ensures r.1 == Skip(1)
    {
      (stream(drawn) % 0x1_0000_0000, Skip(1))
    }
  }
}
