/** The input generator and ring buffer of `src/solution.rs`. A seeded generator produces one
    key state per tick, alternating between a low-frequency phase (a rare press or release) and a
    high-frequency phase whose guards never hold; `Solution` keeps the last 1024 outputs in a
    circular array that is read relative to `first_index`. */
module Solutions {

  import opened Wrappers
  import opened Bits
  import opened Input
  import opened Random

  /** `SOLUTION_SIZE`, i.e. `1 << 10`. */
  const SolutionSize: nat := 1024

  /** `usize::wrapping_add` on a 64-bit target. */
  function WrappingAdd(a: nat, b: nat): (r: nat)
    ensures r < 0x1_0000_0000_0000_0000
    ensures a + b < 0x1_0000_0000_0000_0000 ==> r == a + b
  {
    (a + b) % 0x1_0000_0000_0000_0000
  }

  /** `i & (SOLUTION_SIZE - 1)`: because the size is a power of two, the mask is `i mod 1024`. */
  function SlotOf(i: nat): (r: nat)
    ensures r == i % SolutionSize && r < SolutionSize
  {
    AndLowMask(i, 10);
    assert Pow2(10) == SolutionSize;
    And(i, SolutionSize - 1)
  }

  datatype Phase = LowFreq | HighFreq

  /** `GeneratorPhase::sample`: one draw in [0, 100); 0..=29 selects LowFreq, 30..=99 HighFreq. */
  function SamplePhase(rng: Rng): (r: (Phase, Rng))
    ensures r.0 == LowFreq <==> rng.GenRange(0, 100).0 < 30
    ensures r.1 == rng.Skip(1)
  {
    var (draw, next) := rng.GenRange(0, 100);
    if 0 <= draw <= 29 then (LowFreq, next)
    else if 30 <= draw <= 99 then (HighFreq, next)
    else assert false; (LowFreq, next)
  }

  /** `Key::from_u8(rng.gen_range(0..5))`: one draw, always a valid key. */
  function DrawKey(rng: Rng): (r: (Key, Rng))
    ensures Key.FromU8(rng.GenRange(0, 5).0 as bv8) == Some(r.0)
    ensures r.1 == rng.Skip(1)
  {
    var (n, next) := rng.GenRange(0, 5);
    match Key.FromU8(n as bv8)
    case Some(key) => (key, next)
    case None => assert false; (Up, next)
  }

  /** The fields of `SolutionGenerator`. */
  datatype GenState = GenState(keys: Keys, phase: Phase, phaseTimeLeft: nat, rng: Rng)

  /** At most one key has its just-pressed bit set. */
  predicate AtMostOneJustPressed(keys: Keys) {
    forall a: Key, b: Key :: keys.JustPressed(a) && keys.JustPressed(b) ==> a == b
  }

  /** What one call of `SolutionGenerator::next` does to the generator: the phase countdown,
      the end of the tick for the keys, and the action of the phase. */
  function GenStep(s: GenState): (t: GenState)
    ensures t.rng.stream == s.rng.stream
    ensures s.rng.drawn < t.rng.drawn <= s.rng.drawn + 10
  {
    var (phase, timeLeft, rng) :=
      if s.phaseTimeLeft == 0 then
        var (p, r1) := SamplePhase(s.rng);
        var (n, r2) := r1.GenRange(50, 100);
        (p, n, r2)
      else (s.phase, s.phaseTimeLeft - 1, s.rng);
    var keys := s.keys.Update();
    match phase
    case LowFreq =>
      var (draw, r1) := rng.GenRange(0, 20);
      if draw == 0 then
        if keys.AnyPressed() then GenState(Keys.New(), phase, timeLeft, r1)
        else
          var (key, r2) := DrawKey(r1);
          GenState(keys.Press(key), phase, timeLeft, r2)
      else GenState(keys, phase, timeLeft, r1)
    case HighFreq => GenState(keys, phase, timeLeft, rng.Skip(8))
  }

  /** The phase is resampled and the countdown set to [50, 100) when the countdown is 0 (two
      draws), otherwise the countdown decreases by one and the phase is kept. Every
      just-pressed bit is then cleared. HighFreq makes its eight draws and nothing more happens
      to the keys (its guards never hold). LowFreq draws from [0, 20): on any value but 0 the
      keys stay; on 0 every key is released when one is active, and otherwise the key of one
      more draw is pressed. Every output has at most one just-pressed key and keeps the masks
      to the five key bits. */
  lemma GenStepSpec(s: GenState)
    ensures var t, keys := GenStep(s), s.keys.Update();
      var rng := if s.phaseTimeLeft == 0 then s.rng.Skip(2) else s.rng;
      var (draw, next) := rng.GenRange(0, 20);
      && (s.phaseTimeLeft == 0 ==> 50 <= t.phaseTimeLeft < 100 && (t.phase == LowFreq <==> s.rng.GenRange(0, 100).0 < 30))
      && (s.phaseTimeLeft > 0 ==> t.phaseTimeLeft == s.phaseTimeLeft - 1 && t.phase == s.phase)
      && (t.phase == HighFreq ==> t.keys == keys && t.rng == rng.Skip(8))
      && (t.phase == LowFreq && draw != 0 ==> t.keys == keys && t.rng == next)
      && (t.phase == LowFreq && draw == 0 && keys.AnyPressed() ==> t.keys == Keys.New() && t.rng == next)
      && (t.phase == LowFreq && draw == 0 && !keys.AnyPressed() ==>
            t.keys == keys.Press(DrawKey(next).0) && t.rng == DrawKey(next).1)
      && AtMostOneJustPressed(t.keys)
      && (s.keys.Valid() ==> t.keys.Valid())
  {
    var t := GenStep(s);
    var keys := s.keys.Update();
    if t.phase == LowFreq && t.keys != keys && t.keys != Keys.New() {
      var rng := if s.phaseTimeLeft == 0 then SamplePhase(s.rng).1.GenRange(50, 100).1 else s.rng;
      var key := DrawKey(rng.GenRange(0, 20).1).0;
      assert t.keys == keys.Press(key);
      PressedAlone(keys, key);
    }
  }

  /** Pressing one key on a state with no just-pressed bit leaves that key as the only one. */
  lemma PressedAlone(keys: Keys, key: Key)
    requires keys.justPressed == 0
    ensures AtMostOneJustPressed(keys.Press(key))
  {
    forall a: Key, b: Key | keys.Press(key).JustPressed(a) && keys.Press(key).JustPressed(b)
      ensures a == b
    {
      MasksDisjoint(a, key);
      MasksDisjoint(b, key);
    }
  }

  /** The generator state after n calls of `next`. */
  function Run(s: GenState, n: nat): GenState {
    if n == 0 then s else GenStep(Run(s, n - 1))
  }

  /** Every state the generator passes through keeps its masks to the five key bits. */
  lemma {:induction false} RunKeepsKeysValid(s: GenState, n: nat)
    requires s.keys.Valid()
    ensures Run(s, n).keys.Valid()
  {
    if n > 0 {
      RunKeepsKeysValid(s, n - 1);
      GenStepSpec(Run(s, n - 1));
    }
  }

  /** `SolutionGenerator`. */
  class SolutionGenerator {
    var keys: Keys
    var phase: Phase
    var phaseTimeLeft: nat
    var rng: Rng

    function State(): GenState
      reads this
    {
      GenState(keys, phase, phaseTimeLeft, rng)
    }

    /** `SolutionGenerator::new`: nothing pressed, LowFreq, countdown 0, a seeded generator. */
    constructor (seed: nat -> nat)
      ensures State() == GenState(Keys.New(), LowFreq, 0, Rng.FromSeed(seed))
    {
      keys := Keys.New();
      phase := LowFreq;
      phaseTimeLeft := 0;
      rng := Rng.FromSeed(seed);
    }

    /** `SolutionGenerator::next`: one step of the phase machine; returns the new key state. */
    method Next() returns (k: Keys)
      modifies this
      ensures State() == GenStep(old(State()))
      ensures k == keys
    {
      var rng := this.rng;
      if phaseTimeLeft == 0 {
        var (p, r1) := SamplePhase(rng);
        var (n, r2) := r1.GenRange(50, 100);
        phase, phaseTimeLeft, rng := p, n, r2;
      } else {
        phaseTimeLeft := phaseTimeLeft - 1;
      }

      var keys := this.keys.Update();

      match phase {
        case LowFreq =>
          var (draw, r1) := rng.GenRange(0, 20);
          rng := r1;
          if draw == 0 {
            if keys.AnyPressed() {
              keys := Keys.New();
            } else {
              var (key, r2) := DrawKey(rng);
              keys := keys.Press(key);
              rng := r2;
            }
          }
        case HighFreq =>
          ghost var rng0, keys0 := rng, keys;
          // Release keys
          for i := 0 to 4
            invariant rng == rng0.Skip(i) && keys == keys0
          {
            var (draw, r1) := rng.GenRange(0, 2);
            rng := r1;
            if draw < 0 {
              var (key, r2) := DrawKey(rng);
              keys := keys.Release(key);
              rng := r2;
            }
          }
          // Press keys
          for i := 0 to 4
            invariant rng == rng0.Skip(4 + i) && keys == keys0
          {
            var (draw, r1) := rng.GenRange(0, 5);
            rng := r1;
            if draw < 0 {
              var (key, r2) := DrawKey(rng);
              keys := keys.Press(key);
              rng := r2;
            }
          }
      }

      this.keys, this.rng := keys, rng;
      k := keys;
    }
  }

  /** x mod n for 0 <= x < 2n. */
  lemma ModOnce(x: nat, n: nat)
    requires 0 < n && x < 2 * n
    ensures x % n == if x < n then x else x - n
  {
    if x < n {
      DivModOfDecomposition(x, n, 0, x);
    } else {
      DivModOfDecomposition(x, n, 1, x - n);
    }
  }

  /** The rotation `s[first..] + s[..first]` that `keys(t)` indexes. */
  function Rotated<T>(s: seq<T>, first: nat): (r: seq<T>)
    requires first <= |s|
    ensures |r| == |s|
    ensures forall t | 0 <= t < |s| :: r[t] == s[(first + t) % |s|]
  {
    var r := s[first..] + s[..first];
    forall t | 0 <= t < |s| ensures r[t] == s[(first + t) % |s|] {
      ModOnce(first + t, |s|);
    }
    r
  }

  /** Overwriting the oldest slot and advancing the start drops the oldest element of the
      rotation and appends the new one. */
  lemma RotatedAfterOverwrite<T>(s: seq<T>, first: nat, x: T)
    requires first < |s|
    ensures Rotated(s[first := x], (first + 1) % |s|) == Rotated(s, first)[1..] + [x]
  {
    var n := |s|;
    ModOnce(first + 1, n);
    var next := (first + 1) % n;
    var a := Rotated(s[first := x], next);
    var b := Rotated(s, first)[1..] + [x];
    forall t | 0 <= t < n ensures a[t] == b[t] {
      ModOnce(next + t, n);
      if t < n - 1 {
        ModOnce(first + (t + 1), n);
        assert b[t] == s[(first + (t + 1)) % n];
      }
    }
  }

  /** The first n outputs of a generator started in state s, in the order they were produced. */
  ghost function Outputs(s: GenState, n: nat): (o: seq<Keys>)
    ensures |o| == n
  {
    if n == 0 then [] else Outputs(s, n - 1) + [Run(s, n).keys]
  }

  /** Output i is the key state after i + 1 calls of `next`. */
  lemma {:induction false} OutputsAt(s: GenState, n: nat, i: nat)
    requires i < n
    ensures Outputs(s, n)[i] == Run(s, i + 1).keys
  {
    if i < n - 1 {
      OutputsAt(s, n - 1, i);
    }
  }

  /** Appending to a sequence moves its suffix of length m one place on. */
  lemma SuffixAfterAppend<T>(o: seq<T>, x: T, m: nat)
    requires 1 <= m <= |o|
    ensures (o + [x])[|o| + 1 - m..] == o[|o| - m..][1..] + [x]
  {
  }

  /** One more call of `next` extends the output history by the keys it returns. */
  lemma OutputsSnoc(s: GenState, n: nat, k: Keys)
    requires k == Run(s, n + 1).keys
    ensures Outputs(s, n + 1) == Outputs(s, n) + [k]
  {
  }

  /** The filling loop of `Solution::new`: slot i takes the (i + 1)-th output of g. */
  method Fill(g: SolutionGenerator, a: array<Keys>)
    modifies g, a
    ensures g.State() == Run(old(g.State()), a.Length)
    ensures a[..] == Outputs(old(g.State()), a.Length)
  {
    ghost var s0 := g.State();
    var i := 0;
    while i < a.Length
      invariant 0 <= i <= a.Length
      invariant g.State() == Run(s0, i)
      invariant a[..i] == Outputs(s0, i)
    {
      var k := g.Next();
      a[i] := k;
      assert a[..i + 1] == a[..i] + [k];
      i := i + 1;
    }
    assert a[..] == a[..a.Length];
  }

  /** `Solution`: the last 1024 generator outputs, oldest first from `first_index`. */
  class Solution {
    var firstIndex: nat
    const generator: SolutionGenerator
    const keys: array<Keys>
    /** The generator state when the solution was created, and every output it has produced. */
    ghost const start: GenState
    ghost var outputs: seq<Keys>

    /** The buffer, read from `first_index` on: element t is `keys(t)`. */
    ghost function View(): (v: seq<Keys>)
      reads this, keys
      requires firstIndex <= keys.Length
    {
      Rotated(keys[..], firstIndex)
    }

    /** The buffer has its 1024 slots and the slot index is one of them. */
    predicate Shaped()
      reads this
    {
      keys.Length == SolutionSize && firstIndex < SolutionSize
    }

    /** The buffer is shaped and holds the most recent 1024 generator outputs in the order they
        were produced. */
    ghost predicate Valid()
      reads this, keys, generator
    {
      && Shaped()
      && |outputs| >= SolutionSize
      && generator.State() == Run(start, |outputs|)
      && outputs == Outputs(start, |outputs|)
      && View() == outputs[|outputs| - SolutionSize..]
    }

    /** `Solution::new`: the slots, filled in index order, hold the first 1024 outputs of a
        fresh generator. */
    constructor (seed: nat -> nat)
      ensures Valid() && fresh(generator) && fresh(keys)
      ensures start == GenState(Keys.New(), LowFreq, 0, Rng.FromSeed(seed))
      ensures firstIndex == 0
      ensures View() == Outputs(start, SolutionSize) == outputs
    {
      var g := new SolutionGenerator(seed);
      ghost var s0 := g.State();
      var a := new Keys[SolutionSize];
      Fill(g, a);
      firstIndex := 0;
      generator := g;
      keys := a;
      start := s0;
      outputs := a[..];
      new;
      assert View() == keys[..];
    }

    /** `Solution::keys`: fails (None here, a panic in the source) for t >= 1024; otherwise the
        slot `(first_index + t) & 1023`, which is element t of the buffer, i.e. the output
        produced 1024 - t calls ago. */
    function KeysAt(t: nat): (r: Option<Keys>)
      reads this, keys, generator
      requires Shaped()
      ensures r.None? <==> t >= SolutionSize
      ensures r.Some? ==> r.value == View()[t]
      ensures r.Some? && Valid() ==> r.value == outputs[|outputs| - SolutionSize + t]
    {
      if t >= SolutionSize then None
      else Some(keys[SlotOf(WrappingAdd(firstIndex, t))])
    }

    /** `Solution::update`: writes the next generator output over the oldest slot and advances
        `first_index`, so every element moves one place towards the front and the new output
        becomes the last one. */
    method Update()
      requires Valid()
      modifies this, keys, generator
      ensures Valid()
      ensures View() == old(View())[1..] + [generator.keys]
      ensures KeysAt(SolutionSize - 1) == Some(generator.keys)
      ensures generator.State() == GenStep(old(generator.State()))
      ensures outputs == old(outputs) + [generator.keys]
    {
      ghost var n, history := |outputs|, outputs;
      var k := generator.Next();
      assert generator.State() == Run(start, n + 1);
      OutputsSnoc(start, n, k);
      Overwrite(k);
      SuffixAfterAppend(history, k, SolutionSize);
      outputs := history + [k];
    }

    /** The buffer half of `update`: the oldest slot takes k and `first_index` moves on. */
    method Overwrite(k: Keys)
      requires Shaped()
      modifies this`firstIndex, keys
      ensures Shaped()
      ensures View() == old(View())[1..] + [k]
      ensures firstIndex == (old(firstIndex) + 1) % SolutionSize && keys[old(firstIndex)] == k
      ensures forall i | 0 <= i < keys.Length && i != old(firstIndex) :: keys[i] == old(keys[i])
    {
      ghost var before := keys[..];
      keys[firstIndex] := k;
      assert keys[..] == before[firstIndex := k];
      RotatedAfterOverwrite(before, firstIndex, k);
      firstIndex := SlotOf(WrappingAdd(firstIndex, 1));
    }
  }
}
