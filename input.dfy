/** Key state of `src/input.rs`: two `u8` bit masks over five logical keys, one for the keys
    pressed during the current tick and one for the keys held down. */
module Input {

  import opened Wrappers

  /** `Key`, with discriminants Up = 0 .. Space = 4. */
  datatype Key = Up | Down | Left | Right | Space {

    function Index(): (n: bv8)
      ensures n < 5
    {
      match this
      case Up => 0
      case Down => 1
      case Left => 2
      case Right => 3
      case Space => 4
    }

    /** `Key::mask`: the single bit `1 << key`. It lies in the low five bits. */
    function Mask(): (m: bv8)
      ensures m != 0 && m & 0xE0 == 0
      ensures m & (m - 1) == 0
    {
      1 << Index()
    }

    /** `Key::from_u8`: defined for 0..5; the source panics on any other value (None here). */
    static function FromU8(n: bv8): (r: Option<Key>)
      ensures r.Some? <==> n < 5
      ensures r.Some? ==> r.value.Index() == n && r.value.Mask() == 1 << n
    {
      match n
      case 0 => Some(Up)
      case 1 => Some(Down)
      case 2 => Some(Left)
      case 3 => Some(Right)
      case 4 => Some(Space)
      case _ => None
    }
  }

  /** `from_u8` inverts the discriminant, so each value below 5 names exactly one key. */
  lemma IndexRoundTrip(k: Key)
    ensures Key.FromU8(k.Index()) == Some(k)
  {
  }

  /** Distinct keys have disjoint masks. */
  lemma MasksDisjoint(a: Key, b: Key)
    ensures a != b <==> a.Mask() & b.Mask() == 0
  {
  }

  /** `Keys { just_pressed, pressing }`. */
  datatype Keys = Keys(justPressed: bv8, pressing: bv8) {

    /** Both masks use only the bits of the five keys. */
    predicate Valid() {
      justPressed & 0xE0 == 0 && pressing & 0xE0 == 0
    }

    /** `Keys::new`: nothing pressed. */
    static function New(): (r: Keys)
      ensures r.Valid() && !r.AnyPressed()
      ensures forall k: Key :: !r.JustPressed(k) && !r.Pressing(k)
    {
      Keys(0, 0)
    }

    /** The held bit of a key (the local `pressing` inside `Keys::pressing`): bit `k` of the
        held mask. */
    predicate Held(k: Key): (b: bool)
      ensures b <==> (pressing >> k.Index()) & 1 == 1
    {
      pressing & k.Mask() != 0
    }

    /** `Keys::just_pressed`: bit `k` of the just-pressed mask. */
    predicate JustPressed(k: Key): (b: bool)
      ensures b <==> (justPressed >> k.Index()) & 1 == 1
    {
      justPressed & k.Mask() != 0
    }

    /** `Keys::pressing`: held, or pressed during this tick; that is, the key's bit is set in
        the union of the two masks. */
    predicate Pressing(k: Key): (b: bool)
      ensures b <==> (justPressed | pressing) & k.Mask() != 0
    {
      JustPressed(k) || Held(k)
    }

    /** `Keys::any_pressed`: some bit of either mask is set. A pressing key makes it true. */
    predicate AnyPressed(): (b: bool)
      ensures b <==> justPressed | pressing != 0
      ensures !b ==> forall k: Key :: !Pressing(k)
    {
      justPressed != 0 || pressing != 0
    }

    /** `Keys::update`: the end of a tick clears every just-pressed bit and keeps the held mask. */
    function Update(): (r: Keys)
      ensures r.pressing == pressing && r.justPressed == 0
      ensures forall k: Key :: !r.JustPressed(k) && (r.Held(k) <==> Held(k))
      ensures Valid() ==> r.Valid()
    {
      Keys(0, pressing)
    }

    /** `Keys::press`: sets both bits of `key`; every other key keeps its bits. */
    function Press(key: Key): (r: Keys)
      ensures r.JustPressed(key) && r.Held(key) && r.Pressing(key)
      ensures forall k: Key :: k != key ==> (r.JustPressed(k) <==> JustPressed(k)) && (r.Held(k) <==> Held(k))
      ensures Valid() ==> r.Valid()
    {
      var r := Keys(justPressed | key.Mask(), pressing | key.Mask());
      assert forall k: Key :: k != key ==> (r.JustPressed(k) <==> JustPressed(k)) && (r.Held(k) <==> Held(k)) by {
        forall k: Key | k != key ensures (r.JustPressed(k) <==> JustPressed(k)) && (r.Held(k) <==> Held(k)) {
          MasksDisjoint(k, key);
        }
      }
      r
    }

    /** `Keys::release`: clears only the held bit of `key`, so `key` is still pressing exactly when
        it was pressed during this tick; every other key keeps its bits. */
    function Release(key: Key): (r: Keys)
      ensures !r.Held(key) && (r.Pressing(key) <==> JustPressed(key))
      ensures r.justPressed == justPressed
      ensures forall k: Key :: k != key ==> (r.Held(k) <==> Held(k))
      ensures Valid() ==> r.Valid()
    {
      var r := Keys(justPressed, pressing & !key.Mask());
      forall k: Key ensures r.Held(k) <==> (k != key && Held(k)) {
        ClearedBit(pressing, key.Mask(), k.Mask());
        MasksDisjoint(k, key);
      }
      r
    }
  }

  /** Clearing bit b of m leaves every other single bit c of m as it was. */
  lemma ClearedBit(m: bv8, b: bv8, c: bv8)
    requires b & (b - 1) == 0 && c & (c - 1) == 0 && c != 0
    ensures (m & !b) & c != 0 <==> (b & c == 0 && m & c != 0)
  {
  }

  /** For masks that use only the five key bits, `any_pressed` holds exactly when some key is
      pressing. */
  lemma AnyPressedIffSomeKey(keys: Keys)
    requires keys.Valid()
    ensures keys.AnyPressed() <==> exists k: Key :: keys.Pressing(k)
  {
    if keys.AnyPressed() {
      var k := SomeKeyIn(if keys.justPressed != 0 then keys.justPressed else keys.pressing);
      assert keys.Pressing(k);
    }
  }

  /** A key whose bit is set in a non-zero mask of the five key bits. */
  function SomeKeyIn(m: bv8): (k: Key)
    requires m != 0 && m & 0xE0 == 0
    ensures m & k.Mask() != 0
  {
    if m & 1 != 0 then Up
    else if m & 2 != 0 then Down
    else if m & 4 != 0 then Left
    else if m & 8 != 0 then Right
    else Space
  }
}
