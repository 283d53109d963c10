/** Cell values of the battle board and the random draw that produces a fresh one.

    `Math.random()` is not modelled as a source of randomness: every draw is an
    explicit real parameter `u` with `0 <= u < 1`, and `Math.floor(u * k)` is
    `Scale(u, k)`. */
module Gems {

  datatype Option<+T> = None | Some(value: T)

  /** The seven things a board cell can hold. */
  datatype Gem = Fire | Water | Wood | Light | Dark | Bomb | Flame

  /** A board cell; `None` is the `null` an eliminated cell holds until refill. */
  type Cell = Option<Gem>

  /** The elemental kinds, in configuration order. */
  const GemTypes: seq<Gem> := [Fire, Water, Wood, Light, Dark]

  /** Probability threshold below which a draw yields a bomb. */
  const BombSpawnRate: real := 0.1

  predicate IsElemental(g: Gem) {
    g != Bomb && g != Flame
  }

  /** What a single random draw may produce: an elemental gem or a bomb, never a flame. */
  predicate IsDrawable(g: Gem) {
    g != Flame
  }

  /** A value `Math.random()` can return. */
  predicate UnitInterval(u: real) {
    0.0 <= u < 1.0
  }

  /** `Math.floor(u * k)` for a random `u`: an index below `k` when `k` is
      positive, and a value in `[k, 0]` otherwise. */
  function Scale(u: real, k: int): (r: int)
    requires UnitInterval(u)
    ensures k > 0 ==> 0 <= r < k
    ensures k <= 0 ==> k <= r <= 0
  {
    if k > 0 then
      ScalePositive(u, k);
      (u * k as real).Floor
    else
      ScaleNonPositive(u, k);
      (u * k as real).Floor
  }

  lemma ScalePositive(u: real, k: int)
    requires UnitInterval(u) && k > 0
    ensures 0 <= (u * k as real).Floor < k
  {
    var a := k as real;
    assert a > 0.0;
    FractionOf(u, a);
    FloorWithin(u * a, 0, k);
  }

  lemma ScaleNonPositive(u: real, k: int)
    requires UnitInterval(u) && k <= 0
    ensures k <= (u * k as real).Floor <= 0
  {
    var a := k as real;
    assert a <= 0.0;
    FractionOf(u, a);
    FloorWithin(u * a, k, 0);
  }

  /** A fraction `u` of `a` lies between 0 and `a`, strictly below a positive `a`. */
  lemma FractionOf(u: real, a: real)
    requires UnitInterval(u)
    ensures a >= 0.0 ==> 0.0 <= u * a <= a
    ensures a > 0.0 ==> u * a < a
    ensures a <= 0.0 ==> a <= u * a <= 0.0
  {
    var v := 1.0 - u;
    assert v > 0.0;
    assert a - u * a == v * a;
    if a > 0.0 {
      assert v * a > 0.0;
      assert u * a >= 0.0;
    } else if a < 0.0 {
      assert v * a < 0.0;
      assert u * a <= 0.0;
    }
  }

  /** The floor of a real between two integers lies between them, and
      strictly below the upper one when the real does. */
  lemma FloorWithin(x: real, lo: int, hi: int)
    requires lo as real <= x <= hi as real
    ensures lo <= x.Floor <= hi
    ensures x < hi as real ==> x.Floor < hi
  {
  }

  /** The two random numbers one call of `getRandomGemType` consumes. */
  datatype Roll = Roll(bomb: real, kind: real)

  predicate ValidRoll(roll: Roll) {
    UnitInterval(roll.bomb) && UnitInterval(roll.kind)
  }

  /** `getRandomGemType`: a bomb when the first draw falls below the spawn
      rate, otherwise the elemental kind the second draw selects. */
  function GetRandomGemType(roll: Roll): (g: Gem)
    requires ValidRoll(roll)
    ensures IsDrawable(g)
    ensures g == Bomb <==> roll.bomb < BombSpawnRate
    ensures g != Bomb ==> g in GemTypes
  {
    if roll.bomb < BombSpawnRate then Bomb
    else GemTypes[Scale(roll.kind, |GemTypes|)]
  }

  /** Every drawable gem is the outcome of some pair of random numbers. */
  lemma GetRandomGemTypeReaches(g: Gem)
    requires IsDrawable(g)
    ensures exists roll :: ValidRoll(roll) && GetRandomGemType(roll) == g
  {
    if g == Bomb {
      var roll := Roll(0.0, 0.0);
      assert GetRandomGemType(roll) == Bomb;
    } else {
      var i := match g
        case Fire => 0
        case Water => 1
        case Wood => 2
        case Light => 3
        case Dark => 4;
      assert GemTypes[i] == g;
      var roll := Roll(0.5, i as real / 5.0);
      assert (i as real / 5.0) * 5.0 == i as real;
      assert Scale(roll.kind, 5) == i;
      assert GetRandomGemType(roll) == g;
    }
  }

  /** The scaled draw reaches every value of its range. */
  lemma ScaleReaches(k: int, i: int)
    requires 0 <= i < k
    ensures exists u :: UnitInterval(u) && Scale(u, k) == i
  {
    var u := i as real / k as real;
    assert u * k as real == i as real;
    assert u < 1.0;
    assert Scale(u, k) == i;
  }
}
