/** From the raw position of an analog trigger to a level from 0 to 255, and on to a digital edge. */
module Trigger {
  import opened BitOps

  /** Division that truncates towards zero. */
  function Quotient(a: int, b: int): (q: int)
    requires b > 0
  {
    if a >= 0 then a / b else -(-a / b)
  }

  datatype Axis = Axis(min: int, max: int)

  datatype Flags = Flags(centered: bool, negative: bool, invert: bool)

  function Center(a: Axis): int {
    Quotient(a.min + a.max, 2)
  }

  /** The position in which the trigger is released. */
  function Released(f: Flags, a: Axis): int {
    if f.centered then
      if f.invert then (if f.negative then a.min else a.max) else Center(a)
    else if f.negative then a.max else a.min
  }

  /** The position in which it is pressed all the way. */
  function Pressed(f: Flags, a: Axis): int {
    if f.centered then
      if f.invert then Center(a) else (if f.negative then a.min else a.max)
    else if f.negative then a.min else a.max
  }

  function Clamped(a: Axis, value: int): int {
    if value < a.min then a.min else if value > a.max then a.max else value
  }

  /** Whether a position is on the half of a centred axis that the trigger is mapped to. */
  predicate OnHalf(f: Flags, a: Axis, value: int) {
    !f.centered || (if f.negative then Clamped(a, value) <= Center(a) else Clamped(a, value) >= Center(a))
  }

  function Abs(x: int): nat { if x < 0 then -x else x }

  function Deadzone(span: nat): (d: nat)
    ensures 4 * d <= span
  {
    var d := if span / 50 < 5 then 5 else span / 50;
    if d * 4 > span then span / 4 else d
  }

  /** The level for a way of `t` out of `span`. */
  function Level(span: nat, t: int): (l: Byte)
    requires span > 0
  {
    var d := Deadzone(span);
    var out := Quotient((t - d) * 255, span - 2 * d);
    if out < 0 then 0 else if out > 255 then 255 else out
  }

  /** How far a position is from the released one, in the direction of the pressed one. */
  function Way(f: Flags, a: Axis, value: int): int {
    if Pressed(f, a) > Released(f, a) then Clamped(a, value) - Released(f, a) else Released(f, a) - Clamped(a, value)
  }

  function Normalized(f: Flags, a: Axis, value: int): Byte {
    if a.max <= a.min || !OnHalf(f, a, value) || Pressed(f, a) == Released(f, a) then 0
    else Level(Abs(Pressed(f, a) - Released(f, a)), Way(f, a, value))
  }

  /** `normalize_analog_trigger`. */
  method Normalize(f: Flags, a: Axis, value0: int) returns (level: Byte)
    ensures level == Normalized(f, a, value0)
  {
    hide Quotient, Level;
    if a.max <= a.min { return 0; }
    var value := value0;
    if value < a.min { value := a.min; }
    if value > a.max { value := a.max; }
    var released, pressed := a.min, a.max;
    if f.centered {
      released := Quotient(released + pressed, 2);
      pressed := if f.negative then a.min else a.max;
      if if f.negative then value > released else value < released { return 0; }
      if f.invert { released, pressed := pressed, released; }
    } else if f.negative {
      released, pressed := a.max, a.min;
    }
    var denom := pressed - released;
    if denom == 0 { return 0; }
    level := Scale(Abs(denom), (value - released) * (if denom > 0 then 1 else -1));
  }

  /** The second half of it: the dead zones at both ends, and the scale. */
  method Scale(span: nat, way: int) returns (level: Byte)
    requires span > 0
    ensures level == Level(span, way)
  {
    hide Quotient;
    var deadzone := span / 50;
    if deadzone < 5 { deadzone := 5; }
    if deadzone * 4 > span { deadzone := span / 4; }
    var travel := way - deadzone;
    var out := Quotient(travel * 255, span - 2 * deadzone);
    if out < 0 { out := 0; }
    if out > 255 { out := 255; }
    return out;
  }

  // ---------- the whole range is used, and in order ----------

  lemma QuotientMonotone(a: int, b: int, c: int)
    requires c > 0 && a <= b
    ensures Quotient(a, c) <= Quotient(b, c)
  {
    if a >= 0 {
      DivMonotone(a, b, c);
    } else if b < 0 {
      DivMonotone(-b, -a, c);
    } else {
      DivSign(-a, c);
      DivSign(b, c);
    }
  }

  lemma DivSign(a: nat, c: int)
    requires c > 0
    ensures a / c >= 0
  {
  }

  lemma DivMonotone(a: int, b: int, c: int)
    requires c > 0 && a <= b
    ensures a / c <= b / c
  {
    var q, p := a / c, b / c;
    if q > p { OneMore(c, p, q); }
  }

  lemma OneMore(c: int, p: int, q: int)
    requires c > 0 && q > p
    ensures c * q >= c * p + c
  {
    assert c * (q - p - 1) >= 0;
  }

  lemma LevelMonotone(span: nat, t: int, u: int)
    requires span > 0 && t <= u
    ensures Level(span, t) <= Level(span, u)
  {
    var d := Deadzone(span);
    QuotientMonotone((t - d) * 255, (u - d) * 255, span - 2 * d);
  }

  lemma LevelEnds(span: nat)
    requires span > 0
    ensures Level(span, 0) == 0 && Level(span, span) == 255
  {
    hide Quotient;
    var d: int := Deadzone(span);
    var c := span - 2 * d;
    QuotientMonotone((0 - d) * 255, 0, c);
    QuotientMonotone(255 * c, (span - d) * 255, c);
    Exact(255, c);
    Exact(0, c);
  }

  lemma Exact(k: nat, c: int)
    requires c > 0
    ensures Quotient(k * c, c) == k
  {
  }

  /** At rest the level is 0; pressed all the way it is 255, exactly if the trigger has any way to
      go. */
  lemma FullRange(f: Flags, a: Axis)
    requires a.min < a.max
    ensures Normalized(f, a, Released(f, a)) == 0
    ensures Normalized(f, a, Pressed(f, a)) == 255 <==> Pressed(f, a) != Released(f, a)
  {
    hide Level;
    var span := Abs(Pressed(f, a) - Released(f, a));
    if span > 0 { LevelEnds(span); }
  }

  /** Pressing further never lowers the level. */
  lemma Monotone(f: Flags, a: Axis, v: int, w: int)
    requires OnHalf(f, a, v) && OnHalf(f, a, w)
    requires Way(f, a, v) <= Way(f, a, w)
    ensures Normalized(f, a, v) <= Normalized(f, a, w)
  {
    hide Level;
    var span := Abs(Pressed(f, a) - Released(f, a));
    if span > 0 { LevelMonotone(span, Way(f, a, v), Way(f, a, w)); }
  }

  // ---------- where the levels lie ----------

  /** What is left over has the sign of the dividend. */
  lemma Truncates(a: int, b: int)
    requires b > 0
    ensures var r := a - b * Quotient(a, b); -b < r < b && (a >= 0 ==> r >= 0) && (a <= 0 ==> r <= 0)
  {
  }

  /** A dead zone is a fiftieth of the way, and at least five; or a quarter of a way shorter than 20. */
  lemma DeadzoneIs(span: nat)
    ensures var d := Deadzone(span);
            if span < 20 then 4 * d <= span < 4 * d + 4 else if span < 250 then d == 5 else 50 * d <= span < 50 * d + 50
  {
  }

  /** The level is 0 in the dead zone at rest, 255 in the one at the end, and in between as many
      parts in 255 as the way is of what lies between. */
  lemma LevelIs(span: nat, t: int)
    requires span > 0
    ensures var d: int, l: int := Deadzone(span), Level(span, t);
            if t <= d then l == 0 else if t >= span - d then l == 255
            else l * (span - 2 * d) <= 255 * (t - d) < (l + 1) * (span - 2 * d)
  {
    hide Quotient;
    var d: int := Deadzone(span);
    var c := span - 2 * d;
    if t <= d {
      QuotientMonotone((t - d) * 255, 0, c);
      Exact(0, c);
    } else if t >= span - d {
      QuotientMonotone(255 * c, (t - d) * 255, c);
      Exact(255, c);
    } else {
      Between((t - d) * 255, c);
    }
  }

  lemma Between(a: int, c: int)
    requires c > 0 && 0 <= a < 255 * c
    ensures 0 <= Quotient(a, c) < 255 && Quotient(a, c) * c <= a < (Quotient(a, c) + 1) * c
  {
    var q := a / c;
    assert a == c * q + a % c;
    if q >= 255 { OneMore(c, 254, q); }
  }

  /** On an axis from 0 to 255, from where to where each kind of trigger is pressed. */
  lemma Ways(f: Flags)
    ensures var a := Axis(0, 255);
            Released(f, a) == (if !f.centered then (if f.negative then 255 else 0)
                               else if !f.invert then 127 else if f.negative then 0 else 255)
            && Pressed(f, a) == (if !f.centered then (if f.negative then 0 else 255)
                                 else if f.invert then 127 else if f.negative then 0 else 255)
  {
  }

  // ---------- the digital edge ----------

  const PRESS: nat := 77
  const RELEASE: nat := 51

  function Edge(last: bool, level: Byte): bool {
    level >= if last then RELEASE else PRESS
  }

  /** How often the edge changes over a run of levels. */
  function Flips(last: bool, levels: seq<Byte>): nat
    decreases |levels|
  {
    if levels == [] then 0
    else (if Edge(last, levels[0]) != last then 1 else 0) + Flips(Edge(last, levels[0]), levels[1..])
  }

  /** A trigger that trembles by less than the distance of the two thresholds flips at most once. */
  lemma {:induction false} NoChatter(last: bool, levels: seq<Byte>, low: int)
    requires forall i :: 0 <= i < |levels| ==> low <= levels[i] <= low + (PRESS - RELEASE)
    ensures Flips(last, levels) <= 1
    ensures low >= RELEASE && last ==> Flips(last, levels) == 0
    ensures low + (PRESS - RELEASE) < PRESS && !last ==> Flips(last, levels) == 0
    decreases |levels|
  {
    if levels == [] {
    } else {
      var next := Edge(last, levels[0]);
      NoChatter(next, levels[1..], low);
    }
  }

  /** A trigger goes down at three tenths of its level and up below two tenths. */
  lemma Thresholds(last: bool, level: Byte)
    ensures Edge(last, level) <==> if last then 10 * level >= 2 * 255 else 10 * level >= 3 * 255
  {
  }
}
