/** The two keys of an axis that analog triggers are mapped to: one trigger, or two that share it. */
module TriggerEdge {
  import opened BitOps
  import opened Trigger

  /** What is mapped to a trigger: an axis, if any, and the key to be pressed. */
  datatype Binding = Binding(trigger: bool, axis: nat, flags: Flags, button: nat)

  /** One more than the kernel's `KEY_MAX`. */
  const KEY_EMU: nat := 768

  function KeyMin(axis: nat): nat { (KEY_EMU + 2 * axis) % 0x1_0000 }

  predicate OnAxis(b: Binding, axis: nat) { b.trigger && b.axis == axis }

  /** Which of the axis's two keys a trigger presses: the one it is bound to, if that is one of them,
      or the one on its own side. */
  function PressedEdge(b: Binding, axis: nat): (e: nat)
    ensures e == 1 || e == 2
  {
    if b.button == KeyMin(axis) then 1 else if b.button == KeyMin(axis) + 1 then 2
    else if b.flags.negative then 1 else 2
  }

  /** The keys of an axis are 768 and the next one, and two more for each axis before; a trigger bound
      to neither presses the first exactly if it is on the negative side. */
  lemma SideOf(b: Binding, axis: nat)
    requires 769 + 2 * axis < 0x1_0000
    ensures PressedEdge(b, axis) == 1
       <==> b.button == 768 + 2 * axis || (b.button != 769 + 2 * axis && b.flags.negative)
  {
  }

  /** Which keys are down. */
  datatype Keys = Keys(one: bool, two: bool)

  function Down(k: Keys, edge: nat): bool { if edge == 1 then k.one else k.two }

  function Press(k: Keys, edge: nat): Keys { if edge == 1 then k.(one := true) else k.(two := true) }

  /** The highest level of the triggers that press a key; below zero if there is none. */
  function Highest(bindings: seq<Binding>, axis: nat, a: Axis, value: int, edge: nat): (h: int)
    ensures -1 <= h < 256
  {
    if bindings == [] then -1
    else
      var n := |bindings| - 1;
      var rest := Highest(bindings[..n], axis, a, value, edge);
      var level := Normalized(bindings[n].flags, a, value);
      if OnAxis(bindings[n], axis) && PressedEdge(bindings[n], axis) == edge && level > rest then level else rest
  }

  /** Triggers that share a key act as one, whose level is the highest. */
  function EdgeOf(last: bool, level: int): bool { 0 <= level < 256 && Edge(last, level) }

  /** `trigger_axis_edge`. */
  method TriggerAxisEdge(bindings: seq<Binding>, axis: nat, value: int, a: Axis, last: Keys)
    returns (isTrigger: bool, edge: Keys)
    ensures isTrigger <==> exists i :: 0 <= i < |bindings| && OnAxis(bindings[i], axis)
    ensures edge == Next(bindings, axis, a, last, value)
  {
    hide Normalized, PressedEdge;
    isTrigger, edge := false, Keys(false, false);
    for i := 0 to |bindings|
      invariant isTrigger <==> exists k :: 0 <= k < i && OnAxis(bindings[k], axis)
      invariant edge.one == EdgeOf(last.one, Highest(bindings[..i], axis, a, value, 1))
      invariant edge.two == EdgeOf(last.two, Highest(bindings[..i], axis, a, value, 2))
    {
      assert bindings[..i + 1][..i] == bindings[..i];
      var b := bindings[i];
      if OnAxis(b, axis) {
        isTrigger := true;
        var e := PressedEdge(b, axis);
        var level := Normalize(b.flags, a, value);
        if Edge(Down(last, e), level) { edge := Press(edge, e); }
      }
    }
    assert bindings[..|bindings|] == bindings;
  }

  /** A key is down exactly if some trigger that presses it has come to its threshold. */
  lemma {:induction false} KeyDown(bindings: seq<Binding>, axis: nat, a: Axis, last: bool, value: int, edge: nat)
    ensures EdgeOf(last, Highest(bindings, axis, a, value, edge))
       <==> exists i :: 0 <= i < |bindings| && Presses(bindings[i], axis, a, last, value, edge)
  {
    hide PressedEdge, Normalized;
    if bindings == [] {
    } else {
      var n := |bindings| - 1;
      KeyDown(bindings[..n], axis, a, last, value, edge);
      assert forall i :: 0 <= i < n ==> bindings[..n][i] == bindings[i];
    }
  }

  predicate Presses(b: Binding, axis: nat, a: Axis, last: bool, value: int, edge: nat) {
    OnAxis(b, axis) && PressedEdge(b, axis) == edge
    && Normalized(b.flags, a, value) >= if last then RELEASE else PRESS
  }

  // ---------- the events of a change ----------

  datatype Event = Event(edge: nat, pressed: bool)

  function After(k: Keys, e: Event): Keys {
    if e.edge == 1 then k.(one := e.pressed) else k.(two := e.pressed)
  }

  function AfterAll(k: Keys, events: seq<Event>): Keys {
    if events == [] then k else After(AfterAll(k, events[..|events| - 1]), events[|events| - 1])
  }

  function One(last: Keys, now: Keys, edge: nat, pressed: bool): seq<Event> {
    if Down(last, edge) != Down(now, edge) && Down(now, edge) == pressed then [Event(edge, pressed)] else []
  }

  function Events(last: Keys, now: Keys): seq<Event> {
    One(last, now, 1, false) + One(last, now, 2, false) + One(last, now, 1, true) + One(last, now, 2, true)
  }

  /** The loops that tell of a change. */
  method Tell(last: Keys, now: Keys) returns (events: seq<Event>)
    ensures events == Events(last, now)
  {
    hide One;
    events := [];
    for pressed := 0 to 2
      invariant events == if pressed == 0 then []
                          else if pressed == 1 then One(last, now, 1, false) + One(last, now, 2, false)
                          else Events(last, now)
    {
      ghost var before := events;
      for edge := 1 to 3
        invariant events == if edge == 1 then before
                            else if edge == 2 then before + One(last, now, 1, pressed == 1)
                            else before + One(last, now, 1, pressed == 1) + One(last, now, 2, pressed == 1)
      {
        var e := TellOne(last, now, edge, pressed == 1);
        events := events + e;
      }
    }
  }

  /** One event, if the key has changed that way. */
  method TellOne(last: Keys, now: Keys, edge: nat, pressed: bool) returns (e: seq<Event>)
    ensures e == One(last, now, edge, pressed)
  {
    e := [];
    if Down(last, edge) != Down(now, edge) && Down(now, edge) == pressed { e := [Event(edge, pressed)]; }
  }

  /** After them the keys are as they are now; no key is told of twice, or for nothing; and releases
      come before presses. */
  lemma Telling(last: Keys, now: Keys)
    ensures AfterAll(last, Events(last, now)) == now
    ensures forall e :: e in Events(last, now) ==>
              e.edge in {1, 2} && e.pressed == Down(now, e.edge) && Down(last, e.edge) != e.pressed
    ensures forall i, j :: 0 <= i < j < |Events(last, now)| ==>
              Events(last, now)[i].edge != Events(last, now)[j].edge
              && (Events(last, now)[i].pressed ==> Events(last, now)[j].pressed)
  {
    hide Events;
    EventsAre(last, now);
    var events := Events(last, now);
    if |events| == 2 {
      TwoEvents(last, events[0], events[1]);
      assert events == [events[0], events[1]];
    } else if |events| == 1 {
      TwoEvents(last, events[0], events[0]);
      assert events == [events[0]];
    }
  }

  lemma EventsAre(last: Keys, now: Keys)
    ensures Events(last, now) ==
            if last.one == now.one then (if last.two == now.two then [] else [Event(2, now.two)])
            else if last.two == now.two then [Event(1, now.one)]
            else if now.one && !now.two then [Event(2, false), Event(1, true)]
            else [Event(1, now.one), Event(2, now.two)]
  {
  }

  lemma TwoEvents(k: Keys, a: Event, b: Event)
    ensures AfterAll(k, [a]) == After(k, a) && AfterAll(k, [a, b]) == After(After(k, a), b)
  {
    assert [a][..0] == [] && [a, b][..1] == [a];
  }

  // ---------- a run of positions ----------

  /** The keys after a position. */
  function Next(bindings: seq<Binding>, axis: nat, a: Axis, last: Keys, value: int): Keys {
    Keys(EdgeOf(last.one, Highest(bindings, axis, a, value, 1)), EdgeOf(last.two, Highest(bindings, axis, a, value, 2)))
  }

  /** How often a key changes over a run of positions. */
  function Changes(bindings: seq<Binding>, axis: nat, a: Axis, last: Keys, values: seq<int>, edge: nat): nat
    decreases |values|
  {
    if values == [] then 0
    else
      var next := Next(bindings, axis, a, last, values[0]);
      (if Down(next, edge) != Down(last, edge) then 1 else 0) + Changes(bindings, axis, a, next, values[1..], edge)
  }

  function Levels(bindings: seq<Binding>, axis: nat, a: Axis, values: seq<int>, edge: nat): seq<Byte>
    decreases |values|
  {
    if values == [] then []
    else
      var h := Highest(bindings, axis, a, values[0], edge);
      [if h < 0 then 0 else h] + Levels(bindings, axis, a, values[1..], edge)
  }

  /** A key changes as one trigger of the highest level would make it change. */
  lemma {:induction false} ChangesAreFlips(bindings: seq<Binding>, axis: nat, a: Axis, last: Keys, values: seq<int>,
                                           edge: nat)
    requires edge == 1 || edge == 2
    ensures Changes(bindings, axis, a, last, values, edge)
            == Flips(Down(last, edge), Levels(bindings, axis, a, values, edge))
    decreases |values|
  {
    hide Highest;
    if values == [] {
    } else {
      ChangesAreFlips(bindings, axis, a, Next(bindings, axis, a, last, values[0]), values[1..], edge);
    }
  }

  /** While the highest level of a key's triggers trembles by less than the distance of the two
      thresholds, the key changes at most once, whatever the other key of the axis does. */
  lemma SharedNoChatter(bindings: seq<Binding>, axis: nat, a: Axis, last: Keys, values: seq<int>, edge: nat,
                        low: int)
    requires edge == 1 || edge == 2
    requires forall v :: v in values ==> low <= Highest(bindings, axis, a, v, edge) <= low + (PRESS - RELEASE)
    ensures Changes(bindings, axis, a, last, values, edge) <= 1
  {
    hide Highest;
    ChangesAreFlips(bindings, axis, a, last, values, edge);
    Band(bindings, axis, a, values, edge, low);
    var levels := Levels(bindings, axis, a, values, edge);
    assert forall i :: 0 <= i < |levels| ==> levels[i] in levels;
    NoChatter(Down(last, edge), levels, if low < 0 then 0 else low);
  }

  lemma {:induction false} Band(bindings: seq<Binding>, axis: nat, a: Axis, values: seq<int>, edge: nat, low: int)
    requires forall v :: v in values ==> low <= Highest(bindings, axis, a, v, edge) <= low + (PRESS - RELEASE)
    ensures var l := if low < 0 then 0 else low;
            forall x :: x in Levels(bindings, axis, a, values, edge) ==> l <= x <= l + (PRESS - RELEASE)
    decreases |values|
  {
    hide Highest;
    if values == [] {
    } else {
      assert values[0] in values;
      assert forall v :: v in values[1..] ==> v in values;
      Band(bindings, axis, a, values[1..], edge, low);
    }
  }
}
