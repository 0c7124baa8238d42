/** The keys of one player and the buttons they hold down, with or without autofire. */
module AutofireKeys {
  import opened Numbers
  import opened Autofire

  /** A set of virtual buttons: the bits of a 32-bit mask. */
  type Buttons = set<nat>

  /** The rate of a key, if autofire is on for it. */
  datatype Setting = Off | On(rate: Rate)

  const MAX_KEYS: nat := 128

  predicate Distinct(keys: seq<nat>) {
    forall i, j :: 0 <= i < j < |keys| ==> keys[i] != keys[j]
  }

  /** What a key holds down. */
  function Lookup(keys: seq<nat>, masks: seq<Buttons>, key: nat): Buttons
    requires |keys| == |masks|
  {
    if keys == [] then {}
    else
      var n := |keys| - 1;
      if keys[n] == key then masks[n] else Lookup(keys[..n], masks[..n], key)
  }

  lemma {:induction false} LookupAt(keys: seq<nat>, masks: seq<Buttons>, i: nat)
    requires |keys| == |masks| && Distinct(keys) && i < |keys|
    ensures Lookup(keys, masks, keys[i]) == masks[i]
  {
    var n := |keys| - 1;
    if i >= n {
    } else {
      LookupAt(keys[..n], masks[..n], i);
    }
  }

  lemma {:induction false} LookupNone(keys: seq<nat>, masks: seq<Buttons>, key: nat)
    requires |keys| == |masks| && key !in keys
    ensures Lookup(keys, masks, key) == {}
  {
    var n := |keys| - 1;
    if keys == [] {
    } else {
      LookupNone(keys[..n], masks[..n], key);
    }
  }

  /** Changing one entry changes what one key means. */
  lemma {:induction false} LookupChanged(keys: seq<nat>, masks: seq<Buttons>, i: nat, mask: Buttons, key: nat)
    requires |keys| == |masks| && Distinct(keys) && i < |keys|
    ensures Lookup(keys, masks[i := mask], key) == if key == keys[i] then mask else Lookup(keys, masks, key)
  {
    var n := |keys| - 1;
    if i < n {
      LookupChanged(keys[..n], masks[..n], i, mask, key);
      assert masks[i := mask][..n] == masks[..n][i := mask];
    } else {
      assert masks[i := mask][..n] == masks[..n];
    }
  }

  /** Whether a key that has been held for some frames counts towards the buttons that are not, or that
      are, under autofire. */
  predicate Lets(setting: Setting, frame: nat, autofire: bool) {
    match setting
    case Off => !autofire
    case On(rate) => autofire && RateOk(rate) && Down(rate, frame)
  }

  /** In how many of `n` frames a held key counts under autofire. */
  function FramesLet(setting: Setting, from: nat, n: nat): nat {
    if n == 0 then 0 else FramesLet(setting, from, n - 1) + if Lets(setting, from + n - 1, true) then 1 else 0
  }

  /** A key without autofire always counts as held; one with it counts in as many frames of a cycle as
      its pattern has ones, and never otherwise. */
  lemma {:induction false} Counted(setting: Setting, from: nat, n: nat)
    ensures setting.Off? ==> FramesLet(setting, from, n) == 0 && Lets(setting, from, false)
    ensures setting.On? && RateOk(setting.rate) ==>
              !Lets(setting, from, false) && FramesLet(setting, from, n) == FramesDown(setting.rate, from, n)
              && FramesLet(setting, from, setting.rate.length) == Ones(setting.rate.mask, setting.rate.length)
  {
    hide Down, Ones;
    AsDown(setting, from, n);
    if setting.On? && RateOk(setting.rate) {
      AsDown(setting, from, setting.rate.length);
      Cycle(setting.rate, from);
    }
  }

  lemma {:induction false} AsDown(setting: Setting, from: nat, n: nat)
    ensures setting.Off? ==> FramesLet(setting, from, n) == 0
    ensures setting.On? && RateOk(setting.rate) ==> FramesLet(setting, from, n) == FramesDown(setting.rate, from, n)
  {
    hide Down;
    if n == 0 {
    } else {
      AsDown(setting, from, n - 1);
    }
  }

  class KeyTable {
    var keys: seq<nat>
    var masks: seq<Buttons>
    var frames: seq<nat>     // how long each key has been held

    ghost predicate Valid()
      reads this
    {
      |keys| == |masks| == |frames| <= MAX_KEYS && Distinct(keys) && forall i :: 0 <= i < |frames| ==> frames[i] < WRAP
    }

    constructor ()
      ensures Valid() && keys == []
    {
      keys, masks, frames := [], [], [];
    }

    /** `get_key_state`. */
    method Get(key: nat) returns (mask: Buttons)
      requires Valid()
      ensures mask == Lookup(keys, masks, key)
    {
      for i := 0 to |keys|
        invariant forall j :: 0 <= j < i ==> keys[j] != key
      {
        if keys[i] == key {
          LookupAt(keys, masks, i);
          return masks[i];
        }
      }
      LookupNone(keys, masks, key);
      return {};
    }

    /** `set_key_state`: a key that is known gains or loses buttons, a new one is entered while there
        is room, and no other key changes; nor does the age of any. */
    method Set(key: nat, press: bool, mask: Buttons)
      requires Valid()
      modifies this
      ensures Valid()
      ensures var enters := key !in old(keys) && press && |old(keys)| < MAX_KEYS;
              keys == old(keys) + (if enters then [key] else []) && frames == old(frames) + (if enters then [0] else [])
      ensures forall k :: k != key ==> Lookup(keys, masks, k) == Lookup(old(keys), old(masks), k)
      ensures var was := Lookup(old(keys), old(masks), key);
              Lookup(keys, masks, key) == if key in old(keys) then (if press then was + mask else was - mask)
                                          else if press && |old(keys)| < MAX_KEYS then mask else {}
    {
      for i := 0 to |keys|
        invariant Valid() && keys == old(keys) && masks == old(masks) && frames == old(frames)
        invariant forall j :: 0 <= j < i ==> keys[j] != key
      {
        if keys[i] == key {
          var next := if press then masks[i] + mask else masks[i] - mask;
          LookupAt(keys, masks, i);
          forall k: nat ensures Lookup(keys, masks[i := next], k) == if k == key then next else Lookup(keys, masks, k) {
            LookupChanged(keys, masks, i, next, k);
          }
          masks := masks[i := next];
          return;
        }
      }
      LookupNone(keys, masks, key);
      if |keys| < MAX_KEYS && press {
        assert (keys + [key])[..|keys|] == keys && (masks + [mask])[..|masks|] == masks;
        keys, masks, frames := keys + [key], masks + [mask], frames + [0];
      }
    }

    /** `key_update_frames_held_cb`: once a frame, every key that holds something down ages. */
    method Tick()
      requires Valid()
      modifies `frames
      ensures Valid() && |frames| == old(|frames|)
      ensures forall i :: 0 <= i < |frames| ==> frames[i] == if masks[i] != {} then (old(frames[i]) + 1) % WRAP else 0
    {
      for k := 0 to |keys|
        invariant Valid() && |frames| == old(|frames|)
        invariant forall i :: 0 <= i < k ==> frames[i] == if masks[i] != {} then (old(frames[i]) + 1) % WRAP else 0
        invariant forall i :: k <= i < |frames| ==> frames[i] == old(frames[i])
      {
        frames := frames[k := if masks[k] != {} then (frames[k] + 1) % WRAP else 0];
      }
    }

    // ---------- the buttons that are sent ----------

    /** Whether key `i` counts towards the buttons that are not, or that are, under autofire. */
    predicate Counts(settings: nat -> Setting, i: nat, autofire: bool)
      requires i < |keys| == |frames|
      reads `keys, `frames
    {
      Lets(settings(keys[i]), frames[i], autofire)
    }

    /** `build_joy_mask` and `build_autofire_mask`: exactly the buttons that some counting key holds. */
    method BuildMask(settings: nat -> Setting, autofire: bool) returns (mask: Buttons)
      requires Valid()
      ensures forall b :: b in mask <==> exists i :: 0 <= i < |keys| && Counts(settings, i, autofire) && b in masks[i]
    {
      mask := {};
      for i := 0 to |keys|
        invariant forall b :: b in mask <==> exists j :: 0 <= j < i && Counts(settings, j, autofire) && b in masks[j]
      {
        if Counts(settings, i, autofire) {
          var held := Get(keys[i]);
          LookupAt(keys, masks, i);
          mask := mask + held;
        }
      }
    }
  }
}
