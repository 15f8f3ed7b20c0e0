/**
 * `KeyboardState::keydown` and `keyup`: edge detectors over the live key
 * states, each remembering in its own static array what it saw for each key
 * on its previous call. The key scancodes the editor reads are SDL's.
 */
module Keyboard {

  /** `SDL_NUM_SCANCODES`: the length of the key-state array. */
  const NumScancodes: nat := 512

  type Scancode = k: nat | k < NumScancodes

  const ScancodeE: Scancode := 8
  const ScancodeQ: Scancode := 20
  const ScancodeR: Scancode := 21
  const ScancodeW: Scancode := 26
  const ScancodeBackspace: Scancode := 42
  const ScancodeSpace: Scancode := 44
  const ScancodeLCtrl: Scancode := 224

  /** The per-arm edit keys: delete, reset, trail toggle, head drag, base drag. */
  const EditKeys: seq<Scancode> := [ScancodeBackspace, ScancodeR, ScancodeQ, ScancodeE, ScancodeW]

  /** The edit keys are pairwise distinct, so one key-down triggers at most one of those edits. */
  lemma EditKeysDistinct()
    ensures forall i, j :: 0 <= i < j < |EditKeys| ==> EditKeys[i] != EditKeys[j]
  {
  }

  class KeyboardState {
    /** `keydown`'s static `prev_keystate`. */
    const downHistory: array<bool>
    /** `keyup`'s static `prev_keystate`, a separate array. */
    const upHistory: array<bool>

    ghost predicate Valid()
    {
      downHistory.Length == NumScancodes && upHistory.Length == NumScancodes && downHistory != upHistory
    }

    /** Both histories start all released. */
    constructor ()
      ensures Valid() && fresh(downHistory) && fresh(upHistory)
      ensures forall k :: 0 <= k < NumScancodes ==> !downHistory[k] && !upHistory[k]
    {
      downHistory := new bool[NumScancodes](_ => false);
      upHistory := new bool[NumScancodes](_ => false);
    }

    /**
     * True when `key` is held now and was not held at this detector's previous
     * look at it; the detector then remembers the current state.
     */
    method KeyDown(keys: seq<bool>, key: Scancode) returns (down: bool)
      requires Valid() && |keys| == NumScancodes
      modifies downHistory
      ensures down == (keys[key] && !old(downHistory[key]))
      ensures downHistory[..] == old(downHistory[..])[key := keys[key]]
    {
      var current := keys[key];
      down := current && !downHistory[key];
      downHistory[key] := current;
    }

    /** True when `key` is released now and was held at this detector's previous look at it. */
    method KeyUp(keys: seq<bool>, key: Scancode) returns (up: bool)
      requires Valid() && |keys| == NumScancodes
      modifies upHistory
      ensures up == (!keys[key] && old(upHistory[key]))
      ensures upHistory[..] == old(upHistory[..])[key := keys[key]]
    {
      var current := keys[key];
      up := !current && upHistory[key];
      upHistory[key] := current;
    }
  }

  // ---------------------------------------------------------------------
  // One key over successive calls

  /** The state a detector remembers before call `i` on the successive states `s`, starting released. */
  function Previous(s: seq<bool>, i: nat): bool
    requires i <= |s|
  {
    if i == 0 then false else s[i - 1]
  }

  /** How many of the calls on `s` report a key-down. */
  function Downs(s: seq<bool>): nat
  {
    if s == [] then 0
    else Downs(s[..|s| - 1]) + (if s[|s| - 1] && !Previous(s, |s| - 1) then 1 else 0)
  }

  /** How many of the calls on `s` report a key-up. */
  function Ups(s: seq<bool>): nat
  {
    if s == [] then 0
    else Ups(s[..|s| - 1]) + (if !s[|s| - 1] && Previous(s, |s| - 1) then 1 else 0)
  }

  /**
   * For one key, `Downs` counts what `KeyDown` reports when it is called on
   * every state of `s` in turn (its history then holds `Previous`), and `Ups`
   * what `KeyUp` reports when it is so called; each detector keeps its own
   * history, so this is about the two detectors each in isolation. Downs and
   * ups alternate: after any run there has been exactly one more key-down
   * than key-up while the key is held, and as many when it is not.
   */
  lemma {:induction false} DownsAndUpsAlternate(s: seq<bool>)
    ensures Downs(s) == Ups(s) + (if s != [] && s[|s| - 1] then 1 else 0)
  {
    if s != [] {
      var t := s[..|s| - 1];
      DownsAndUpsAlternate(t);
      if |t| > 0 {
        assert Previous(s, |s| - 1) == t[|t| - 1];
      }
    }
  }
}
