/**
 * `useKeyPress` of React/useKeyPress.ts: whether the target key is held
 * down. The hook is a class whose `keyPressed` field is its state; the
 * window listeners that deliver the events are not modelled.
 */
module KeyPress {
  import opened Wrappers

  /** A `keydown` or `keyup` event with its `key`. */
  datatype KeyEvent = KeyDown(key: string) | KeyUp(key: string)

  /** The state after one event. */
  function Step(pressed: bool, targetKey: string, event: KeyEvent): bool
  {
    if event.key == targetKey then event.KeyDown? else pressed
  }

  /** The state after a sequence of events. */
  function Replay(pressed: bool, targetKey: string, events: seq<KeyEvent>): bool
  {
    if events == [] then pressed
    else Step(Replay(pressed, targetKey, events[..|events| - 1]), targetKey, events[|events| - 1])
  }

  /** The last event for the target key, if there is one. */
  function LastTargetEvent(targetKey: string, events: seq<KeyEvent>): (e: Option<KeyEvent>)
    ensures e.Some? ==> e.value.key == targetKey
    ensures e.None? <==> forall i | 0 <= i < |events| :: events[i].key != targetKey
  {
    if events == [] then None
    else if events[|events| - 1].key == targetKey then Some(events[|events| - 1])
    else LastTargetEvent(targetKey, events[..|events| - 1])
  }

  /**
   * Starting from the initial state, the key counts as pressed exactly
   * when the last event for it was a keydown.
   */
  lemma {:induction false} PressedIffLastWasDown(pressed: bool, targetKey: string, events: seq<KeyEvent>)
    ensures Replay(pressed, targetKey, events) ==
      (match LastTargetEvent(targetKey, events) case None => pressed case Some(e) => e.KeyDown?)
  {
    if events != [] {
      PressedIffLastWasDown(pressed, targetKey, events[..|events| - 1]);
    }
  }

  /** Events for other keys change nothing. */
  lemma {:induction false} OtherKeysIgnored(pressed: bool, targetKey: string, events: seq<KeyEvent>)
    requires forall i | 0 <= i < |events| :: events[i].key != targetKey
    ensures Replay(pressed, targetKey, events) == pressed
  {
    PressedIffLastWasDown(pressed, targetKey, events);
  }

  class KeyPressState {
    const targetKey: string
    var keyPressed: bool

    constructor (targetKey: string)
      ensures this.targetKey == targetKey && !keyPressed
    {
      this.targetKey := targetKey;
      keyPressed := false;
    }

    /** `downHandler` */
    method DownHandler(key: string)
      modifies this
      ensures keyPressed == Step(old(keyPressed), targetKey, KeyDown(key))
      ensures key == targetKey ==> keyPressed
    {
      if key == targetKey {
        keyPressed := true;
      }
    }

    /** `upHandler` */
    method UpHandler(key: string)
      modifies this
      ensures keyPressed == Step(old(keyPressed), targetKey, KeyUp(key))
      ensures key == targetKey ==> !keyPressed
    {
      if key == targetKey {
        keyPressed := false;
      }
    }
  }
}
