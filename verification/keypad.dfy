/**
  The per-frame input handler. Each slot of the keypad holds UP (0), DOWN (1)
  or RELEASED (2, released during the current frame). Once per frame the
  handler first turns every RELEASED slot back to UP, then drains the host's
  event queue in order: a key press marks its slot DOWN, a key release marks
  it RELEASED, and a quit request raises the quit flag.
 */
module Keypad {
  import opened KeyMap

  /** Number of keypad slots; the decoder yields indices 0x0..0xF, which the
      handler writes without a bounds check, so the keypad has one slot per
      pad key. */
  const MAX_KEYS: nat := PAD_KEYS

  const UP: nat := 0
  const DOWN: nat := 1
  const RELEASED: nat := 2

  datatype Option<T> = None | Some(value: T)

  /** A host event as the handler sees it; every event type the handler does
      not inspect is `OtherEvent`. */
  datatype Event = Quit | KeyUp(key: Key) | KeyDown(key: Key) | OtherEvent

  /** The keypad together with the host's quit flag. */
  datatype InputState = InputState(pad: seq<nat>, quit: bool)

  /** Every slot holds one of the three slot states. */
  predicate ValidSlots(pad: seq<nat>) {
    forall k :: 0 <= k < |pad| ==> pad[k] <= RELEASED
  }

  /** The value a single event writes into slot `h`, if it writes there at
      all: a press of the pad key for `h` writes DOWN and a release writes
      RELEASED. */
  function SlotWrite(e: Event, h: nat): Option<nat> {
    match e
    case KeyDown(k) => if IsPadKey(k) && ToHex(k) == h then Some(DOWN) else None
    case KeyUp(k) => if IsPadKey(k) && ToHex(k) == h then Some(RELEASED) else None
    case _ => None
  }

  /** The value the last event of `events` that writes slot `h` writes
      there, or None when no event of `events` touches slot `h`. A value it
      returns is DOWN or RELEASED and is written by some event of the queue. */
  function LastWrite(events: seq<Event>, h: nat): (w: Option<nat>)
    ensures w.None? <==> forall j :: 0 <= j < |events| ==> SlotWrite(events[j], h).None?
    ensures w.Some? ==> exists j :: 0 <= j < |events| && SlotWrite(events[j], h) == w
    ensures w.Some? ==> w.value == DOWN || w.value == RELEASED
  {
    if |events| == 0 then None
    else
      var n := |events| - 1;
      var w := SlotWrite(events[n], h);
      if w.Some? then w
      else
        var front := events[..n];
        assert forall j :: 0 <= j < |front| ==> front[j] == events[j];
        LastWrite(front, h)
  }

  /** The clean-up pass that opens a frame: every RELEASED slot becomes UP,
      every other slot keeps its value, and afterwards no slot is RELEASED. */
  method ReleaseKeys(pad: seq<nat>) returns (r: seq<nat>)
    requires |pad| == MAX_KEYS
    ensures |r| == |pad|
    ensures forall k :: 0 <= k < |r| ==> r[k] != RELEASED
    ensures forall k :: 0 <= k < |pad| && pad[k] == RELEASED ==> r[k] == UP
    ensures forall k :: 0 <= k < |pad| && pad[k] != RELEASED ==> r[k] == pad[k]
  {
    r := pad;
    var k := 0;
    while k < MAX_KEYS
      invariant 0 <= k <= MAX_KEYS
      invariant |r| == |pad|
      invariant forall j :: 0 <= j < k ==> r[j] != RELEASED
      invariant forall j :: 0 <= j < k && pad[j] == RELEASED ==> r[j] == UP
      invariant forall j :: 0 <= j < |pad| && (k <= j || pad[j] != RELEASED) ==> r[j] == pad[j]
    {
      if r[k] == RELEASED {
        r := r[k := UP];
      }
      k := k + 1;
    }
  }

  /** Folds one event into the state. A press or release of a pad key sets
      only that key's slot; an unmapped key, and any event other than a key
      event or a quit request, leave the state as it was. A quit request
      raises the flag, which nothing lowers. */
  function ApplyEvent(s: InputState, e: Event): (r: InputState)
    requires |s.pad| == MAX_KEYS
    ensures |r.pad| == MAX_KEYS
    ensures r.quit <==> s.quit || e == Quit
    ensures forall h :: 0 <= h < MAX_KEYS ==>
      r.pad[h] == (if SlotWrite(e, h).Some? then SlotWrite(e, h).value else s.pad[h])
    ensures (e.KeyUp? || e.KeyDown?) && !IsPadKey(e.key) ==> r == s
  {
    match e
    case Quit => s.(quit := true)
    case KeyUp(k) =>
      var hexkey := ToHex(k);
      if hexkey != BAD_KEY then s.(pad := s.pad[hexkey := RELEASED]) else s
    case KeyDown(k) =>
      var hexkey := ToHex(k);
      if hexkey != BAD_KEY then s.(pad := s.pad[hexkey := DOWN]) else s
    case OtherEvent => s
  }

  /** One frame of input handling: the clean-up pass, then every queued
      event in order. A slot ends with the value written by the last event
      that touches it, and a slot no event touches keeps its cleaned-up
      value. The quit flag ends raised exactly when it was raised already or
      the queue held a quit request. */
  method HandleInput(pad: seq<nat>, quit: bool, events: seq<Event>)
    returns (pad': seq<nat>, quit': bool)
    requires |pad| == MAX_KEYS
    ensures |pad'| == MAX_KEYS
    ensures quit' <==> quit || Quit in events
    ensures forall h :: 0 <= h < MAX_KEYS && LastWrite(events, h).Some? ==>
      pad'[h] == LastWrite(events, h).value
    ensures forall h :: 0 <= h < MAX_KEYS && LastWrite(events, h).None? ==>
      pad'[h] == (if pad[h] == RELEASED then UP else pad[h])
    ensures ValidSlots(pad) ==> ValidSlots(pad')
  {
    var cleared := ReleaseKeys(pad);
    var s := InputState(cleared, quit);
    var i := 0;
    while i < |events|
      invariant 0 <= i <= |events|
      invariant |s.pad| == MAX_KEYS
      invariant s.quit <==> quit || Quit in events[..i]
      invariant forall h :: 0 <= h < MAX_KEYS ==>
        s.pad[h] == (if LastWrite(events[..i], h).Some? then LastWrite(events[..i], h).value else cleared[h])
    {
      assert events[..i + 1][..i] == events[..i];
      s := ApplyEvent(s, events[i]);
      i := i + 1;
    }
    assert events[..i] == events;
    pad', quit' := s.pad, s.quit;
  }

  /** When the `i`-th event writes slot `h` and no later event does, the
      `i`-th event decides the slot. */
  lemma {:induction false} LastWriteIsLast(events: seq<Event>, h: nat, i: nat)
    requires i < |events|
    requires SlotWrite(events[i], h).Some?
    requires forall j :: i < j < |events| ==> SlotWrite(events[j], h).None?
    ensures LastWrite(events, h) == SlotWrite(events[i], h)
  {
    var n := |events| - 1;
    if i < n {
      assert SlotWrite(events[n], h).None?;
      var front := events[..n];
      assert forall j :: i < j < |front| ==> front[j] == events[j];
      LastWriteIsLast(front, h, i);
    }
  }

  /** Queues are folded left to right: on a concatenated queue a write in
      the later part wins over any write in the earlier part. */
  lemma {:induction false} LastWriteAppend(first: seq<Event>, second: seq<Event>, h: nat)
    ensures LastWrite(first + second, h) ==
      (if LastWrite(second, h).Some? then LastWrite(second, h) else LastWrite(first, h))
  {
    if |second| == 0 {
      assert first + second == first;
    } else {
      var n := |second| - 1;
      assert (first + second)[..|first + second| - 1] == first + second[..n];
      LastWriteAppend(first, second[..n], h);
    }
  }

  /** Two key events for the same pad key in a row: the second one alone
      decides the state. */
  lemma SecondKeyEventWins(s: InputState, e1: Event, e2: Event)
    requires |s.pad| == MAX_KEYS
    requires e1.KeyUp? || e1.KeyDown?
    requires e2.KeyUp? || e2.KeyDown?
    requires e1.key == e2.key && IsPadKey(e1.key)
    ensures ApplyEvent(ApplyEvent(s, e1), e2) == ApplyEvent(s, e2)
  {
    var r1 := ApplyEvent(ApplyEvent(s, e1), e2);
    var r2 := ApplyEvent(s, e2);
    assert forall h :: 0 <= h < MAX_KEYS ==> r1.pad[h] == r2.pad[h];
  }
}
