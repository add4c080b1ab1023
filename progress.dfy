/**
 * The progress animation of the reply handler (bot.js:122-139, 159): frame 0
 * is sent when the transformation starts, each one-second timer tick moves
 * `step` on and edits the message to the next frame, and the interval is
 * cleared either by the tick that runs past the last frame or when the
 * transformation completes.
 */
module Progress {

  /** The six frames, 0% to 100%. */
  const Frames: seq<string> := [
    "\U{23F3} Encrypting [\U{2591}\U{2591}\U{2591}\U{2591}\U{2591}\U{2591}] 0%",
    "\U{23F3} Encrypting [\U{2593}\U{2591}\U{2591}\U{2591}\U{2591}\U{2591}] 20%",
    "\U{23F3} Encrypting [\U{2593}\U{2593}\U{2591}\U{2591}\U{2591}\U{2591}] 40%",
    "\U{23F3} Encrypting [\U{2593}\U{2593}\U{2593}\U{2591}\U{2591}\U{2591}] 60%",
    "\U{23F3} Encrypting [\U{2593}\U{2593}\U{2593}\U{2593}\U{2591}\U{2591}] 80%",
    "\U{23F3} Encrypting [\U{2593}\U{2593}\U{2593}\U{2593}\U{2593}\U{2593}] 100%"
  ]

  function Min(a: nat, b: nat): nat
  {
    if a < b then a else b
  }

  /** One running animation: the `step` counter and whether its interval is still set. */
  class Reporter {
    var step: nat
    var active: bool

    /** The interval is cleared at the latest when `step` runs past the last frame. */
    ghost predicate Valid()
      reads this
    {
      step <= |Frames| && (active ==> step < |Frames|)
    }

    /** The frames the message has shown so far, in order: frame 0 and then one per edit. */
    ghost function Shown(): (shown: seq<string>)
      reads this
      requires Valid()
      ensures 1 <= |shown| <= |Frames|
    {
      Frames[..Min(step + 1, |Frames|)]
    }

    /** Sends frame 0 and sets the interval. */
    constructor Start()
      ensures Valid() && active && step == 0
      ensures Shown() == [Frames[0]]
    {
      step := 0;
      active := true;
    }

    /**
     * One firing of the interval: `step` moves on; the message is edited to
     * the new frame while there is one, and otherwise the interval clears
     * itself. A cleared interval does not fire, so then nothing changes.
     */
    method Tick()
      requires Valid()
      modifies this
      ensures Valid()
      ensures old(active) ==> step == old(step) + 1 && active == (step < |Frames|)
      ensures old(active) ==> Shown() == old(Shown()) + (if step < |Frames| then [Frames[step]] else [])
      ensures !old(active) ==> step == old(step) && !active
    {
      if active {
        step := step + 1;
        if step >= |Frames| {
          active := false;
        }
      }
    }

    /** `ticks` firings of the interval in a row, as happen while the engine runs. */
    method Elapse(ticks: nat)
      requires Valid()
      modifies this
      ensures Valid()
      ensures step == if old(active) then Min(old(step) + ticks, |Frames|) else old(step)
      ensures active == (old(active) && old(step) + ticks < |Frames|)
    {
      var k := 0;
      while k < ticks
        invariant 0 <= k <= ticks && Valid()
        invariant step == if old(active) then Min(old(step) + k, |Frames|) else old(step)
        invariant active == (old(active) && old(step) + k < |Frames|)
      {
        Tick();
        k := k + 1;
      }
    }

    /** `clearInterval` on completion: idempotent, and it leaves the frames shown as they are. */
    method Stop()
      requires Valid()
      modifies this
      ensures Valid() && !active && step == old(step)
    {
      active := false;
    }
  }
}
