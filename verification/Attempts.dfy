/**
 What a thread has called last, and what has come of it.
 */
module Attempts {
  import opened Basics

  datatype Hold = NotHeld | Shared | Exclusively

  /** The last call, how the thread has held the lock since then, and how many steps of its own it has taken. */
  datatype Attempt<C> = Attempt(call: Option<C>, hold: Hold, steps: nat)

  /** After one more step of the thread: `hold` is how it holds the lock then. */
  function After<C>(a: Attempt<C>, wasIdle: bool, call: C, hold: Hold): Attempt<C> {
    if wasIdle then Attempt(Some(call), hold, 1)
    else Attempt(a.call, if hold.NotHeld? then a.hold else hold, a.steps + 1)
  }
}
