/**
 * The completion semantics of java.util.concurrent.CompletableFuture that the
 * replicator relies on: a future is completed at most once, and every later
 * complete or completeExceptionally call leaves it as it is.
 */
module Futures {

  datatype FutureState = Pending | Succeeded | Failed(reason: string)

  /** The state after completing a future in state `s` with `outcome`. */
  function Settle(s: FutureState, outcome: FutureState): FutureState
  {
    if s.Pending? then outcome else s
  }

  /** Once a future is done, no later completion changes it. */
  lemma SettledOnce(s: FutureState, first: FutureState, later: FutureState)
    requires !first.Pending?
    ensures !Settle(s, first).Pending?
    ensures Settle(Settle(s, first), later) == Settle(s, first)
  {
  }

  class Future {
    /** Proof-only: the key its owner registers it under. */
    ghost const key: int
    var state: FutureState

    /** new CompletableFuture<>() */
    constructor Incomplete(ghost key: int)
      ensures this.key == key && state == Pending
    {
      this.key := key;
      state := Pending;
    }

    /** CompletableFuture.completedFuture(null) */
    constructor CompletedFuture(ghost key: int)
      ensures this.key == key && state == Succeeded
    {
      this.key := key;
      state := Succeeded;
    }

    /** complete(null) */
    method Complete()
      modifies this
      ensures state == Settle(old(state), Succeeded)
    {
      if state.Pending? {
        state := Succeeded;
      }
    }

    /** completeExceptionally(new IllegalStateException(reason)) */
    method CompleteExceptionally(reason: string)
      modifies this
      ensures state == Settle(old(state), Failed(reason))
    {
      if state.Pending? {
        state := Failed(reason);
      }
    }
  }
}
