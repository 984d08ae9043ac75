// Tapes: the answers the hardware will give to the coming polls of a volatile register.

module Tapes {
  // What the next poll of a volatile register answers, when the hardware has settled on `tape`.
  function Head<T>(tape: seq<T>, settled: T): T {
    if tape == [] then settled else tape[0]
  }

  function Tail<T>(tape: seq<T>): seq<T> {
    if tape == [] then [] else tape[1..]
  }

  // What is left of a tape after k polls.
  function Later<T>(tape: seq<T>, k: nat): seq<T> {
    if k <= |tape| then tape[k..] else []
  }
}
