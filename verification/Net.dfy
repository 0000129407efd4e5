// Values shared by the network components: options, addresses, endpoints, error codes and the timer.

module Wrappers {
  datatype Option<+T> = None | Some(value: T)

  datatype Result<+T, +E> = Ok(value: T) | Err(error: E)
}

// Unsigned 64-bit counters, which wrap around.
module Counters {
  const MODULUS: int := 0x1_0000_0000_0000_0000

  type UInt64 = n: int | 0 <= n < MODULUS

  function Increment(a: UInt64): UInt64 {
    if a == MODULUS - 1 then 0 else a + 1
  }

  // The counter after n increments.
  function Plus(a: UInt64, n: nat): UInt64 {
    if n == 0 then a else Increment(Plus(a, n - 1))
  }

  lemma {:induction false} PlusFromNext(a: UInt64, n: nat)
    ensures Plus(Increment(a), n) == Plus(a, n + 1)
  {
    if n > 0 {
      PlusFromNext(a, n - 1);
    }
  }

  // That is addition modulo 2^64.
  lemma {:induction false} PlusIsModulo(a: UInt64, n: nat)
    ensures Plus(a, n) == (a + n) % MODULUS
  {
    if n > 0 {
      PlusIsModulo(a, n - 1);
      NextModulo(a + n - 1);
    }
  }

  lemma NextModulo(s: nat)
    ensures (s + 1) % MODULUS == Increment(s % MODULUS)
  {
  }
}

module Net {
  type Byte = n: int | 0 <= n < 0x100

  // An unsigned 16-bit number: a port, or one group of an IPv6 address.
  type Word = n: int | 0 <= n < 0x1_0000

  type Octets = s: seq<Byte> | |s| == 4 witness [0, 0, 0, 0]

  type Words = s: seq<Word> | |s| == 8 witness [0, 0, 0, 0, 0, 0, 0, 0]

  datatype Address = V4(octets: Octets) | V6(words: Words)

  datatype Endpoint = Endpoint(address: Address, port: Word)
}

module Asio {
  // The error codes the operations name themselves, and every other code as Other.
  datatype Error =
    | NoError
    | OperationAborted
    | TimedOut
    | HostNotFound
    | NotFound
    | BadDescriptor
    | NoProtocolOption
    | ProtocolNotSupported
    | Interrupted
    | OperationNotPermitted
    | Other(code: int)

  // One steady_timer with at most one wait. Ready(e) is a wait handler queued with code e;
  // Ran means that the handler has run.
  datatype Timer = Idle | Armed | Ready(error: Error) | Ran

  // Cancelling recalls a wait that has not expired. It does not recall an expiry already queued.
  function Cancel(timer: Timer): Timer {
    if timer.Armed? then Ready(OperationAborted) else timer
  }
}
