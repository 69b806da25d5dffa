/** Types shared by the models of the separate tools. */
module Basics {

  datatype Option<+T> = None | Some(value: T)

  type U8 = x: int | 0 <= x < 0x100
  type U16 = x: int | 0 <= x < 0x1_0000

  type Bytes = seq<U8>

  function Min(a: int, b: int): int { if a < b then a else b }

  function Max(a: int, b: int): int { if a < b then b else a }

  /** A monotonic clock reading; the unit does not matter to the models. */
  type Instant = nat

  /** `recv.duration_since(sent)`, which saturates at zero. */
  function Since(sent: Instant, recv: Instant): (d: nat)
    ensures sent + d == Max(sent, recv)
  {
    if sent <= recv then recv - sent else 0
  }
}
