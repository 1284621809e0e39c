/**
 * The serial line the ESP-01 modem sits on, reduced to what the bridge uses:
 * `usart_tx` appends a byte to a log of transmitted bytes, `usart_rx` takes
 * the next event of the input queue (a byte, or a timeout when the line
 * stays silent for the per-byte timeout), and `usart_configure_isr` decides
 * whether the receive-complete interrupt is routed to the bridge.
 */
module Usart {
  import opened Bytes

  /** What one call of `usart_rx` observes. */
  datatype RxEvent = Byte(b: byte) | Timeout

  datatype UsartStatus = USART_OK | USART_ERROR | USART_RX_TIMEOUT

  const BAUD_RATE_MIN: nat := 2400
  const BAUD_RATE_MAX: nat := 1000000

  /** The event the next `usart_rx` sees: an exhausted queue is a silent line. */
  function NextEvent(q: seq<RxEvent>): RxEvent
  {
    if q == [] then Timeout else q[0]
  }

  /** The queue after `n` events were taken (a silent line stays silent). */
  function Drop(q: seq<RxEvent>, n: nat): (r: seq<RxEvent>)
    ensures n <= |q| ==> r == q[n..]
    ensures n >= |q| ==> r == []
  {
    if n <= |q| then q[n..] else []
  }

  class Uart {
    /** Events still to be received, oldest first. */
    var pending: seq<RxEvent>
    /** Every byte transmitted so far, in order. */
    var sent: seq<byte>
    /** Whether the receive-complete interrupt calls the bridge. */
    var rxIsr: bool

    constructor (input: seq<RxEvent>)
      ensures pending == input && sent == [] && !rxIsr
    {
      pending, sent, rxIsr := input, [], false;
    }

    /** `usart_tx`: blocks until the data register is free, then sends. */
    method Tx(b: byte) returns (st: UsartStatus)
      modifies this`sent
      ensures st == USART_OK && sent == old(sent) + [b]
    {
      sent := sent + [b];
      st := USART_OK;
    }

    /** `usart_rx`: one byte, or a timeout that leaves `*p_data` alone. */
    method Rx() returns (ev: RxEvent)
      modifies this`pending
      ensures ev == NextEvent(old(pending)) && pending == Drop(old(pending), 1)
    {
      ev := NextEvent(pending);
      pending := Drop(pending, 1);
    }

    /**
     * `usart_init` with parity none and all option flags clear, as the
     * bridge calls it: only the baud-rate range can reject it.
     */
    method Init(baud: nat) returns (st: UsartStatus)
      ensures st == (if BAUD_RATE_MIN <= baud <= BAUD_RATE_MAX then USART_OK else USART_ERROR)
    {
      if baud < BAUD_RATE_MIN || baud > BAUD_RATE_MAX {
        return USART_ERROR;
      }
      st := USART_OK;
    }

    /** `usart_configure_isr` for the receive-complete vector (never fails). */
    method ConfigureRxIsr(enabled: bool) returns (st: UsartStatus)
      modifies this`rxIsr
      ensures st == USART_OK && rxIsr == enabled
    {
      rxIsr := enabled;
      st := USART_OK;
    }
  }
}
