/** The simulated ping readout of the Minecraft page (`Minecraft.updatePing`): a random
    whole number of milliseconds, written into `#ping-value` and coloured in three
    tiers. The random draw is a parameter. */
module Minecraft {
  import opened Numerals

  /** `Math.floor(r * 100) + 20` for a draw `r` of `Math.random()`. */
  function Ping(r: real): (ms: int)
    requires 0.0 <= r < 1.0
    ensures 20 <= ms <= 119
    ensures (ms - 20) as real <= r * 100.0 < (ms - 19) as real
  {
    (r * 100.0).Floor + 20
  }

  datatype PingTier = Green | Yellow | Red {
    /** The CSS colour the readout is given. */
    function Css(): string {
      match this
      case Green => "#22c55e"
      case Yellow => "#eab308"
      case Red => "#ef4444"
    }
  }

  /** Below 50 ms green, below 100 ms yellow, otherwise red. */
  function TierOf(ms: int): PingTier {
    if ms < 50 then Green else if ms < 100 then Yellow else Red
  }

  /** Exactly one tier applies to a ping, and which one is decided by the thresholds
      50 and 100 alone. */
  lemma {:induction false} TiersPartitionPings(ms: int)
    ensures TierOf(ms) == Green <==> ms < 50
    ensures TierOf(ms) == Yellow <==> 50 <= ms < 100
    ensures TierOf(ms) == Red <==> 100 <= ms
  {
  }

  /** In terms of the draw: green for draws below 0.3, yellow from 0.3 up to 0.8, red
      from 0.8 on, so the tiers get 30%, 50% and 20% of the draws. */
  lemma {:induction false} TierOfDraw(r: real)
    requires 0.0 <= r < 1.0
    ensures TierOf(Ping(r)) == Green <==> r < 0.3
    ensures TierOf(Ping(r)) == Yellow <==> 0.3 <= r < 0.8
    ensures TierOf(Ping(r)) == Red <==> 0.8 <= r
  {
    var ms := Ping(r);
    assert (ms - 20) as real <= r * 100.0 < (ms - 19) as real;
  }

  /** The `#ping-value` element. */
  class PingReadout {
    var text: string
    var color: string

    /** The element as the page's markup provides it, before any update. */
    constructor (text: string, color: string)
      ensures this.text == text && this.color == color
    {
      this.text, this.color := text, color;
    }
  }

  /** `updatePing` with draw `r`; nothing happens when the page has no readout. */
  method UpdatePing(readout: PingReadout?, r: real)
    requires 0.0 <= r < 1.0
    modifies readout
    ensures readout != null ==>
              readout.text == NatToString(Ping(r)) && readout.color == TierOf(Ping(r)).Css()
  {
    if readout != null {
      var ms := Ping(r);
      readout.text := NatToString(ms);
      if ms < 50 {
        readout.color := "#22c55e";
      } else if ms < 100 {
        readout.color := "#eab308";
      } else {
        readout.color := "#ef4444";
      }
    }
  }
}
