/** What the command handlers of the application act on: the board's two user LEDs (BSP_LED_On and
    BSP_LED_Off), the packet sender behind iotconnect_sdk_send_packet, and the acknowledgement each
    handler decides on. */
module App {
  import opened Wrappers

  datatype Led = Red | Green

  /** Whether each LED is lit. */
  datatype LedState = LedState(red: bool, green: bool)

  /** What a command does to the LEDs: nothing, or switch one LED on or off. */
  datatype LedAction = Keep | Switch(led: Led, on: bool)

  /** The LEDs after `a`: the switched LED is lit exactly when `on`, the other one keeps its state. */
  function Apply(a: LedAction, s: LedState): (r: LedState)
    ensures a.Keep? ==> r == s
    ensures a.Switch? && a.led == Red ==> r.red == a.on && r.green == s.green
    ensures a.Switch? && a.led == Green ==> r.green == a.on && r.red == s.red
  {
    match a
    case Keep => s
    case Switch(Red, on) => s.(red := on)
    case Switch(Green, on) => s.(green := on)
  }

  /** The acknowledgement a handler asks for: the success flag and message handed to
      iotcl_create_ack_string_and_destroy_event, with the command name that is logged beside them
      (None: a NULL name). */
  datatype Reply = Reply(action: LedAction, status: bool, name: Option<string>, message: string)

  /** The board's user LEDs. */
  class Leds {
    var red: bool
    var green: bool

    constructor (red: bool, green: bool)
      ensures this.red == red && this.green == green
    {
      this.red := red;
      this.green := green;
    }

    function State(): LedState
      reads this
    {
      LedState(red, green)
    }

    /** BSP_LED_On. */
    method On(led: Led)
      modifies this
      ensures State() == Apply(Switch(led, true), old(State()))
    {
      if led == Red {
        red := true;
      } else {
        green := true;
      }
    }

    /** BSP_LED_Off. */
    method Off(led: Led)
      modifies this
      ensures State() == Apply(Switch(led, false), old(State()))
    {
      if led == Red {
        red := false;
      } else {
        green := false;
      }
    }
  }

  /** iotconnect_sdk_send_packet as the handlers see it: every packet handed to it, in order. */
  class PacketSink {
    var sent: seq<string>

    constructor ()
      ensures sent == []
    {
      sent := [];
    }

    method SendPacket(packet: string)
      modifies this
      ensures sent == old(sent) + [packet]
    {
      sent := sent + [packet];
    }
  }

  /** The packets sent for the ack string `ack` (None: the library made none). */
  function Packets(ack: Option<string>): (r: seq<string>)
    ensures |r| == if ack.Some? then 1 else 0
    ensures ack.Some? ==> r[0] == ack.value
  {
    if ack.Some? then [ack.value] else []
  }

  /** command_status of both iotconnect_app.c variants: the ack string `ack` is the one
      iotcl_create_ack_string_and_destroy_event returned; none means no ack is required and
      nothing is sent, otherwise it is sent once. */
  method CommandStatus(sink: PacketSink, ack: Option<string>)
    modifies sink
    ensures sink.sent == old(sink.sent) + Packets(ack)
  {
    if ack.None? {
      return;
    }
    sink.SendPacket(ack.value);
  }
}
