/** on_command of the b_u585i_iot02a_ntz application (Projects/b_u585i_iot02a_ntz/Src/app/iotconnect_app.c):
    a case-sensitive LED dispatch whose ack goes out through command_status. The command string is
    what iotcl_clone_command returned (None: NULL) and the ack string what
    iotcl_create_ack_string_and_destroy_event returns for a status and message (`ackFor`); both are
    library calls outside this model. */
module NtzApp {
  import opened Wrappers
  import CString
  import opened App
  import Commands

  /** `strstr(command, pat) != NULL`. */
  predicate Has(command: string, pat: string)
  {
    CString.Contains(command, pat)
  }

  /** What on_command decides for a non-NULL event. */
  function NtzReply(command: Option<string>): (r: Reply)
    ensures command.None? ==> r == Reply(Keep, false, Some("?"), "Internal error")
    ensures command.Some? ==> r.name == command
    ensures r.status <==> command.Some? && (Has(command.value, "led-red") || Has(command.value, "led-green"))
    ensures r.status ==> r.message == "OK" && r.action.Switch?
    ensures command.Some? && !r.status ==> r.message == "Not implemented" && r.action == Keep
    ensures r.action.Switch? ==> (r.action.on <==> Has(command.value, "on"))
    ensures r.action.Switch? ==> (r.action.led == Red <==> Has(command.value, "led-red"))
  {
    match command
    case None => Reply(Keep, false, Some("?"), "Internal error")
    case Some(c) =>
      if Has(c, "led-red") then Reply(Switch(Red, Has(c, "on")), true, command, "OK")
      else if Has(c, "led-green") then Reply(Switch(Green, Has(c, "on")), true, command, "OK")
      else Reply(Keep, false, command, "Not implemented")
  }

  /** on_command: a NULL event is ignored; otherwise the LEDs end as NtzReply says and the ack
      for its status and message is sent by command_status. */
  method OnCommand(leds: Leds, sink: PacketSink, data: bool, command: Option<string>,
                   ackFor: (bool, string) -> Option<string>)
    modifies leds, sink
    ensures !data ==> leds.State() == old(leds.State()) && sink.sent == old(sink.sent)
    ensures data ==> var r := NtzReply(command);
                     leds.State() == Apply(r.action, old(leds.State())) &&
                     sink.sent == old(sink.sent) + Packets(ackFor(r.status, r.message))
  {
    if !data {
      return;
    }
    if command.Some? {
      var c := command.value;
      if Has(c, "led-red") {
        if Has(c, "on") {
          leds.On(Red);
        } else {
          leds.Off(Red);
        }
        CommandStatus(sink, ackFor(true, "OK"));
      } else if Has(c, "led-green") {
        if Has(c, "on") {
          leds.On(Green);
        } else {
          leds.Off(Green);
        }
        CommandStatus(sink, ackFor(true, "OK"));
      } else {
        CommandStatus(sink, ackFor(false, "Not implemented"));
      }
    } else {
      CommandStatus(sink, ackFor(false, "Internal error"));
    }
  }

  /** "led-red" is tested first: a command naming both LEDs switches the red one only. */
  lemma RedBeforeGreen(c: string)
    requires Has(c, "led-red") && Has(c, "led-green")
    ensures NtzReply(Some(c)).action == Switch(Red, Has(c, "on"))
  {
  }

  /** Any LED command lacking "on" turns its LED off, even one that names no state at all. */
  lemma OffUnlessOn(c: string)
    requires Has(c, "led-red") || Has(c, "led-green")
    requires !Has(c, "on")
    ensures NtzReply(Some(c)).action.Switch? && !NtzReply(Some(c)).action.on
  {
  }

  /** The two LED dispatchers disagree on case: "led-red ON" lights the red LED in
      iotc_process_cmd_str (given the names "ping", "led-red" and "led-green"), but turns it off
      here, where "on" is searched for case-sensitively. */
  lemma CaseMatters()
    ensures NtzReply(Some("led-red ON")).action == Switch(Red, false)
    ensures Commands.ActionOf(Commands.Classify(Commands.Names("ping", "led-red", "led-green"), "led-red ON"))
              == Switch(Red, true)
  {
    NtzExample();
    CommandsExample();
  }

  lemma NtzExample()
    ensures NtzReply(Some("led-red ON")).action == Switch(Red, false)
  {
    var c := "led-red ON";
    assert c[..7] == "led-red";
    assert CString.MatchesAt(c, "led-red", 0);
    AbsentFirst(c, "on");
  }

  lemma CommandsExample()
    ensures Commands.ActionOf(Commands.Classify(Commands.Names("ping", "led-red", "led-green"), "led-red ON"))
              == Switch(Red, true)
  {
    LowerExample();
    var l := "led-red on";
    assert l[..7] == "led-red" && l[8..10] == "on";
    assert CString.MatchesAt(l, "led-red", 0);
    assert CString.MatchesAt(l, "on", 8);
    AbsentFirst(l, "ping");
  }

  lemma LowerExample()
    ensures CString.Lower("led-red ON") == "led-red on"
    ensures CString.Lower("led-red") == "led-red"
    ensures CString.Lower("on") == "on"
    ensures CString.Lower("ping") == "ping"
  {
  }

  /** A pattern whose first character does not occur in `s` is not found in it. */
  lemma AbsentFirst(s: string, pat: string)
    requires |pat| > 0 && pat[0] !in s
    ensures !CString.Contains(s, pat)
  {
    forall j | 0 <= j <= |s|
      ensures !CString.MatchesAt(s, pat, j)
    {
      if j + |pat| <= |s| {
        assert s[j..j + |pat|][0] == s[j];
      }
    }
  }
}
