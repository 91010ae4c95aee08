/** on_command of the common application (Common/app/iotconnect_app.c), in its active `#if 1`
    branch: every command is acknowledged as done and no LED is touched. The command string and the
    ack string come from the iotcl library, as for NtzApp. */
module CommonApp {
  import opened Wrappers
  import opened App

  /** What on_command decides for a non-NULL event. */
  function CommonReply(command: Option<string>): (r: Reply)
    ensures r.action == Keep
    ensures r.status <==> command.Some?
    ensures command.Some? ==> r == Reply(Keep, true, command, "OK")
    ensures command.None? ==> r == Reply(Keep, false, Some("?"), "Internal error")
  {
    if command.Some? then Reply(Keep, true, command, "OK")
    else Reply(Keep, false, Some("?"), "Internal error")
  }

  /** on_command: a NULL event is ignored; otherwise the ack for CommonReply's status and message
      is sent by command_status. */
  method OnCommand(sink: PacketSink, data: bool, command: Option<string>,
                   ackFor: (bool, string) -> Option<string>)
    modifies sink
    ensures !data ==> sink.sent == old(sink.sent)
    ensures data ==> var r := CommonReply(command);
                     sink.sent == old(sink.sent) + Packets(ackFor(r.status, r.message))
  {
    if !data {
      return;
    }
    if command.Some? {
      CommandStatus(sink, ackFor(true, "OK"));
    } else {
      CommandStatus(sink, ackFor(false, "Internal error"));
    }
  }
}
