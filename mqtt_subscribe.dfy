/** The MQTT side of the command path (Common/app/mqtt_subscribe_task.c): the incoming-publish
    callback that terminates the payload in a static buffer, on_command and command_status, the
    acknowledgement queue filled by mqttcore_send_message and drained by vMQTTSubscribeTask, and the
    topic strings the task formats before it subscribes. */
module MqttSubscribe {
  import opened Wrappers
  import CString
  import opened App

  /** confgPAYLOAD_BUFFER_LENGTH. */
  const PAYLOAD_BUFFER_LENGTH: nat := 256

  /** MQTT_SUBSCRIBE_TOPIC_STR_LEN and MQTT_ACK_PUBLISH_TOPIC_STR_LEN. */
  const TOPIC_STR_LEN: nat := 256

  /** ACK_MSG_Q_SIZE. */
  const ACK_MSG_Q_SIZE: nat := 5

  /** pdTRUE, and errQUEUE_FULL, what xQueueSendToBack returns when the queue stays full. */
  const PD_TRUE: int := 1
  const ERR_QUEUE_FULL: int := 0

  function Min(a: int, b: int): int { if a < b then a else b }

  /** prvIncomingPublishCallback: the payload (its length is payloadLength) is copied into the
      static buffer and terminated, after its last byte when it fits and at the last cell
      otherwise. The result is the string handed to iotcl_process_event. */
  method IncomingPublish(buf: array<char>, payload: seq<char>) returns (event: string)
    requires buf.Length == PAYLOAD_BUFFER_LENGTH
    modifies buf
    ensures var k := Min(|payload|, PAYLOAD_BUFFER_LENGTH - 1);
            buf[..k] == payload[..k] && buf[k] == CString.NUL
    ensures event == CString.Str(buf[..])
    ensures event <= payload && |event| < PAYLOAD_BUFFER_LENGTH
    ensures CString.NUL !in payload ==> event == payload[..Min(|payload|, PAYLOAD_BUFFER_LENGTH - 1)]
  {
    var k: nat;
    if |payload| < PAYLOAD_BUFFER_LENGTH {
      forall i | 0 <= i < |payload| {
        buf[i] := payload[i];
      }
      buf[|payload|] := CString.NUL;
      k := |payload|;
    } else {
      forall i | 0 <= i < PAYLOAD_BUFFER_LENGTH {
        buf[i] := payload[i];
      }
      buf[PAYLOAD_BUFFER_LENGTH - 1] := CString.NUL;
      k := PAYLOAD_BUFFER_LENGTH - 1;
    }
    assert buf[..k] == payload[..k];
    event := CString.Str(buf[..]);
    CString.StrCut(buf[..], k);
    StrOfPrefix(payload, k);
  }

  /** The C string of a prefix of `payload` is a prefix of `payload`, and is the whole prefix when
      the payload holds no NUL. */
  lemma StrOfPrefix(payload: seq<char>, k: nat)
    requires k <= |payload|
    ensures CString.Str(payload[..k]) <= payload
    ensures CString.NUL !in payload ==> CString.Str(payload[..k]) == payload[..k]
  {
    var s := CString.Str(payload[..k]);
    assert s == payload[..k][..|s|];
    assert payload[..k][..|s|] == payload[..|s|];
  }

  /** on_command of this file, which acknowledges the wrong way round: a command is refused as not
      implemented, and a NULL command (whose name is logged as NULL) is reported as done. */
  function MqttReply(command: Option<string>): (r: Reply)
    ensures r.status <==> command.None?
    ensures r.name == command && r.action == Keep
    ensures r.message == if command.Some? then "Not implemented" else "command did something"
  {
    if command.Some? then Reply(Keep, false, command, "Not implemented")
    else Reply(Keep, true, None, "command did something")
  }

  /** What command_status does with the ack string iotcl_create_ack_string_and_destroy_event
      returned: queue a copy of it, or (as written) run into undefined behaviour. */
  datatype Effect = NoSend | Queue(msg: string) | Undefined

  /** command_status as written: the ack goes to iotconnect_sdk_send_packet unchecked, whose
      strlen on a NULL ack is undefined. */
  function CommandStatusAsWritten(ack: Option<string>): (e: Effect)
    ensures e == Undefined <==> ack.None?
    ensures ack.Some? ==> e == Queue(CString.Str(ack.value))
  {
    if ack.None? then Undefined else Queue(CString.Str(ack.value))
  }

  /** command_status with the check the two iotconnect_app.c variants make: a NULL ack means no
      ack is required and nothing is sent. */
  function CommandStatusSpec(ack: Option<string>): (e: Effect)
    ensures e != Undefined
    ensures e == NoSend <==> ack.None?
    ensures ack.Some? ==> e == Queue(CString.Str(ack.value))
  {
    if ack.None? then NoSend else Queue(CString.Str(ack.value))
  }

  /** The two agree on every ack but NULL, which the library returns when no ack is required. */
  lemma NullAck(ack: Option<string>)
    ensures ack.Some? ==> CommandStatusAsWritten(ack) == CommandStatusSpec(ack)
    ensures CommandStatusAsWritten(None) == Undefined && CommandStatusSpec(None) == NoSend
  {
  }

  /** The acknowledgement queue mqtt_ack_queue and the blocks the firmware allocated for it. */
  class AckQueue {
    /** pcAckPubTopicString. */
    const ackTopic: string
    /** The queued messages, oldest first. */
    var items: seq<array<char>>
    /** Every message buffer allocated by mqttcore_send_message and not yet freed. */
    var heap: set<array<char>>
    /** The payloads published on the ack topic, in order. */
    var published: seq<string>

    /** The queue holds at most ACK_MSG_Q_SIZE messages, each a distinct live buffer. */
    predicate Valid()
      reads this
    {
      && |items| <= ACK_MSG_Q_SIZE
      && (forall i :: 0 <= i < |items| ==> items[i] in heap)
      && (forall i, j :: 0 <= i < j < |items| ==> items[i] != items[j])
    }

    constructor (ackTopic: string)
      ensures Valid()
      ensures this.ackTopic == ackTopic && items == [] && heap == {} && published == []
    {
      this.ackTopic := ackTopic;
      items := [];
      heap := {};
      published := [];
    }

    /** mqttcore_send_message: a fresh copy of the C string `buf` and its NUL is queued. When malloc
        fails (`allocOk` false) the result is -1 and nothing is queued; when the queue is full the
        copy is freed again and the queue's status is returned. */
    method SendMessage(buf: string, allocOk: bool) returns (status: int)
      requires Valid()
      modifies this
      ensures Valid()
      ensures published == old(published)
      ensures !allocOk ==> status == -1 && items == old(items) && heap == old(heap)
      ensures allocOk && |old(items)| < ACK_MSG_Q_SIZE ==>
                && status == PD_TRUE
                && |items| == |old(items)| + 1 && items[..|old(items)|] == old(items)
                && fresh(items[|old(items)|])
                && items[|old(items)|][..] == CString.Str(buf) + [CString.NUL]
                && heap == old(heap) + {items[|old(items)|]}
      ensures allocOk && |old(items)| >= ACK_MSG_Q_SIZE ==>
                status == ERR_QUEUE_FULL && items == old(items) && heap == old(heap)
    {
      var s := CString.Str(buf);
      if !allocOk {
        return -1;
      }
      var msg := new char[|s| + 1];
      forall i | 0 <= i < |s| {
        msg[i] := s[i];
      }
      msg[|s|] := CString.NUL;
      assert msg[..] == s + [CString.NUL];
      heap := heap + {msg};
      if |items| < ACK_MSG_Q_SIZE {
        items := items + [msg];
        status := PD_TRUE;
      } else {
        heap := heap - {msg};
        status := ERR_QUEUE_FULL;
      }
    }

    /** One pass of the consumer loop of vMQTTSubscribeTask: the oldest message is taken off the
        queue (xQueueReceive waits until there is one), published on the ack topic with its
        strlen as length, and freed. Whether the publish succeeded is only logged. */
    method ConsumeOne() returns (msgLen: nat)
      requires Valid() && |items| > 0
      modifies this
      ensures Valid()
      ensures items == old(items)[1..] && heap == old(heap) - {old(items)[0]}
      ensures published == old(published) + [CString.Str(old(items)[0][..])]
      ensures msgLen == |CString.Str(old(items)[0][..])|
    {
      var msg := items[0];
      forall i | 1 <= i < |items|
        ensures items[i] != msg
      {
        assert items[0] != items[i];
      }
      items := items[1..];
      var s := CString.Str(msg[..]);
      msgLen := |s|;
      assert s == msg[..][..msgLen] == msg[..msgLen];
      published := published + [msg[..msgLen]];
      heap := heap - {msg};
    }
  }

  /** command_status, with the NULL check: the ack is handed to iotconnect_sdk_send_packet,
      i.e. mqttcore_send_message, whose failure is only logged. */
  method CommandStatus(q: AckQueue, ack: Option<string>, allocOk: bool)
    requires q.Valid()
    modifies q
    ensures q.Valid() && q.published == old(q.published)
    ensures var sent := CommandStatusSpec(ack).Queue? && allocOk && |old(q.items)| < ACK_MSG_Q_SIZE;
            && (sent ==> |q.items| == |old(q.items)| + 1 && q.items[..|old(q.items)|] == old(q.items)
                         && q.items[|old(q.items)|][..] == CommandStatusSpec(ack).msg + [CString.NUL])
            && (!sent ==> q.items == old(q.items) && q.heap == old(q.heap))
  {
    if ack.None? {
      return;
    }
    var status := q.SendMessage(ack.value, allocOk);
  }

  /** The hand-off: a message queued on an empty queue comes out of the consumer as the same
      string. */
  method HandOff(q: AckQueue, buf: string)
    requires q.Valid() && q.items == []
    modifies q
    ensures q.published == old(q.published) + [CString.Str(buf)]
    ensures q.items == [] && q.heap == old(q.heap)
  {
    var status := q.SendMessage(buf, true);
    StrOfCopy(CString.Str(buf));
    var n := q.ConsumeOne();
  }

  /** A NUL-free string copied with its terminator reads back as itself. */
  lemma StrOfCopy(s: string)
    requires CString.NUL !in s
    ensures CString.Str(s + [CString.NUL]) == s
  {
    CString.StrCut(s + [CString.NUL], |s|);
    assert (s + [CString.NUL])[..|s|] == s;
  }

  /** What snprintf leaves in a buffer of `cap` cells for the text `s`, and the length it returns,
      which is that of the whole text even when the buffer cut it short. */
  datatype Formatted = Formatted(len: int, text: string)

  function Snprintf(cap: nat, s: string): (r: Formatted)
    requires cap > 0
    ensures r.len == |s| && |r.text| < cap && r.text <= s
    ensures r.text == s <==> |s| < cap
  {
    Formatted(|s|, s[..Min(|s|, cap - 1)])
  }

  /** SUBSCRIBE_TOPIC_FORMAT "iot/%s/cmd" with the device id. */
  function SubTopic(id: string): (t: string)
    ensures CString.NUL !in t
    ensures |t| == |CString.Str(id)| + 8 && t[..4] == "iot/" && t[4..|t| - 4] == CString.Str(id)
  {
    "iot/" + CString.Str(id) + "/cmd"
  }

  /** ACK_PUBLISH_TOPIC_FORMAT "$aws/rules/msg_d2c_ack/%s/%s/2.1/6" with the device id and the
      telemetry cd. */
  function AckTopic(id: string, cd: string): (t: string)
    ensures CString.NUL !in t
    ensures |t| == |CString.Str(id)| + |CString.Str(cd)| + 30
  {
    "$aws/rules/msg_d2c_ack/" + CString.Str(id) + "/" + CString.Str(cd) + "/2.1/6"
  }

  /** The task stops (vTaskDelete) or goes on to subscribe with these two topic buffers. */
  datatype Setup = Stopped | Ready(subTopic: string, ackTopic: string)

  /** The length check on a formatted topic: as written it lets a length of exactly
      TOPIC_STR_LEN through (`strict` false), although snprintf has then cut the last character. */
  predicate Rejected(strict: bool, len: int)
    ensures !Rejected(strict, len) ==> 0 < len <= TOPIC_STR_LEN
    ensures strict ==> (!Rejected(strict, len) <==> 0 < len < TOPIC_STR_LEN)
  {
    len <= 0 || len > TOPIC_STR_LEN || (strict && len == TOPIC_STR_LEN)
  }

  /** The set-up steps of vMQTTSubscribeTask: create the queue, format the subscribe topic from
      the device id, format the ack topic from the device id and telemetry cd, each checked as
      above (None: a NULL setting). */
  function TaskSetup(strict: bool, queueOk: bool, id: Option<string>, cd: Option<string>): (r: Setup)
    ensures r.Ready? ==> queueOk && id.Some? && cd.Some?
    ensures r.Ready? ==> && r.subTopic <= SubTopic(id.value) && |r.subTopic| < TOPIC_STR_LEN
                         && r.ackTopic <= AckTopic(id.value, cd.value) && |r.ackTopic| < TOPIC_STR_LEN
    ensures strict && r.Ready? ==> r == Ready(SubTopic(id.value), AckTopic(id.value, cd.value))
  {
    if !queueOk || id.None? then Stopped
    else
      var sub := Snprintf(TOPIC_STR_LEN, SubTopic(id.value));
      if Rejected(strict, sub.len) || cd.None? then Stopped
      else
        var ack := Snprintf(TOPIC_STR_LEN, AckTopic(id.value, cd.value));
        if Rejected(strict, ack.len) then Stopped
        else Ready(sub.text, ack.text)
  }

  /** The set-up as written. */
  function SetupAsWritten(queueOk: bool, id: Option<string>, cd: Option<string>): (r: Setup)
    ensures r.Ready? ==> && queueOk && id.Some? && cd.Some?
                         && r.ackTopic <= AckTopic(id.value, cd.value)
                         && |AckTopic(id.value, cd.value)| <= |r.ackTopic| + 1
  {
    TaskSetup(false, queueOk, id, cd)
  }

  /** The set-up with the check snprintf calls for (a length of TOPIC_STR_LEN or more was cut). */
  function SetupSpec(queueOk: bool, id: Option<string>, cd: Option<string>): (r: Setup)
    ensures r.Ready? ==> queueOk && id.Some? && cd.Some? &&
                         r == Ready(SubTopic(id.value), AckTopic(id.value, cd.value))
  {
    TaskSetup(true, queueOk, id, cd)
  }

  /** The set-up goes on exactly when the queue exists, both settings are there and the ack topic,
      the longer of the two, fits its buffer; and then each buffer holds its whole topic. */
  lemma SetupReady(queueOk: bool, id: Option<string>, cd: Option<string>)
    ensures SetupSpec(queueOk, id, cd).Ready? <==>
              queueOk && id.Some? && cd.Some? && |AckTopic(id.value, cd.value)| < TOPIC_STR_LEN
    ensures SetupSpec(queueOk, id, cd).Ready? ==>
              SetupSpec(queueOk, id, cd) == Ready(SubTopic(id.value), AckTopic(id.value, cd.value))
  {
    if queueOk && id.Some? && cd.Some? {
      assert |SubTopic(id.value)| < |AckTopic(id.value, cd.value)|;
    }
  }

  /** The set-up as written goes on exactly when the queue exists, both settings are there and the
      ack topic fits TOPIC_STR_LEN characters, one more than its buffer holds with the NUL; the
      subscribe topic, shorter, is then whole, and the ack topic is whole exactly when it is
      shorter than TOPIC_STR_LEN, and otherwise lost its last character. */
  lemma SetupAsWrittenReady(queueOk: bool, id: Option<string>, cd: Option<string>)
    ensures SetupAsWritten(queueOk, id, cd).Ready? <==>
              queueOk && id.Some? && cd.Some? && |AckTopic(id.value, cd.value)| <= TOPIC_STR_LEN
    ensures SetupAsWritten(queueOk, id, cd).Ready? ==>
              var ack := AckTopic(id.value, cd.value);
              SetupAsWritten(queueOk, id, cd) == Ready(SubTopic(id.value), ack[..Min(|ack|, TOPIC_STR_LEN - 1)])
    ensures SetupAsWritten(queueOk, id, cd).Ready? ==>
              (SetupAsWritten(queueOk, id, cd).ackTopic == AckTopic(id.value, cd.value) <==>
                 |AckTopic(id.value, cd.value)| < TOPIC_STR_LEN)
  {
    if queueOk && id.Some? && cd.Some? {
      assert |SubTopic(id.value)| < |AckTopic(id.value, cd.value)|;
    }
  }

  /** The task's set-up and the queue it drains: when the set-up as written goes on, the consumer
      publishes on the ack topic it formatted, starting from an empty queue. */
  method StartTask(queueOk: bool, id: Option<string>, cd: Option<string>) returns (q: Option<AckQueue>)
    ensures q.Some? <==> SetupAsWritten(queueOk, id, cd).Ready?
    ensures q.Some? ==> && fresh(q.value) && q.value.Valid()
                        && q.value.ackTopic == SetupAsWritten(queueOk, id, cd).ackTopic
                        && q.value.items == [] && q.value.heap == {} && q.value.published == []
  {
    var setup := SetupAsWritten(queueOk, id, cd);
    if setup.Stopped? {
      return None;
    }
    var queue := new AckQueue(setup.ackTopic);
    return Some(queue);
  }

  /** The off-by-one: a device id of 220 characters and a telemetry cd of 6 make an ack topic of
      exactly 256 characters. The check as written accepts it with its last character cut, so acks
      would go to a topic ending in "/2.1/"; the strict check stops instead. */
  lemma AckTopicCut()
    ensures var id := seq(220, _ => 'a');
            var cd := "abcdef";
            && |AckTopic(id, cd)| == TOPIC_STR_LEN
            && SetupAsWritten(true, Some(id), Some(cd)) ==
                 Ready(SubTopic(id), AckTopic(id, cd)[..TOPIC_STR_LEN - 1])
            && AckTopic(id, cd)[..TOPIC_STR_LEN - 1] != AckTopic(id, cd)
            && SetupSpec(true, Some(id), Some(cd)) == Stopped
  {
    var id := seq(220, _ => 'a');
    var cd := "abcdef";
    assert CString.Str(id) == id;
    assert CString.Str(cd) == cd by {
      assert CString.NUL !in cd;
    }
  }
}
