/** iotc_process_cmd_str, set_led_red and set_led_green (Common/app/commands.c). The command names
    IOTC_CMD_PING, IOTC_CMD_LED_RED and IOTC_CMD_LED_GREEN come from iotconnect_app.h, which is not
    part of this model, so they are a parameter. */
module Commands {
  import CString
  import opened App

  /** IOTC_CMD_PING, IOTC_CMD_LED_RED and IOTC_CMD_LED_GREEN. */
  datatype Names = Names(ping: string, ledRed: string, ledGreen: string)

  /** The branch iotc_process_cmd_str takes: ping; switch an LED; an LED command with neither "on"
      nor "off"; or an unrecognised command. */
  datatype Decision = Ping | Set(led: Led, on: bool) | Invalid(led: Led) | Unrecognized

  /** `strcasestr(command, pat) != NULL`. */
  predicate Has(command: string, pat: string)
  {
    CString.ContainsIgnoreCase(command, pat)
  }

  /** The LED branch: "on" first, then "off". */
  function LedDecision(led: Led, command: string): (d: Decision)
    ensures (d.Set? || d.Invalid?) && d.led == led
    ensures d.Set? <==> Has(command, "on") || Has(command, "off")
    ensures d.Set? ==> (d.on <==> Has(command, "on"))
  {
    if Has(command, "on") then Set(led, true)
    else if Has(command, "off") then Set(led, false)
    else Invalid(led)
  }

  /** The branches of iotc_process_cmd_str, tested in the order ping, red, green. */
  function Classify(names: Names, command: string): (d: Decision)
    ensures d.Ping? <==> Has(command, names.ping)
    ensures d.Unrecognized? <==>
              !Has(command, names.ping) && !Has(command, names.ledRed) && !Has(command, names.ledGreen)
    ensures d.Set? || d.Invalid? ==> (d.led == Red <==> Has(command, names.ledRed))
    ensures d.Set? ==> (d.on <==> Has(command, "on"))
  {
    if Has(command, names.ping) then Ping
    else if Has(command, names.ledRed) then LedDecision(Red, command)
    else if Has(command, names.ledGreen) then LedDecision(Green, command)
    else Unrecognized
  }

  /** The LED change a decision makes: only a Set branch touches an LED. */
  function ActionOf(d: Decision): (a: LedAction)
    ensures a.Switch? <==> d.Set?
    ensures d.Set? ==> a == Switch(d.led, d.on)
  {
    if d.Set? then Switch(d.led, d.on) else Keep
  }

  /** The `status` the function computes: -1 for an LED command without "on" or "off" and for an
      unrecognised command. */
  function StatusOf(d: Decision): (s: int)
    ensures s == 0 <==> d.Ping? || d.Set?
    ensures s == 0 || s == -1
  {
    if d.Invalid? || d.Unrecognized? then -1 else 0
  }

  /** set_led_red: only the red LED changes, and it is lit exactly when `on`. */
  method SetLedRed(leds: Leds, on: bool)
    modifies leds
    ensures leds.red == on && leds.green == old(leds.green)
  {
    if on {
      leds.On(Red);
    } else {
      leds.Off(Red);
    }
  }

  /** set_led_green: only the green LED changes, and it is lit exactly when `on`. */
  method SetLedGreen(leds: Leds, on: bool)
    modifies leds
    ensures leds.green == on && leds.red == old(leds.red)
  {
    if on {
      leds.On(Green);
    } else {
      leds.Off(Green);
    }
  }

  /** iotc_process_cmd_str. The LEDs end as Classify says, and the result is 0 whatever `status`
      the branches computed. */
  method ProcessCmdStr(leds: Leds, names: Names, command: string) returns (rc: int)
    modifies leds
    ensures rc == 0
    ensures leds.State() == Apply(ActionOf(Classify(names, command)), old(leds.State()))
  {
    var status := 0;
    if Has(command, names.ping) {
    } else if Has(command, names.ledRed) {
      if Has(command, "on") {
        SetLedRed(leds, true);
      } else if Has(command, "off") {
        SetLedRed(leds, false);
      } else {
        status := -1;
      }
    } else if Has(command, names.ledGreen) {
      if Has(command, "on") {
        SetLedGreen(leds, true);
      } else if Has(command, "off") {
        SetLedGreen(leds, false);
      } else {
        status := -1;
      }
    } else {
      status := -1;
    }
    assert status == StatusOf(Classify(names, command));
    return 0;
  }

  /** Only the first matching branch acts: a command naming ping is a ping whatever else it says,
      and the red command wins over the green one. */
  lemma FirstMatchWins(names: Names, command: string)
    ensures Has(command, names.ping) ==> Classify(names, command) == Ping
    ensures !Has(command, names.ping) && Has(command, names.ledRed) ==>
              Classify(names, command) in {Set(Red, true), Set(Red, false), Invalid(Red)}
    ensures !Has(command, names.ping) && !Has(command, names.ledRed) && Has(command, names.ledGreen) ==>
              Classify(names, command) in {Set(Green, true), Set(Green, false), Invalid(Green)}
    ensures Classify(names, command) == Unrecognized <==>
              !Has(command, names.ping) && !Has(command, names.ledRed) && !Has(command, names.ledGreen)
  {
  }

  /** An LED command: "on" lights the LED even when "off" is there too; "off" alone turns it off;
      with neither, no LED changes and the status is -1. */
  lemma LedRule(names: Names, command: string, led: Led)
    requires !Has(command, names.ping)
    requires if led == Red then Has(command, names.ledRed)
             else !Has(command, names.ledRed) && Has(command, names.ledGreen)
    ensures Has(command, "on") ==> ActionOf(Classify(names, command)) == Switch(led, true)
    ensures !Has(command, "on") && Has(command, "off") ==> ActionOf(Classify(names, command)) == Switch(led, false)
    ensures !Has(command, "on") && !Has(command, "off") ==>
              ActionOf(Classify(names, command)) == Keep && StatusOf(Classify(names, command)) == -1
  {
  }

  /** A ping, an LED command without "on" or "off" and an unrecognised command leave both LEDs as
      they were; any other command changes at most the LED it names. */
  lemma OnlyNamedLedChanges(names: Names, command: string, s: LedState)
    ensures var d := Classify(names, command);
            !d.Set? ==> Apply(ActionOf(d), s) == s
    ensures var d := Classify(names, command);
            d.Set? && d.led == Red ==> Apply(ActionOf(d), s).green == s.green
    ensures var d := Classify(names, command);
            d.Set? && d.led == Green ==> Apply(ActionOf(d), s).red == s.red
  {
  }

  /** Matching ignores case: commands that agree once lower-cased are handled alike, and so are
      names that agree once lower-cased. */
  lemma CaseInsensitive(names: Names, names': Names, command: string, command': string)
    requires CString.Lower(command) == CString.Lower(command')
    requires CString.Lower(names.ping) == CString.Lower(names'.ping)
    requires CString.Lower(names.ledRed) == CString.Lower(names'.ledRed)
    requires CString.Lower(names.ledGreen) == CString.Lower(names'.ledGreen)
    ensures Classify(names, command) == Classify(names', command')
  {
  }

  /** Upper-case letters make no difference: lower-casing a command does not change how it is
      handled. */
  lemma LowerCaseAlike(names: Names, command: string)
    ensures Classify(names, CString.Lower(command)) == Classify(names, command)
  {
    LowerIdempotent(command);
    CaseInsensitive(names, names, CString.Lower(command), command);
  }

  lemma LowerIdempotent(s: string)
    ensures CString.Lower(CString.Lower(s)) == CString.Lower(s)
  {
    var l := CString.Lower(s);
    forall i | 0 <= i < |s|
      ensures CString.Lower(l)[i] == l[i]
    {
      assert CString.ToLower(CString.ToLower(s[i])) == CString.ToLower(s[i]);
    }
  }
}
