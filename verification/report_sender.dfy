/** The joystick task: it takes commands off the joystick queue one at a time
    and, for each one, sets the input-report characteristic to the encoded
    report and notifies the host. A receive that times out sends nothing and
    the task waits again. The characteristic is seen through the calls made on
    it, in order. */
module ReportSender {
  import opened HidTypes
  import opened ReportEncoder

  /** One call on the input-report characteristic. */
  datatype ChannelCall = SetValue(value: seq<byte>, length: nat) | Notify

  /** The commands a sequence of receive outcomes delivers: a timeout (None)
      delivers nothing. */
  function Delivered(received: seq<Option<JoystickCommand>>): (cmds: seq<JoystickCommand>)
    ensures |cmds| <= |received|
  {
    if received == [] then []
    else (if received[0].Some? then [received[0].value] else []) + Delivered(received[1..])
  }

  /** The calls one receive outcome causes. */
  function CallsForOne(outcome: Option<JoystickCommand>): seq<ChannelCall>
  {
    match outcome
    case None => []
    case Some(cmd) => [SetValue(EncodeReport(cmd), ReportLength), Notify]
  }

  /** The calls the task makes for a sequence of receive outcomes. */
  function CallsFor(received: seq<Option<JoystickCommand>>): seq<ChannelCall>
  {
    if received == [] then [] else CallsForOne(received[0]) + CallsFor(received[1..])
  }

  lemma {:induction false} CallsForAppend(received: seq<Option<JoystickCommand>>, outcome: Option<JoystickCommand>)
    ensures CallsFor(received + [outcome]) == CallsFor(received) + CallsForOne(outcome)
  {
    if received == [] {
      assert [outcome][1..] == [];
    } else {
      assert (received + [outcome])[1..] == received[1..] + [outcome];
      CallsForAppend(received[1..], outcome);
    }
  }

  /** The payloads the host receives from a call sequence: every notify sends
      the value set last (`current` before any set). */
  function Notified(calls: seq<ChannelCall>, current: seq<byte>): seq<seq<byte>>
  {
    if calls == [] then []
    else match calls[0]
      case SetValue(v, n) => Notified(calls[1..], v[..if n <= |v| then n else |v|])
      case Notify => [current] + Notified(calls[1..], current)
  }

  /** Two calls per delivered command, and no call for a timeout. */
  lemma {:induction false} CallsForLength(received: seq<Option<JoystickCommand>>)
    ensures |CallsFor(received)| == 2 * |Delivered(received)|
  {
    if received != [] {
      CallsForLength(received[1..]);
    }
  }

  /** The k-th delivered command causes exactly one SetValue of its 9-byte
      report followed by exactly one Notify, at calls 2k and 2k + 1: the calls
      come in receive order and nothing else is called in between. */
  lemma {:induction false} CallsForShape(received: seq<Option<JoystickCommand>>, k: nat)
    requires k < |Delivered(received)|
    ensures 2 * k + 1 < |CallsFor(received)|
    ensures CallsFor(received)[2 * k] == SetValue(EncodeReport(Delivered(received)[k]), ReportLength)
    ensures CallsFor(received)[2 * k + 1] == Notify
  {
    CallsForLength(received);
    var rest, restCmds := CallsFor(received[1..]), Delivered(received[1..]);
    if received[0].Some? {
      assert CallsFor(received) == CallsForOne(received[0]) + rest;
      assert Delivered(received) == [received[0].value] + restCmds;
      if k > 0 {
        CallsForShape(received[1..], k - 1);
      }
    } else {
      assert CallsFor(received) == rest;
      assert Delivered(received) == restCmds;
      CallsForShape(received[1..], k);
    }
  }

  /** The host is notified once per delivered command, with that command's
      report, in receive order; a timeout adds no notification. */
  lemma {:induction false} NotifiedReports(received: seq<Option<JoystickCommand>>, current: seq<byte>)
    ensures |Notified(CallsFor(received), current)| == |Delivered(received)|
    ensures forall k | 0 <= k < |Delivered(received)| ::
      Notified(CallsFor(received), current)[k] == EncodeReport(Delivered(received)[k])
  {
    if received != [] {
      var rest := CallsFor(received[1..]);
      if received[0].Some? {
        var a := EncodeReport(received[0].value);
        NotifiedReports(received[1..], a);
        var calls := CallsFor(received);
        assert calls == [SetValue(a, ReportLength), Notify] + rest;
        assert calls[1..] == [Notify] + rest;
        assert a[..ReportLength] == a;
        assert Notified(calls, current) == Notified(calls[1..], a);
        assert (calls[1..])[1..] == rest;
        assert Notified(calls, current) == [a] + Notified(rest, a);
      } else {
        NotifiedReports(received[1..], current);
        assert CallsFor(received) == rest;
      }
    }
  }

  /** First in, first out: the notified payloads, read through the inverse of
      the encoder, are exactly the received commands, in order. */
  lemma NotifiedReportsDecodeInOrder(received: seq<Option<JoystickCommand>>, current: seq<byte>)
    ensures |Notified(CallsFor(received), current)| == |Delivered(received)|
    ensures forall k | 0 <= k < |Delivered(received)| ::
      DecodeReport(Notified(CallsFor(received), current)[k]) == Some(Delivered(received)[k])
  {
    NotifiedReports(received, current);
    forall k | 0 <= k < |Delivered(received)|
      ensures DecodeReport(Notified(CallsFor(received), current)[k]) == Some(Delivered(received)[k])
    {
      DecodeEncode(Delivered(received)[k]);
    }
  }

  /** The sender task object. `running` says whether the task has been started
      (and not stopped since); `calls` records the calls it has made on the
      input-report characteristic. */
  class JoystickTask {
    var running: bool
    var calls: seq<ChannelCall>

    constructor()
      ensures !running && calls == []
    {
      running := false;
      calls := [];
    }

    method Start()
      modifies this
      ensures running && calls == old(calls)
    {
      running := true;
    }

    method Stop()
      modifies this
      ensures !running && calls == old(calls)
    {
      running := false;
    }

    /** The body of the task for a finite run of receive outcomes: every
        received command is encoded, set and notified; a timeout is skipped. */
    method Run(received: seq<Option<JoystickCommand>>)
      requires running
      modifies this
      ensures running
      ensures calls == old(calls) + CallsFor(received)
    {
      var i := 0;
      while i < |received|
        invariant 0 <= i <= |received|
        invariant running
        invariant calls == old(calls) + CallsFor(received[..i])
      {
        CallsForAppend(received[..i], received[i]);
        assert received[..i + 1] == received[..i] + [received[i]];
        match received[i] {
          case None =>
          case Some(cmd) =>
            var a := EncodeReport(cmd);
            calls := calls + [SetValue(a, |a|)];
            calls := calls + [Notify];
        }
        i := i + 1;
      }
      assert received[..i] == received;
    }
  }
}
