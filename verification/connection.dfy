/** The connection flag and the server callbacks: a connect sets the flag and
    starts the joystick task, a disconnect clears it, stops the task and
    restarts advertising. The flag is what the C interface reports. */
module Connection {
  import opened HidTypes
  import ReportSender

  datatype LinkEvent = Connected | Disconnected

  /** The flag's value after a history of link events: 1 right after a
      connect, 0 at start-up and right after a disconnect. */
  function FlagAfter(events: seq<LinkEvent>): (flag: byte)
    ensures flag == 0 || flag == 1
    ensures flag == 1 <==> events != [] && events[|events| - 1] == Connected
  {
    if events == [] then 0
    else if events[|events| - 1] == Connected then 1
    else 0
  }

  /** How many disconnects a history holds: each one restarts advertising. */
  function Disconnects(events: seq<LinkEvent>): (n: nat)
    ensures n <= |events|
  {
    if events == [] then 0
    else Disconnects(events[..|events| - 1]) + (if events[|events| - 1] == Disconnected then 1 else 0)
  }

  /** The server callbacks together with the global `isConnected` flag they
      write. `advertisingRestarts` counts the advertising restarts made from a
      disconnect; `events` is the history of link events seen. */
  class ServerCallbacks {
    var isConnected: byte
    var advertisingRestarts: nat
    const joystick: ReportSender.JoystickTask
    ghost var events: seq<LinkEvent>

    /** The flag follows the last link event, the sender runs exactly while
        connected, and advertising was restarted once per disconnect. */
    ghost predicate Valid()
      reads this, joystick
    {
      && isConnected == FlagAfter(events)
      && (joystick.running <==> isConnected == 1)
      && advertisingRestarts == Disconnects(events)
    }

    /** The flag starts at 0, with the sender not yet started. */
    constructor(task: ReportSender.JoystickTask)
      requires !task.running
      ensures joystick == task && events == [] && isConnected == 0
      ensures advertisingRestarts == 0
      ensures Valid()
    {
      joystick := task;
      isConnected := 0;
      advertisingRestarts := 0;
      events := [];
    }

    method OnConnect()
      requires Valid()
      modifies this, joystick
      ensures Valid()
      ensures events == old(events) + [Connected]
      ensures isConnected == 1 && joystick.running
      ensures joystick.calls == old(joystick.calls)
      ensures advertisingRestarts == old(advertisingRestarts)
    {
      isConnected := 1;
      joystick.Start();
      events := events + [Connected];
    }

    method OnDisconnect()
      requires Valid()
      modifies this, joystick
      ensures Valid()
      ensures events == old(events) + [Disconnected]
      ensures isConnected == 0 && !joystick.running
      ensures joystick.calls == old(joystick.calls)
      ensures advertisingRestarts == old(advertisingRestarts) + 1
    {
      isConnected := 0;
      joystick.Stop();
      advertisingRestarts := advertisingRestarts + 1;
      events := events + [Disconnected];
    }

    /** HID_joystick_isConnected: 1 when the last link event was a connect,
        0 otherwise (and before any event). */
    method IsConnected() returns (r: byte)
      requires Valid()
      ensures r == 0 || r == 1
      ensures r == 1 <==> events != [] && events[|events| - 1] == Connected
      ensures r == 1 <==> joystick.running
    {
      r := isConnected;
    }
  }
}
