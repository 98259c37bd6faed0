/** The C interface of the joystick bridge and the start-up task: the device
    name copied into the 40-byte global buffer, the joystick queue, and the
    HID-over-GATT set-up that builds the report map, creates the input report,
    starts the services and starts advertising. */
module HidJoystick {
  import opened HidTypes
  import ReportDescriptor
  import ReportSender
  import Connection

  /** esp_err_t success value. */
  const EspOk: int := 0
  /** Capacity of the joystick queue, in commands. */
  const QueueLength: nat := 32
  /** sizeof(btname) */
  const NameBufferSize: nat := 40
  /** Characters strncpy may copy: sizeof(btname) - 1. */
  const NameCopyLimit: nat := 39
  const Nul: char := '\0'

  /** The first n elements of s, or all of s when it is shorter. */
  function Take<T>(s: seq<T>, n: nat): (r: seq<T>)
    ensures |r| == if n <= |s| then n else |s|
    ensures r == s[..|r|]
  {
    if n <= |s| then s[..n] else s
  }

  /** The C string held in s: the characters before the first NUL, or all of
      s when it holds none. */
  function CStr(s: seq<char>): (r: seq<char>)
    ensures |r| <= |s| && r == s[..|r|]
    ensures Nul !in r
    ensures |r| < |s| ==> s[|r|] == Nul
  {
    if s == [] || s[0] == Nul then [] else [s[0]] + CStr(s[1..])
  }

  /** strncpy(dst, src, n) reads src only up to its first NUL or its n-th
      character, whichever comes first: src must hold one of the two. */
  predicate Readable(src: seq<char>, n: nat)
  {
    Nul in Take(src, n) || |src| >= n
  }

  /** The n characters strncpy writes: the string in the first n characters of
      src, then NULs up to n. */
  function Strncpy(src: seq<char>, n: nat): (r: seq<char>)
    requires Readable(src, n)
    ensures |r| == n
  {
    var p := CStr(Take(src, n));
    p + seq(n - |p|, _ => Nul)
  }

  /** Where strncpy stops copying short of n, src holds a NUL. */
  lemma ReadableStop(src: seq<char>, n: nat)
    requires Readable(src, n)
    ensures |CStr(Take(src, n))| < n ==>
      |CStr(Take(src, n))| < |src| && src[|CStr(Take(src, n))|] == Nul
  {
    var t := Take(src, n);
    var p := CStr(t);
    if |p| == |t| {
      assert p == t;
    }
  }

  /** The string in the first n characters is the string cut at n. */
  lemma {:induction false} CStrTake(s: seq<char>, n: nat)
    ensures CStr(Take(s, n)) == Take(CStr(s), n)
  {
    if s != [] && s[0] != Nul && n > 0 {
      CStrTake(s[1..], n - 1);
      assert Take(s, n)[1..] == Take(s[1..], n - 1);
    }
  }

  /** A NUL-free prefix followed by a NUL is the string of the whole. */
  lemma {:induction false} CStrOfTerminated(p: seq<char>, rest: seq<char>)
    requires Nul !in p
    requires rest != [] && rest[0] == Nul
    ensures CStr(p + rest) == p
  {
    if p == [] {
      assert p + rest == rest;
    } else {
      assert (p + rest)[1..] == p[1..] + rest;
      CStrOfTerminated(p[1..], rest);
    }
  }

  /** Copying at most n characters into a buffer whose last byte stays NUL
      leaves the buffer holding the name cut to n characters. */
  lemma CopiedName(src: seq<char>, n: nat)
    requires Readable(src, n)
    ensures CStr(Strncpy(src, n) + [Nul]) == Take(CStr(src), n)
  {
    var p := CStr(Take(src, n));
    assert Strncpy(src, n) + [Nul] == p + (seq(n - |p|, _ => Nul) + [Nul]);
    CStrOfTerminated(p, seq(n - |p|, _ => Nul) + [Nul]);
    CStrTake(src, n);
  }

  /** The globals of the interface and what the start-up task leaves behind.
      `reportMapGiven` is the report map handed to the HID service,
      `inputReportId` the ID of the input report created for the joystick. */
  class Device {
    const btname: array<char>
    var queueCapacity: Option<nat>
    var hogStarted: bool
    var deviceName: seq<char>
    var joystick: ReportSender.JoystickTask?
    var callbacks: Connection.ServerCallbacks?
    var reportMapGiven: Option<seq<byte>>
    var inputReportId: Option<byte>
    var servicesStarted: bool
    var advertisingStarted: bool

    /** btname has 40 characters and its last one, never written, is NUL. */
    ghost predicate Valid()
      reads this, btname
    {
      btname.Length == NameBufferSize && btname[NameBufferSize - 1] == Nul
    }

    /** Program start: zero-initialised globals, nothing created yet. */
    constructor()
      ensures Valid() && fresh(btname)
      ensures forall i | 0 <= i < btname.Length :: btname[i] == Nul
      ensures queueCapacity == None && !hogStarted
      ensures joystick == null && callbacks == null
      ensures reportMapGiven == None && inputReportId == None
      ensures !servicesStarted && !advertisingStarted
    {
      btname := new char[NameBufferSize](_ => Nul);
      queueCapacity := None;
      hogStarted := false;
      deviceName := [];
      joystick := null;
      callbacks := null;
      reportMapGiven := None;
      inputReportId := None;
      servicesStarted := false;
      advertisingStarted := false;
    }

    /** HID_joystick_init: creates the queue, copies at most 39 characters of
        the name into btname, starts the start-up task and returns ESP_OK. */
    method Init(name: seq<char>) returns (err: int)
      requires Valid()
      requires Readable(name, NameCopyLimit)
      modifies this, btname
      ensures Valid()
      ensures err == EspOk
      ensures queueCapacity == Some(QueueLength)
      ensures hogStarted
      ensures btname[..NameCopyLimit] == Strncpy(name, NameCopyLimit)
      ensures CStr(btname[..]) == Take(CStr(name), NameCopyLimit)
      ensures deviceName == old(deviceName) && joystick == old(joystick)
      ensures callbacks == old(callbacks) && reportMapGiven == old(reportMapGiven)
      ensures inputReportId == old(inputReportId)
      ensures servicesStarted == old(servicesStarted) && advertisingStarted == old(advertisingStarted)
    {
      queueCapacity := Some(QueueLength);
      CopyName(name);
      CopiedName(name, NameCopyLimit);
      hogStarted := true;
      err := EspOk;
    }

    /** strncpy(btname, name, sizeof(btname) - 1): copies the name up to its
        first NUL or its 39th character, then pads with NULs up to 39
        characters; btname[39] is not written. */
    method CopyName(name: seq<char>)
      requires Valid()
      requires Readable(name, NameCopyLimit)
      modifies btname
      ensures Valid()
      ensures btname[..] == Strncpy(name, NameCopyLimit) + [Nul]
    {
      ghost var copied := Strncpy(name, NameCopyLimit);
      ghost var p := CStr(Take(name, NameCopyLimit));
      ReadableStop(name, NameCopyLimit);
      var i := 0;
      while i < NameCopyLimit && name[i] != Nul
        invariant 0 <= i <= |p|
        invariant btname[..i] == copied[..i]
        invariant btname[NameBufferSize - 1] == Nul
      {
        btname[i] := name[i];
        i := i + 1;
      }
      while i < NameCopyLimit
        invariant |p| <= i <= NameCopyLimit
        invariant btname[..i] == copied[..i]
        invariant btname[NameBufferSize - 1] == Nul
      {
        btname[i] := Nul;
        i := i + 1;
      }
      assert btname[..] == copied + [Nul];
    }

    /** The start-up task: creates the sender and the server callbacks, takes
        the device name from btname, builds the report map and, only when its
        allocation succeeded, creates the input report with ID 1, hands the map
        to the HID service and starts the services. Advertising is started in
        either case. */
    method RunHog(allocSucceeds: bool)
      requires Valid() && hogStarted
      modifies this
      ensures Valid() && hogStarted
      ensures deviceName == CStr(btname[..])
      ensures joystick != null && fresh(joystick) && !joystick.running && joystick.calls == []
      ensures callbacks != null && fresh(callbacks) && callbacks.joystick == joystick
      ensures callbacks.Valid() && callbacks.isConnected == 0 && callbacks.events == []
      ensures allocSucceeds ==>
        && reportMapGiven == Some(ReportDescriptor.AsWrittenReportMap(ReportDescriptor.ReportIdValue))
        && inputReportId == Some(ReportDescriptor.ReportIdValue)
        && servicesStarted
      ensures !allocSucceeds ==>
        && reportMapGiven == old(reportMapGiven)
        && inputReportId == old(inputReportId)
        && servicesStarted == old(servicesStarted)
      ensures advertisingStarted
      ensures queueCapacity == old(queueCapacity)
    {
      joystick := new ReportSender.JoystickTask();
      deviceName := CStr(btname[..]);
      callbacks := new Connection.ServerCallbacks(joystick);
      var reportMap, used := ReportDescriptor.BuildReportMap(allocSucceeds);
      if reportMap != null {
        inputReportId := Some(ReportDescriptor.ReportIdValue);
        reportMapGiven := Some(reportMap[..]);
        servicesStarted := true;
      }
      advertisingStarted := true;
    }

    /** HID_joystick_isConnected may be called at any time: before the
        start-up task has created the server callbacks the global flag still
        holds its initial 0; afterwards it is the flag the callbacks keep. */
    method IsConnected() returns (r: byte)
      requires callbacks != null ==> callbacks.Valid()
      ensures r == 0 || r == 1
      ensures callbacks == null ==> r == 0
      ensures callbacks != null ==> r == callbacks.isConnected
      ensures callbacks != null ==> (r == 1 <==> callbacks.joystick.running)
    {
      if callbacks == null {
        r := 0;
      } else {
        r := callbacks.IsConnected();
      }
    }
  }

  /** The device name the stack is started with is the name given to init,
      cut to 39 characters, for every readable name. */
  method StartUp(name: seq<char>, allocSucceeds: bool) returns (d: Device)
    requires Readable(name, NameCopyLimit)
    ensures d.deviceName == Take(CStr(name), NameCopyLimit)
    ensures |d.deviceName| <= NameCopyLimit
    ensures d.queueCapacity == Some(QueueLength)
    ensures d.advertisingStarted
    ensures d.servicesStarted == allocSucceeds
    ensures d.inputReportId == if allocSucceeds then Some(ReportDescriptor.ReportIdValue) else None
  {
    d := new Device();
    var err := d.Init(name);
    d.RunHog(allocSucceeds);
  }
}
