/** Plain data shared by the joystick HID bridge: the fixed-width integers of the
    C interface, the joystick command that producers hand to the report sender,
    and the eight-button mask carried in that command. */
module HidTypes {

  /** uint8_t */
  type byte = b: int | 0 <= b < 0x100
  /** uint16_t */
  type u16 = x: int | 0 <= x < 0x1_0000
  /** uint32_t */
  type u32 = x: int | 0 <= x < 0x1_0000_0000

  datatype Option<+T> = None | Some(value: T)

  /** Number of axis fields in a command, and of buttons in its mask. */
  const AxisCount: nat := 4
  const ButtonCount: nat := 8

  /** Documented range of every axis value. */
  const AxisMin: int := 1000
  const AxisMax: int := 2000

  /** joystick_command_t: the button mask first, then the four axes. */
  datatype JoystickCommand = JoystickCommand(
    buttons: byte,
    xAxis: u16,
    yAxis: u16,
    xRotate: u16,
    yRotate: u16)

  /** The axes in the order of the struct (and of the report). */
  function Axes(cmd: JoystickCommand): seq<u16>
  {
    [cmd.xAxis, cmd.yAxis, cmd.xRotate, cmd.yRotate]
  }

  /** Every axis lies in the documented range 1000 - 2000. */
  predicate InDocumentedRange(cmd: JoystickCommand)
  {
    forall i | 0 <= i < AxisCount :: AxisMin <= Axes(cmd)[i] <= AxisMax
  }

  function Pow2(n: nat): (p: nat)
    ensures p >= 1
  {
    if n == 0 then 1 else 2 * Pow2(n - 1)
  }

  /** The n lowest bits of b, least significant first. */
  function Bits(b: nat, n: nat): (s: seq<bool>)
    ensures |s| == n
  {
    if n == 0 then [] else [b % 2 == 1] + Bits(b / 2, n - 1)
  }

  /** The number whose bits, least significant first, are s. */
  function FromBits(s: seq<bool>): nat
  {
    if s == [] then 0 else (if s[0] then 1 else 0) + 2 * FromBits(s[1..])
  }

  lemma {:induction false} FromBitsBound(s: seq<bool>)
    ensures FromBits(s) < Pow2(|s|)
  {
    if s != [] {
      FromBitsBound(s[1..]);
    }
  }

  lemma {:induction false} BitsFromBits(s: seq<bool>)
    ensures Bits(FromBits(s), |s|) == s
  {
    if s != [] {
      BitsFromBits(s[1..]);
      var b := FromBits(s);
      assert b % 2 == 1 <==> s[0];
      assert b / 2 == FromBits(s[1..]);
    }
  }

  lemma {:induction false} FromBitsBits(b: nat, n: nat)
    requires b < Pow2(n)
    ensures FromBits(Bits(b, n)) == b
  {
    if n > 0 {
      FromBitsBits(b / 2, n - 1);
      assert Bits(b, n)[1..] == Bits(b / 2, n - 1);
    }
  }

  /** Which of the eight buttons a mask reports as pressed: entry k is
      button k + 1, pressed when bit k of the mask is set. */
  function ButtonStates(buttons: byte): (pressed: seq<bool>)
    ensures |pressed| == ButtonCount
    ensures FromBits(pressed) == buttons
  {
    assert Pow2(8) == 256;
    FromBitsBits(buttons, ButtonCount);
    Bits(buttons, ButtonCount)
  }

  /** The mask that reports exactly the given buttons as pressed. */
  function ButtonMask(pressed: seq<bool>): (buttons: byte)
    requires |pressed| == ButtonCount
    ensures ButtonStates(buttons) == pressed
  {
    FromBitsBound(pressed);
    assert Pow2(8) == 256;
    BitsFromBits(pressed);
    FromBits(pressed)
  }
}
