/**
 * The PS/2 mouse packet decoder. Bytes arrive one at a time; a three-byte
 * packet (command byte, X movement, Y movement) is collected across calls,
 * and the Y byte decodes the packet into at most four events: one per
 * button whose state changed since the last accepted packet, then one
 * motion event when the movement is not zero. The atomics of the source
 * become the fields of one decoder object; the compare-exchange on the
 * phase always succeeds here, as there is no concurrent caller.
 */
module MouseDecode {
  import opened Common

  /** Which byte of the packet comes next (`CMD`, `X`, `Y`). */
  datatype Phase = Cmd | X | Y

  datatype Button = Left | Middle | Right
  datatype ElementState = Pressed | Released
  datatype MouseEvent = ButtonEvent(button: Button, state: ElementState) | Motion(dx: int, dy: int)

  /** The `Byte1` flag bits. */
  const LEFT_BTN: nat := 0x01
  const RIGHT_BTN: nat := 0x02
  const MIDDLE_BTN: nat := 0x04
  const ONE: nat := 0x08
  const X_SIGN: nat := 0x10
  const Y_SIGN: nat := 0x20
  const X_OVERFLOW: nat := 0x40
  const Y_OVERFLOW: nat := 0x80

  /** The capacity of the `heapless::Vec` the events are pushed into. */
  const MAX_EVENTS: nat := 4

  /** `contains` for a single-bit flag. */
  predicate Has(b: u8, flag: nat)
    requires flag > 0
  {
    (b / flag) % 2 == 1
  }

  /** The bit of a button in `Byte1`. */
  function ButtonBit(button: Button): (bit: nat)
    ensures bit == LEFT_BTN || bit == MIDDLE_BTN || bit == RIGHT_BTN
  {
    match button
    case Left => LEFT_BTN
    case Middle => MIDDLE_BTN
    case Right => RIGHT_BTN
  }

  /** A packet is thrown away when both overflow bits are set or the always-one bit is clear. */
  predicate Discarded(cmd: u8)
  {
    (Has(cmd, X_OVERFLOW) && Has(cmd, Y_OVERFLOW)) || !Has(cmd, ONE)
  }

  /** `change_to_state`. */
  function StateOf(pressed: bool): (r: ElementState)
    ensures r == Pressed <==> pressed
  {
    if pressed then Pressed else Released
  }

  /**
   * A movement byte widened to 16 bits, or-ed with 0xFF00 when its sign
   * bit is set, and read back as an `i16`.
   */
  function Delta(b: u8, sign: bool): (r: int)
    ensures r == if sign then b - 0x100 else b
  {
    var wide := if sign then b + 0xFF00 else b;
    if wide >= 0x8000 then wide - 0x1_0000 else wide
  }

  /** The delta is the 9-bit two's-complement value made of the sign bit and the byte. */
  lemma DeltaIsNineBit(b: u8, sign: bool)
    ensures Delta(b, sign) == if sign then b - 0x100 else b
    ensures -0x100 <= Delta(b, sign) < 0x100
    ensures Delta(b, sign) < 0 <==> sign
  {
  }

  /** `Vec::push` on the bounded vector: a push onto a full vector is dropped. */
  function Push(events: seq<MouseEvent>, e: MouseEvent): (r: seq<MouseEvent>)
    ensures |events| < MAX_EVENTS ==> r == events + [e]
    ensures |events| >= MAX_EVENTS ==> r == events
  {
    if |events| < MAX_EVENTS then events + [e] else events
  }

  /** The button event `decode_bytes` adds for `button`, if its bit changed. */
  function ButtonEvents(cmd: u8, last: u8, button: Button): (r: seq<MouseEvent>)
    ensures |r| <= 1
  {
    var bit := ButtonBit(button);
    if Has(cmd, bit) != Has(last, bit) then [ButtonEvent(button, StateOf(Has(cmd, bit)))] else []
  }

  /** The motion event `decode_bytes` adds, if the packet moved. */
  function MotionEvents(cmd: u8, x: u8, y: u8): (r: seq<MouseEvent>)
    ensures |r| <= 1
  {
    var dx, dy := Delta(x, Has(cmd, X_SIGN)), Delta(y, Has(cmd, Y_SIGN));
    if dx != 0 || dy != 0 then [Motion(dx, dy)] else []
  }

  /** The events of one packet, in the order `decode_bytes` pushes them. */
  function Packet(cmd: u8, x: u8, y: u8, last: u8): (r: seq<MouseEvent>)
    ensures |r| <= MAX_EVENTS
  {
    if Discarded(cmd) then []
    else ButtonEvents(cmd, last, Left) + ButtonEvents(cmd, last, Middle)
         + ButtonEvents(cmd, last, Right) + MotionEvents(cmd, x, y)
  }

  /** A packet never holds more events than the vector can take. */
  lemma PacketFits(cmd: u8, x: u8, y: u8, last: u8)
    ensures |Packet(cmd, x, y, last)| <= MAX_EVENTS
  {
  }

  /** A discarded packet produces nothing. */
  lemma DiscardedIsSilent(cmd: u8, x: u8, y: u8, last: u8)
    requires Discarded(cmd)
    ensures Packet(cmd, x, y, last) == []
  {
  }

  /**
   * A button event is in the packet exactly when the packet is accepted and
   * that button's bit differs from the last accepted packet; its state is
   * the new bit.
   */
  lemma ButtonEventIffChanged(cmd: u8, x: u8, y: u8, last: u8, button: Button, state: ElementState)
    ensures ButtonEvent(button, state) in Packet(cmd, x, y, last) <==>
              !Discarded(cmd) && Has(cmd, ButtonBit(button)) != Has(last, ButtonBit(button))
              && state == StateOf(Has(cmd, ButtonBit(button)))
  {
    var p := Packet(cmd, x, y, last);
    if !Discarded(cmd) {
      var l, m, r, v := ButtonEvents(cmd, last, Left), ButtonEvents(cmd, last, Middle),
                        ButtonEvents(cmd, last, Right), MotionEvents(cmd, x, y);
      assert p == l + m + r + v;
      var e := ButtonEvent(button, state);
      assert e !in v;
      assert e in p <==> e in l || e in m || e in r;
    }
  }

  /**
   * A motion event is in the packet exactly when the packet is accepted and
   * the sign-extended deltas are not both zero.
   */
  lemma MotionIffMoved(cmd: u8, x: u8, y: u8, last: u8, dx: int, dy: int)
    ensures Motion(dx, dy) in Packet(cmd, x, y, last) <==>
              !Discarded(cmd) && dx == Delta(x, Has(cmd, X_SIGN)) && dy == Delta(y, Has(cmd, Y_SIGN))
              && (dx != 0 || dy != 0)
  {
    var p := Packet(cmd, x, y, last);
    if !Discarded(cmd) {
      var l, m, r, v := ButtonEvents(cmd, last, Left), ButtonEvents(cmd, last, Middle),
                        ButtonEvents(cmd, last, Right), MotionEvents(cmd, x, y);
      assert p == l + m + r + v;
      assert Motion(dx, dy) in p <==> Motion(dx, dy) in v;
    }
  }

  /** The decoder state: the source's `NEXT`, `DATA` and `LAST_CMD` statics. */
  class Mouse {
    var next: Phase
    var cmd: u8
    var x: u8
    var lastCmd: u8

    /** The statics' initial values: the first byte is taken as an X byte. */
    constructor()
      ensures next == X && cmd == 0 && x == 0 && lastCmd == 0
    {
      next, cmd, x, lastCmd := X, 0, 0, 0;
    }

    /**
     * `decode_bytes`: an accepted packet swaps its command byte into
     * `LAST_CMD`; the events are pushed into a vector of four.
     */
    method DecodeBytes(c: u8, dx: u8, dy: u8) returns (events: seq<MouseEvent>)
      modifies this
      ensures events == Packet(c, dx, dy, old(lastCmd))
      ensures lastCmd == (if Discarded(c) then old(lastCmd) else c)
      ensures next == old(next) && cmd == old(cmd) && x == old(x)
    {
      events := [];
      if (Has(c, X_OVERFLOW) && Has(c, Y_OVERFLOW)) || !Has(c, ONE) {
        return;
      }
      var last := lastCmd;
      lastCmd := c;
      if Has(c, LEFT_BTN) != Has(last, LEFT_BTN) {
        events := Push(events, ButtonEvent(Left, StateOf(Has(c, LEFT_BTN))));
      }
      assert events == ButtonEvents(c, last, Left);
      if Has(c, MIDDLE_BTN) != Has(last, MIDDLE_BTN) {
        events := Push(events, ButtonEvent(Middle, StateOf(Has(c, MIDDLE_BTN))));
      }
      assert events == ButtonEvents(c, last, Left) + ButtonEvents(c, last, Middle);
      if Has(c, RIGHT_BTN) != Has(last, RIGHT_BTN) {
        events := Push(events, ButtonEvent(Right, StateOf(Has(c, RIGHT_BTN))));
      }
      assert events == ButtonEvents(c, last, Left) + ButtonEvents(c, last, Middle) + ButtonEvents(c, last, Right);
      var mx := Delta(dx, Has(c, X_SIGN));
      var my := Delta(dy, Has(c, Y_SIGN));
      if mx != 0 || my != 0 {
        events := Push(events, Motion(mx, my));
      }
    }

    /**
     * `process`: a command byte and an X byte are stored and produce
     * nothing; a Y byte completes the packet and decodes it. The phase
     * cycles Cmd, X, Y, Cmd.
     */
    method Process(b: u8) returns (events: seq<MouseEvent>)
      modifies this
      ensures old(next) == Cmd ==> next == X && cmd == b && x == old(x) && lastCmd == old(lastCmd) && events == []
      ensures old(next) == X ==> next == Y && x == b && cmd == old(cmd) && lastCmd == old(lastCmd) && events == []
      ensures old(next) == Y ==> next == Cmd && cmd == old(cmd) && x == old(x)
                                 && events == Packet(old(cmd), old(x), b, old(lastCmd))
                                 && lastCmd == (if Discarded(old(cmd)) then old(lastCmd) else old(cmd))
    {
      match next
      case Cmd =>
        cmd := b;
        next := X;
        events := [];
      case X =>
        x := b;
        next := Y;
        events := [];
      case Y =>
        next := Cmd;
        events := DecodeBytes(cmd, x, b);
    }
  }

  /**
   * From a fresh decoder the first byte is an X byte: the first complete
   * packet is (0, first byte, second byte), which is discarded because the
   * always-one bit of command byte 0 is clear, and then the decoder is in
   * step with packets that start at the third byte.
   */
  method FreshDecoderTakesXFirst() returns (events: seq<seq<MouseEvent>>)
    ensures events == [[], [], [], [], [Motion(-1, 2)]]
  {
    var m := new Mouse();
    var e1 := m.Process(0x05);
    var e2 := m.Process(0x07);
    assert e1 == [] && !Has(0, ONE) && e2 == [];
    // A packet with no button held, moved one step left and two up.
    var e3 := m.Process(0x18);
    var e4 := m.Process(0xFF);
    var e5 := m.Process(0x02);
    assert e3 == [] && e4 == [];
    assert Has(0x18, ONE) && !Has(0x18, X_OVERFLOW) && Has(0x18, X_SIGN) && !Has(0x18, Y_SIGN);
    assert !Has(0x18, LEFT_BTN) && !Has(0x18, MIDDLE_BTN) && !Has(0x18, RIGHT_BTN);
    assert Delta(0xFF, true) == -1 && Delta(0x02, false) == 2;
    assert e5 == [Motion(-1, 2)];
    assert m.lastCmd == 0x18;
    events := [e1, e2, e3, e4, e5];
  }
}
