/** Button masks and the edge queries over the current and the previous button mask. */
module Buttons {

  /** The seven buttons of the arcade gamepad. */
  datatype Button = Left | Up | Right | Down | A | B | Menu

  /** Bit position of each button in the button mask (bit 0 is never used). */
  function BitIndex(b: Button): (i: bv8)
    ensures 1 <= i <= 7
  {
    match b
    case Left => 1
    case Up => 2
    case Right => 3
    case Down => 4
    case A => 5
    case B => 6
    case Menu => 7
  }

  /** The `SHIELD_BUTTON_*` mask of each button. */
  function Mask(b: Button): bv8 {
    match b
    case Left => 0x02
    case Up => 0x04
    case Right => 0x08
    case Down => 0x10
    case A => 0x20
    case B => 0x40
    case Menu => 0x80
  }

  /** Each mask is the single bit `1 << i` the decoder sets for button index i (1..7),
      no mask uses bit 0, and distinct buttons have disjoint masks. */
  lemma MasksAreDecoderBits(b: Button, c: Button)
    ensures Mask(b) == 1 << BitIndex(b)
    ensures Mask(b) & 0x01 == 0
    ensures b != c ==> Mask(b) & Mask(c) == 0
  {
  }

  /** `isButtonPressed(mask)`: some button of `mask` is down now. */
  predicate IsPressed(state: bv8, mask: bv8) {
    state & mask != 0
  }

  /** `isButtonDown(mask)`: some button of `mask` is down now and none was before. */
  predicate IsDown(state: bv8, last: bv8, mask: bv8) {
    state & mask != 0 && last & mask == 0
  }

  /** `isButtonUp(mask)`: no button of `mask` is down now and one was before. */
  predicate IsUp(state: bv8, last: bv8, mask: bv8) {
    state & mask == 0 && last & mask != 0
  }

  /** The named queries (`leftPressed()`, ..., `menuPressed()`). */
  predicate Pressed(state: bv8, b: Button) {
    IsPressed(state, Mask(b))
  }

  /** The named edge queries (`leftDown()`, ..., `menuDown()`). */
  predicate WentDown(state: bv8, last: bv8, b: Button) {
    IsDown(state, last, Mask(b))
  }

  /** The edges are exclusive, a rising edge means pressed, a falling edge means
      released, and with no change between the two masks no edge fires. */
  lemma EdgeFacts(state: bv8, last: bv8, mask: bv8)
    ensures !(IsDown(state, last, mask) && IsUp(state, last, mask))
    ensures IsDown(state, last, mask) ==> IsPressed(state, mask)
    ensures IsUp(state, last, mask) ==> !IsPressed(state, mask)
    ensures !IsDown(state, state, mask) && !IsUp(state, state, mask)
  {
  }

  /** For a single button's mask, the edge queries are exactly the change of its bit. */
  lemma SingleButtonEdges(state: bv8, last: bv8, b: Button)
    ensures WentDown(state, last, b) <==> Pressed(state, b) && !Pressed(last, b)
    ensures IsUp(state, last, Mask(b)) <==> !Pressed(state, b) && Pressed(last, b)
  {
  }

  /** Left released since the previous poll, then left pressed since the previous poll. */
  lemma EdgeExamples()
    ensures IsUp(0x00, 0x02, Mask(Left)) && !IsDown(0x00, 0x02, Mask(Left))
    ensures IsDown(0x02, 0x00, Mask(Left)) && !IsUp(0x02, 0x00, Mask(Left))
  {
  }
}
