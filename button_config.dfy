/** The fixed button table: six digital pins and their display names, in the
    order that `getButtonPin(index)` exposes. */
module ButtonConfig {
  import opened Uint

  const PIN_MENU: u8 := 3
  const PIN_ESC: u8 := 2
  const PIN_UP: u8 := 5
  const PIN_DOWN: u8 := 13
  const PIN_RIGHT: u8 := 11
  const PIN_LEFT: u8 := 12

  const TOTAL_BUTTONS: nat := 6

  const PINS: seq<u8> := [PIN_MENU, PIN_ESC, PIN_UP, PIN_DOWN, PIN_RIGHT, PIN_LEFT]
  const NAMES: seq<string> := ["MENU", "ESC", "UP", "DOWN", "RIGHT", "LEFT"]

  /** The table has one pin and one name per button, no pin is 0 and no two
      buttons share a pin. */
  lemma TableWellFormed()
    ensures |PINS| == |NAMES| == TOTAL_BUTTONS
    ensures forall i :: 0 <= i < |PINS| ==> PINS[i] != 0
    ensures forall i, j :: 0 <= i < j < |PINS| ==> PINS[i] != PINS[j]
  {
  }
}
