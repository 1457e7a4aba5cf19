/** The raw state of the controller: one bit for each of the 27 inputs. */
module Buttons {

  const COUNT: nat := 27

  const STICK_UP: nat := 0
  const STICK_DOWN: nat := 1
  const STICK_RIGHT: nat := 2
  const STICK_LEFT: nat := 3
  const BUTTON_MENU: nat := 18
  const BUTTON_W: nat := 19
  const THUMB_LEFT: nat := 20
  const THUMB_RIGHT: nat := 21
  const MODE_LOCK: nat := 22

  function AllUp(): (r: seq<bool>)
    ensures |r| == COUNT && forall i :: 0 <= i < COUNT ==> !r[i]
  {
    seq(COUNT, _ => false)
  }

  type Raw = s: seq<bool> | |s| == COUNT witness AllUp()

  /** Only button `b` is down. */
  function Only(b: nat): (r: Raw)
    requires b < COUNT
    ensures forall i :: 0 <= i < COUNT ==> (r[i] <==> i == b)
  {
    AllUp()[b := true]
  }
}
