/** Per-tick input conditions, shared by the camera and the stroke logic. */
module Controls {

  /** A condition that fired this tick counts once. */
  function Presses(b: bool): nat { if b then 1 else 0 }
}
