/**
 * The lock screen (`KioskWindow` of src/main.py): a full-screen window that
 * swallows keys and refuses to close until its unlock button was pressed.
 */
module Kiosk {

  /** `unlocked` is `_unlocked`; `shown` is whether the window is still open. */
  datatype Lock = Lock(unlocked: bool, shown: bool)

  /** A new lock screen: shown full screen and not unlocked. */
  const Fresh: Lock := Lock(false, true)

  /** `closeEvent`: the close is accepted, and the window goes away, only
      once the screen was unlocked; otherwise it is ignored. */
  function RequestClose(k: Lock): (r: Lock)
    ensures r.unlocked == k.unlocked
    ensures r.shown <==> k.shown && !k.unlocked
  {
    if k.unlocked then k.(shown := false) else k
  }

  /** `_unlock` up to the callback: mark unlocked, then close, which
      `closeEvent` now accepts. The callback is the controller's to run. */
  function Unlock(k: Lock): (r: Lock)
    ensures r.unlocked && !r.shown
  {
    RequestClose(k.(unlocked := true))
  }
}
