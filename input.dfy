/**
 * The events the interactive loop receives: mouse events delivered to the mouse
 * callback, and key codes returned by polling the keyboard.
 */
module Input {

  /** The mouse event code of a left-button press (`cv::EVENT_LBUTTONDOWN`). */
  const EVENT_LBUTTONDOWN: int := 1

  /**
   * `char key = waitKey(20)` narrows the polled code to an 8-bit `char`; `key`
   * holds that 8-bit value (a poll with no key is some value other than q, r, g).
   */
  datatype Event =
    | MouseEvent(event: int, x: int, y: int)  // a mouse callback with its event code and position
    | KeyEvent(key: char)                     // one poll of the keyboard; `key` is the code narrowed to 8 bits
}
