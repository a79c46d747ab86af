/** The escape-code constants of src/colors.cpp and src/neonapp.cpp.
    The C++ source compares these codes by pointer, so each distinct string is
    one constructor here; the role names (colorLineDel, highlightReset, ...)
    are aliases of those constructors, exactly as the source aliases pointers. */
module Colors {
  /** One SGR colour escape ("\33[91m" ... "\33[97m", "\33[m"). */
  datatype Color = Red | Green | Yellow | Blue | Magenta | Cyan | White | Reset

  /** Inverse video on ("\33[7m") or off ("\33[27m"). */
  datatype Highlight = On | Off

  const LineDel: Color := Red
  const LineAdd: Color := Green
  const LineContext: Color := Reset
  const FileInfo: Color := White
  const BlockRange: Color := Cyan
  const BlockHeading: Color := Blue

  /** The roles src/neonapp.cpp gives the colours (39-44). */
  const DiffIntro: Color := Cyan
  const FileIntro: Color := White
  const BlockInfo: Color := Blue

  /** highlightReset is the same pointer as highlightOff. */
  const HighlightReset: Highlight := Off
}
