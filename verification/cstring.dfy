/** C strings. A string is modelled by its characters before the terminating NUL;
    the terminator itself is implicit, and `Terminated` appends it where the C code
    reads it. */
module CString {

  /** The characters of a NUL-terminated string, without the terminator. */
  type CStr = s: seq<char> | forall i :: 0 <= i < |s| ==> s[i] != '\0'

  /** The string as laid out in memory, terminator included. */
  function Terminated(s: CStr): seq<char> {
    s + ['\0']
  }
}
