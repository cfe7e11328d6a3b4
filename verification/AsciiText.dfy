/** Text as the bytes of its characters. */
module AsciiText {
  import opened Bytes

  function Ascii(s: string): (t: seq<Byte>)
    ensures |t| == |s| && forall i :: 0 <= i < |s| && s[i] < 128 as char ==> t[i] == s[i] as int
  {
    seq(|s|, i requires 0 <= i < |s| => s[i] as int % 256)
  }
}
