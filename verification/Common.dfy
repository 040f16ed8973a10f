/** Bytes and optional values, shared by the other modules. */
module Common {
  type byte = n: nat | n < 256
  type bytes = seq<byte>

  /** The bytes of a text of ASCII characters. */
  function Ascii(s: string): (r: bytes)
    ensures |r| == |s|
  {
    seq(|s|, i requires 0 <= i < |s| => if s[i] < 128 as char then s[i] as nat else 0x3F)
  }

  datatype Option<+T> = None | Some(value: T)

  /** `n` more, when there is anything. */
  function Plus(n: nat, o: Option<nat>): Option<nat> {
    match o
    case None => None
    case Some(k) => Some(n + k)
  }
}
