/** The spellings of a UUID that the uuid package parses, and the one it prints. A char stands for one byte. */
module Uuids {

  predicate LowerHex(c: char) {
    '0' <= c <= '9' || 'a' <= c <= 'f'
  }

  predicate Hex(c: char) {
    LowerHex(c) || 'A' <= c <= 'F'
  }

  predicate DashAt(i: int) {
    i == 8 || i == 13 || i == 18 || i == 23
  }

  /** Thirty-two hexadecimal digits in five groups. */
  predicate Dashed(s: string) {
    |s| == 36 && forall i | 0 <= i < 36 :: if DashAt(i) then s[i] == '-' else Hex(s[i])
  }

  predicate UrnPrefix(s: string) {
    && |s| == 9 && s[3] == ':' && s[8] == ':'
    && s[0] in "uU" && s[1] in "rR" && s[2] in "nN"
    && s[4] in "uU" && s[5] in "uU" && s[6] in "iI" && s[7] in "dD"
  }

  /** Plain, with the URN prefix, between two further bytes whatever they are, or without dashes. */
  predicate Parses(s: string) {
    || Dashed(s)
    || (|s| == 45 && UrnPrefix(s[..9]) && Dashed(s[9..]))
    || (|s| == 38 && Dashed(s[1..37]))
    || (|s| == 32 && forall i | 0 <= i < 32 :: Hex(s[i]))
  }

  /** What String prints. */
  predicate Canonical(s: string) {
    |s| == 36 && forall i | 0 <= i < 36 :: if DashAt(i) then s[i] == '-' else LowerHex(s[i])
  }

  const NIL := "00000000-0000-0000-0000-000000000000"
}
