/** Little-endian numbers of a fixed width. */
module Endian {
  import opened Bytes
  import opened Keys

  function LittleEndian(n: nat, width: nat): (s: Bytes)
    ensures |s| == width
  {
    if width == 0 then [] else [n % 256] + LittleEndian(n / 256, width - 1)
  }

  function LittleNumber(s: Bytes): (n: nat)
    ensures n < Radix(|s|)
  {
    if s == [] then 0 else s[0] + 256 * LittleNumber(s[1..])
  }

  lemma {:induction false} LittleRoundTrip(n: nat, width: nat)
    requires n < Radix(width)
    ensures LittleNumber(LittleEndian(n, width)) == n
  {
    if width > 0 {
      LittleRoundTrip(n / 256, width - 1);
    }
  }

  lemma LittleStep(b: Byte, n: nat, width: nat)
    ensures LittleEndian(b + 256 * n, width + 1) == [b] + LittleEndian(n, width)
  {
    assert (b + 256 * n) % 256 == b && (b + 256 * n) / 256 == n;
  }

  lemma {:induction false} LittleUnique(s: Bytes)
    ensures LittleEndian(LittleNumber(s), |s|) == s
  {
    if s != [] {
      hide LittleEndian;
      LittleUnique(s[1..]);
      LittleStep(s[0], LittleNumber(s[1..]), |s| - 1);
    }
  }
}
