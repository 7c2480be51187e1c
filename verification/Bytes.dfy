/** Octets, and 32-bit values as memory holds them, least significant byte first. */
module Bytes {
  newtype byte = x: int | 0 <= x < 256

  function Word4(x: nat): (r: seq<byte>)
    requires x < 0x1_0000_0000
    ensures |r| == 4
  {
    [(x % 256) as byte, (x / 256 % 256) as byte, (x / 65536 % 256) as byte, (x / 16777216) as byte]
  }

  function Word2(x: nat): (r: seq<byte>)
    requires x < 0x1_0000
    ensures |r| == 2
  {
    [(x % 256) as byte, (x / 256) as byte]
  }

  lemma Word2RoundTrip(mem: seq<byte>, i: nat, x: nat)
    requires x < 0x1_0000 && i + 2 <= |mem| && mem[i..i + 2] == Word2(x)
    ensures Read2(mem, i) == x
  {
    var w := Word2(x);
    assert mem[i] == mem[i..i + 2][0] && mem[i + 1] == mem[i..i + 2][1];
  }

  /** The 32-bit value at offset i. */
  function Read4(mem: seq<byte>, i: nat): (x: nat)
    requires i + 4 <= |mem|
    ensures x < 0x1_0000_0000
  {
    mem[i] as nat + 256 * mem[i + 1] as nat + 65536 * mem[i + 2] as nat + 16777216 * mem[i + 3] as nat
  }

  /** The 16-bit value at offset i. */
  function Read2(mem: seq<byte>, i: nat): nat
    requires i + 2 <= |mem|
  {
    mem[i] as nat + 256 * mem[i + 1] as nat
  }

  lemma Word4RoundTrip(mem: seq<byte>, i: nat, x: nat)
    requires x < 0x1_0000_0000 && i + 4 <= |mem| && mem[i..i + 4] == Word4(x)
    ensures Read4(mem, i) == x
  {
    var w := Word4(x);
    assert mem[i] == mem[i..i + 4][0] && mem[i + 1] == mem[i..i + 4][1];
    assert mem[i + 2] == mem[i..i + 4][2] && mem[i + 3] == mem[i..i + 4][3];
    assert x / 65536 == x / 256 / 256 && x / 16777216 == x / 65536 / 256;
  }
}
