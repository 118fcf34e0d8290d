/** Little-endian 32-bit words in byte strings. */
module Words {
  import opened Bytes

  function Word(s: seq<byte>, i: nat): (r: nat)
    requires i + 4 <= |s|
  {
    s[i] + 0x100 * s[i + 1] as int + 0x1_0000 * s[i + 2] as int + 0x100_0000 * s[i + 3] as int
  }

  /** The low 32 bits of `n`. */
  function Bytes32(n: nat): (r: seq<byte>)
    ensures |r| == 4
  {
    [n % 256, n / 256 % 256, n / 0x1_0000 % 256, n / 0x100_0000 % 256]
  }

  lemma Digits(n: nat)
    ensures n == n % 256 + 0x100 * (n / 256 % 256) + 0x1_0000 * (n / 0x1_0000 % 256) + 0x100_0000 * (n / 0x100_0000)
  {
    var a, b := n / 256, n / 0x1_0000;
    assert a / 256 == b && b / 256 == n / 0x100_0000;
  }

  lemma WordRoundTrip(s: seq<byte>, i: nat, n: nat)
    requires n < 0x1_0000_0000 && i + 4 <= |s| && s[i..i + 4] == Bytes32(n)
    ensures Word(s, i) == n
  {
    Digits(n);
    assert s[i] == s[i..i + 4][0] && s[i + 1] == s[i..i + 4][1];
    assert s[i + 2] == s[i..i + 4][2] && s[i + 3] == s[i..i + 4][3];
  }
}
