/** Machine words, and the values that byte strings spell. */
module Words {

  const UINT_RANGE := 0x1_0000_0000

  type byte = n: nat | n < 256
  type uint32 = n: nat | n < UINT_RANGE

  datatype Option<T> = None | Some(value: T)

  /** Conversion to `unsigned int`. */
  function Truncate(n: nat): uint32 { n % UINT_RANGE }

  /** The number whose bytes are `b`, the least significant first. */
  function LittleEndian(b: seq<byte>): nat {
    if |b| == 0 then 0 else b[0] + 256 * LittleEndian(b[1..])
  }

  /** What one, two and four bytes spell. */
  lemma FewBytes(a: byte, b: byte, c: byte, d: byte)
    ensures LittleEndian([]) == 0 && LittleEndian([a]) == a && LittleEndian([a, b]) == a + 256 * b
    ensures LittleEndian([a, b, c, d]) == a + 256 * b + 0x1_0000 * c + 0x100_0000 * d
  {
    assert [a][1..] == [] && [a, b][1..] == [b] && [b][1..] == [];
    assert [a, b, c, d][1..] == [b, c, d] && [b, c, d][1..] == [c, d] && [c, d][1..] == [d] && [d][1..] == [];
    assert LittleEndian([d]) == d && LittleEndian([c, d]) == c + 256 * LittleEndian([d]);
    assert LittleEndian([b, c, d]) == b + 256 * LittleEndian([c, d]);
  }

  /** The `n` low bytes of `value`, the least significant first. */
  function Bytes(value: nat, n: nat): (b: seq<byte>)
    ensures |b| == n
  {
    if n == 0 then [] else [value % 256] + Bytes(value / 256, n - 1)
  }

  lemma LowByte(low: byte, rest: nat)
    ensures (low + 256 * rest) % 256 == low && (low + 256 * rest) / 256 == rest
  {
  }

  lemma {:induction false} BytesOfLittleEndian(b: seq<byte>)
    ensures Bytes(LittleEndian(b), |b|) == b
  {
    if |b| > 0 {
      BytesOfLittleEndian(b[1..]);
      LowByte(b[0], LittleEndian(b[1..]));
    }
  }

  function Power256(n: nat): (p: nat)
    ensures p > 0
  {
    if n == 0 then 1 else 256 * Power256(n - 1)
  }

  lemma {:induction false} LittleEndianBound(b: seq<byte>)
    ensures LittleEndian(b) < Power256(|b|)
  {
    if |b| > 0 {
      LittleEndianBound(b[1..]);
    }
  }
}
