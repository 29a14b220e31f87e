/** The four-byte, most-significant-byte-first encoding of the trailer's size field
    (`writeBigEndian` in main.cpp). */
module BigEndian {
  import opened Bytes

  /** 2^(8*k): for a non-negative value, dividing by it is shifting right by `8*k` bits. */
  function Pow256(k: nat): (p: nat)
    ensures p > 0
  {
    if k == 0 then 1 else 256 * Pow256(k - 1)
  }

  /** The byte the loop of `writeBigEndian` stores at index `i`, `(n >> ((3-i) << 3)) & 0xFF`:
      for a non-negative `n`, shifting right by `8*(3-i)` bits divides by 256^(3-i), and
      masking with 0xFF keeps the remainder modulo 256. It is byte `i` of the encoding. */
  function ByteOf(n: uint32, i: int): (b: byte)
    requires 0 <= i < 4
    ensures b == BE32(n)[i]
  {
    assert Pow256(0) == 1;
    assert Pow256(1) == 0x100;
    assert Pow256(2) == 0x1_0000;
    assert Pow256(3) == 0x100_0000;
    assert i == 0 ==> n / 0x100_0000 % 256 == n / 0x100_0000;
    ToByte((n / Pow256(3 - i)) % 256)
  }

  /** The four bytes written for `n`, most significant first. */
  function BE32(n: uint32): (r: seq<byte>)
    ensures |r| == 4
  {
    [ToByte(n / 0x100_0000), ToByte(n / 0x1_0000 % 0x100), ToByte(n / 0x100 % 0x100), ToByte(n % 0x100)]
  }

  /** Reads four bytes most-significant first: the reader's view of the size field. */
  function DecodeBE32(s: seq<byte>): (n: uint32)
    requires |s| == 4
  {
    ByteValue(s[0]) * 0x100_0000 + ByteValue(s[1]) * 0x1_0000 + ByteValue(s[2]) * 0x100 + ByteValue(s[3])
  }

  /** Quotient and remainder of a number written as `hi * k + lo` with `lo` a digit below `k`. */
  lemma SplitDigit(hi: nat, lo: nat, k: nat)
    requires k == 0x100 || k == 0x1_0000 || k == 0x100_0000
    requires lo < k
    ensures (hi * k + lo) / k == hi
    ensures (hi * k + lo) % k == lo
  {
    if k == 0x100 {
      assert (hi * 0x100 + lo) / 0x100 == hi;
    } else if k == 0x1_0000 {
      assert (hi * 0x1_0000 + lo) / 0x1_0000 == hi;
    } else {
      assert (hi * 0x100_0000 + lo) / 0x100_0000 == hi;
    }
  }

  /** A byte converted to its value and back is the same byte. */
  lemma ByteRoundTrip(b: byte)
    ensures ToByte(ByteValue(b)) == b
  {
  }

  /** `n` is the sum of its four base-256 digits, each weighted by its place. */
  lemma Digits(n: uint32)
    ensures n == (n / 0x100_0000) * 0x100_0000 + (n / 0x1_0000 % 0x100) * 0x1_0000
                 + (n / 0x100 % 0x100) * 0x100 + n % 0x100
  {
    var d1 := n / 0x100;
    var d2 := d1 / 0x100;
    var d3 := d2 / 0x100;
    var low := (d2 % 0x100) * 0x1_0000 + (d1 % 0x100) * 0x100 + n % 0x100;
    assert n == d1 * 0x100 + n % 0x100;
    assert d1 == d2 * 0x100 + d1 % 0x100;
    assert d2 == d3 * 0x100 + d2 % 0x100;
    assert n == d2 * 0x1_0000 + (d1 % 0x100 * 0x100 + n % 0x100);
    SplitDigit(d2, d1 % 0x100 * 0x100 + n % 0x100, 0x1_0000);
    assert n == d3 * 0x100_0000 + low;
    SplitDigit(d3, low, 0x100_0000);
    SplitDigit(d1 * 0x100, n % 0x100, 0x100);
  }

  /** Decoding the bytes written for `n` gives back `n`. */
  lemma DecodeEncode(n: uint32)
    ensures DecodeBE32(BE32(n)) == n
  {
    Digits(n);
  }

  /** The digits of a number assembled from four base-256 digits are those digits. */
  lemma DigitsOfSum(a: int, b: int, c: int, d: int)
    requires 0 <= a < 0x100 && 0 <= b < 0x100 && 0 <= c < 0x100 && 0 <= d < 0x100
    ensures (a * 0x100_0000 + b * 0x1_0000 + c * 0x100 + d) / 0x100_0000 == a
    ensures (a * 0x100_0000 + b * 0x1_0000 + c * 0x100 + d) / 0x1_0000 % 0x100 == b
    ensures (a * 0x100_0000 + b * 0x1_0000 + c * 0x100 + d) / 0x100 % 0x100 == c
    ensures (a * 0x100_0000 + b * 0x1_0000 + c * 0x100 + d) % 0x100 == d
  {
    var n := a * 0x100_0000 + b * 0x1_0000 + c * 0x100 + d;
    SplitDigit(a, b * 0x1_0000 + c * 0x100 + d, 0x100_0000);
    assert n == (a * 0x100 + b) * 0x1_0000 + (c * 0x100 + d);
    SplitDigit(a * 0x100 + b, c * 0x100 + d, 0x1_0000);
    SplitDigit(a, b, 0x100);
    assert n == ((a * 0x100 + b) * 0x100 + c) * 0x100 + d;
    SplitDigit((a * 0x100 + b) * 0x100 + c, d, 0x100);
    SplitDigit(a * 0x100 + b, c, 0x100);
  }

  /** Every four-byte sequence is the encoding of the value it decodes to, so the encoding
      is a bijection between `uint32` and four-byte sequences. */
  lemma EncodeDecode(s: seq<byte>)
    requires |s| == 4
    ensures BE32(DecodeBE32(s)) == s
  {
    DigitsOfSum(ByteValue(s[0]), ByteValue(s[1]), ByteValue(s[2]), ByteValue(s[3]));
    var r := BE32(DecodeBE32(s));
    ByteRoundTrip(s[0]);
    ByteRoundTrip(s[1]);
    ByteRoundTrip(s[2]);
    ByteRoundTrip(s[3]);
    assert r[0] == s[0] && r[1] == s[1] && r[2] == s[2] && r[3] == s[3];
  }

  /** Two values with the same encoding are equal. */
  lemma EncodingInjective(m: uint32, n: uint32)
    requires BE32(m) == BE32(n)
    ensures m == n
  {
    DecodeEncode(m);
    DecodeEncode(n);
  }

  /** The worked examples of the format: 0x01020304, 0 and 0xFFFFFFFF. */
  lemma BE32Examples()
    ensures BE32(0x0102_0304) == [0x01, 0x02, 0x03, 0x04]
    ensures BE32(0) == [0x00, 0x00, 0x00, 0x00]
    ensures BE32(0xFFFF_FFFF) == [0xFF, 0xFF, 0xFF, 0xFF]
  {
  }

  /** `writeBigEndian`: fills the four bytes one at a time, index 0 holding the most
      significant byte, and returns what is written to the output. */
  method WriteBigEndian(n: uint32) returns (be: seq<byte>)
    ensures be == BE32(n)
    ensures DecodeBE32(be) == n
  {
    be := [];
    for i := 0 to 4
      invariant |be| == i
      invariant forall j :: 0 <= j < i ==> be[j] == BE32(n)[j]
    {
      be := be + [ByteOf(n, i)];
    }
    DecodeEncode(n);
  }
}
