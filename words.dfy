/** 64-bit words and bytes.

    A machine word is kept as its unsigned bit pattern, an integer in [0, 2^64);
    `ToSigned` gives the two's-complement reading that the register file and the
    ALU use.  A byte is an integer in [0, 256).  Little-endian layout of a word
    in eight bytes is `WordBytes`, its inverse `WordFromBytes`. */
module Words {

  const TWO64: int := 0x1_0000_0000_0000_0000
  const TWO63: int := 0x8000_0000_0000_0000

  type Word = x: int | 0 <= x < TWO64
  type Byte = x: int | 0 <= x < 256
  /** A four-bit field of an instruction byte: an opcode, a function code or a register id. */
  type Nibble = x: int | 0 <= x < 16

  /** The signed value of a bit pattern (int64_t / BigInt64Array element). */
  function ToSigned(w: Word): (r: int)
    ensures -TWO63 <= r < TWO63
    ensures r % TWO64 == w
    ensures (r < 0) == (w >= TWO63)
  {
    if w < TWO63 then w else w - TWO64
  }

  /** The bit pattern of an integer taken modulo 2^64 (BigInt.asUintN(64, x)). */
  function AsUint64(x: int): (w: Word)
    ensures (x - w) % TWO64 == 0
  {
    x % TWO64
  }

  /** The integer narrowed to signed 64 bits (BigInt.asIntN(64, x)). */
  function AsInt64(x: int): (r: int)
    ensures -TWO63 <= r < TWO63
    ensures (x - r) % TWO64 == 0
    ensures -TWO63 <= x < TWO63 ==> r == x
  {
    ToSigned(AsUint64(x))
  }

  lemma SignedRoundTrip(w: Word, x: int)
    ensures AsUint64(ToSigned(w)) == w
    ensures -TWO63 <= x < TWO63 ==> ToSigned(AsUint64(x)) == x
  {
  }

  function Pow256(n: nat): (p: nat)
    ensures p > 0
  {
    if n == 0 then 1 else 256 * Pow256(n - 1)
  }

  lemma Pow256Eight()
    ensures Pow256(8) == TWO64
  {
    assert Pow256(2) == 0x1_0000;
    assert Pow256(4) == 0x1_0000_0000;
    assert Pow256(6) == 0x1_0000_0000_0000;
  }

  /** Byte i of w, counting from the least significant: (w >> 8*i) & 0xFF. */
  function ByteOf(w: Word, i: nat): Byte
  {
    (w / Pow256(i)) % 256
  }

  /** The eight bytes of w, least significant first. */
  function WordBytes(w: Word): (b: seq<Byte>)
    ensures |b| == 8
    ensures forall i :: 0 <= i < 8 ==> b[i] == ByteOf(w, i)
  {
    seq(8, i requires 0 <= i < 8 => ByteOf(w, i))
  }

  /** The number whose base-256 digits, least significant first, are b. */
  function LittleEndian(b: seq<Byte>): (v: nat)
    ensures v < Pow256(|b|)
  {
    if b == [] then 0
    else
      var n := |b| - 1;
      var rest := LittleEndian(b[..n]);
      MulLeft(b[n], 255, Pow256(n));
      rest + b[n] * Pow256(n)
  }

  /** Eight bytes, least significant first, read back as one word. */
  function WordFromBytes(b: seq<Byte>): (w: Word)
    requires |b| == 8
    ensures w == LittleEndian(b)
  {
    Pow256Eight();
    LittleEndian(b)
  }

  lemma MulLeft(a: int, b: int, p: nat)
    requires a <= b
    ensures a * p <= b * p
  {
  }

  /** Division with remainder is unique. */
  lemma DivModUnique(w: int, d: int, q: int, r: int)
    requires d > 0 && 0 <= r < d && w == d * q + r
    ensures w / d == q && w % d == r
  {
    var q', r' := w / d, w % d;
    assert d * (q' - q) == r - r' by {
      assert d * (q' - q) == d * q' - d * q;
    }
    MulSmallIsZero(d, q' - q);
  }

  lemma MulSmallIsZero(d: int, k: int)
    requires d > 0 && -d < d * k < d
    ensures k == 0
  {
    if k > 0 {
      MulLeft(1, k, d);
    } else if k < 0 {
      MulLeft(k, -1, d);
    }
  }

  /** Taking one more base-256 digit of w: w mod 256^(n+1) adds digit n. */
  lemma ModNextDigit(w: Word, n: nat)
    ensures w % Pow256(n + 1) == w % Pow256(n) + ByteOf(w, n) * Pow256(n)
  {
    var p := Pow256(n);
    var q, r := w / p, w % p;
    var t, k := q % 256, q / 256;
    assert w == p * q + r;
    assert q == 256 * k + t;
    assert w == (256 * p) * k + (t * p + r) by {
      calc {
        w;
        p * q + r;
        p * (256 * k + t) + r;
        (256 * p) * k + (t * p + r);
      }
    }
    MulLeft(t, 255, p);
    DivModUnique(w, 256 * p, k, t * p + r);
  }

  lemma {:induction false} LittleEndianOfBytes(w: Word, n: nat)
    requires n <= 8
    ensures LittleEndian(WordBytes(w)[..n]) == w % Pow256(n)
  {
    if n > 0 {
      var b := WordBytes(w);
      assert b[..n][..n - 1] == b[..n - 1];
      LittleEndianOfBytes(w, n - 1);
      ModNextDigit(w, n - 1);
    }
  }

  /** Reading back the bytes of a word gives the word. */
  lemma WordBytesRoundTrip(w: Word)
    ensures WordFromBytes(WordBytes(w)) == w
  {
    LittleEndianOfBytes(w, 8);
    assert WordBytes(w)[..8] == WordBytes(w);
    Pow256Eight();
  }

  /** Digits of a little-endian number are unique. */
  lemma {:induction false} LittleEndianInjective(b: seq<Byte>, c: seq<Byte>)
    requires |b| == |c| && LittleEndian(b) == LittleEndian(c)
    ensures b == c
  {
    if b != [] {
      var n := |b| - 1;
      var p := Pow256(n);
      DivModUnique(LittleEndian(b), p, b[n], LittleEndian(b[..n]));
      DivModUnique(LittleEndian(c), p, c[n], LittleEndian(c[..n]));
      LittleEndianInjective(b[..n], c[..n]);
      assert b == b[..n] + [b[n]] && c == c[..n] + [c[n]];
    }
  }

  /** Splitting a word read from eight bytes gives back those bytes. */
  lemma BytesWordRoundTrip(b: seq<Byte>)
    requires |b| == 8
    ensures WordBytes(WordFromBytes(b)) == b
  {
    WordBytesRoundTrip(WordFromBytes(b));
    LittleEndianInjective(WordBytes(WordFromBytes(b)), b);
  }
}
