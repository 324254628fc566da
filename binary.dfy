/** Bytes, positional reads and little-endian integers: the primitives every
    reader of the archive is built from. A file is its contents, a sequence of
    bytes; `seek` followed by `read` is a slice at an absolute offset. */
module Binary {

  newtype byte = x: int | 0 <= x < 0x100
  type u16 = x: int | 0 <= x < 0x1_0000

  datatype Option<+T> = None | Some(value: T)

  datatype Result<+T, +E> = Success(value: T) | Failure(error: E)

  /** `file.seek(pos); file.read(n)` on a file holding `file`: reading past the
      end returns fewer bytes (none at all from beyond the end), and a negative
      count reads everything up to the end. */
  function Read(file: seq<byte>, pos: nat, n: int): (r: seq<byte>)
    ensures 0 <= n && pos + n <= |file| ==> r == file[pos..pos + n]
    ensures 0 <= n ==> |r| <= n
    ensures 0 < n ==> (|r| == n <==> pos + n <= |file|)
    ensures pos < |file| && (n < 0 || |file| < pos + n) ==> r == file[pos..]
    ensures pos <= |file| ==> pos + |r| <= |file|
  {
    if |file| <= pos then []
    else if n < 0 || |file| < pos + n then file[pos..]
    else file[pos..pos + n]
  }

  /** Little-endian unsigned 16-bit integer (struct format '<H'). */
  function U16(b: seq<byte>): (r: u16)
    requires |b| == 2
  {
    b[0] as int + 0x100 * (b[1] as int)
  }

  /** Little-endian unsigned 32-bit integer (struct format '<I'). */
  function U32(b: seq<byte>): (r: nat)
    requires |b| == 4
    ensures r < 0x1_0000_0000
  {
    U16(b[..2]) + 0x1_0000 * U16(b[2..])
  }

  /** `struct.unpack('<H', b)`: fails unless exactly two bytes are given. */
  function UnpackU16(b: seq<byte>): (r: Option<u16>)
    ensures r.Some? <==> |b| == 2
  {
    if |b| == 2 then Some(U16(b)) else None
  }

  /** `struct.unpack('<I', b)`: fails unless exactly four bytes are given. */
  function UnpackU32(b: seq<byte>): (r: Option<nat>)
    ensures r.Some? <==> |b| == 4
    ensures r.Some? ==> r.value < 0x1_0000_0000
  {
    if |b| == 4 then Some(U32(b)) else None
  }

  /** The two bytes that encode `x` as '<H'. */
  function EncodeU16(x: u16): (b: seq<byte>)
    ensures |b| == 2
  {
    [(x % 0x100) as byte, (x / 0x100) as byte]
  }

  /** Encoding and decoding a 16-bit integer are inverse to each other. */
  lemma U16RoundTrip(x: u16, b: seq<byte>)
    requires |b| == 2
    ensures U16(EncodeU16(x)) == x
    ensures EncodeU16(U16(b)) == b
  {
  }

  /** Appending is associative. */
  lemma AppendAssoc<T>(a: seq<T>, b: seq<T>, c: seq<T>)
    ensures a + (b + c) == (a + b) + c
  {
  }

  /** Two to the power `n`. */
  function Pow2(n: nat): (r: nat)
    ensures r >= 1
  {
    if n == 0 then 1 else 2 * Pow2(n - 1)
  }

  /** Powers of two multiply by adding exponents. */
  lemma {:induction false} Pow2Add(a: nat, b: nat)
    ensures Pow2(a + b) == Pow2(a) * Pow2(b)
  {
    if a > 0 {
      Pow2Add(a - 1, b);
    }
  }

  /** Multiplying by the same factor keeps the order. */
  lemma {:induction false} MulLe(d: nat, a: nat, b: nat)
    requires a <= b
    ensures d * a <= d * b
  {
    if d > 0 {
      MulLe(d - 1, a, b);
      assert d * a == (d - 1) * a + a;
      assert d * b == (d - 1) * b + b;
    }
  }

  /** Quotient and remainder are the only pair with `x == d * q + r` and `r < d`. */
  lemma DivUnique(x: nat, d: nat, q: nat, r: nat)
    requires d > 0 && r < d && x == d * q + r
    ensures x / d == q && x % d == r
  {
    var q', r' := x / d, x % d;
    if q' < q {
      MulLe(d, q' + 1, q);
    } else if q < q' {
      MulLe(d, q + 1, q');
    }
  }

  /** Quotient and remainder put back together give the dividend. */
  lemma DivisionParts(x: nat, d: nat)
    requires d > 0
    ensures x == d * (x / d) + x % d
    ensures 0 <= x / d
  {
  }

  /** Dividing twice is dividing by the product, and the remainder by the
      product is made of the two remainders. */
  lemma DivDiv(x: nat, a: nat, b: nat)
    requires a > 0 && b > 0
    ensures x / a / b == x / (a * b)
    ensures x % (a * b) == x % a + a * (x / a % b)
  {
    var q, r := x / a, x % a;
    var q2, r2 := q / b, q % b;
    DivisionParts(x, a);
    DivisionParts(q, b);
    MulAdd(a, b, q2, r2);
    MulAddBound(a, b, r2, r);
    DivUnique(x, a * b, q2, a * r2 + r);
  }

  /** Multiplication distributes over a quotient-and-remainder sum. */
  lemma MulAdd(a: nat, b: nat, q: nat, r: nat)
    ensures a * (b * q + r) == (a * b) * q + a * r
  {
  }

  /** The combined remainder of two divisions stays below the product of
      the divisors. */
  lemma MulAddBound(a: nat, b: nat, r2: nat, r: nat)
    requires r2 < b && r < a
    ensures a * r2 + r < a * b
  {
    MulLe(a, r2, b - 1);
    assert a * (b - 1) == a * b - a;
  }
}
