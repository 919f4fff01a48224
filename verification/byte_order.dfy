/** Bytes, 32-bit unsigned integers and the little-endian byte order of Go's `encoding/binary`. */
module ByteOrder {

  newtype byte = x: int | 0 <= x < 0x100

  newtype uint32 = x: int | 0 <= x < 0x1_0000_0000

  /** Number of distinct `uint32` values; converting an `int` to `uint32` reduces it modulo this. */
  const Uint32Modulus: nat := 0x1_0000_0000

  /** The number a byte sequence denotes when read least significant byte first. */
  ghost function LittleEndian(b: seq<byte>): nat
  {
    if |b| == 0 then 0 else b[0] as nat + 0x100 * LittleEndian(b[1..])
  }

  /** `binary.LittleEndian.PutUint32`: byte `i` is `byte(v >> (8 * i))`. */
  function PutUint32(v: uint32): (b: seq<byte>)
    ensures |b| == 4
  {
    var n := v as int;
    [(n % 0x100) as byte,
     (n / 0x100 % 0x100) as byte,
     (n / 0x1_0000 % 0x100) as byte,
     (n / 0x100_0000 % 0x100) as byte]
  }

  /** `binary.LittleEndian.Uint32`, which reads the first four bytes (Go panics on a shorter slice). */
  function Uint32(b: seq<byte>): uint32
    requires |b| >= 4
  {
    (b[0] as int + 0x100 * b[1] as int + 0x1_0000 * b[2] as int + 0x100_0000 * b[3] as int) as uint32
  }

  lemma LittleEndianOfFour(b: seq<byte>)
    requires |b| == 4
    ensures LittleEndian(b) == b[0] as int + 0x100 * b[1] as int + 0x1_0000 * b[2] as int + 0x100_0000 * b[3] as int
  {
    assert b[1..][1..] == b[2..];
    assert b[2..][1..] == b[3..];
    assert b[3..][1..] == [];
    assert LittleEndian(b[3..]) == b[3] as int;
    assert LittleEndian(b[2..]) == b[2] as int + 0x100 * b[3] as int;
    assert LittleEndian(b[1..]) == b[1] as int + 0x100 * (b[2] as int + 0x100 * b[3] as int);
  }

  /** The bytes `PutUint32` produces denote exactly the value it was given. */
  lemma PutUint32Value(v: uint32)
    ensures LittleEndian(PutUint32(v)) == v as nat
  {
    var n := v as int;
    var b := PutUint32(v);
    LittleEndianOfFour(b);
    var q1, q2, q3 := n / 0x100, n / 0x1_0000, n / 0x100_0000;
    assert q1 / 0x100 == q2;
    assert q2 / 0x100 == q3;
    assert q3 < 0x100;
    assert n == n % 0x100 + 0x100 * q1;
    assert q1 == q1 % 0x100 + 0x100 * q2;
    assert q2 == q2 % 0x100 + 0x100 * q3;
  }

  /** `Uint32` computes the little-endian value of the four bytes it reads. */
  lemma Uint32Value(b: seq<byte>)
    requires |b| == 4
    ensures Uint32(b) as nat == LittleEndian(b)
  {
    LittleEndianOfFour(b);
  }

  /** Two byte sequences of one length that denote the same number are the same sequence. */
  lemma {:induction false} LittleEndianInjective(a: seq<byte>, b: seq<byte>)
    requires |a| == |b|
    requires LittleEndian(a) == LittleEndian(b)
    ensures a == b
  {
    if |a| > 0 {
      var x, y := LittleEndian(a[1..]), LittleEndian(b[1..]);
      assert a[0] as int == LittleEndian(a) % 0x100 && x == LittleEndian(a) / 0x100;
      assert b[0] as int == LittleEndian(b) % 0x100 && y == LittleEndian(b) / 0x100;
      LittleEndianInjective(a[1..], b[1..]);
      assert a == [a[0]] + a[1..];
      assert b == [b[0]] + b[1..];
    }
  }

  /** Reading back what `PutUint32` wrote gives the original value. */
  lemma Uint32OfPutUint32(v: uint32)
    ensures Uint32(PutUint32(v)) == v
  {
    PutUint32Value(v);
    Uint32Value(PutUint32(v));
  }

  /** Writing what `Uint32` read reproduces the four bytes: the two are mutually inverse. */
  lemma PutUint32OfUint32(b: seq<byte>)
    requires |b| == 4
    ensures PutUint32(Uint32(b)) == b
  {
    Uint32Value(b);
    PutUint32Value(Uint32(b));
    LittleEndianInjective(PutUint32(Uint32(b)), b);
  }
}
