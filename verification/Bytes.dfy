/** Bytes, failure values and the integer encodings every codec here shares. */
module Bytes {

  type byte = x: int | 0 <= x < 256
  type bytes = seq<byte>

  datatype Option<+T> = None | Some(value: T)

  datatype Result<+T, +E> = Ok(value: T) | Err(error: E) {
    predicate IsFailure() {
      Err?
    }

    function PropagateFailure<U>(): Result<U, E>
      requires Err?
    {
      Err(error)
    }

    function Extract(): T
      requires Ok?
    {
      value
    }
  }

  lemma Regrouped<T>(a: seq<T>, b: seq<T>, c: seq<T>)
    ensures a + (b + c) == a + b + c
  {
  }

  function Zeros(n: nat): bytes {
    seq(n, _ => 0)
  }

  function Pow256(n: nat): (p: nat)
    ensures p > 0
  {
    if n == 0 then 1 else 256 * Pow256(n - 1)
  }

  /** int.from_bytes(s, "big"). */
  function BigEndian(s: bytes): nat {
    if |s| == 0 then 0 else BigEndian(s[..|s| - 1]) * 256 + s[|s| - 1]
  }

  /** The low `n` octets of `v` in two's complement, as int.to_bytes(n, "big", signed=...) writes them. */
  function ToBytes(v: int, n: nat): (r: bytes)
    ensures |r| == n
    decreases n
  {
    if n == 0 then [] else ToBytes(v / 256, n - 1) + [v % 256]
  }

  /** int.bit_length() of a non-negative number. */
  function BitLength(n: nat): nat {
    if n == 0 then 0 else 1 + BitLength(n / 2)
  }

  lemma {:induction false} BigEndianOfToBytes(v: nat, n: nat)
    requires v < Pow256(n)
    ensures BigEndian(ToBytes(v, n)) == v
  {
    if n == 0 {
    } else {
      BigEndianOfToBytes(v / 256, n - 1);
      var r := ToBytes(v, n);
      assert r[..|r| - 1] == ToBytes(v / 256, n - 1);
    }
  }

  lemma {:induction false} ToBytesOfBigEndian(s: bytes)
    ensures ToBytes(BigEndian(s), |s|) == s
  {
    if |s| == 0 {
    } else {
      var init := s[..|s| - 1];
      ToBytesOfBigEndian(init);
      assert BigEndian(s) / 256 == BigEndian(init) && BigEndian(s) % 256 == s[|s| - 1];
      assert s == init + [s[|s| - 1]];
    }
  }

  lemma {:induction false} BigEndianBound(s: bytes)
    ensures BigEndian(s) < Pow256(|s|)
  {
    if |s| == 0 {
    } else {
      BigEndianBound(s[..|s| - 1]);
    }
  }

  /** Eight more bits, one more octet. */
  lemma BitLengthOfOctet(n: nat)
    ensures n >= 256 ==> BitLength(n) == BitLength(n / 256) + 8
    ensures 128 <= n < 256 ==> BitLength(n) == 8
    ensures 0 < n < 256 ==> 1 <= BitLength(n) <= 8
    ensures n < 128 ==> BitLength(n) < 8
  {
    var h1, h2, h3, h4, h5, h6, h7, h8 := n / 2, n / 4, n / 8, n / 16, n / 32, n / 64, n / 128, n / 256;
    assert h1 / 2 == h2 && h2 / 2 == h3 && h3 / 2 == h4 && h4 / 2 == h5 && h5 / 2 == h6 && h6 / 2 == h7 && h7 / 2 == h8;
    assert BitLength(n) == (if n == 0 then 0 else 1 + BitLength(h1));
    assert BitLength(h1) == (if h1 == 0 then 0 else 1 + BitLength(h2));
    assert BitLength(h2) == (if h2 == 0 then 0 else 1 + BitLength(h3));
    assert BitLength(h3) == (if h3 == 0 then 0 else 1 + BitLength(h4));
    assert BitLength(h4) == (if h4 == 0 then 0 else 1 + BitLength(h5));
    assert BitLength(h5) == (if h5 == 0 then 0 else 1 + BitLength(h6));
    assert BitLength(h6) == (if h6 == 0 then 0 else 1 + BitLength(h7));
    assert BitLength(h7) == (if h7 == 0 then 0 else 1 + BitLength(h8));
  }

  // struct's fixed-width fields: "!" is big-endian, "=" is taken as little-endian.

  function U16Be(v: int): (r: bytes)
    ensures |r| == 2
  {
    [v / 256 % 256, v % 256]
  }

  function U16Le(v: int): (r: bytes)
    ensures |r| == 2
  {
    [v % 256, v / 256 % 256]
  }

  function U32Be(v: int): (r: bytes)
    ensures |r| == 4
  {
    [v / 0x100_0000 % 256, v / 0x1_0000 % 256, v / 256 % 256, v % 256]
  }

  function U32Le(v: int): (r: bytes)
    ensures |r| == 4
  {
    [v % 256, v / 256 % 256, v / 0x1_0000 % 256, v / 0x100_0000 % 256]
  }

  function ReadU16Be(s: bytes, at: nat): (v: nat)
    requires at + 2 <= |s|
    ensures v < 0x1_0000
  {
    s[at] as int * 256 + s[at + 1]
  }

  function ReadU16Le(s: bytes, at: nat): (v: nat)
    requires at + 2 <= |s|
    ensures v < 0x1_0000
  {
    s[at] + s[at + 1] as int * 256
  }

  function ReadU32Le(s: bytes, at: nat): (v: nat)
    requires at + 4 <= |s|
    ensures v < 0x1_0000_0000
  {
    s[at] + s[at + 1] as int * 256 + s[at + 2] as int * 0x1_0000 + s[at + 3] as int * 0x100_0000
  }

  /** struct's "i": the same four bytes read as a signed number. */
  function ReadI32Le(s: bytes, at: nat): (v: int)
    requires at + 4 <= |s|
  {
    var u := ReadU32Le(s, at);
    if u < 0x8000_0000 then u else u - 0x1_0000_0000
  }

  /** data[n:], which is empty past the end. */
  function Drop(data: bytes, n: nat): bytes {
    if n > |data| then [] else data[n..]
  }

  /** value & bit, for a single bit. */
  predicate HasBit(value: nat, bit: nat)
    requires bit > 0
  {
    value / bit % 2 == 1
  }

  predicate IsU16(v: int) {
    0 <= v < 0x1_0000
  }

  predicate IsU32(v: int) {
    0 <= v < 0x1_0000_0000
  }

  predicate IsI32(v: int) {
    -0x8000_0000 <= v < 0x8000_0000
  }

  lemma U16LeReads(v: int, after: bytes)
    ensures IsU16(v) ==> ReadU16Le(U16Le(v) + after, 0) == v
  {
  }

  lemma FourDigits(v: int)
    ensures v == v % 256 + v / 256 % 256 * 256 + v / 0x1_0000 % 256 * 0x1_0000 + v / 0x100_0000 * 0x100_0000
  {
    var q1, q2 := v / 256, v / 0x1_0000;
    assert q1 / 256 == q2 && q2 / 256 == v / 0x100_0000;
  }

  lemma U32LeReads(v: int, after: bytes)
    ensures IsU32(v) ==> ReadU32Le(U32Le(v) + after, 0) == v
    ensures IsI32(v) ==> ReadI32Le(U32Le(v) + after, 0) == v
  {
    FourDigits(v);
    var top := v / 0x100_0000;
    assert IsU32(v) ==> 0 <= top < 256;
    assert IsI32(v) ==> -128 <= top < 128;
    assert ReadU32Le(U32Le(v) + after, 0) == v + (top % 256 - top) * 0x100_0000;
    hide U32Le, ReadU32Le;
  }

  /** Reading a field depends only on the bytes of the field. */
  lemma FieldReads(before: bytes, field: bytes, after: bytes)
    ensures |field| >= 2 ==> ReadU16Le(before + (field + after), |before|) == ReadU16Le(field, 0)
    ensures |field| >= 4 ==> ReadU32Le(before + (field + after), |before|) == ReadU32Le(field, 0)
    ensures |field| >= 4 ==> ReadI32Le(before + (field + after), |before|) == ReadI32Le(field, 0)
  {
    var all := before + (field + after);
    assert forall i :: 0 <= i < |field| ==> all[|before| + i] == field[i];
    if |field| >= 2 {
      assert all[|before| + 0] == field[0] && all[|before| + 1] == field[1];
    }
    if |field| >= 4 {
      assert all[|before| + 2] == field[2] && all[|before| + 3] == field[3];
    }
  }
}
