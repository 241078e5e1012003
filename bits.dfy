/// The MSB-first bit reader and writer that every generated packet codec drives
/// (`Bits` and `BitsMut`), with their meaning stated on plain bit sequences.
module Bits {
  import opened Common

  /// The low `n` bits of `v`, most significant first.
  function BitsOf(v: nat, n: nat): (r: seq<bool>)
    ensures |r| == n
  {
    if n == 0 then [] else BitsOf(v / 2, n - 1) + [v % 2 == 1]
  }

  /// The number whose binary digits, most significant first, are `s`.
  function ValueOf(s: seq<bool>): (v: nat)
    ensures v < Pow2(|s|)
  {
    if s == [] then 0 else 2 * ValueOf(s[..|s| - 1]) + (if s[|s| - 1] then 1 else 0)
  }

  /// Reading one more bit of `s` doubles the value read so far and adds the bit.
  lemma ValueOfStep(s: seq<bool>, i: nat)
    requires i < |s|
    ensures ValueOf(s[..i + 1]) == 2 * ValueOf(s[..i]) + (if s[i] then 1 else 0)
  {
    assert s[..i + 1][..i] == s[..i];
  }

  /// The bits of a byte sequence, each byte most significant bit first.
  function BytesToBits(bs: seq<Byte>): (r: seq<bool>)
    ensures |r| == 8 * |bs|
  {
    if bs == [] then [] else BitsOf(bs[0], 8) + BytesToBits(bs[1..])
  }

  /// Groups whole octets of a bit sequence back into bytes.
  function BitsToBytes(bits: seq<bool>): (r: seq<Byte>)
    requires |bits| % 8 == 0
    ensures 8 * |r| == |bits|
    ensures forall k | 0 <= k < |r| :: r[k] as nat == ValueOf(bits[8 * k..8 * k + 8])
  {
    if bits == [] then []
    else
      assert Pow2(8) == 256;
      var rest := BitsToBytes(bits[8..]);
      assert forall k | 0 <= k < |rest| :: bits[8..][8 * k..8 * k + 8] == bits[8 * (k + 1)..8 * (k + 1) + 8];
      [ValueOf(bits[..8]) as Byte] + rest
  }

  /// `k` bytes of `v` in network (big-endian) order, as `to_be_bytes` gives them.
  function BigEndian(v: nat, k: nat): (r: seq<Byte>)
    ensures |r| == k
    decreases k
  {
    if k == 0 then [] else BigEndian(v / 256, k - 1) + [v % 256]
  }

  /// `v >> k` on an unsigned number.
  function Shr(v: nat, k: nat): nat
  {
    if k == 0 then v else Shr(v / 2, k - 1)
  }

  // ---------------------------------------------------------------------------
  // Bits and values

  /// Reading back the bits of a number that fits in `n` bits gives the number.
  lemma {:induction false} ValueOfBitsOf(v: nat, n: nat)
    requires v < Pow2(n)
    ensures ValueOf(BitsOf(v, n)) == v
  {
    if n > 0 {
      var s := BitsOf(v, n);
      assert s[..n - 1] == BitsOf(v / 2, n - 1);
      ValueOfBitsOf(v / 2, n - 1);
    }
  }

  /// A bit sequence is the `|s|`-bit encoding of its own value.
  lemma {:induction false} BitsOfValueOf(s: seq<bool>)
    ensures BitsOf(ValueOf(s), |s|) == s
  {
    if s != [] {
      var p := s[..|s| - 1];
      BitsOfValueOf(p);
      assert s == p + [s[|s| - 1]];
    }
  }

  /// Appending bits shifts the value already read left by their number.
  lemma {:induction false} ValueOfAppend(a: seq<bool>, b: seq<bool>)
    ensures ValueOf(a + b) == ValueOf(a) * Pow2(|b|) + ValueOf(b)
  {
    if b == [] {
      assert a + b == a;
    } else {
      var b' := b[..|b| - 1];
      var x := if b[|b| - 1] then 1 else 0;
      var ab := a + b;
      assert ab[..|ab| - 1] == a + b';
      assert ab[|ab| - 1] == b[|b| - 1];
      ValueOfAppend(a, b');
      var va, vb, p := ValueOf(a), ValueOf(b'), Pow2(|b'|);
      calc {
        ValueOf(ab);
        2 * ValueOf(a + b') + x;
        2 * (va * p + vb) + x;
        { MulTwice(va, p); }
        va * (2 * p) + (2 * vb + x);
        va * Pow2(|b|) + ValueOf(b);
      }
    }
  }

  /// The reader's bit position follows from how many bits are left: `n` bits after position
  /// `b0` with `k0` whole bytes behind it, the position is `(b0 + n) % 8`.
  lemma PositionFromLength(b0: nat, k0: nat, b1: nat, k1: nat, n: nat)
    requires b0 < 8 && b1 < 8
    requires (if b1 == 0 then 0 else 8 - b1) + 8 * k1 + n == (if b0 == 0 then 0 else 8 - b0) + 8 * k0
    ensures b1 == (b0 + n) % 8
  {
  }

  lemma ModEightStep(a: nat)
    ensures (a % 8 + 1) % 8 == (a + 1) % 8
  {
  }

  lemma MulTwice(a: int, p: int)
    ensures 2 * (a * p) == a * (2 * p)
  {
  }

  /// Shifting bit `x` in below a number appends it to the encoding.
  lemma BitsOfShiftIn(b: nat, k: nat, x: nat)
    requires x < 2
    ensures BitsOf(2 * b + x, k + 1) == BitsOf(b, k) + [x == 1]
  {
  }

  /// Bit `j` of the `n`-bit encoding of `v`, counted from the most significant end,
  /// is `(v >> (n - 1 - j)) & 1`.
  lemma {:induction false} BitsOfAt(v: nat, n: nat, j: nat)
    requires j < n
    ensures BitsOf(v, n)[j] == (Shr(v, n - 1 - j) % 2 == 1)
  {
    if j < n - 1 {
      BitsOfAt(v / 2, n - 1, j);
    }
  }

  lemma {:induction false} ShrAdd(v: nat, a: nat, b: nat)
    ensures Shr(Shr(v, a), b) == Shr(v, a + b)
  {
    if a > 0 {
      ShrAdd(v / 2, a - 1, b);
    }
  }

  /// Bits above the low `n` do not change the `n`-bit encoding.
  lemma {:induction false} BitsOfAddHigh(m: nat, r: nat, n: nat)
    ensures BitsOf(m * Pow2(n) + r, n) == BitsOf(r, n)
  {
    if n > 0 {
      var p := Pow2(n - 1);
      assert Pow2(n) == 2 * p;
      assert m * (2 * p) == 2 * (m * p);
      var x := m * Pow2(n) + r;
      assert x / 2 == m * p + r / 2;
      assert x % 2 == r % 2;
      BitsOfAddHigh(m, r / 2, n - 1);
    }
  }

  lemma DivMod(v: nat, p: nat)
    requires p > 0
    ensures v / p >= 0 && v == (v / p) * p + v % p
  {
  }

  /// The `n`-bit encoding of `v` keeps only `v`'s low `n` bits: writing a `u32` into
  /// a 24-bit field is writing it modulo 2^24.
  lemma {:induction false} BitsOfLow(v: nat, n: nat)
    ensures BitsOf(v, n) == BitsOf(v % Pow2(n), n)
  {
    var p := Pow2(n);
    DivMod(v, p);
    BitsOfAddHigh(v / p, v % p, n);
  }

  /// Splitting an encoding into its high part (`v >> j`) and its low `j` bits.
  lemma {:induction false} BitsOfSplit(v: nat, m: nat, j: nat)
    ensures BitsOf(v, m + j) == BitsOf(Shr(v, j), m) + BitsOf(v, j)
  {
    if j > 0 {
      BitsOfSplit(v / 2, m, j - 1);
    }
  }

  lemma {:induction false} BytesToBitsAppend(a: seq<Byte>, b: seq<Byte>)
    ensures BytesToBits(a + b) == BytesToBits(a) + BytesToBits(b)
  {
    if a == [] {
      assert a + b == b;
    } else {
      assert (a + b)[0] == a[0];
      assert (a + b)[1..] == a[1..] + b;
      BytesToBitsAppend(a[1..], b);
    }
  }

  lemma BytesToBitsPrefix(bs: seq<Byte>, k: nat)
    requires k <= |bs|
    ensures BytesToBits(bs)[..8 * k] == BytesToBits(bs[..k])
    ensures BytesToBits(bs)[8 * k..] == BytesToBits(bs[k..])
  {
    assert bs == bs[..k] + bs[k..];
    BytesToBitsAppend(bs[..k], bs[k..]);
  }

  lemma BytesToBitsSingle(b: Byte)
    ensures BytesToBits([b]) == BitsOf(b, 8)
  {
  }

  /// Grouping the bits of a byte sequence into octets gives the bytes back.
  lemma {:induction false} BitsToBytesOfBytesToBits(bs: seq<Byte>)
    ensures BitsToBytes(BytesToBits(bs)) == bs
  {
    if bs != [] {
      var bits := BytesToBits(bs);
      assert bits[..8] == BitsOf(bs[0], 8);
      assert bits[8..] == BytesToBits(bs[1..]);
      assert Pow2(8) == 256;
      ValueOfBitsOf(bs[0], 8);
      BitsToBytesOfBytesToBits(bs[1..]);
    }
  }

  /// Splitting the bytes of a whole number of octets gives the bits back.
  lemma {:induction false} BytesToBitsOfBitsToBytes(bits: seq<bool>)
    requires |bits| % 8 == 0
    ensures BytesToBits(BitsToBytes(bits)) == bits
  {
    if bits != [] {
      BitsOfValueOf(bits[..8]);
      BytesToBitsOfBitsToBytes(bits[8..]);
      assert bits == bits[..8] + bits[8..];
    }
  }

  /// The bytes `to_be_bytes` produces carry the bits of the number, most significant first.
  lemma {:induction false} BigEndianBits(v: nat, k: nat)
    ensures BytesToBits(BigEndian(v, k)) == BitsOf(v, 8 * k)
    decreases k
  {
    if k > 0 {
      ShrDiv(v, 8);
      assert Pow2(8) == 256;
      BigEndianBits(Shr(v, 8), k - 1);
      BytesToBitsAppend(BigEndian(Shr(v, 8), k - 1), [v % 256]);
      BitsOfSplit(v, 8 * (k - 1), 8);
      assert Pow2(8) == 256;
      BitsOfAddHigh(v / 256, v % 256, 8);
    }
  }

  /// Reading `k` big-endian bytes back gives the number, when it fits in them.
  lemma BigEndianValue(v: nat, k: nat)
    requires v < Pow2(8 * k)
    ensures ValueOf(BytesToBits(BigEndian(v, k))) == v
  {
    BigEndianBits(v, k);
    ValueOfBitsOf(v, 8 * k);
  }

  /// Shifting right by `k` is dividing by 2^k.
  lemma {:induction false} ShrDiv(v: nat, k: nat)
    ensures Shr(v, k) == v / Pow2(k)
  {
    if k > 0 {
      ShrDiv(v / 2, k - 1);
      HalveDiv(v, Pow2(k - 1));
    }
  }

  /// Halving, then dividing by `p`, is dividing by `2 * p`.
  lemma HalveDiv(v: nat, p: nat)
    requires p > 0
    ensures (v / 2) / p == v / (2 * p)
  {
    var q := v / 2;
    var a := q / p;
    var b := q % p;
    DivMod(q, p);
    MulTwice(a, p);
    assert v == (2 * p) * a + (2 * b + v % 2);
    DivUnique(v, 2 * p, a, 2 * b + v % 2);
  }

  lemma DivUnique(v: nat, d: nat, a: nat, r: nat)
    requires d > 0 && r < d && v == d * a + r
    ensures v / d == a
  {
    var a' := v / d;
    DivMod(v, d);
    if a' > a {
      MulMore(d, a, a' - a);
    } else if a' < a {
      MulMore(d, a', a - a');
    }
  }

  lemma MulMore(d: nat, x: nat, e: nat)
    requires e > 0
    ensures d * (x + e) >= d * x + d
  {
    assert d * (x + e) == d * x + d * e;
    assert d * e >= d * 1;
  }

  // ---------------------------------------------------------------------------
  // Reader

  /// `Bits<T: Buf>`: a buffer cursor plus the partly consumed byte.
  class BitReader {
    var buf: seq<Byte>
    var bit: nat
    var byte: Byte

    ghost predicate Valid()
      reads this
    {
      bit < 8
    }

    /// The bits not yet read: the rest of the current byte, then the buffer.
    function Unread(): seq<bool>
      reads this
      requires Valid()
    {
      (if bit == 0 then [] else BitsOf(byte, 8)[bit..]) + BytesToBits(buf)
    }

    /// `Bits::from(buf)`.
    constructor (b: seq<Byte>)
      ensures Valid() && bit == 0 && buf == b
      ensures Unread() == BytesToBits(b)
    {
      buf, bit, byte := b, 0, 0;
    }

    /// `get_un(n)`: the next `n` bits as a number. `ok` is false where the buffer
    /// runs dry, where the source's `get_u8` panics.
    method GetUn(n: nat) returns (v: nat, ok: bool)
      requires Valid() && n <= 128
      requires n % 8 == 0 ==> bit == 0
      modifies this
      ensures Valid()
      ensures ok <==> n <= |old(Unread())|
      ensures ok ==> v == ValueOf(old(Unread())[..n]) && Unread() == old(Unread())[n..]
      ensures ok ==> bit == (old(bit) + n) % 8
    {
      if n > |Unread()| {
        return 0, false;
      }
      ok := true;
      if n % 8 == 0 {
        v := GetBytes(n / 8);
      } else {
        v := GetBits(n, Unread());
      }
    }

    /// The byte-aligned path of `get_un`: `num = (num << 8) | get_u8()`, `n / 8` times.
    method GetBytes(k: nat) returns (v: nat)
      requires Valid() && bit == 0 && k <= |buf|
      modifies this
      ensures Valid() && bit == 0
      ensures v == ValueOf(old(Unread())[..8 * k]) && Unread() == old(Unread())[8 * k..]
    {
      var num: nat := 0;
      var j := 0;
      while j < k
        invariant 0 <= j <= k && bit == 0
        invariant buf == old(buf)[j..]
        invariant num == ValueOf(BytesToBits(old(buf)[..j]))
      {
        var b := buf[0];
        buf := buf[1..];
        assert old(buf)[..j + 1] == old(buf)[..j] + [b];
        BytesToBitsAppend(old(buf)[..j], [b]);
        BytesToBitsSingle(b);
        ValueOfAppend(BytesToBits(old(buf)[..j]), BitsOf(b, 8));
        assert Pow2(8) == 256;
        ValueOfBitsOf(b, 8);
        num := num * 256 + b;
        j := j + 1;
      }
      BytesToBitsPrefix(old(buf), k);
      assert old(Unread()) == BytesToBits(old(buf));
      assert Unread() == BytesToBits(buf);
      v := num;
    }

    /// The unaligned path of `get_un`: one bit at a time, `(byte >> (7 - bit)) & 1`,
    /// loading a fresh byte whenever the cursor is on a byte boundary.
    method GetBits(n: nat, ghost start: seq<bool>) returns (v: nat)
      requires Valid() && Unread() == start && n <= |start|
      modifies this
      ensures Valid()
      ensures v == ValueOf(start[..n]) && Unread() == start[n..]
      ensures bit == (old(bit) + n) % 8
    {
      var num := 0;
      var i := 0;
      while i < n
        invariant 0 <= i <= n && Valid()
        invariant Unread() == start[i..]
        invariant num == ValueOf(start[..i])
      {
        SuffixCons(start, i);
        var x := ReadBit(start[i..]);
        AppendBit(start, i, num, x);
        num := 2 * num + x;
        i := i + 1;
      }
      PositionFromLength(old(bit), |old(buf)|, bit, |buf|, n);
      v := num;
    }

    /// One step of the unaligned path: the next bit of the unread bits `u`, as 0 or 1.
    method ReadBit(ghost u: seq<bool>) returns (x: nat)
      requires Valid() && Unread() == u && |u| > 0
      modifies this
      ensures Valid() && x < 2
      ensures (x == 1) == u[0]
      ensures Unread() == u[1..]
      ensures bit == if old(bit) == 7 then 0 else old(bit) + 1
    {
      if bit == 0 {
        LoadByte(buf);
        byte := buf[0];
        buf := buf[1..];
      }
      assert u == BitsOf(byte, 8)[bit..] + BytesToBits(buf);
      ReadOneBit(byte, 8, bit, BytesToBits(buf));
      NextBitRest(BitsOf(byte, 8), bit);
      x := Shr(byte, 7 - bit) % 2;
      bit := (bit + 1) % 8;
    }
  }

  /// Shifting the next bit into the number read so far gives the number one bit longer.
  lemma AppendBit(s: seq<bool>, i: nat, num: nat, x: nat)
    requires i < |s| && num == ValueOf(s[..i]) && x < 2 && (x == 1) == s[i..][0]
    ensures 2 * num + x == ValueOf(s[..i + 1])
  {
    ValueOfStep(s, i);
  }

  /// A fresh byte's bits come first in the buffer's bits.
  lemma LoadByte(buf: seq<Byte>)
    requires |buf| > 0
    ensures BytesToBits(buf) == BitsOf(buf[0], 8)[0..] + BytesToBits(buf[1..])
  {
    assert BitsOf(buf[0], 8)[0..] == BitsOf(buf[0], 8);
  }

  /// Reading bit `j` of an `n`-bit encoding with `(v >> (n - 1 - j)) & 1` takes the first of
  /// the bits from `j` on.
  lemma ReadOneBit(v: nat, n: nat, j: nat, rest: seq<bool>)
    requires j < n
    ensures var u := BitsOf(v, n)[j..] + rest;
            |u| > 0 && (Shr(v, n - 1 - j) % 2 == 1) == u[0] && u[1..] == BitsOf(v, n)[j + 1..] + rest
  {
    BitsOfAt(v, n, j);
    assert (BitsOf(v, n)[j..] + rest)[1..] == BitsOf(v, n)[j + 1..] + rest;
  }

  /// The bits after position `bit` of a byte, as the reader holds them once `bit` wraps.
  lemma NextBitRest(s: seq<bool>, bit: nat)
    requires |s| == 8 && bit < 8
    ensures s[bit + 1..] == if (bit + 1) % 8 == 0 then [] else s[(bit + 1) % 8..]
  {
  }

  // ---------------------------------------------------------------------------
  // Writer

  /// Shifting bit `x` into a partial byte of `bit` bits appends `x` to what was written.
  lemma ShiftInWritten(buf: seq<Byte>, byte: nat, bit: nat, x: nat)
    requires bit < 8 && byte < Pow2(bit) && x < 2
    ensures 2 * byte + x < Pow2(bit + 1) <= 256
    ensures BytesToBits(buf) + BitsOf(2 * byte + x, bit + 1) == (BytesToBits(buf) + BitsOf(byte, bit)) + [x == 1]
  {
    Pow2Monotone(bit + 1, 8);
    assert Pow2(8) == 256;
    BitsOfShiftIn(byte, bit, x);
  }

  /// A completed byte moves from the partial byte to the buffer.
  lemma FlushWritten(buf: seq<Byte>, b: Byte)
    ensures BytesToBits(buf + [b]) + BitsOf(0, 0) == BytesToBits(buf) + BitsOf(b, 8)
  {
    BytesToBitsAppend(buf, [b]);
    BytesToBitsSingle(b);
  }

  /// `BitsMut`: completed bytes plus the byte being filled, `bit` bits of it so far.
  class BitWriter {
    var buf: seq<Byte>
    var bit: nat
    var byte: Byte

    ghost predicate Valid()
      reads this
    {
      bit < 8 && byte < Pow2(bit)
    }

    /// Everything written so far, including the pending bits of the unfinished byte.
    function Written(): seq<bool>
      reads this
      requires Valid()
    {
      BytesToBits(buf) + BitsOf(byte, bit)
    }

    /// `BitsMut::new()`.
    constructor ()
      ensures Valid() && buf == [] && bit == 0 && Written() == []
    {
      buf, bit, byte := [], 0, 0;
    }

    /// `put_un(val, n)`: appends the low `n` bits of `val`, most significant first.
    method PutUn(val: nat, n: nat)
      requires Valid() && n <= 128
      requires n % 8 == 0 ==> bit == 0
      modifies this
      ensures Valid()
      ensures Written() == old(Written()) + BitsOf(val, n)
      ensures bit == (old(bit) + n) % 8
    {
      if n % 8 == 0 {
        PutBytes(val, n / 8);
      } else {
        PutBits(val, n);
      }
    }

    /// The byte-aligned path of `put_un`: `(num >> (8 * (b - i))) as u8` for each byte.
    method PutBytes(val: nat, k: nat)
      requires Valid() && bit == 0
      modifies this
      ensures Valid() && bit == 0
      ensures buf == old(buf) + BigEndian(val, k)
      ensures Written() == old(Written()) + BitsOf(val, 8 * k)
    {
      var j := 0;
      while j < k
        invariant 0 <= j <= k && bit == 0 && byte == 0
        invariant buf == old(buf) + BigEndian(Shr(val, 8 * (k - j)), j)
      {
        var w := Shr(val, 8 * (k - j - 1));
        ShrAdd(val, 8 * (k - j - 1), 8);
        ShrDiv(w, 8);
        assert Pow2(8) == 256;
        assert 8 * (k - j - 1) + 8 == 8 * (k - j);
        buf := buf + [w % 256];
        j := j + 1;
      }
      BigEndianBits(val, k);
      BytesToBitsAppend(old(buf), BigEndian(val, k));
    }

    /// The unaligned path of `put_un`: `byte = (byte << 1) | ((num >> (n - i)) & 1)`,
    /// emitting the byte whenever it fills up.
    method PutBits(val: nat, n: nat)
      requires Valid()
      modifies this
      ensures Valid()
      ensures Written() == old(Written()) + BitsOf(val, n)
      ensures bit == (old(bit) + n) % 8
    {
      var i := 0;
      while i < n
        invariant 0 <= i <= n && Valid()
        invariant Written() == old(Written()) + BitsOf(val, n)[..i]
        invariant bit == (old(bit) + i) % 8
      {
        var x := Shr(val, n - 1 - i) % 2;
        ghost var done := BitsOf(val, n)[..i];
        assert BitsOf(val, n)[..i + 1] == done + [x == 1] by {
          BitsOfAt(val, n, i);
        }
        ghost var before := Written();
        PutBit(x);
        assert old(Written()) + (done + [x == 1]) == before + [x == 1];
        ModEightStep(old(bit) + i);
        i := i + 1;
      }
    }

    /// One step of the unaligned path: shifts bit `x` into the pending byte and
    /// emits the byte once it holds eight bits.
    method PutBit(x: nat)
      requires Valid() && x < 2
      modifies this
      ensures Valid()
      ensures Written() == old(Written()) + [x == 1]
      ensures bit == (old(bit) + 1) % 8
    {
      ShiftInWritten(buf, byte, bit, x);
      byte := 2 * byte + x;
      bit := bit + 1;
      if bit == 8 {
        FlushWritten(buf, byte);
        buf := buf + [byte];
        byte := 0;
        bit := 0;
      }
    }

    /// `extend_from_slice`: appends whole bytes; the writer must be on a byte boundary.
    method ExtendFromSlice(s: seq<Byte>)
      requires Valid() && bit == 0
      modifies this
      ensures Valid() && bit == 0
      ensures buf == old(buf) + s
      ensures Written() == old(Written()) + BytesToBits(s)
    {
      BytesToBitsAppend(buf, s);
      buf := buf + s;
    }

    /// `BytesMut::from(BitsMut)`: the completed bytes only; pending bits are dropped.
    method IntoBytes() returns (r: seq<Byte>)
      requires Valid()
      ensures r == buf
      ensures BytesToBits(r) == Written()[..8 * |r|]
      ensures |Written()| - 8 * |r| == bit
    {
      r := buf;
    }
  }
}
