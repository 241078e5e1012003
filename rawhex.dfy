/// The `raw_hex!` macro: a string of hexadecimal digit pairs decoded into bytes, the first digit of
/// each pair being the high nibble. The macro panics on an odd number of characters and on a pair
/// that `u8::from_str_radix(_, 16)` rejects; both panics are modelled as errors.
module RawHex {
  import opened Common

  /// Why `raw_hex!` panics: the string ends after the first character of a pair, or the pair
  /// starting at character index `at` is not a base-16 number.
  datatype HexError = OddLength | BadPair(at: nat)

  /// The value of one base-16 digit (`0-9`, `a-f`, `A-F`), or `None`.
  function DigitValue(c: char): (r: Option<nat>)
    ensures r.Some? ==> r.value < 16
    ensures r.Some? <==> '0' <= c <= '9' || 'a' <= c <= 'f' || 'A' <= c <= 'F'
  {
    if '0' <= c <= '9' then Some(c as int - '0' as int)
    else if 'a' <= c <= 'f' then Some(c as int - 'a' as int + 10)
    else if 'A' <= c <= 'F' then Some(c as int - 'A' as int + 10)
    else None
  }

  /// `u8::from_str_radix` of the two-character string `hi lo` in base 16. An unsigned parse
  /// accepts one leading `+`, so `"+7"` decodes to 7.
  function PairValue(hi: char, lo: char): (r: Option<Byte>)
    ensures r.Some? <==> (hi == '+' || DigitValue(hi).Some?) && DigitValue(lo).Some?
    ensures DigitValue(hi).Some? && DigitValue(lo).Some? ==>
              r == Some(16 * DigitValue(hi).value + DigitValue(lo).value)
  {
    if hi == '+' then
      (if DigitValue(lo).Some? then Some(DigitValue(lo).value) else None)
    else if DigitValue(hi).Some? && DigitValue(lo).Some? then
      Some(16 * DigitValue(hi).value + DigitValue(lo).value)
    else None
  }

  /// An error found `k` characters further into the string.
  function Shifted(e: HexError, k: nat): HexError
  {
    match e
    case OddLength => OddLength
    case BadPair(i) => BadPair(i + k)
  }

  /// What the macro's loop produces, stated recursively: pairs left to right, the first bad pair
  /// or a dangling last character ending the decode with a panic.
  function Decode(s: string): (r: Result<seq<Byte>, HexError>)
    ensures r.Ok? ==> 2 * |r.value| == |s|
    ensures |s| % 2 == 1 ==> r.Err?
    decreases |s|
  {
    if s == [] then Ok([])
    else if |s| == 1 then Err(OddLength)
    else match PairValue(s[0], s[1])
      case None => Err(BadPair(0))
      case Some(b) =>
        var rest := Decode(s[2..]);
        if rest.Err? then Err(Shifted(rest.error, 2)) else Ok([b] + rest.value)
  }

  /// Byte `i` of a successful decode is the value of the pair at characters `2i` and `2i + 1`.
  lemma {:induction false} DecodePairs(s: string)
    requires Decode(s).Ok?
    ensures forall i :: 0 <= i < |Decode(s).value| ==> PairValue(s[2 * i], s[2 * i + 1]) == Some(Decode(s).value[i])
    decreases |s|
  {
    if s != [] {
      DecodePairs(s[2..]);
      forall i | 0 <= i < |Decode(s).value|
        ensures PairValue(s[2 * i], s[2 * i + 1]) == Some(Decode(s).value[i])
      {
        if i > 0 {
          assert s[2 * i] == s[2..][2 * (i - 1)] && s[2 * i + 1] == s[2..][2 * (i - 1) + 1];
        }
      }
    }
  }

  /// The decode succeeds exactly on strings of even length whose every pair is a base-16 number.
  lemma {:induction false} DecodeOk(s: string)
    ensures Decode(s).Ok? <==>
              |s| % 2 == 0 && forall i :: 0 <= i < |s| / 2 ==> PairValue(s[2 * i], s[2 * i + 1]).Some?
    decreases |s|
  {
    if |s| >= 2 {
      var t := s[2..];
      assert |t| == |s| - 2 && |t| / 2 == |s| / 2 - 1 && |t| % 2 == |s| % 2;
      DecodeOk(t);
      if PairValue(s[0], s[1]).None? {
        assert s[2 * 0] == s[0] && s[2 * 0 + 1] == s[1];
      }
      if PairValue(s[0], s[1]).Some? && Decode(t).Err? {
        if |s| % 2 == 0 {
          var j :| 0 <= j < |t| / 2 && PairValue(t[2 * j], t[2 * j + 1]).None?;
          assert s[2 * (j + 1)] == t[2 * j] && s[2 * (j + 1) + 1] == t[2 * j + 1];
        }
      }
      if Decode(t).Ok? && PairValue(s[0], s[1]).Some? {
        forall i | 0 <= i < |s| / 2
          ensures PairValue(s[2 * i], s[2 * i + 1]).Some?
        {
          if i > 0 {
            assert s[2 * i] == t[2 * (i - 1)] && s[2 * i + 1] == t[2 * (i - 1) + 1];
          }
        }
      }
    }
  }

  /// The lower-case digit of a nibble.
  function Digit(n: nat): (c: char)
    requires n < 16
    ensures DigitValue(c) == Some(n)
  {
    if n < 10 then ('0' as int + n) as char else ('a' as int + n - 10) as char
  }

  /// Bytes written as lower-case hexadecimal digit pairs, high nibble first.
  function Encode(bs: seq<Byte>): (s: string)
    ensures |s| == 2 * |bs|
  {
    if bs == [] then [] else [Digit(bs[0] / 16), Digit(bs[0] % 16)] + Encode(bs[1..])
  }

  /// Decoding undoes hexadecimal encoding.
  lemma {:induction false} DecodeEncode(bs: seq<Byte>)
    ensures Decode(Encode(bs)) == Ok(bs)
  {
    if bs != [] {
      var s := Encode(bs);
      DecodeEncode(bs[1..]);
      assert s[2..] == Encode(bs[1..]);
      assert PairValue(s[0], s[1]) == Some(bs[0]);
      assert bs == [bs[0]] + bs[1..];
    }
  }

  /// One decoded pair in front of an already decoded rest.
  lemma DecodePairAt(s: string, i: nat, b: Byte, r: seq<Byte>)
    requires i + 2 <= |s| && PairValue(s[i], s[i + 1]) == Some(b) && Decode(s[i + 2..]) == Ok(r)
    ensures Decode(s[i..]) == Ok([b] + r)
  {
    assert s[i..][2..] == s[i + 2..];
  }

  /// Four pairs decode to four bytes.
  lemma DecodeQuad(s: string, a: Byte, b: Byte, c: Byte, d: Byte)
    requires |s| == 8
    requires PairValue(s[0], s[1]) == Some(a) && PairValue(s[2], s[3]) == Some(b)
    requires PairValue(s[4], s[5]) == Some(c) && PairValue(s[6], s[7]) == Some(d)
    ensures Decode(s) == Ok([a, b, c, d])
  {
    assert s[8..] == [];
    DecodePairAt(s, 6, d, []);
    assert [d] + [] == [d];
    DecodePairAt(s, 4, c, [d]);
    assert [c] + [d] == [c, d];
    DecodePairAt(s, 2, b, [c, d]);
    assert [b] + [c, d] == [b, c, d];
    DecodePairAt(s, 0, a, [b, c, d]);
    assert [a] + [b, c, d] == [a, b, c, d];
    assert s[0..] == s;
  }

  /// Decoding a concatenation whose first part decodes is decoding the second part after it.
  lemma {:induction false} DecodeAppend(a: string, b: string)
    requires Decode(a).Ok?
    ensures Decode(a + b) == Joined(Decode(a).value, Decode(b), |a|)
    decreases |a|
  {
    if a == [] {
      assert a + b == b;
      assert Decode(b).Ok? ==> [] + Decode(b).value == Decode(b).value;
    } else {
      var ab := a + b;
      assert ab[0] == a[0] && ab[1] == a[1] && ab[2..] == a[2..] + b;
      DecodeAppend(a[2..], b);
      var x := PairValue(a[0], a[1]).value;
      var r := Decode(a[2..]).value;
      assert Decode(a).value == [x] + r;
      if Decode(b).Ok? {
        assert [x] + (r + Decode(b).value) == ([x] + r) + Decode(b).value;
      }
    }
  }

  /// Two texts that decode, one after the other, decode to their bytes one after the other.
  lemma DecodeConcat(a: string, b: string)
    requires Decode(a).Ok? && Decode(b).Ok?
    ensures Decode(a + b) == Ok(Decode(a).value + Decode(b).value)
  {
    DecodeAppend(a, b);
  }

  /// The result of the decode so far, `done` bytes from the first `k` characters, joined to the
  /// decode of the remaining characters.
  function Joined(done: seq<Byte>, rest: Result<seq<Byte>, HexError>, k: nat): Result<seq<Byte>, HexError>
  {
    if rest.Ok? then Ok(done + rest.value) else Err(Shifted(rest.error, k))
  }

  /// How the joined result reads at one loop step: a panic at a dangling character or a bad pair,
  /// or one more byte moved from the rest to the bytes done.
  lemma JoinedStep(s: string, i: nat, done: seq<Byte>)
    requires i < |s|
    ensures i + 1 == |s| ==> Joined(done, Decode(s[i..]), i) == Err(OddLength)
    ensures i + 1 < |s| && PairValue(s[i], s[i + 1]).None? ==> Joined(done, Decode(s[i..]), i) == Err(BadPair(i))
    ensures i + 1 < |s| && PairValue(s[i], s[i + 1]).Some? ==>
              Joined(done, Decode(s[i..]), i) == Joined(done + [PairValue(s[i], s[i + 1]).value], Decode(s[i + 2..]), i + 2)
  {
    assert s[i..][0] == s[i];
    if i + 1 < |s| {
      assert s[i..][1] == s[i + 1] && s[i..][2..] == s[i + 2..];
      var rest := Decode(s[i + 2..]);
      if PairValue(s[i], s[i + 1]).Some? && rest.Ok? {
        assert done + ([PairValue(s[i], s[i + 1]).value] + rest.value) == (done + [PairValue(s[i], s[i + 1]).value]) + rest.value;
      }
    }
  }

  /// The macro's loop: take a character, take the next one or panic, parse the pair or panic,
  /// push the byte.
  method DecodeLoop(s: string) returns (r: Result<seq<Byte>, HexError>)
    ensures r == Decode(s)
  {
    var vec: seq<Byte> := [];
    var i := 0;
    assert s[0..] == s;
    assert Decode(s).Ok? ==> vec + Decode(s).value == Decode(s).value;
    while i < |s|
      invariant 0 <= i <= |s| && i % 2 == 0
      invariant Decode(s) == Joined(vec, Decode(s[i..]), i)
      decreases |s| - i
    {
      JoinedStep(s, i, vec);
      var c := s[i];
      i := i + 1;
      if i >= |s| {
        return Err(OddLength);
      }
      var c2 := s[i];
      i := i + 1;
      var byte := PairValue(c, c2);
      if byte.None? {
        return Err(BadPair(i - 2));
      }
      vec := vec + [byte.value];
    }
    assert s[i..] == [] && vec + [] == vec;
    return Ok(vec);
  }
}
