/// The code that `#[raw_packet]` generates for a packet struct: how each field is
/// classified from its declared type, and what the generated `to_bytes_mut`,
/// `from_buf` and `Default` do with the classified fields.
module Decorator {
  import opened Common
  import opened Util
  import opened Bits

  // ---------------------------------------------------------------------------
  // Field classification (`get_field_tuples`)

  /// `BitSize`: a plain integer of `width` bits, `width` zero bits of padding,
  /// a vector of `elem` sized by the field named `size` (or by the end of the
  /// buffer when `size` is empty), or an IPv4 address.
  datatype FieldKind = Data(width: nat) | Zero(width: nat) | VecOf(elem: string, size: string) | Ipv4

  /// One declared field: its name, its type as the token printer renders it,
  /// whether it is `pub`, and the text of its `#[size(..)]` attribute (empty if none).
  datatype FieldDecl = FieldDecl(name: string, ty: string, isPub: bool, sizeAttr: string)

  datatype Field = Field(name: string, kind: FieldKind)

  predicate IsSpace(c: char) {
    c == ' ' || c == '\t' || c == '\n' || c == '\r' || c == '\U{0B}' || c == '\U{0C}'
  }

  predicate IsDigit(c: char) {
    '0' <= c <= '9'
  }

  predicate IsWordChar(c: char) {
    'a' <= c <= 'z' || 'A' <= c <= 'Z' || IsDigit(c) || c == '_'
  }

  /// Length of the longest prefix of `s` whose characters all satisfy `p` (a greedy `p*`).
  function Span(s: string, p: char -> bool): (n: nat)
    ensures n <= |s|
    ensures forall i :: 0 <= i < n ==> p(s[i])
    ensures n == |s| || !p(s[n])
  {
    if s == [] || !p(s[0]) then 0 else 1 + Span(s[1..], p)
  }

  /// The decimal value of a string of ASCII digits.
  function DecimalValue(s: string): nat
    requires forall i :: 0 <= i < |s| ==> IsDigit(s[i])
  {
    if s == [] then 0
    else
      assert IsDigit(s[|s| - 1]);
      10 * DecimalValue(s[..|s| - 1]) + (s[|s| - 1] as int - '0' as int)
  }

  /// `caps[1].parse::<u32>()`: `None` when the digits overflow a `u32`.
  function ParseU32(s: string): (r: Option<nat>)
    requires forall i :: 0 <= i < |s| ==> IsDigit(s[i])
    ensures r.Some? ==> r.value < 0x1_0000_0000
  {
    var v := DecimalValue(s);
    if v < 0x1_0000_0000 then Some(v) else None
  }

  /// `s` with a greedy run of whitespace removed from its front.
  function SkipSpace(s: string): string
  {
    s[Span(s, IsSpace)..]
  }

  /// `s` with an optional `c` removed from its front.
  function SkipOpt(s: string, c: char): string
  {
    if s != [] && s[0] == c then s[1..] else s
  }

  /// The regular expression `\s*:?:?\s*<\s*` matched at the front of `s`: what follows it.
  function AfterOpenAngle(s: string): Option<string>
  {
    var t := SkipSpace(SkipOpt(SkipOpt(SkipSpace(s), ':'), ':'));
    if t != [] && t[0] == '<' then Some(SkipSpace(t[1..])) else None
  }

  /// `\s*>` at the front of `s`.
  predicate CloseAngle(s: string)
  {
    var t := SkipSpace(s);
    t != [] && t[0] == '>'
  }

  /// `PhantomData\s*:?:?\s*<\s*[ui](\d+)\s*>` anchored at the front of `s`: the digits.
  function ZeroAt(s: string): (r: Option<string>)
    ensures r.Some? ==> |r.value| > 0 && forall i :: 0 <= i < |r.value| ==> IsDigit(r.value[i])
  {
    if |s| < 11 || s[..11] != "PhantomData" then None
    else
      match AfterOpenAngle(s[11..])
      case None => None
      case Some(t) =>
        if t == [] || (t[0] != 'u' && t[0] != 'i') then None
        else
          var n := Span(t[1..], IsDigit);
          if n > 0 && CloseAngle(t[1..][n..]) then Some(t[1..][..n]) else None
  }

  /// `Vec\s*:?:?\s*<\s*(\w+)\s*>` anchored at the front of `s`: the element type name.
  function VecAt(s: string): (r: Option<string>)
    ensures r.Some? ==> |r.value| > 0
  {
    if |s| < 3 || s[..3] != "Vec" then None
    else
      match AfterOpenAngle(s[3..])
      case None => None
      case Some(t) =>
        var n := Span(t, IsWordChar);
        if n > 0 && CloseAngle(t[n..]) then Some(t[..n]) else None
  }

  /// The leftmost match of an anchored matcher anywhere in `s` (unanchored regex search).
  function Search(s: string, at: string -> Option<string>): (r: Option<string>)
    decreases |s|
  {
    if s == [] then at(s)
    else if at(s).Some? then at(s)
    else Search(s[1..], at)
  }

  /// `^[ui](\d+)`: the leading width digits of a primitive integer type name.
  function DataWidth(s: string): (r: Option<string>)
    ensures r.Some? ==> |r.value| > 0 && forall i :: 0 <= i < |r.value| ==> IsDigit(r.value[i])
  {
    if s == [] || (s[0] != 'u' && s[0] != 'i') then None
    else
      var n := Span(s[1..], IsDigit);
      if n > 0 then Some(s[1..][..n]) else None
  }

  /// `s.contains(w)`.
  predicate Contains(s: string, w: string)
    decreases |s|
  {
    |w| <= |s| && (s[..|w|] == w || (s != [] && Contains(s[1..], w)))
  }

  /// The classification of one field; `None` where the macro panics
  /// (a private field, an unparsable width, an unsupported type).
  function Classify(f: FieldDecl): (r: Option<FieldKind>)
    ensures r.Some? ==> f.isPub
    ensures r.Some? && r.value.VecOf? ==> r.value.size == f.sizeAttr
  {
    if !f.isPub then None
    else
      match Search(f.ty, ZeroAt)
      case Some(d) =>
        DigitsOfZero(f.ty);
        (match ParseU32(d) case Some(n) => Some(Zero(n)) case None => None)
      case None =>
        match DataWidth(f.ty)
        case Some(d) =>
          (match ParseU32(d) case Some(n) => Some(Data(n)) case None => None)
        case None =>
          match Search(f.ty, VecAt)
          case Some(t) => Some(VecOf(t, f.sizeAttr))
          case None =>
            if Contains(f.ty, "Ipv4Addr") then Some(Ipv4) else None
  }

  lemma {:induction false} DigitsOfZero(s: string)
    ensures Search(s, ZeroAt).Some? ==>
      forall i :: 0 <= i < |Search(s, ZeroAt).value| ==> IsDigit(Search(s, ZeroAt).value[i])
    decreases |s|
  {
    if s != [] && ZeroAt(s).None? {
      DigitsOfZero(s[1..]);
    }
  }

  /// `get_field_tuples`: the classified fields in declaration order, or `None`
  /// where the macro panics (a tuple or unit struct, or any field it rejects).
  function FieldTuples(named: bool, decls: seq<FieldDecl>): (r: Option<seq<Field>>)
    ensures r.Some? ==> named && |r.value| == |decls|
    ensures r.Some? ==> forall i :: 0 <= i < |decls| ==>
      r.value[i].name == decls[i].name && Classify(decls[i]) == Some(r.value[i].kind)
  {
    if !named then None
    else if decls == [] then Some([])
    else
      match Classify(decls[0])
      case None => None
      case Some(k) =>
        match FieldTuples(named, decls[1..])
        case None => None
        case Some(rest) => Some([Field(decls[0].name, k)] + rest)
  }

  // How the token printer renders the field types used by the packet structs,
  // and what `get_field_tuples` makes of them.

  lemma SkipOneSpace(s: string)
    requires |s| >= 2 && IsSpace(s[0]) && !IsSpace(s[1])
    ensures SkipSpace(s) == s[1..]
  {
  }

  lemma SkipNoSpace(s: string)
    requires s != [] && !IsSpace(s[0])
    ensures SkipSpace(s) == s
  {
  }

  /// `\s*:?:?\s*<\s*` over ` < ` followed by a word: what follows the blank after `<`.
  lemma SpacedAngle(s: string)
    requires |s| >= 4 && s[0] == ' ' && s[1] == '<' && s[2] == ' ' && !IsSpace(s[3])
    ensures AfterOpenAngle(s) == Some(s[3..])
  {
    SkipOneSpace(s);
    assert SkipOpt(SkipOpt(s[1..], ':'), ':') == s[1..];
    SkipNoSpace(s[1..]);
    assert s[1..][1..] == s[2..];
    SkipOneSpace(s[2..]);
    assert s[2..][1..] == s[3..];
  }

  /// No `PhantomData<..>` can start where there is no `P`.
  lemma {:induction false} NoPadding(s: string)
    requires forall i :: 0 <= i < |s| ==> s[i] != 'P'
    ensures Search(s, ZeroAt) == None
    decreases |s|
  {
    if s != [] {
      assert ZeroAt(s) == None by {
        if |s| >= 11 { assert s[..11][0] == s[0]; }
      }
      NoPadding(s[1..]);
    }
  }

  /// No `Vec<..>` can start where there is no `V`.
  lemma {:induction false} NoVector(s: string)
    requires forall i :: 0 <= i < |s| ==> s[i] != 'V'
    ensures Search(s, VecAt) == None
    decreases |s|
  {
    if s != [] {
      assert VecAt(s) == None by {
        if |s| >= 3 { assert s[..3][0] == s[0]; }
      }
      NoVector(s[1..]);
    }
  }

  /// A greedy run stops exactly where `p` first fails.
  lemma SpanUpTo(s: string, p: char -> bool, k: nat)
    requires k <= |s| && (forall i :: 0 <= i < k ==> p(s[i])) && (k == |s| || !p(s[k]))
    ensures Span(s, p) == k
  {
  }

  /// An integer type `u<digits>` or `i<digits>` is a `Data` field of that many
  /// bits; the macro panics when the width does not parse as a `u32`.
  lemma ClassifyInteger(name: string, c: char, digits: string, size: string)
    requires c == 'u' || c == 'i'
    requires digits != [] && forall i :: 0 <= i < |digits| ==> IsDigit(digits[i])
    ensures Classify(FieldDecl(name, [c] + digits, true, size))
      == if DecimalValue(digits) < 0x1_0000_0000 then Some(Data(DecimalValue(digits))) else None
  {
    var ty := [c] + digits;
    NoPadding(ty) by {
      forall i | 0 <= i < |ty| ensures ty[i] != 'P' {
        if i > 0 { assert ty[i] == digits[i - 1]; }
      }
    }
    assert ty[1..] == digits;
    SpanUpTo(digits, IsDigit, |digits|);
    assert digits[..|digits|] == digits;
    assert DataWidth(ty) == Some(digits);
  }

  /// An integer type with a suffix after its width, such as `u24be`, is classified by the
  /// width alone.
  lemma ClassifySuffixed(name: string, c: char, digits: string, suffix: string, size: string)
    requires c == 'u' || c == 'i'
    requires digits != [] && forall i :: 0 <= i < |digits| ==> IsDigit(digits[i])
    requires suffix != [] && !IsDigit(suffix[0]) && forall i :: 0 <= i < |suffix| ==> suffix[i] != 'P'
    ensures Classify(FieldDecl(name, [c] + digits + suffix, true, size))
      == if DecimalValue(digits) < 0x1_0000_0000 then Some(Data(DecimalValue(digits))) else None
  {
    var rest := digits + suffix;
    var ty := [c] + rest;
    assert [c] + digits + suffix == ty;
    NoPadding(ty) by {
      forall i | 0 <= i < |ty| ensures ty[i] != 'P' {
        if 0 < i <= |digits| { assert ty[i] == rest[i - 1] == digits[i - 1]; }
        else if i > |digits| { assert ty[i] == rest[i - 1] == suffix[i - 1 - |digits|]; }
      }
    }
    assert ty[1..] == rest;
    assert rest[|digits|] == suffix[0];
    SpanUpTo(rest, IsDigit, |digits|);
    assert rest[..|digits|] == digits;
    assert DataWidth(ty) == Some(digits);
  }

  /// `PhantomData < u<digits> >` is that many bits of padding.
  lemma ClassifyPadding(name: string, c: char, digits: string, size: string)
    requires c == 'u' || c == 'i'
    requires digits != [] && forall i :: 0 <= i < |digits| ==> IsDigit(digits[i])
    ensures Classify(FieldDecl(name, "PhantomData < " + [c] + digits + " >", true, size))
      == if DecimalValue(digits) < 0x1_0000_0000 then Some(Zero(DecimalValue(digits))) else None
  {
    var ty := "PhantomData < " + [c] + digits + " >";
    ZeroAtOf(ty, c, digits);
    SearchHere(ty, ZeroAt);
  }

  lemma ZeroAtOf(ty: string, c: char, digits: string)
    requires ty == "PhantomData < " + [c] + digits + " >"
    requires c == 'u' || c == 'i'
    requires digits != [] && forall i :: 0 <= i < |digits| ==> IsDigit(digits[i])
    ensures ZeroAt(ty) == Some(digits)
  {
    var t := [c] + (digits + " >");
    PaddingType(c, digits);
    WordThenClose(digits, IsDigit);
    assert t[1..] == digits + " >";
    OpenAngle(t);
    ZeroAtFront(" < " + t);
  }

  lemma PaddingType(c: char, digits: string)
    ensures "PhantomData < " + [c] + digits + " >" == "PhantomData" + (" < " + ([c] + (digits + " >")))
  {
    assert "PhantomData < " == "PhantomData" + " < ";
  }

  lemma ZeroAtFront(r: string)
    ensures ZeroAt("PhantomData" + r) == match AfterOpenAngle(r)
      case None => None
      case Some(t) =>
        if t == [] || (t[0] != 'u' && t[0] != 'i') then None
        else
          var n := Span(t[1..], IsDigit);
          if n > 0 && CloseAngle(t[1..][n..]) then Some(t[1..][..n]) else None
  {
    assert ("PhantomData" + r)[..11] == "PhantomData";
    assert ("PhantomData" + r)[11..] == r;
  }

  /// `Vec < name >` is a vector of `name`, sized by the `#[size(..)]` attribute.
  lemma ClassifyVector(field: string, name: string, size: string)
    requires name != [] && forall i :: 0 <= i < |name| ==> IsWordChar(name[i]) && name[i] != 'P'
    ensures Classify(FieldDecl(field, "Vec < " + name + " >", true, size)) == Some(VecOf(name, size))
  {
    VectorOf("Vec < " + name + " >", name);
  }

  /// `Vec < name >` for a word `name` without a `P`.
  lemma VectorOf(ty: string, name: string)
    requires ty == "Vec < " + name + " >"
    requires name != [] && forall i :: 0 <= i < |name| ==> IsWordChar(name[i]) && name[i] != 'P'
    ensures Search(ty, ZeroAt) == None && DataWidth(ty) == None
    ensures Search(ty, VecAt) == Some(name)
  {
    NoPadding(ty) by {
      forall i | 0 <= i < |ty| ensures ty[i] != 'P' {
        if 6 <= i < 6 + |name| { assert ty[i] == name[i - 6]; }
      }
    }
    VecAtOf(ty, name);
    SearchHere(ty, VecAt);
  }

  lemma VecAtOf(ty: string, name: string)
    requires ty == "Vec < " + name + " >"
    requires name != [] && forall i :: 0 <= i < |name| ==> IsWordChar(name[i])
    ensures VecAt(ty) == Some(name)
  {
    var t := name + " >";
    assert ty == "Vec" + (" < " + t);
    WordThenClose(name, IsWordChar);
    OpenAngle(t);
    VecAtFront(" < " + t);
  }

  lemma VecAtFront(r: string)
    ensures VecAt("Vec" + r) == match AfterOpenAngle(r)
      case None => None
      case Some(t) =>
        var n := Span(t, IsWordChar);
        if n > 0 && CloseAngle(t[n..]) then Some(t[..n]) else None
  {
    assert ("Vec" + r)[..3] == "Vec";
    assert ("Vec" + r)[3..] == r;
  }

  /// ` < ` followed by a non-blank.
  lemma OpenAngle(t: string)
    requires t != [] && !IsSpace(t[0])
    ensures AfterOpenAngle(" < " + t) == Some(t)
  {
    var s := " < " + t;
    SpacedAngle(s);
    assert s[3..] == t;
  }

  /// A non-empty run of `p` followed by ` >`: the run is the whole greedy match.
  lemma WordThenClose(w: string, p: char -> bool)
    requires w != [] && forall i :: 0 <= i < |w| ==> p(w[i])
    requires !p(' ')
    ensures Span(w + " >", p) == |w|
    ensures (w + " >")[..|w|] == w && CloseAngle((w + " >")[|w|..])
  {
    var t := w + " >";
    SpanUpTo(t, p, |w|) by {
      forall i | 0 <= i < |w| ensures p(t[i]) { assert t[i] == w[i]; }
      assert t[|w|] == ' ';
    }
    assert t[|w|..] == " >";
    SkipOneSpace(" >");
    assert t[..|w|] == w;
  }

  /// A search that matches at the front returns that match.
  lemma SearchHere(s: string, at: string -> Option<string>)
    requires at(s).Some?
    ensures Search(s, at) == at(s)
  {
  }

  lemma ClassifyAddress()
    ensures Classify(FieldDecl("network_mask", "Ipv4Addr", true, "")) == Some(Ipv4)
  {
    NoPadding("Ipv4Addr");
    NoVector("Ipv4Addr");
    assert "Ipv4Addr"[..8] == "Ipv4Addr";
  }

  /// The widths the packet structs use.
  lemma ClassifyWidths()
    ensures Classify(FieldDecl("options", "u8", true, "")) == Some(Data(8))
    ensures Classify(FieldDecl("length", "u16", true, "")) == Some(Data(16))
    ensures Classify(FieldDecl("router_id", "u32", true, "")) == Some(Data(32))
    ensures Classify(FieldDecl("tos", "PhantomData < u8 >", true, "")) == Some(Zero(8))
  {
    assert "u8" == ['u'] + "8";
    assert "u16" == ['u'] + "16";
    assert "u32" == ['u'] + "32";
    assert "PhantomData < u8 >" == "PhantomData < " + ['u'] + "8" + " >";
    assert DecimalValue("8") == 8 by { assert "8"[..0] == ""; }
    assert DecimalValue("16") == 16 by { assert "16"[..1] == "1"; assert "1"[..0] == ""; }
    assert DecimalValue("32") == 32 by { assert "32"[..1] == "3"; assert "3"[..0] == ""; }
    ClassifyInteger("options", 'u', "8", "");
    ClassifyInteger("length", 'u', "16", "");
    ClassifyInteger("router_id", 'u', "32", "");
    ClassifyPadding("tos", 'u', "8", "");
  }

  /// A field the macro classifies, in front of fields it accepts, is accepted in front of them.
  lemma TuplesCons(f: FieldDecl, k: FieldKind, rest: seq<FieldDecl>, l: seq<Field>)
    requires Classify(f) == Some(k) && FieldTuples(true, rest) == Some(l)
    ensures FieldTuples(true, [f] + rest) == Some([Field(f.name, k)] + l)
  {
    assert ([f] + rest)[0] == f && ([f] + rest)[1..] == rest;
  }

  /// A field the macro rejects makes it panic whatever precedes it.
  lemma TuplesRejected(front: seq<FieldDecl>, f: FieldDecl, rest: seq<FieldDecl>)
    requires Classify(f) == None
    ensures FieldTuples(true, front + [f] + rest) == None
    decreases |front|
  {
    if front == [] {
      assert front + [f] + rest == [f] + rest;
      assert ([f] + rest)[0] == f;
    } else {
      TuplesRejected(front[1..], f, rest);
      assert (front + [f] + rest)[1..] == front[1..] + [f] + rest;
    }
  }

  /// A field without `pub`, whatever its type, makes the macro panic.
  lemma ClassifyPrivate(name: string, ty: string, size: string)
    ensures Classify(FieldDecl(name, ty, false, size)) == None
    ensures FieldTuples(true, [FieldDecl(name, ty, false, size)]) == None
  {
  }

  /// A tuple or unit struct makes the macro panic.
  lemma TuplesNeedNames(decls: seq<FieldDecl>)
    ensures FieldTuples(false, decls) == None
  {
  }

}

module DecoratorCodec {
  import opened Common
  import opened Util
  import opened Bits
  import opened Decorator

  // ---------------------------------------------------------------------------
  // Field values

  /// The value one field holds: an integer, the unit `PhantomData`, an address,
  /// or the elements of a vector (all vectors of one struct share the type `T`).
  datatype Value<T> = Num(n: nat) | Pad | Addr(ip: Ipv4Addr) | Items(xs: seq<T>)

  /// A value of the type the field kind stands for.
  predicate FitsKind<T>(k: FieldKind, v: Value<T>)
  {
    match k
    case Data(n) => v.Num? && v.n < Pow2(n)
    case Zero(_) => v.Pad?
    case VecOf(_, _) => v.Items?
    case Ipv4 => v.Addr?
  }

  predicate Fits<T>(fields: seq<Field>, vals: seq<Value<T>>)
  {
    |fields| == |vals| && forall i :: 0 <= i < |fields| ==> FitsKind(fields[i].kind, vals[i])
  }

  /// The payload of a value of each shape (a default for the other shapes; the
  /// source's field types rule those out).
  function NumOf<T>(v: Value<T>): nat
  {
    if v.Num? then v.n else 0
  }

  function ItemsOf<T>(v: Value<T>): seq<T>
  {
    if v.Items? then v.xs else []
  }

  function IpOf<T>(v: Value<T>): Ipv4Addr
  {
    if v.Addr? then v.ip else Unspecified
  }

  /// `ip.octets()`.
  function Octets(ip: Ipv4Addr): seq<Byte>
  {
    [ip.a as int, ip.b as int, ip.c as int, ip.d as int]
  }

  /// `Ipv4Addr::from` of four octets.
  function IpOfOctets(o: seq<Byte>): Ipv4Addr
    requires |o| == 4
  {
    Ipv4Addr(o[0] as bv8, o[1] as bv8, o[2] as bv8, o[3] as bv8)
  }

  lemma IpOfOctetsOfIp(ip: Ipv4Addr)
    ensures IpOfOctets(Octets(ip)) == ip
  {
  }

  /// `Vec<T>::to_bytes`: the element encodings, in order, back to back.
  function Concat<T>(enc: T -> seq<Byte>, xs: seq<T>): seq<Byte>
  {
    if xs == [] then [] else enc(xs[0]) + Concat(enc, xs[1..])
  }

  // ---------------------------------------------------------------------------
  // Generated `to_bytes_mut`

  /// The kinds whose `put_un`/`extend_from_slice` asserts that the writer is on a byte boundary.
  predicate NeedsAlignment(k: FieldKind)
  {
    match k
    case Data(n) => n % 8 == 0
    case Zero(n) => n % 8 == 0
    case _ => true
  }

  /// One field's statement of the generated encoder, applied to the bits written so far;
  /// `None` where its alignment assertion fails.
  function PutField<T>(k: FieldKind, v: Value<T>, enc: T -> seq<Byte>, w: seq<bool>): Option<seq<bool>>
  {
    if NeedsAlignment(k) && |w| % 8 != 0 then None
    else
      match k
      case Data(n) => Some(w + BitsOf(NumOf(v), n))
      case Zero(n) => Some(w + BitsOf(0, n))
      case VecOf(_, _) => Some(w + BytesToBits(Concat(enc, ItemsOf(v))))
      case Ipv4 => Some(w + BytesToBits(Octets(IpOf(v))))
  }

  function PutFields<T>(fields: seq<Field>, vals: seq<Value<T>>, enc: T -> seq<Byte>, w: seq<bool>): Option<seq<bool>>
    requires |fields| == |vals|
  {
    if fields == [] then Some(w)
    else
      match PutField(fields[0].kind, vals[0], enc, w)
      case None => None
      case Some(w') => PutFields(fields[1..], vals[1..], enc, w')
  }

  /// The generated `to_bytes_mut`: every field in declaration order into a fresh
  /// `BitsMut`, then its completed bytes.
  function ToBytesMut<T>(fields: seq<Field>, vals: seq<Value<T>>, enc: T -> seq<Byte>): Option<seq<Byte>>
    requires |fields| == |vals|
  {
    match PutFields(fields, vals, enc, [])
    case None => None
    case Some(w) => Some(BitsToBytes(w[..|w| - |w| % 8]))
  }

  // ---------------------------------------------------------------------------
  // Generated `from_buf`
  //
  // A `Bits` reader is described by its unread bits `u`: the rest of the current
  // byte (the first `|u| % 8` bits) followed by the bytes still in the buffer.

  function PendingLen(u: seq<bool>): nat
  {
    |u| % 8
  }

  /// The bytes still in the underlying buffer (what `get_buf()` hands out).
  function Buffer(u: seq<bool>): seq<Byte>
  {
    BitsToBytes(u[PendingLen(u)..])
  }

  /// The reader after `c` bytes were taken straight from its underlying buffer.
  function TakeFromBuffer(u: seq<bool>, c: nat): (r: seq<bool>)
    requires c <= |Buffer(u)|
    ensures |r| == |u| - 8 * c
  {
    u[..PendingLen(u)] + BytesToBits(Buffer(u)[c..])
  }

  /// One declaration of the generated decoder's struct literal; `None` where
  /// `get_un` or `get_u8` panics. Vector fields start empty.
  function GetField<T>(k: FieldKind, u: seq<bool>): (r: Option<(Value<T>, seq<bool>)>)
    ensures r.Some? ==> |r.value.1| <= |u|
  {
    match k
    case Data(n) =>
      if (n % 8 == 0 && |u| % 8 != 0) || n > |u| then None
      else Some((Num(ValueOf(u[..n])), u[n..]))
    case Zero(n) =>
      if (n % 8 == 0 && |u| % 8 != 0) || n > |u| then None
      else Some((Pad, u[n..]))
    case VecOf(_, _) => Some((Items([]), u))
    case Ipv4 =>
      if |Buffer(u)| < 4 then None
      else Some((Addr(IpOfOctets(Buffer(u)[..4])), TakeFromBuffer(u, 4)))
  }

  function GetFields<T>(fields: seq<Field>, u: seq<bool>): (r: Option<(seq<Value<T>>, seq<bool>)>)
    ensures r.Some? ==> |r.value.0| == |fields| && |r.value.1| <= |u|
  {
    if fields == [] then Some(([], u))
    else
      match GetField<T>(fields[0].kind, u)
      case None => None
      case Some((v, u')) =>
        match GetFields<T>(fields[1..], u')
        case None => None
        case Some((vs, u'')) => Some(([v] + vs, u''))
  }

  /// `T::from_buf` `k` times on the buffer: the elements and the bytes consumed.
  /// `None` where an element decoder panics.
  function DecodeCount<T>(dec: seq<Byte> -> Option<(T, nat)>, k: nat, b: seq<Byte>): (r: Option<(seq<T>, nat)>)
    ensures r.Some? ==> |r.value.0| == k && r.value.1 <= |b|
  {
    if k == 0 then Some(([], 0))
    else
      var d := dec(b);
      if d.None? || d.value.1 > |b| then None
      else Prepend([d.value.0], d.value.1, DecodeCount(dec, k - 1, b[d.value.1..]))
  }

  /// `while buf.has_remaining() { vec.push(T::from_buf(buf)) }`. An element decoder
  /// that consumes nothing would loop for ever; that case is `None` too.
  function DecodeUntilEmpty<T>(dec: seq<Byte> -> Option<(T, nat)>, b: seq<Byte>): (r: Option<(seq<T>, nat)>)
    ensures r.Some? ==> r.value.1 == |b|
    decreases |b|
  {
    if b == [] then Some(([], 0))
    else
      var d := dec(b);
      if d.None? || d.value.1 == 0 || d.value.1 > |b| then None
      else Prepend([d.value.0], d.value.1, DecodeUntilEmpty(dec, b[d.value.1..]))
  }

  /// `s.#sz`: the value of the first field called `name`, when it is an integer.
  function SizeOf<T>(fields: seq<Field>, vals: seq<Value<T>>, name: string): Option<nat>
    requires |fields| == |vals|
  {
    if fields == [] then None
    else if fields[0].name == name then (if vals[0].Num? then Some(vals[0].n) else None)
    else SizeOf(fields[1..], vals[1..], name)
  }

  /// One vector assignment on the underlying buffer `b`: a `#[size(f)]` vector decodes
  /// as many elements as `f` holds, a vector without one decodes until `b` is empty.
  function FillOne<T>(fields: seq<Field>, vals: seq<Value<T>>, size: string, b: seq<Byte>,
                      dec: seq<Byte> -> Option<(T, nat)>): (r: Option<(seq<T>, nat)>)
    requires |fields| == |vals|
    ensures r.Some? ==> r.value.1 <= |b|
  {
    if size == [] then DecodeUntilEmpty(dec, b)
    else
      match SizeOf(fields, vals, size)
      case None => None
      case Some(k) => DecodeCount(dec, k, b)
  }

  /// The generated assignments after the struct literal: each vector field, in
  /// declaration order from index `i`, filled from the underlying buffer.
  function FillVecs<T>(fields: seq<Field>, i: nat, vals: seq<Value<T>>, u: seq<bool>,
                       dec: seq<Byte> -> Option<(T, nat)>): (r: Option<(seq<Value<T>>, seq<bool>)>)
    requires |fields| == |vals| && i <= |fields|
    ensures r.Some? ==> |r.value.0| == |vals| && |r.value.1| <= |u|
    decreases |fields| - i
  {
    if i == |fields| then Some((vals, u))
    else if fields[i].kind.VecOf? then
      match FillOne(fields, vals, fields[i].kind.size, Buffer(u), dec)
      case None => None
      case Some((xs, c)) => FillVecs(fields, i + 1, vals[i := Items(xs)], TakeFromBuffer(u, c), dec)
    else FillVecs(fields, i + 1, vals, u, dec)
  }

  /// The generated `from_buf` on a byte buffer: the field values and the number of
  /// bytes taken from the buffer. Bits left in a partly read byte are lost with the reader.
  function FromBuf<T>(fields: seq<Field>, bytes: seq<Byte>, dec: seq<Byte> -> Option<(T, nat)>): Option<(seq<Value<T>>, nat)>
  {
    match GetFields<T>(fields, BytesToBits(bytes))
    case None => None
    case Some((vals, u)) =>
      match FillVecs(fields, 0, vals, u, dec)
      case None => None
      case Some((vals', u')) => Some((vals', |bytes| - |u'| / 8))
  }

  /// Every value the generated decoder produces has its field's shape and fits its width.
  lemma FromBufFits<T>(fields: seq<Field>, bytes: seq<Byte>, dec: seq<Byte> -> Option<(T, nat)>)
    ensures FromBuf(fields, bytes, dec).Some? ==>
      Fits(fields, FromBuf(fields, bytes, dec).value.0) && FromBuf(fields, bytes, dec).value.1 <= |bytes|
  {
    var u := BytesToBits(bytes);
    GetFieldsFits<T>(fields, u);
    if GetFields<T>(fields, u).Some? {
      var lit := GetFields<T>(fields, u).value;
      FillVecsFits(fields, 0, lit.0, lit.1, dec);
    }
  }

  lemma {:induction false} GetFieldsFits<T>(fields: seq<Field>, u: seq<bool>)
    ensures GetFields<T>(fields, u).Some? ==> Fits(fields, GetFields<T>(fields, u).value.0)
    decreases |fields|
  {
    if fields != [] && GetFields<T>(fields, u).Some? {
      var (v, u') := GetField<T>(fields[0].kind, u).value;
      GetFieldsFits<T>(fields[1..], u');
      var vs := GetFields<T>(fields[1..], u').value.0;
      assert GetFields<T>(fields, u).value.0 == [v] + vs;
      forall i | 0 <= i < |fields| ensures FitsKind(fields[i].kind, ([v] + vs)[i]) {
        if i > 0 { assert fields[i] == fields[1..][i - 1]; }
      }
    }
  }

  lemma {:induction false} FillVecsFits<T>(fields: seq<Field>, i: nat, vals: seq<Value<T>>, u: seq<bool>,
                                           dec: seq<Byte> -> Option<(T, nat)>)
    requires Fits(fields, vals) && i <= |fields|
    ensures FillVecs(fields, i, vals, u, dec).Some? ==> Fits(fields, FillVecs(fields, i, vals, u, dec).value.0)
    decreases |fields| - i
  {
    if i < |fields| && FillVecs(fields, i, vals, u, dec).Some? {
      if fields[i].kind.VecOf? {
        var (xs, c) := FillOne(fields, vals, fields[i].kind.size, Buffer(u), dec).value;
        FillVecsFits(fields, i + 1, vals[i := Items(xs)], TakeFromBuffer(u, c), dec);
      } else {
        FillVecsFits(fields, i + 1, vals, u, dec);
      }
    }
  }

  /// The generated `Default`.
  function DefaultValues<T>(fields: seq<Field>): (r: seq<Value<T>>)
    ensures Fits(fields, r)
    ensures forall i :: 0 <= i < |fields| && fields[i].kind.Data? ==> r[i] == Num(0)
    ensures forall i :: 0 <= i < |fields| && fields[i].kind.VecOf? ==> r[i] == Items([])
    ensures forall i :: 0 <= i < |fields| && fields[i].kind.Ipv4? ==> r[i] == Addr(Unspecified)
  {
    if fields == [] then []
    else
      var v: Value<T> :=
        match fields[0].kind
        case Data(_) => Num(0)
        case Zero(_) => Pad
        case VecOf(_, _) => Items([])
        case Ipv4 => Addr(Unspecified);
      [v] + DefaultValues(fields[1..])
  }

  // ---------------------------------------------------------------------------
  // When decoding undoes encoding

  /// Bits a non-vector field occupies.
  function Width(k: FieldKind): nat
  {
    match k
    case Data(n) => n
    case Zero(n) => n
    case VecOf(_, _) => 0
    case Ipv4 => 32
  }

  /// Every field whose statement asserts byte alignment starts on a byte boundary,
  /// counting from bit offset `off`, and the fields end on one.
  predicate AlignedFrom(fields: seq<Field>, off: nat)
    decreases |fields|
  {
    if fields == [] then off % 8 == 0
    else
      (NeedsAlignment(fields[0].kind) ==> off % 8 == 0) &&
      AlignedFrom(fields[1..], off + Width(fields[0].kind))
  }

  /// No scalar field follows a vector (the decoder reads every scalar before any vector).
  predicate VecsLast(fields: seq<Field>)
  {
    forall i, j :: 0 <= i < j < |fields| && fields[i].kind.VecOf? ==> fields[j].kind.VecOf?
  }

  /// A vector without `#[size]` is the last field (it consumes the rest of the buffer).
  predicate UnsizedLast(fields: seq<Field>)
  {
    forall i :: 0 <= i < |fields| && fields[i].kind.VecOf? && fields[i].kind.size == [] ==> i == |fields| - 1
  }

  predicate HasUnsized(fields: seq<Field>)
  {
    exists i :: 0 <= i < |fields| && fields[i].kind.VecOf? && fields[i].kind.size == []
  }

  predicate WellFormedLayout(fields: seq<Field>)
  {
    AlignedFrom(fields, 0) && VecsLast(fields) && UnsizedLast(fields)
  }

  /// Every sized vector's size field holds its length.
  predicate SizesAgree<T>(fields: seq<Field>, vals: seq<Value<T>>)
    requires |fields| == |vals|
  {
    forall i :: 0 <= i < |fields| && fields[i].kind.VecOf? && fields[i].kind.size != [] ==>
      SizeOf(fields, vals, fields[i].kind.size) == Some(|ItemsOf(vals[i])|)
  }

  /// A layout whose only vector is its last one, and that one without `#[size]`, has no
  /// counts to agree with.
  lemma SizesAgreeUnsizedLast<T>(scalars: seq<Field>, last: Field, vals: seq<Value<T>>)
    requires |scalars| + 1 == |vals| && last.kind.VecOf? && last.kind.size == []
    requires forall j | 0 <= j < |scalars| :: !scalars[j].kind.VecOf?
    ensures SizesAgree(scalars + [last], vals)
  {
    var fields := scalars + [last];
    assert forall i | 0 <= i < |scalars| :: fields[i] == scalars[i];
  }

  /// The element decoder undoes the element encoder on any buffer that starts with
  /// an encoding, and no encoding is empty.
  ghost predicate ElemRoundTrip<T>(enc: T -> seq<Byte>, dec: seq<Byte> -> Option<(T, nat)>, xs: seq<T>)
  {
    (forall x :: x in xs ==> |enc(x)| > 0) &&
    (forall x, b :: x in xs && |enc(x)| <= |b| && b[..|enc(x)|] == enc(x) ==>
       dec(b).Some? && dec(b).value.0 == x && dec(b).value.1 == |enc(x)|)
  }

  ghost predicate ElemsRoundTrip<T>(fields: seq<Field>, vals: seq<Value<T>>, enc: T -> seq<Byte>, dec: seq<Byte> -> Option<(T, nat)>)
    requires |fields| == |vals|
  {
    forall i :: 0 <= i < |fields| && fields[i].kind.VecOf? ==> ElemRoundTrip(enc, dec, ItemsOf(vals[i]))
  }

  /// A layout whose only vector is its last field round-trips its elements when that vector does.
  lemma ElemsOfLast<T>(fields: seq<Field>, vals: seq<Value<T>>, enc: T -> seq<Byte>, dec: seq<Byte> -> Option<(T, nat)>)
    requires |fields| == |vals| > 0 && forall j | 0 <= j < |fields| - 1 :: !fields[j].kind.VecOf?
    requires ElemRoundTrip(enc, dec, ItemsOf(vals[|vals| - 1]))
    ensures ElemsRoundTrip(fields, vals, enc, dec)
  {
  }

  /// Every field occupies whole bytes: the shape of most packet structs.
  predicate WholeBytes(fields: seq<Field>)
  {
    forall i :: 0 <= i < |fields| ==> Width(fields[i].kind) % 8 == 0
  }

  predicate NoVecs(fields: seq<Field>)
  {
    forall i :: 0 <= i < |fields| ==> !fields[i].kind.VecOf?
  }

  lemma WholeBytesTail(fields: seq<Field>)
    requires WholeBytes(fields) && fields != []
    ensures WholeBytes(fields[1..]) && Width(fields[0].kind) % 8 == 0
  {
    forall i | 0 <= i < |fields| - 1 ensures Width(fields[1..][i].kind) % 8 == 0 {
      assert fields[1..][i] == fields[i + 1];
    }
  }

  lemma {:induction false} WholeBytesAligned(fields: seq<Field>, off: nat)
    requires WholeBytes(fields) && off % 8 == 0
    ensures AlignedFrom(fields, off)
    decreases |fields|
  {
    if fields != [] {
      WholeBytesTail(fields);
      WholeBytesAligned(fields[1..], off + Width(fields[0].kind));
    }
  }

  /// A struct of whole-byte scalars is a well-formed layout.
  lemma ByteLayout(fields: seq<Field>)
    requires WholeBytes(fields) && NoVecs(fields)
    ensures WellFormedLayout(fields) && !HasUnsized(fields)
  {
    WholeBytesAligned(fields, 0);
  }

  /// Whole-byte scalars followed by one vector: a well-formed layout, which reads to
  /// the end of the buffer exactly when the vector has no size field.
  lemma {:induction false} ByteLayoutThenVector(fields: seq<Field>, v: Field)
    requires WholeBytes(fields) && NoVecs(fields) && v.kind.VecOf?
    ensures WholeBytes(fields + [v]) && WellFormedLayout(fields + [v])
    ensures HasUnsized(fields + [v]) <==> v.kind.size == []
  {
    var all := fields + [v];
    assert all[|fields|] == v;
    forall i | 0 <= i < |fields| ensures all[i] == fields[i] { }
    assert WholeBytes(all);
    WholeBytesAligned(all, 0);
  }

  /// Fields aligned from `off` followed by whole-byte fields stay aligned.
  lemma {:induction false} AlignedThenBytes(a: seq<Field>, b: seq<Field>, off: nat)
    requires AlignedFrom(a, off) && WholeBytes(b)
    ensures AlignedFrom(a + b, off)
    decreases |a|
  {
    if a == [] {
      assert a + b == b;
      WholeBytesAligned(b, off);
    } else {
      ConsAppend(a, b);
      AlignedThenBytes(a[1..], b, off + Width(a[0].kind));
    }
  }

  /// A struct of scalars whose alignment assertions hold is a well-formed layout.
  lemma ScalarLayout(fields: seq<Field>)
    requires NoVecs(fields) && AlignedFrom(fields, 0)
    ensures WellFormedLayout(fields) && !HasUnsized(fields)
  {
  }

  /// The bytes one whole-byte field contributes: an integer big-endian in `width / 8`
  /// bytes, padding as zero bytes, a vector as its elements' encodings, an address
  /// as its four octets.
  function FieldWire<T>(k: FieldKind, v: Value<T>, enc: T -> seq<Byte>): seq<Byte>
  {
    match k
    case Data(n) => BigEndian(NumOf(v), n / 8)
    case Zero(n) => BigEndian(0, n / 8)
    case VecOf(_, _) => Concat(enc, ItemsOf(v))
    case Ipv4 => Octets(IpOf(v))
  }

  /// The wire bytes of the fields from index `i` on.
  function ByteWire<T>(fields: seq<Field>, vals: seq<Value<T>>, enc: T -> seq<Byte>, i: nat): seq<Byte>
    requires |fields| == |vals| && i <= |fields|
    decreases |fields| - i
  {
    if i == |fields| then [] else FieldWire(fields[i].kind, vals[i], enc) + ByteWire(fields, vals, enc, i + 1)
  }

  lemma FieldWireBits<T>(k: FieldKind, v: Value<T>, enc: T -> seq<Byte>)
    requires Width(k) % 8 == 0
    ensures BytesToBits(FieldWire(k, v, enc)) == FieldBits(k, v, enc)
  {
    match k {
      case Data(n) => BigEndianBits(NumOf(v), n / 8);
      case Zero(n) => BigEndianBits(0, n / 8);
      case VecOf(_, _) =>
      case Ipv4 =>
    }
  }

  lemma {:induction false} ByteWireBits<T>(fields: seq<Field>, vals: seq<Value<T>>, enc: T -> seq<Byte>, i: nat)
    requires WholeBytes(fields) && |fields| == |vals| && i <= |fields|
    ensures BytesToBits(ByteWire(fields, vals, enc, i)) == AllBits(fields[i..], vals[i..], enc)
    decreases |fields| - i
  {
    if i < |fields| {
      ByteWireBits(fields, vals, enc, i + 1);
      SuffixCons(fields, i);
      SuffixCons(vals, i);
      FieldWireBits(fields[i].kind, vals[i], enc);
      BytesToBitsAppend(FieldWire(fields[i].kind, vals[i], enc), ByteWire(fields, vals, enc, i + 1));
    }
  }

  /// Unfolding the wire bytes at a field whose kind and value are known.
  lemma ByteWireStep<T>(fields: seq<Field>, vals: seq<Value<T>>, enc: T -> seq<Byte>, i: nat, k: FieldKind, v: Value<T>)
    requires |fields| == |vals| && i < |fields| && fields[i].kind == k && vals[i] == v
    ensures ByteWire(fields, vals, enc, i) == FieldWire(k, v, enc) + ByteWire(fields, vals, enc, i + 1)
  {
  }

  /// Unfolding the wire bytes at an integer field.
  lemma ByteWireData<T>(fields: seq<Field>, vals: seq<Value<T>>, enc: T -> seq<Byte>, i: nat, n: nat, x: nat)
    requires |fields| == |vals| && i < |fields| && fields[i].kind == Data(n) && vals[i] == Num(x)
    ensures ByteWire(fields, vals, enc, i) == BigEndian(x, n / 8) + ByteWire(fields, vals, enc, i + 1)
  {
  }

  /// A struct whose fields all occupy whole bytes encodes as each field in declaration
  /// order: integers big-endian, vectors as their elements' encodings.
  lemma ByteLayoutEncodes<T>(fields: seq<Field>, vals: seq<Value<T>>, enc: T -> seq<Byte>)
    requires WholeBytes(fields) && Fits(fields, vals)
    ensures ToBytesMut(fields, vals, enc) == Some(ByteWire(fields, vals, enc, 0))
  {
    WholeBytesAligned(fields, 0);
    EncodeAligned(fields, vals, enc);
    ByteWireBits(fields, vals, enc, 0);
    assert fields[0..] == fields && vals[0..] == vals;
    var e := ToBytesMut(fields, vals, enc).value;
    BitsToBytesOfBytesToBits(e);
    BitsToBytesOfBytesToBits(ByteWire(fields, vals, enc, 0));
  }

  /// The bits one field contributes to an encoding.
  function FieldBits<T>(k: FieldKind, v: Value<T>, enc: T -> seq<Byte>): seq<bool>
  {
    match k
    case Data(n) => BitsOf(NumOf(v), n)
    case Zero(n) => BitsOf(0, n)
    case VecOf(_, _) => BytesToBits(Concat(enc, ItemsOf(v)))
    case Ipv4 => BytesToBits(Octets(IpOf(v)))
  }

  function AllBits<T>(fields: seq<Field>, vals: seq<Value<T>>, enc: T -> seq<Byte>): seq<bool>
    requires |fields| == |vals|
  {
    if fields == [] then [] else FieldBits(fields[0].kind, vals[0], enc) + AllBits(fields[1..], vals[1..], enc)
  }

  /// The bytes of the vector fields from index `i` on.
  function VecBytesFrom<T>(fields: seq<Field>, vals: seq<Value<T>>, enc: T -> seq<Byte>, i: nat): seq<Byte>
    requires |fields| == |vals| && i <= |fields|
    decreases |fields| - i
  {
    if i == |fields| then []
    else (if fields[i].kind.VecOf? then Concat(enc, ItemsOf(vals[i])) else []) + VecBytesFrom(fields, vals, enc, i + 1)
  }

  lemma {:induction false} FitsTail<T>(fields: seq<Field>, vals: seq<Value<T>>)
    requires Fits(fields, vals) && fields != []
    ensures Fits(fields[1..], vals[1..])
  {
    forall i | 0 <= i < |fields| - 1
      ensures FitsKind(fields[1..][i].kind, vals[1..][i])
    {
      assert fields[1..][i] == fields[i + 1];
    }
  }

  lemma {:induction false} FieldBitsLength<T>(k: FieldKind, v: Value<T>, enc: T -> seq<Byte>)
    requires FitsKind(k, v) && !k.VecOf?
    ensures |FieldBits(k, v, enc)| == Width(k)
  {
  }

  /// Under the alignment rule the encoder never trips its assertion and writes the
  /// fields' bits back to back.
  lemma ModEightShift(a: nat, b: nat, c: nat)
    requires a % 8 == b % 8
    ensures (a + c) % 8 == (b + c) % 8
  {
  }

  /// One field: under the alignment rule its statement appends its bits.
  lemma PutFieldAligned<T>(k: FieldKind, v: Value<T>, enc: T -> seq<Byte>, w: seq<bool>, off: nat)
    requires FitsKind(k, v) && (NeedsAlignment(k) ==> off % 8 == 0) && |w| % 8 == off % 8
    ensures PutField(k, v, enc, w) == Some(w + FieldBits(k, v, enc))
    ensures (|w| + |FieldBits(k, v, enc)|) % 8 == (off + Width(k)) % 8
  {
    if k.VecOf? {
      assert |FieldBits(k, v, enc)| % 8 == 0;
      assert (|w| + |FieldBits(k, v, enc)|) % 8 == |w| % 8;
    } else {
      ModEightShift(|w|, off, Width(k));
    }
  }

  /// Under the alignment rule the encoder never trips its assertion and writes the
  /// fields' bits back to back.
  lemma {:induction false} PutFieldsAligned<T>(fields: seq<Field>, vals: seq<Value<T>>, enc: T -> seq<Byte>, w: seq<bool>, off: nat)
    requires Fits(fields, vals) && AlignedFrom(fields, off) && |w| % 8 == off % 8
    ensures PutFields(fields, vals, enc, w) == Some(w + AllBits(fields, vals, enc))
    ensures (|w| + |AllBits(fields, vals, enc)|) % 8 == 0
    decreases |fields|
  {
    if fields != [] {
      FitsTail(fields, vals);
      var k := fields[0].kind;
      var b := FieldBits(k, vals[0], enc);
      PutFieldAligned(k, vals[0], enc, w, off);
      PutFieldsAligned(fields[1..], vals[1..], enc, w + b, off + Width(k));
      var rest := AllBits(fields[1..], vals[1..], enc);
      assert PutFields(fields, vals, enc, w) == PutFields(fields[1..], vals[1..], enc, w + b);
      assert AllBits(fields, vals, enc) == b + rest;
      AppendAssoc(w, b, rest);
      assert |w| + |AllBits(fields, vals, enc)| == |w + b| + |rest|;
    } else {
      assert w + [] == w;
    }
  }

  /// The number of leading non-vector fields.
  function ScalarPrefix(fields: seq<Field>): (p: nat)
    ensures p <= |fields|
    ensures forall j :: 0 <= j < p ==> !fields[j].kind.VecOf?
    ensures p < |fields| ==> fields[p].kind.VecOf?
  {
    if fields == [] || fields[0].kind.VecOf? then 0
    else
      var p' := ScalarPrefix(fields[1..]);
      assert forall j :: 1 <= j < 1 + p' ==> fields[j] == fields[1..][j - 1];
      1 + p'
  }

  /// With the vectors last, everything from the scalar prefix on is a vector.
  lemma VecsAfterPrefix(fields: seq<Field>)
    requires VecsLast(fields)
    ensures forall j :: ScalarPrefix(fields) <= j < |fields| ==> fields[j].kind.VecOf?
  {
  }

  lemma {:induction false} AlignedLength<T>(fields: seq<Field>, vals: seq<Value<T>>, enc: T -> seq<Byte>, off: nat)
    requires Fits(fields, vals) && AlignedFrom(fields, off)
    ensures (off + |AllBits(fields, vals, enc)|) % 8 == 0
    decreases |fields|
  {
    if fields != [] {
      FitsTail(fields, vals);
      var k := fields[0].kind;
      AlignedLength(fields[1..], vals[1..], enc, off + Width(k));
      if k.VecOf? {
        assert |FieldBits(k, vals[0], enc)| % 8 == 0;
      }
    }
  }

  lemma FitsAppend<T>(a: seq<Field>, va: seq<Value<T>>, b: seq<Field>, vb: seq<Value<T>>)
    requires Fits(a, va) && Fits(b, vb)
    ensures Fits(a + b, va + vb)
  {
    forall i | 0 <= i < |a + b|
      ensures FitsKind((a + b)[i].kind, (va + vb)[i])
    {
      if i < |a| {
        assert (a + b)[i] == a[i] && (va + vb)[i] == va[i];
      } else {
        assert (a + b)[i] == b[i - |a|] && (va + vb)[i] == vb[i - |a|];
      }
    }
  }

  lemma {:induction false} AllBitsAppend<T>(a: seq<Field>, va: seq<Value<T>>, b: seq<Field>, vb: seq<Value<T>>, enc: T -> seq<Byte>)
    requires |a| == |va| && |b| == |vb|
    ensures AllBits(a + b, va + vb, enc) == AllBits(a, va, enc) + AllBits(b, vb, enc)
    decreases |a|
  {
    if a == [] {
      assert a + b == b && va + vb == vb;
    } else {
      ConsAppend(a, b);
      ConsAppend(va, vb);
      AllBitsAppend(a[1..], va[1..], b, vb, enc);
      var fb := FieldBits(a[0].kind, va[0], enc);
      calc {
        AllBits(a + b, va + vb, enc);
        fb + AllBits(a[1..] + b, va[1..] + vb, enc);
        fb + (AllBits(a[1..], va[1..], enc) + AllBits(b, vb, enc));
        (fb + AllBits(a[1..], va[1..], enc)) + AllBits(b, vb, enc);
      }
    }
  }

  /// The encoding of a run of vector fields from index `i` is their bytes back to back.
  lemma {:induction false} AllBitsOfVecs<T>(fields: seq<Field>, vals: seq<Value<T>>, enc: T -> seq<Byte>, i: nat)
    requires |fields| == |vals| && i <= |fields|
    requires forall j :: i <= j < |fields| ==> fields[j].kind.VecOf?
    ensures AllBits(fields[i..], vals[i..], enc) == BytesToBits(VecBytesFrom(fields, vals, enc, i))
    decreases |fields| - i
  {
    if i == |fields| {
      assert BytesToBits([]) == [];
    } else {
      SuffixCons(fields, i);
      SuffixCons(vals, i);
      AllBitsOfVecs(fields, vals, enc, i + 1);
      BytesToBitsAppend(Concat(enc, ItemsOf(vals[i])), VecBytesFrom(fields, vals, enc, i + 1));
    }
  }

  /// Scalars contribute no vector bytes.
  lemma {:induction false} VecBytesSkip<T>(fields: seq<Field>, vals: seq<Value<T>>, enc: T -> seq<Byte>, i: nat, p: nat)
    requires |fields| == |vals| && i <= p <= |fields|
    requires forall j :: i <= j < p ==> !fields[j].kind.VecOf?
    ensures VecBytesFrom(fields, vals, enc, i) == VecBytesFrom(fields, vals, enc, p)
    decreases p - i
  {
    if i < p {
      var next := VecBytesFrom(fields, vals, enc, i + 1);
      assert VecBytesFrom(fields, vals, enc, i) == [] + next;
      assert [] + next == next;
      VecBytesSkip(fields, vals, enc, i + 1, p);
    }
  }

  lemma {:induction false} GetFieldsAppend<T>(a: seq<Field>, b: seq<Field>, u: seq<bool>,
                                             vs: seq<Value<T>>, u1: seq<bool>, ws: seq<Value<T>>, u2: seq<bool>)
    requires GetFields<T>(a, u) == Some((vs, u1)) && GetFields<T>(b, u1) == Some((ws, u2))
    ensures GetFields<T>(a + b, u) == Some((vs + ws, u2))
    decreases |a|
  {
    if a == [] {
      assert a + b == b && vs == [] && vs + ws == ws;
    } else {
      var r := GetFieldsUncons(a, u, vs, u1);
      GetFieldsAppend(a[1..], b, r.1, vs[1..], u1, ws, u2);
      ConsAppend(a, b);
      GetFieldsCons<T>(a + b, u, r.0, r.1, vs[1..] + ws, u2);
      AppendAssoc([r.0], vs[1..], ws);
    }
  }

  /// The first field's decoding within a successful decoding.
  lemma GetFieldsUncons<T>(fields: seq<Field>, u: seq<bool>, vs: seq<Value<T>>, u1: seq<bool>) returns (r: (Value<T>, seq<bool>))
    requires fields != [] && GetFields<T>(fields, u) == Some((vs, u1))
    ensures GetField<T>(fields[0].kind, u) == Some(r)
    ensures vs != [] && vs == [r.0] + vs[1..]
    ensures GetFields<T>(fields[1..], r.1) == Some((vs[1..], u1))
  {
    r := GetField<T>(fields[0].kind, u).value;
  }

  /// A run of vector fields decodes to empty vectors and reads nothing.
  lemma {:induction false} GetVecs<T>(fields: seq<Field>, u: seq<bool>)
    requires forall j :: 0 <= j < |fields| ==> fields[j].kind.VecOf?
    ensures GetFields<T>(fields, u).Some?
    ensures GetFields<T>(fields, u).value.1 == u
    ensures forall j :: 0 <= j < |fields| ==> GetFields<T>(fields, u).value.0[j] == Items([])
    decreases |fields|
  {
    if fields != [] {
      assert forall j :: 0 <= j < |fields| - 1 ==> fields[1..][j] == fields[j + 1];
      GetVecs<T>(fields[1..], u);
    }
  }

  /// An IPv4 field followed by byte-aligned bits: `get_buf()` yields the four octets.
  lemma Ipv4Decodes<T>(ip: Ipv4Addr, r: seq<bool>)
    requires |r| % 8 == 0
    ensures GetField<T>(Ipv4, BytesToBits(Octets(ip)) + r) == Some((Addr(ip), r))
  {
    var u := BytesToBits(Octets(ip)) + r;
    var rb := BitsToBytes(r);
    BytesToBitsOfBitsToBytes(r);
    BytesToBitsAppend(Octets(ip), rb);
    BitsToBytesOfBytesToBits(Octets(ip) + rb);
    assert PendingLen(u) == 0;
    assert u[PendingLen(u)..] == u;
    assert u[..PendingLen(u)] == [];
    assert Buffer(u) == Octets(ip) + rb;
    assert Buffer(u)[..4] == Octets(ip);
    assert Buffer(u)[4..] == rb;
    assert TakeFromBuffer(u, 4) == [] + BytesToBits(rb) == r;
    IpOfOctetsOfIp(ip);
    assert IpOfOctets(Buffer(u)[..4]) == ip;
  }

  lemma ModEightAdd(x: nat, y: nat)
    requires x % 8 == 0 && y % 8 == 0
    ensures (x + y) % 8 == 0
  {
  }

  lemma GetFieldsCons<T>(fields: seq<Field>, u: seq<bool>, v: Value<T>, u': seq<bool>, vs: seq<Value<T>>, u'': seq<bool>)
    requires fields != []
    requires GetField<T>(fields[0].kind, u) == Some((v, u'))
    requires GetFields<T>(fields[1..], u') == Some((vs, u''))
    ensures GetFields<T>(fields, u) == Some(([v] + vs, u''))
  {
  }

  lemma NoVecsTail(fields: seq<Field>)
    requires fields != [] && forall j :: 0 <= j < |fields| ==> !fields[j].kind.VecOf?
    ensures forall j :: 0 <= j < |fields[1..]| ==> !fields[1..][j].kind.VecOf?
  {
    assert forall j :: 0 <= j < |fields| - 1 ==> fields[1..][j] == fields[j + 1];
  }

  /// One scalar field decodes to the value it was encoded from.
  lemma GetScalar<T>(k: FieldKind, v: Value<T>, enc: T -> seq<Byte>, r: seq<bool>, off: nat)
    requires FitsKind(k, v) && !k.VecOf? && (NeedsAlignment(k) ==> off % 8 == 0)
    requires (off + Width(k) + |r|) % 8 == 0
    ensures GetField<T>(k, FieldBits(k, v, enc) + r) == Some((v, r))
  {
    var fb := FieldBits(k, v, enc);
    var u := fb + r;
    match k
    case Data(n) =>
      assert u[..n] == fb && u[n..] == r;
      ValueOfBitsOf(v.n, n);
    case Zero(n) =>
      assert u[n..] == r;
    case Ipv4 =>
      Ipv4Decodes<T>(v.ip, r);
  }

  /// Scalar fields decode to the values they were encoded from, leaving the bits after them.
  lemma {:induction false} GetScalars<T>(fields: seq<Field>, vals: seq<Value<T>>, enc: T -> seq<Byte>, tail: seq<bool>, off: nat)
    requires Fits(fields, vals) && AlignedFrom(fields, off) && |tail| % 8 == 0
    requires forall j :: 0 <= j < |fields| ==> !fields[j].kind.VecOf?
    ensures GetFields<T>(fields, AllBits(fields, vals, enc) + tail) == Some((vals, tail))
    decreases |fields|
  {
    if fields == [] {
      assert [] + tail == tail;
    } else {
      FitsTail(fields, vals);
      var k := fields[0].kind;
      var fb := FieldBits(k, vals[0], enc);
      var rb := AllBits(fields[1..], vals[1..], enc);
      var r := rb + tail;
      AlignedLength(fields[1..], vals[1..], enc, off + Width(k));
      ModEightAdd(off + Width(k) + |rb|, |tail|);
      GetScalar<T>(k, vals[0], enc, r, off);
      AppendAssoc(fb, rb, tail);
      NoVecsTail(fields);
      GetScalars(fields[1..], vals[1..], enc, tail, off + Width(k));
      GetFieldsCons<T>(fields, AllBits(fields, vals, enc) + tail, vals[0], r, vals[1..], tail);
      HeadTail(vals);
    }
  }

  /// `Vec<T>::from_buf` with a size undoes the vector's encoding.
  lemma {:induction false} CountRoundTrip<T>(enc: T -> seq<Byte>, dec: seq<Byte> -> Option<(T, nat)>, xs: seq<T>, more: seq<Byte>)
    requires ElemRoundTrip(enc, dec, xs)
    ensures DecodeCount(dec, |xs|, Concat(enc, xs) + more) == Some((xs, |Concat(enc, xs)|))
    decreases |xs|
  {
    if xs != [] {
      var e := enc(xs[0]);
      var tail := Concat(enc, xs[1..]) + more;
      assert Concat(enc, xs) + more == e + tail by {
        AppendAssoc(e, Concat(enc, xs[1..]), more);
      }
      ElemHead(enc, dec, xs, tail);
      ElemTail(enc, dec, xs);
      assert (e + tail)[|e|..] == tail;
      DecodeCountStep(dec, |xs|, e + tail);
      CountRoundTrip(enc, dec, xs[1..], more);
      var r := DecodeCount(dec, |xs| - 1, tail);
      assert r == Some((xs[1..], |Concat(enc, xs[1..])|));
      assert DecodeCount(dec, |xs|, e + tail) == Prepend([xs[0]], |e|, r);
      assert [xs[0]] + xs[1..] == xs;
      assert |Concat(enc, xs)| == |e| + |Concat(enc, xs[1..])|;
      PrependSome([xs[0]], |e|, xs[1..], |Concat(enc, xs[1..])|, xs, |Concat(enc, xs)|);
    } else {
      assert Concat(enc, xs) == [];
    }
  }

  /// The first element's encoding, whatever follows it, decodes to the element.
  lemma ElemHead<T>(enc: T -> seq<Byte>, dec: seq<Byte> -> Option<(T, nat)>, xs: seq<T>, tail: seq<Byte>)
    requires ElemRoundTrip(enc, dec, xs) && xs != []
    ensures var b := enc(xs[0]) + tail;
            |enc(xs[0])| > 0 && dec(b).Some? && dec(b).value.0 == xs[0] && dec(b).value.1 == |enc(xs[0])|
  {
    assert xs[0] in xs;
    assert (enc(xs[0]) + tail)[..|enc(xs[0])|] == enc(xs[0]);
  }

  /// The elements after the first round-trip too.
  lemma ElemTail<T>(enc: T -> seq<Byte>, dec: seq<Byte> -> Option<(T, nat)>, xs: seq<T>)
    requires ElemRoundTrip(enc, dec, xs) && xs != []
    ensures ElemRoundTrip(enc, dec, xs[1..])
  {
    assert forall x :: x in xs[1..] ==> x in xs;
  }

  /// A vector without a size, as the last field, undoes its encoding.
  lemma {:induction false} UntilEmptyRoundTrip<T>(enc: T -> seq<Byte>, dec: seq<Byte> -> Option<(T, nat)>, xs: seq<T>)
    requires ElemRoundTrip(enc, dec, xs)
    ensures DecodeUntilEmpty(dec, Concat(enc, xs)) == Some((xs, |Concat(enc, xs)|))
    decreases |xs|
  {
    if xs != [] {
      var b := Concat(enc, xs);
      var e := enc(xs[0]);
      assert xs[0] in xs;
      assert b[..|e|] == e;
      assert b[|e|..] == Concat(enc, xs[1..]);
      assert ElemRoundTrip(enc, dec, xs[1..]) by {
        assert forall x :: x in xs[1..] ==> x in xs;
      }
      UntilEmptyRoundTrip(enc, dec, xs[1..]);
      assert [xs[0]] + xs[1..] == xs;
    }
  }

  /// A size field reads the same in two value lists that differ only in vectors.
  lemma {:induction false} SizeOfAgrees<T>(fields: seq<Field>, a: seq<Value<T>>, b: seq<Value<T>>, name: string)
    requires |fields| == |a| == |b|
    requires forall j :: 0 <= j < |fields| ==> a[j] == b[j] || (a[j].Items? && b[j].Items?)
    ensures SizeOf(fields, a, name) == SizeOf(fields, b, name)
    decreases |fields|
  {
    if fields != [] {
      assert forall j :: 0 <= j < |fields| - 1 ==> a[1..][j] == a[j + 1] && b[1..][j] == b[j + 1];
      SizeOfAgrees(fields[1..], a[1..], b[1..], name);
    }
  }

  /// The assignments after the struct literal put every encoded vector back.
  lemma {:induction false} FillVecsRoundTrip<T>(fields: seq<Field>, vals: seq<Value<T>>, enc: T -> seq<Byte>,
                                               dec: seq<Byte> -> Option<(T, nat)>, i: nat, cur: seq<Value<T>>, rest: seq<Byte>)
    requires Fits(fields, vals) && Restored(fields, vals, i, cur)
    requires SizesAgree(fields, vals) && ElemsRoundTrip(fields, vals, enc, dec) && UnsizedLast(fields)
    requires rest == [] || !HasUnsized(fields)
    ensures FillVecs(fields, i, cur, BytesToBits(VecBytesFrom(fields, vals, enc, i) + rest), dec) == Some((vals, BytesToBits(rest)))
    decreases |fields| - i
  {
    if i == |fields| {
      assert cur == vals;
      assert VecBytesFrom(fields, vals, enc, i) + rest == rest;
    } else if !fields[i].kind.VecOf? {
      FillVecsScalar(fields, vals, enc, dec, i, cur, rest);
      RestoredStep(fields, vals, i, cur);
      FillVecsRoundTrip(fields, vals, enc, dec, i + 1, cur, rest);
    } else {
      var size := fields[i].kind.size;
      if size == [] {
        assert i == |fields| - 1;
        assert HasUnsized(fields);
      } else {
        SizeOfAgrees(fields, cur, vals, size);
      }
      FillVecsVec(fields, vals, enc, dec, i, cur, rest);
      RestoredStep(fields, vals, i, cur);
      FillVecsRoundTrip(fields, vals, enc, dec, i + 1, cur[i := vals[i]], rest);
    }
  }

  /// The fields before `i` are restored; from `i` on, the vectors are still empty.
  ghost predicate Restored<T>(fields: seq<Field>, vals: seq<Value<T>>, i: nat, cur: seq<Value<T>>)
  {
    i <= |fields| == |vals| == |cur| &&
    (forall j :: 0 <= j < i ==> cur[j] == vals[j]) &&
    (forall j :: i <= j < |fields| ==> cur[j] == if fields[j].kind.VecOf? then Items([]) else vals[j])
  }

  /// Restoring field `i` (a no-op for a scalar) moves the boundary by one.
  lemma RestoredStep<T>(fields: seq<Field>, vals: seq<Value<T>>, i: nat, cur: seq<Value<T>>)
    requires Restored(fields, vals, i, cur) && i < |fields|
    ensures !fields[i].kind.VecOf? ==> Restored(fields, vals, i + 1, cur)
    ensures Restored(fields, vals, i + 1, cur[i := vals[i]])
  {
  }

  /// The assignments skip a scalar field.
  lemma FillVecsScalar<T>(fields: seq<Field>, vals: seq<Value<T>>, enc: T -> seq<Byte>,
                          dec: seq<Byte> -> Option<(T, nat)>, i: nat, cur: seq<Value<T>>, rest: seq<Byte>)
    requires |fields| == |vals| == |cur| && i < |fields| && !fields[i].kind.VecOf?
    ensures FillVecs(fields, i, cur, BytesToBits(VecBytesFrom(fields, vals, enc, i) + rest), dec)
      == FillVecs(fields, i + 1, cur, BytesToBits(VecBytesFrom(fields, vals, enc, i + 1) + rest), dec)
  {
    assert VecBytesFrom(fields, vals, enc, i) == [] + VecBytesFrom(fields, vals, enc, i + 1) == VecBytesFrom(fields, vals, enc, i + 1);
  }

  /// The assignment of one vector field restores it and moves past its bytes.
  lemma FillVecsVec<T>(fields: seq<Field>, vals: seq<Value<T>>, enc: T -> seq<Byte>,
                       dec: seq<Byte> -> Option<(T, nat)>, i: nat, cur: seq<Value<T>>, rest: seq<Byte>)
    requires |fields| == |vals| == |cur| && i < |fields| && fields[i].kind.VecOf? && vals[i].Items?
    requires ElemRoundTrip(enc, dec, vals[i].xs)
    requires fields[i].kind.size == [] ==> VecBytesFrom(fields, vals, enc, i + 1) + rest == []
    requires fields[i].kind.size != [] ==> SizeOf(fields, cur, fields[i].kind.size) == Some(|vals[i].xs|)
    ensures FillVecs(fields, i, cur, BytesToBits(VecBytesFrom(fields, vals, enc, i) + rest), dec)
      == FillVecs(fields, i + 1, cur[i := vals[i]], BytesToBits(VecBytesFrom(fields, vals, enc, i + 1) + rest), dec)
  {
    var xs := vals[i].xs;
    var e := Concat(enc, xs);
    var more := VecBytesFrom(fields, vals, enc, i + 1) + rest;
    assert VecBytesFrom(fields, vals, enc, i) + rest == e + more;
    FillOneRoundTrip(fields, cur, fields[i].kind.size, enc, dec, xs, more);
    TakeOfBytes(e + more, |e|);
    assert (e + more)[|e|..] == more;
  }

  /// The underlying buffer of a reader on a byte boundary.
  lemma BufferOfBytes(bs: seq<Byte>)
    ensures Buffer(BytesToBits(bs)) == bs
  {
    BitsToBytesOfBytesToBits(bs);
    assert BytesToBits(bs)[0..] == BytesToBits(bs);
  }

  /// Taking `c` bytes from the buffer of a reader on a byte boundary.
  lemma TakeAligned(u: seq<bool>, bs: seq<Byte>, c: nat)
    requires |u| % 8 == 0 && c <= |bs| && Buffer(u) == bs
    ensures TakeFromBuffer(u, c) == BytesToBits(bs[c..])
  {
    assert PendingLen(u) == 0;
    assert u[..0] == [];
  }

  lemma TakeOfBytes(bs: seq<Byte>, c: nat)
    requires c <= |bs|
    ensures Buffer(BytesToBits(bs)) == bs
    ensures TakeFromBuffer(BytesToBits(bs), c) == BytesToBits(bs[c..])
  {
    BufferOfBytes(bs);
    BytesToBitsWhole(bs);
    TakeAligned(BytesToBits(bs), bs, c);
  }

  lemma BytesToBitsWhole(bs: seq<Byte>)
    ensures |BytesToBits(bs)| % 8 == 0
  {
    var k := |bs|;
    assert |BytesToBits(bs)| == 8 * k;
    assert (8 * k) % 8 == 0;
  }

  /// One vector assignment undoes the vector's encoding.
  lemma FillOneRoundTrip<T>(fields: seq<Field>, cur: seq<Value<T>>, size: string, enc: T -> seq<Byte>,
                            dec: seq<Byte> -> Option<(T, nat)>, xs: seq<T>, more: seq<Byte>)
    requires |fields| == |cur| && ElemRoundTrip(enc, dec, xs)
    requires size == [] ==> more == []
    requires size != [] ==> SizeOf(fields, cur, size) == Some(|xs|)
    ensures FillOne(fields, cur, size, Concat(enc, xs) + more, dec) == Some((xs, |Concat(enc, xs)|))
  {
    if size == [] {
      assert Concat(enc, xs) + more == Concat(enc, xs);
      UntilEmptyRoundTrip(enc, dec, xs);
    } else {
      CountRoundTrip(enc, dec, xs, more);
    }
  }

  /// The generated decoder undoes the generated encoder: for a layout whose alignment
  /// assertions hold, whose vectors come last, whose size fields hold the vectors'
  /// lengths and whose element codecs round-trip, `from_buf(to_bytes(s))` is `s`
  /// and consumes exactly the encoding, whatever bytes follow unless a vector
  /// without a size reads to the end.
  lemma FromBufToBytes<T>(fields: seq<Field>, vals: seq<Value<T>>, enc: T -> seq<Byte>,
                          dec: seq<Byte> -> Option<(T, nat)>, rest: seq<Byte>)
    requires Fits(fields, vals) && WellFormedLayout(fields)
    requires SizesAgree(fields, vals) && ElemsRoundTrip(fields, vals, enc, dec)
    requires rest == [] || !HasUnsized(fields)
    ensures ToBytesMut(fields, vals, enc).Some?
    ensures FromBuf(fields, ToBytesMut(fields, vals, enc).value + rest, dec)
      == Some((vals, |ToBytesMut(fields, vals, enc).value|))
  {
    EncodeAligned(fields, vals, enc);
    var e := ToBytesMut(fields, vals, enc).value;
    BytesToBitsAppend(e, rest);
    DecodeScalarsFirst(fields, vals, enc, rest);
    var lit := GetFields<T>(fields, BytesToBits(e + rest)).value;
    FillVecsRoundTrip(fields, vals, enc, dec, 0, lit.0, rest);
    assert |BytesToBits(rest)| / 8 == |rest|;
  }

  lemma TrimAligned(w: seq<bool>)
    requires |w| % 8 == 0
    ensures w[..|w| - |w| % 8] == w
  {
  }

  /// Under the alignment rule the encoder succeeds and its bytes carry every field's bits.
  lemma EncodeAligned<T>(fields: seq<Field>, vals: seq<Value<T>>, enc: T -> seq<Byte>)
    requires Fits(fields, vals) && AlignedFrom(fields, 0)
    ensures ToBytesMut(fields, vals, enc).Some?
    ensures BytesToBits(ToBytesMut(fields, vals, enc).value) == AllBits(fields, vals, enc)
  {
    var all := AllBits(fields, vals, enc);
    PutFieldsAligned(fields, vals, enc, [], 0);
    EmptyAppend(all);
    TrimAligned(all);
    BytesToBitsOfBitsToBytes(all);
  }

  /// The struct literal of the generated decoder, on an encoding followed by `rest`,
  /// restores every scalar and leaves the reader at the vector bytes.
  lemma DecodeScalarsFirst<T>(fields: seq<Field>, vals: seq<Value<T>>, enc: T -> seq<Byte>, rest: seq<Byte>)
    requires Fits(fields, vals) && WellFormedLayout(fields)
    ensures GetFields<T>(fields, AllBits(fields, vals, enc) + BytesToBits(rest)).Some?
    ensures GetFields<T>(fields, AllBits(fields, vals, enc) + BytesToBits(rest)).value.1
      == BytesToBits(VecBytesFrom(fields, vals, enc, 0) + rest)
    ensures forall j :: 0 <= j < |fields| ==>
      GetFields<T>(fields, AllBits(fields, vals, enc) + BytesToBits(rest)).value.0[j]
        == if fields[j].kind.VecOf? then Items([]) else vals[j]
  {
    var p := ScalarPrefix(fields);
    var tail := BytesToBits(VecBytesFrom(fields, vals, enc, 0) + rest);
    EncodingSplit(fields, vals, enc, rest);
    BytesToBitsWhole(VecBytesFrom(fields, vals, enc, 0) + rest);
    DecodeSplit(fields, vals, enc, tail);
  }

  /// With the vectors last, an encoding followed by `rest` is the scalar prefix's bits
  /// followed by the vector bytes and `rest`.
  lemma EncodingSplit<T>(fields: seq<Field>, vals: seq<Value<T>>, enc: T -> seq<Byte>, rest: seq<Byte>)
    requires Fits(fields, vals) && VecsLast(fields)
    ensures AllBits(fields, vals, enc) + BytesToBits(rest)
      == AllBits(fields[..ScalarPrefix(fields)], vals[..ScalarPrefix(fields)], enc)
         + BytesToBits(VecBytesFrom(fields, vals, enc, 0) + rest)
  {
    var vb := VecBytesFrom(fields, vals, enc, 0);
    var p := ScalarPrefix(fields);
    AllBitsSplit(fields, vals, enc);
    BytesToBitsAppend(vb, rest);
    AppendAssoc(AllBits(fields[..p], vals[..p], enc), BytesToBits(vb), BytesToBits(rest));
  }

  /// With the vectors last, an encoding is the scalar prefix's bits followed by the vector bytes.
  lemma AllBitsSplit<T>(fields: seq<Field>, vals: seq<Value<T>>, enc: T -> seq<Byte>)
    requires Fits(fields, vals) && VecsLast(fields)
    ensures AllBits(fields, vals, enc)
      == AllBits(fields[..ScalarPrefix(fields)], vals[..ScalarPrefix(fields)], enc)
         + BytesToBits(VecBytesFrom(fields, vals, enc, 0))
  {
    var p := ScalarPrefix(fields);
    SplitAt(fields, p);
    SplitAt(vals, p);
    VecsAfterPrefix(fields);
    AllBitsOfVecs(fields, vals, enc, p);
    VecBytesSkip(fields, vals, enc, 0, p);
    AllBitsAppend(fields[..p], vals[..p], fields[p..], vals[p..], enc);
  }

  /// The struct literal reads the scalar prefix and leaves every vector empty.
  lemma DecodeSplit<T>(fields: seq<Field>, vals: seq<Value<T>>, enc: T -> seq<Byte>, tail: seq<bool>)
    requires Fits(fields, vals) && WellFormedLayout(fields) && |tail| % 8 == 0
    ensures GetFields<T>(fields, AllBits(fields[..ScalarPrefix(fields)], vals[..ScalarPrefix(fields)], enc) + tail).Some?
    ensures GetFields<T>(fields, AllBits(fields[..ScalarPrefix(fields)], vals[..ScalarPrefix(fields)], enc) + tail).value.1 == tail
    ensures forall j :: 0 <= j < |fields| ==>
      GetFields<T>(fields, AllBits(fields[..ScalarPrefix(fields)], vals[..ScalarPrefix(fields)], enc) + tail).value.0[j]
        == if fields[j].kind.VecOf? then Items([]) else vals[j]
  {
    var p := ScalarPrefix(fields);
    var sf, vf := fields[..p], fields[p..];
    var sv := vals[..p];
    SplitAt(fields, p);
    PrefixShapes(fields, vals);
    GetScalars(sf, sv, enc, tail, 0);
    GetVecs<T>(vf, tail);
    var empties := GetFields<T>(vf, tail).value.0;
    GetFieldsAppend(sf, vf, AllBits(sf, sv, enc) + tail, sv, tail, empties, tail);
    ResultShape(fields, vals, p, empties);
  }

  /// The split of a well-formed layout at its scalar prefix.
  lemma PrefixShapes<T>(fields: seq<Field>, vals: seq<Value<T>>)
    requires Fits(fields, vals) && WellFormedLayout(fields)
    ensures Fits(fields[..ScalarPrefix(fields)], vals[..ScalarPrefix(fields)])
    ensures AlignedFrom(fields[..ScalarPrefix(fields)], 0)
    ensures forall j :: 0 <= j < |fields[..ScalarPrefix(fields)]| ==> !fields[..ScalarPrefix(fields)][j].kind.VecOf?
    ensures forall j :: 0 <= j < |fields[ScalarPrefix(fields)..]| ==> fields[ScalarPrefix(fields)..][j].kind.VecOf?
  {
    var p := ScalarPrefix(fields);
    assert Fits(fields[..p], vals[..p]) by {
      assert forall i :: 0 <= i < p ==> fields[..p][i] == fields[i] && vals[..p][i] == vals[i];
    }
    assert AlignedFrom(fields[..p], 0) by {
      AlignedPrefix(fields, 0, p);
    }
    assert forall j :: 0 <= j < |fields[..p]| ==> !fields[..p][j].kind.VecOf? by {
      assert forall j :: 0 <= j < p ==> fields[..p][j] == fields[j];
    }
    assert forall j :: 0 <= j < |fields[p..]| ==> fields[p..][j].kind.VecOf? by {
      VecsAfterPrefix(fields);
      assert forall j :: 0 <= j < |fields[p..]| ==> fields[p..][j] == fields[p + j];
    }
  }

  lemma ResultShape<T>(fields: seq<Field>, vals: seq<Value<T>>, p: nat, e: seq<Value<T>>)
    requires |fields| == |vals| && p == ScalarPrefix(fields) && |e| == |fields| - p
    requires forall j :: 0 <= j < |e| ==> e[j] == Items([])
    requires forall j :: 0 <= j < |fields[p..]| ==> fields[p..][j].kind.VecOf?
    ensures forall j :: 0 <= j < |fields| ==>
      (vals[..p] + e)[j] == if fields[j].kind.VecOf? then Items([]) else vals[j]
  {
    forall j | 0 <= j < |fields|
      ensures (vals[..p] + e)[j] == if fields[j].kind.VecOf? then Items([]) else vals[j]
    {
      if j >= p {
        assert fields[p..][j - p] == fields[j];
      }
    }
  }

  /// A prefix of an aligned layout that stops before a vector (or at the end) is aligned.
  lemma {:induction false} AlignedPrefix(fields: seq<Field>, off: nat, p: nat)
    requires AlignedFrom(fields, off) && p <= |fields|
    requires p < |fields| ==> NeedsAlignment(fields[p].kind)
    ensures AlignedFrom(fields[..p], off)
    decreases p
  {
    if p > 0 {
      AlignedPrefix(fields[1..], off + Width(fields[0].kind), p - 1);
      assert fields[..p][1..] == fields[1..][..p - 1];
      assert p - 1 < |fields| - 1 ==> fields[1..][p - 1] == fields[p];
    }
  }

  // ---------------------------------------------------------------------------
  // The generated vector loops

  /// `for _ in 0..s.size { vec.push(T::from_buf(buf)) }` on the underlying buffer `b`:
  /// the elements and the bytes taken, `None` where an element decoder panics.
  method FillSized<T>(dec: seq<Byte> -> Option<(T, nat)>, k: nat, b: seq<Byte>) returns (r: Option<(seq<T>, nat)>)
    ensures r == DecodeCount(dec, k, b)
  {
    var vec: seq<T> := [];
    var off: nat := 0;
    var i := 0;
    assert b[off..] == b;
    PrependEmpty(DecodeCount(dec, k, b));
    while i < k
      invariant 0 <= i <= k && off <= |b|
      invariant DecodeCount(dec, k, b) == Prepend(vec, off, DecodeCount(dec, k - i, b[off..]))
    {
      var d := dec(b[off..]);
      if d.None? || d.value.1 > |b| - off {
        return None;
      }
      var x, c := d.value.0, d.value.1;
      assert DecodeCount(dec, k - i, b[off..]) == Prepend([x], c, DecodeCount(dec, k - i - 1, b[off + c..])) by {
        SuffixSuffix(b, off, c);
        DecodeCountStep(dec, k - i, b[off..]);
      }
      PrependStep(vec, off, x, c, DecodeCount(dec, k - i - 1, b[off + c..]));
      vec := vec + [x];
      off := off + c;
      i := i + 1;
    }
    assert DecodeCount(dec, 0, b[off..]) == Some(([], 0));
    assert vec + [] == vec;
    return Some((vec, off));
  }

  /// `while buf.has_remaining() { vec.push(T::from_buf(buf)) }` on the underlying buffer `b`.
  /// An element decoder that takes no bytes would spin for ever; the model stops with `None`.
  method FillUntilEmpty<T>(dec: seq<Byte> -> Option<(T, nat)>, b: seq<Byte>) returns (r: Option<(seq<T>, nat)>)
    ensures r == DecodeUntilEmpty(dec, b)
  {
    var vec: seq<T> := [];
    var off: nat := 0;
    assert b[off..] == b;
    PrependEmpty(DecodeUntilEmpty(dec, b));
    while off < |b|
      invariant off <= |b|
      invariant DecodeUntilEmpty(dec, b) == Prepend(vec, off, DecodeUntilEmpty(dec, b[off..]))
      decreases |b| - off
    {
      var d := dec(b[off..]);
      if d.None? || d.value.1 == 0 || d.value.1 > |b| - off {
        return None;
      }
      var x, c := d.value.0, d.value.1;
      assert DecodeUntilEmpty(dec, b[off..]) == Prepend([x], c, DecodeUntilEmpty(dec, b[off + c..])) by {
        SuffixSuffix(b, off, c);
        DecodeUntilEmptyStep(dec, b[off..]);
      }
      PrependStep(vec, off, x, c, DecodeUntilEmpty(dec, b[off + c..]));
      vec := vec + [x];
      off := off + c;
    }
    assert b[off..] == [];
    assert vec + [] == vec;
    return Some((vec, off));
  }

  /// The elements decoded so far in front of the result of decoding the rest.
  function Prepend<T>(vec: seq<T>, off: nat, r: Option<(seq<T>, nat)>): Option<(seq<T>, nat)>
  {
    if r.None? then None else Some((vec + r.value.0, off + r.value.1))
  }

  lemma DecodeCountStep<T>(dec: seq<Byte> -> Option<(T, nat)>, k: nat, b: seq<Byte>)
    requires k > 0 && dec(b).Some? && dec(b).value.1 <= |b|
    ensures DecodeCount(dec, k, b) == Prepend([dec(b).value.0], dec(b).value.1, DecodeCount(dec, k - 1, b[dec(b).value.1..]))
  {
  }

  lemma DecodeUntilEmptyStep<T>(dec: seq<Byte> -> Option<(T, nat)>, b: seq<Byte>)
    requires b != [] && dec(b).Some? && 0 < dec(b).value.1 <= |b|
    ensures DecodeUntilEmpty(dec, b) == Prepend([dec(b).value.0], dec(b).value.1, DecodeUntilEmpty(dec, b[dec(b).value.1..]))
  {
  }

  lemma PrependSome<T>(vec: seq<T>, off: nat, ys: seq<T>, c: nat, all: seq<T>, n: nat)
    requires all == vec + ys && n == off + c
    ensures Prepend(vec, off, Some((ys, c))) == Some((all, n))
  {
  }

  lemma PrependEmpty<T>(r: Option<(seq<T>, nat)>)
    ensures Prepend([], 0, r) == r
  {
    if r.Some? {
      assert [] + r.value.0 == r.value.0;
    }
  }

  lemma PrependStep<T>(vec: seq<T>, off: nat, x: T, c: nat, r: Option<(seq<T>, nat)>)
    ensures Prepend(vec, off, Prepend([x], c, r)) == Prepend(vec + [x], off + c, r)
  {
    if r.Some? {
      assert vec + ([x] + r.value.0) == (vec + [x]) + r.value.0;
    }
  }
}
