/** Decoding the redirect of an OAuth sign-in: percent decoding and the query
    string. A Rust string is the sequence of its UTF-8 bytes. */
module OAuth {
  import opened Prelude

  type byte = x: int | 0 <= x < 256
  type Bytes = seq<byte>

  const PERCENT: byte := 0x25
  const PLUS: byte := 0x2B
  const SPACE: byte := 0x20
  const QUESTION: byte := 0x3F
  const AMPERSAND: byte := 0x26
  const EQUALS: byte := 0x3D

  // ---- UTF-8 ----

  predicate Continuation(b: byte) { 0x80 <= b <= 0xBF }

  /** Length of the well-formed character at the front (section 4 of RFC 3629), 0 if none. */
  function FirstChar(s: Bytes): (n: nat)
    ensures n <= |s|
  {
    if s == [] then 0
    else if s[0] < 0x80 then 1
    else if 0xC2 <= s[0] <= 0xDF && |s| >= 2 && Continuation(s[1]) then 2
    else if 0xE0 <= s[0] <= 0xEF && |s| >= 3 && Continuation(s[1]) && Continuation(s[2])
         && (s[0] == 0xE0 ==> s[1] >= 0xA0) && (s[0] == 0xED ==> s[1] <= 0x9F) then 3
    else if 0xF0 <= s[0] <= 0xF4 && |s| >= 4 && Continuation(s[1]) && Continuation(s[2]) && Continuation(s[3])
         && (s[0] == 0xF0 ==> s[1] >= 0x90) && (s[0] == 0xF4 ==> s[1] <= 0x8F) then 4
    else 0
  }

  predicate ValidUtf8(s: Bytes)
    decreases |s|
  {
    s == [] || (FirstChar(s) > 0 && ValidUtf8(s[FirstChar(s)..]))
  }

  /** Unicode scalar values. */
  predicate Scalar(cp: int) {
    0 <= cp <= 0x10FFFF && !(0xD800 <= cp <= 0xDFFF)
  }

  /** Section 3 of RFC 3629: the bits of a scalar value, six to a continuation byte. */
  function Utf8Encode(cp: int): (s: Bytes)
    requires Scalar(cp)
    ensures s != []
  {
    if cp < 0x80 then [cp]
    else if cp < 0x800 then [0xC0 + cp / 64, 0x80 + cp % 64]
    else if cp < 0x1_0000 then [0xE0 + cp / 4096, 0x80 + cp / 64 % 64, 0x80 + cp % 64]
    else [0xF0 + cp / 262144, 0x80 + cp / 4096 % 64, 0x80 + cp / 64 % 64, 0x80 + cp % 64]
  }

  lemma SixBits(hi: nat, lo: nat)
    requires lo < 64
    ensures (64 * hi + lo) / 64 == hi && (64 * hi + lo) % 64 == lo
  {}

  lemma ThreeBits(x: nat, a: nat, b: nat)
    requires a < 64 && b < 64
    ensures var cp := 4096 * x + 64 * a + b;
            cp / 4096 == x && cp / 64 % 64 == a && cp % 64 == b
  {
    assert 4096 * x + 64 * a + b == 64 * (64 * x + a) + b;
    SixBits(64 * x + a, b);
    SixBits(x, a);
  }

  lemma FourBits(x: nat, a: nat, b: nat, c: nat)
    requires a < 64 && b < 64 && c < 64
    ensures var cp := 262144 * x + 4096 * a + 64 * b + c;
            cp / 262144 == x && cp / 4096 % 64 == a && cp / 64 % 64 == b && cp % 64 == c
  {
    assert 262144 * x + 4096 * a + 64 * b + c == 4096 * (64 * x + a) + 64 * b + c;
    ThreeBits(64 * x + a, b, c);
    SixBits(x, a);
  }

  lemma ThreeByteChar(s: Bytes)
    requires FirstChar(s) == 3
    ensures exists cp :: Scalar(cp) && Utf8Encode(cp) == s[..3]
  {
    var x: int, a: int, b: int := s[0] - 0xE0, s[1] - 0x80, s[2] - 0x80;
    ThreeBits(x, a, b);
    var cp := 4096 * x + 64 * a + b;
    assert 0x800 <= cp < 0x1_0000 && !(0xD800 <= cp <= 0xDFFF);
    assert Utf8Encode(cp) == s[..3];
  }

  lemma FourByteChar(s: Bytes)
    requires FirstChar(s) == 4
    ensures exists cp :: Scalar(cp) && Utf8Encode(cp) == s[..4]
  {
    var x: int, a: int, b: int, c: int := s[0] - 0xF0, s[1] - 0x80, s[2] - 0x80, s[3] - 0x80;
    FourBits(x, a, b, c);
    var cp := 262144 * x + 4096 * a + 64 * b + c;
    assert 0x1_0000 <= cp <= 0x10FFFF;
    assert Utf8Encode(cp) == s[..4];
  }

  /** What is recognized at the front is the encoding of a scalar value. */
  lemma FirstCharIsScalar(s: Bytes)
    requires FirstChar(s) > 0
    ensures exists cp :: Scalar(cp) && Utf8Encode(cp) == s[..FirstChar(s)]
  {
    var n := FirstChar(s);
    var first: int := s[0];
    if n == 1 {
      assert Utf8Encode(first) == s[..1];
    } else if n == 2 {
      var a: int := s[1] - 0x80;
      SixBits(first - 0xC0, a);
      assert Utf8Encode(64 * (first - 0xC0) + a) == s[..2];
    } else if n == 3 {
      ThreeByteChar(s);
    } else {
      FourByteChar(s);
    }
  }

  lemma FourLead(cp: int)
    requires 0x1_0000 <= cp <= 0x10FFFF
    ensures var hi, mid := cp / 262144, cp / 4096 % 64;
            hi <= 4 && (hi == 0 ==> mid >= 0x10) && (hi == 4 ==> mid <= 0xF)
  {}

  lemma ThreeLead(cp: int)
    requires 0x800 <= cp < 0x1_0000 && Scalar(cp)
    ensures var hi, mid := cp / 4096, cp / 64 % 64;
            hi < 16 && (hi == 0 ==> mid >= 0x20) && (hi == 0xD ==> mid <= 0x1F)
  {}

  /** Every scalar value is recognized. */
  lemma ScalarIsFirstChar(cp: int, rest: Bytes)
    requires Scalar(cp)
    ensures FirstChar(Utf8Encode(cp) + rest) == |Utf8Encode(cp)|
  {
    var e := Utf8Encode(cp);
    var s := e + rest;
    assert s[0] == e[0];
    if cp >= 0x80 { assert s[1] == e[1]; }
    if cp >= 0x800 { assert s[2] == e[2]; }
    if cp >= 0x1_0000 {
      assert s[3] == e[3];
      FourLead(cp);
    } else if cp >= 0x800 {
      ThreeLead(cp);
    }
  }

  /** `is_char_boundary`: slicing a string elsewhere panics. */
  predicate Boundary(s: Bytes, i: nat)
    requires i <= |s|
  {
    i == 0 || i == |s| || !Continuation(s[i])
  }

  // ---- Percent decoding ----

  function HexDigit(b: byte): Option<int> {
    if 0x30 <= b <= 0x39 then Some(b - 0x30)
    else if 0x41 <= b <= 0x46 then Some(b - 0x41 + 10)
    else if 0x61 <= b <= 0x66 then Some(b - 0x61 + 10)
    else None
  }

  /** `u8::from_str_radix(_, 16)` of two characters; a leading plus sign is allowed. */
  function HexByte(hi: byte, lo: byte): Option<byte> {
    match (HexDigit(hi), HexDigit(lo))
    case (Some(h), Some(l)) => Some(16 * h + l)
    case (None, Some(l)) => if hi == PLUS then Some(l) else None
    case _ => None
  }

  datatype Decoded = Done(bytes: Bytes) | Panic

  /** The loop of `urlencoding_decode` from the front: bytes produced, or a panic when
      the two characters after a '%' are cut inside a character. */
  function DecodeBytes(s: Bytes): Decoded
    decreases |s|
  {
    if s == [] then Done([])
    else if s[0] == PERCENT && |s| > 2 && (!Boundary(s, 1) || !Boundary(s, 3)) then Panic
    else
      var hex := if s[0] == PERCENT && |s| > 2 then HexByte(s[1], s[2]) else None;
      var b := if hex.Some? then hex.value else if s[0] == PLUS then SPACE else s[0];
      match DecodeBytes(if hex.Some? then s[3..] else s[1..])
      case Done(rest) => Done([b] + rest)
      case Panic => Panic
  }

  /** Bytes that are no UTF-8 leave the input as it was. */
  function UrlDecode(s: Bytes): Decoded {
    match DecodeBytes(s)
    case Done(bytes) => Done(if ValidUtf8(bytes) then bytes else s)
    case Panic => Panic
  }

  function Prepend(done: Bytes, d: Decoded): Decoded {
    if d.Done? then Done(done + d.bytes) else Panic
  }

  /** One turn of the loop, at index `i`. */
  lemma DecodeAt(s: Bytes, i: nat)
    requires i < |s|
    ensures var escape := s[i] == PERCENT && i + 2 < |s|;
            DecodeBytes(s[i..])
            == if escape && (!Boundary(s, i + 1) || !Boundary(s, i + 3)) then Panic
               else if escape && HexByte(s[i + 1], s[i + 2]).Some?
                 then Prepend([HexByte(s[i + 1], s[i + 2]).value], DecodeBytes(s[i + 3..]))
               else Prepend([if s[i] == PLUS then SPACE else s[i]], DecodeBytes(s[i + 1..]))
  {
    var t := s[i..];
    assert t[1..] == s[i + 1..];
    if i + 2 < |s| {
      assert t[3..] == s[i + 3..] && t[1] == s[i + 1] && t[2] == s[i + 2];
      assert Boundary(t, 1) == Boundary(s, i + 1) && Boundary(t, 3) == Boundary(s, i + 3);
    }
  }

  lemma DecodeEnd(s: Bytes)
    ensures DecodeBytes(s[|s|..]) == Done([])
  {
    assert s[|s|..] == [];
  }

  /** `urlencoding_decode`. */
  method UrlEncodingDecode(s: Bytes) returns (r: Decoded)
    ensures r == UrlDecode(s)
  {
    hide DecodeBytes, HexByte, Boundary;
    var result: Bytes := [];
    var i := 0;
    assert s[0..] == s;
    while i < |s|
      invariant i <= |s|
      invariant DecodeBytes(s) == Prepend(result, DecodeBytes(s[i..]))
    {
      DecodeAt(s, i);
      if s[i] == PERCENT && i + 2 < |s| {
        if !Boundary(s, i + 1) || !Boundary(s, i + 3) { return Panic; }
        var hex := HexByte(s[i + 1], s[i + 2]);
        if hex.Some? {
          result := result + [hex.value];
          i := i + 3;
          continue;
        }
      }
      result := result + [if s[i] == PLUS then SPACE else s[i]];
      i := i + 1;
    }
    DecodeEnd(s);
    assert result + [] == result;
    return Done(if ValidUtf8(result) then result else s);
  }

  const LOWER: string := "0123456789abcdef"
  const UPPER: string := "0123456789ABCDEF"

  /** The hex digits are 0 to 9 and a to f in either case. */
  lemma HexDigitsCount(d: nat)
    requires d < 16
    ensures HexDigit(LOWER[d] as int) == Some(d) && HexDigit(UPPER[d] as int) == Some(d)
  {}

  /** Nothing else is one. */
  lemma HexDigitsOnly(b: byte)
    requires HexDigit(b).Some?
    ensures 0 <= HexDigit(b).value < 16
    ensures LOWER[HexDigit(b).value] as int == b || UPPER[HexDigit(b).value] as int == b
  {}

  // ---- Encoding, section 2.1 of RFC 3986 ----

  /** One byte as itself, as '%' and two hex digits of either case, or '+' for a space. */
  ghost predicate EncodesByte(b: byte, e: Bytes) {
    || (e == [b] && b < 0x80 && b !in {PERCENT, PLUS})
    || (|e| == 3 && e[0] == PERCENT && HexDigit(e[1]) == Some(b / 16) && HexDigit(e[2]) == Some(b % 16))
    || (b == SPACE && e == [PLUS])
  }

  function Concat(parts: seq<Bytes>): Bytes {
    if parts == [] then [] else parts[0] + Concat(parts[1..])
  }

  /** `parts` encodes `bytes`, byte by byte. */
  ghost predicate Encodes(bytes: Bytes, parts: seq<Bytes>) {
    |parts| == |bytes| && forall i :: 0 <= i < |bytes| ==> EncodesByte(bytes[i], parts[i])
  }

  lemma {:induction false} EncodedIsAscii(bytes: Bytes, parts: seq<Bytes>)
    requires Encodes(bytes, parts)
    ensures forall i :: 0 <= i < |Concat(parts)| ==> Concat(parts)[i] < 0x80
    decreases |parts|
  {
    if parts != [] {
      EncodedIsAscii(bytes[1..], parts[1..]);
      assert EncodesByte(bytes[0], parts[0]);
    }
  }

  lemma {:induction false} DecodeEncodedBytes(bytes: Bytes, parts: seq<Bytes>)
    requires Encodes(bytes, parts)
    ensures DecodeBytes(Concat(parts)) == Done(bytes)
    decreases |parts|
  {
    if parts != [] {
      var e, rest := parts[0], Concat(parts[1..]);
      EncodedIsAscii(bytes, parts);
      DecodeEncodedBytes(bytes[1..], parts[1..]);
      assert EncodesByte(bytes[0], e);
      var s := e + rest;
      assert Concat(parts) == s;
      if |e| == 3 && e[0] == PERCENT && HexDigit(e[1]) == Some(bytes[0] / 16) && HexDigit(e[2]) == Some(bytes[0] % 16) {
        assert s[3..] == rest && s[0] == e[0] && s[1] == e[1] && s[2] == e[2];
        assert HexByte(s[1], s[2]) == Some(bytes[0]);
      } else {
        assert s[1..] == rest;
      }
      assert bytes == [bytes[0]] + bytes[1..];
    }
  }

  /** Percent decoding undoes every percent encoding of every string. */
  lemma DecodeUndoesEncode(bytes: Bytes, parts: seq<Bytes>)
    requires ValidUtf8(bytes) && Encodes(bytes, parts)
    ensures UrlDecode(Concat(parts)) == Done(bytes)
  {
    DecodeEncodedBytes(bytes, parts);
  }

  // ---- When decoding panics ----

  /** A '%' whose two following bytes end inside a character. */
  ghost predicate CutsCharacter(s: Bytes) {
    exists i :: 0 <= i && i + 3 < |s| && s[i] == PERCENT && Continuation(s[i + 3])
  }

  /** No '%' is followed by the rest of a character; true of all UTF-8. */
  ghost predicate PercentsStandAlone(s: Bytes) {
    forall i :: 0 <= i && i + 1 < |s| && s[i] == PERCENT ==> !Continuation(s[i + 1])
  }

  lemma {:induction false} Utf8PercentsStandAlone(s: Bytes)
    requires ValidUtf8(s)
    ensures PercentsStandAlone(s) && (s != [] ==> !Continuation(s[0]))
    decreases |s|
  {
    if s != [] {
      var n := FirstChar(s);
      Utf8PercentsStandAlone(s[n..]);
      forall i | 0 <= i && i + 1 < |s| && s[i] == PERCENT ensures !Continuation(s[i + 1]) {
        if i >= n {
          assert s[n..][i - n] == s[i] && s[n..][i + 1 - n] == s[i + 1];
        } else {
          assert i + 1 == n ==> s[n..][0] == s[i + 1];
        }
      }
    }
  }

  lemma CutsLater(s: Bytes, n: nat)
    requires n <= |s| && forall i :: 0 <= i < n && i + 3 < |s| ==> s[i] != PERCENT || !Continuation(s[i + 3])
    ensures CutsCharacter(s) <==> CutsCharacter(s[n..])
  {
    if CutsCharacter(s) {
      var i :| 0 <= i && i + 3 < |s| && s[i] == PERCENT && Continuation(s[i + 3]);
      assert s[n..][i - n] == s[i] && s[n..][i - n + 3] == s[i + 3];
    }
    if CutsCharacter(s[n..]) {
      var i :| 0 <= i && i + 3 < |s[n..]| && s[n..][i] == PERCENT && Continuation(s[n..][i + 3]);
      assert s[n + i] == s[n..][i] && s[n + i + 3] == s[n..][i + 3];
    }
  }

  lemma {:induction false} DecodePanics(s: Bytes)
    requires PercentsStandAlone(s)
    ensures DecodeBytes(s).Panic? <==> CutsCharacter(s)
    decreases |s|
  {
    if s != [] {
      if s[0] == PERCENT && |s| > 3 && Continuation(s[3]) {
        assert CutsCharacter(s) by { assert s[0 + 3] == s[3]; }
      } else if s[0] == PERCENT && |s| > 2 && HexByte(s[1], s[2]).Some? {
        CutsLater(s, 3);
        DecodePanics(s[3..]);
      } else {
        CutsLater(s, 1);
        DecodePanics(s[1..]);
      }
    }
  }

  /** Decoding a string panics exactly when some '%' stands three bytes before the
      inside of a character. */
  lemma PanicsExactly(s: Bytes)
    requires ValidUtf8(s)
    ensures UrlDecode(s).Panic? <==> CutsCharacter(s)
  {
    Utf8PercentsStandAlone(s);
    DecodePanics(s);
  }

  /** So on ASCII input it never does. */
  lemma AsciiNeverPanics(s: Bytes)
    requires forall i :: 0 <= i < |s| ==> s[i] < 0x80
    ensures UrlDecode(s).Done?
  {
    DecodePanics(s);
  }

  /** A two-byte character cut after a '%' and one digit makes it panic. */
  lemma CutCharacterPanics()
    ensures ValidUtf8([PERCENT, 0x61, 0xC3, 0xA9]) && UrlDecode([PERCENT, 0x61, 0xC3, 0xA9]) == Panic
  {
    var s: Bytes := [PERCENT, 0x61, 0xC3, 0xA9];
    assert s[1..] == [0x61, 0xC3, 0xA9] && s[1..][1..] == [0xC3, 0xA9] && s[1..][1..][2..] == [];
    assert FirstChar(s) == 1 && FirstChar(s[1..]) == 1 && FirstChar(s[1..][1..]) == 2;
    assert ValidUtf8(s[1..][1..]) && ValidUtf8(s[1..]);
    PanicsExactly(s);
    assert s[0] == PERCENT && Continuation(s[0 + 3]);
  }

  // ---- What is no escape stays ----

  /** Bytes other than '%' and '+' decode to themselves. */
  lemma {:induction false} PlainStays(s: Bytes)
    requires forall i :: 0 <= i < |s| ==> s[i] != PERCENT && s[i] != PLUS
    ensures UrlDecode(s) == Done(s) && DecodeBytes(s) == Done(s)
    decreases |s|
  {
    if s != [] {
      PlainStays(s[1..]);
      assert [s[0]] + s[1..] == s;
    }
  }

  /** A '%' before anything but two hex digits (or a plus sign and one) stays, and decoding
      goes on behind it; so does one with fewer than two bytes after it. */
  lemma BrokenEscapeStays(s: Bytes)
    requires s != [] && s[0] == PERCENT && DecodeBytes(s).Done?
    requires |s| <= 2 || HexDigit(s[2]).None? || (HexDigit(s[1]).None? && s[1] != PLUS)
    ensures DecodeBytes(s[1..]).Done? && DecodeBytes(s).bytes == [PERCENT] + DecodeBytes(s[1..]).bytes
  {}

  /** A plus sign is taken for a leading sign of the number. */
  lemma SignedEscape(digit: byte)
    requires HexDigit(digit).Some?
    ensures DecodeBytes([PERCENT, PLUS, digit]) == Done([HexDigit(digit).value])
  {
    var s: Bytes := [PERCENT, PLUS, digit];
    assert s[3..] == [] && DecodeBytes([]) == Done([]);
    assert s[0] == PERCENT && s[1] == PLUS && s[2] == digit;
    assert Boundary(s, 1) && Boundary(s, 3);
  }

  /** Bytes that decode to no UTF-8 leave the input untouched, escapes and all. */
  lemma InvalidStays(s: Bytes)
    requires DecodeBytes(s).Done? && !ValidUtf8(DecodeBytes(s).bytes)
    ensures UrlDecode(s) == Done(s)
  {}

  // ---- Query strings ----

  /** `split(sep)`: the pieces between the separators, at least one. */
  function Split(s: Bytes, sep: byte): (r: seq<Bytes>)
    ensures r != []
    decreases |s|
  {
    if s == [] then [[]]
    else
      var rest := Split(s[1..], sep);
      if s[0] == sep then [[]] + rest else [[s[0]] + rest[0]] + rest[1..]
  }

  /** `splitn(2, '=')`: the key and the rest, if there is an equals sign. */
  function SplitPair(s: Bytes): Option<(Bytes, Bytes)>
    decreases |s|
  {
    if s == [] then None
    else if s[0] == EQUALS then Some(([], s[1..]))
    else
      match SplitPair(s[1..])
      case None => None
      case Some((k, v)) => Some(([s[0]] + k, v))
  }

  datatype Params = Params(m: map<Bytes, Bytes>) | ParsePanic

  function AddPair(params: Params, pair: Bytes): Params {
    if params.ParsePanic? then ParsePanic
    else
      match SplitPair(pair)
      case None => params
      case Some((k, v)) =>
        match UrlDecode(v)
        case Done(value) => Params(params.m[k := value])
        case Panic => ParsePanic
  }

  function AddPairs(params: Params, pairs: seq<Bytes>): Params {
    if pairs == [] then params else AddPair(AddPairs(params, pairs[..|pairs| - 1]), pairs[|pairs| - 1])
  }

  function ParseQuery(path: Bytes): Params {
    var pieces := Split(path, QUESTION);
    if |pieces| < 2 then Params(map[]) else AddPairs(Params(map[]), Split(pieces[1], AMPERSAND))
  }

  lemma {:induction false} PanicSticks(params: Params, pairs: seq<Bytes>, i: nat)
    requires i < |pairs| && AddPairs(params, pairs[..i + 1]) == ParsePanic
    ensures AddPairs(params, pairs) == ParsePanic
  {
    if i + 1 < |pairs| {
      assert pairs[..|pairs| - 1][..i + 1] == pairs[..i + 1];
      PanicSticks(params, pairs[..|pairs| - 1], i);
    } else {
      assert pairs[..i + 1] == pairs;
    }
  }

  /** `parse_query_string`. */
  method ParseQueryString(path: Bytes) returns (params: Params)
    ensures params == ParseQuery(path)
  {
    params := Params(map[]);
    var pieces := Split(path, QUESTION);
    if |pieces| >= 2 {
      var pairs := Split(pieces[1], AMPERSAND);
      for i := 0 to |pairs|
        invariant params.Params? && params == AddPairs(Params(map[]), pairs[..i])
      {
        assert pairs[..i + 1][..i] == pairs[..i];
        var kv := SplitPair(pairs[i]);
        if kv.Some? {
          var value := UrlEncodingDecode(kv.value.1);
          if value.Panic? {
            PanicSticks(Params(map[]), pairs, i);
            return ParsePanic;
          }
          params := Params(params.m[kv.value.0 := value.bytes]);
        }
      }
      assert pairs[..|pairs|] == pairs;
    }
  }

  /** A key, its value, and one encoding of the value. */
  datatype Pair = Pair(key: Bytes, value: Bytes, parts: seq<Bytes>)

  ghost predicate Free(s: Bytes, sep: byte) {
    forall i :: 0 <= i < |s| ==> s[i] != sep
  }

  /** Keys without delimiters, values encoded so that no '&' or '?' is left bare. */
  ghost predicate ValidPair(p: Pair) {
    && Free(p.key, QUESTION) && Free(p.key, AMPERSAND) && Free(p.key, EQUALS)
    && ValidUtf8(p.value) && Encodes(p.value, p.parts)
    && Free(Concat(p.parts), QUESTION) && Free(Concat(p.parts), AMPERSAND)
  }

  function Written(p: Pair): Bytes {
    p.key + [EQUALS] + Concat(p.parts)
  }

  /** `k=v` joined with '&'. */
  function Joined(ps: seq<Pair>): Bytes {
    if ps == [] then []
    else if |ps| == 1 then Written(ps[0])
    else Written(ps[0]) + [AMPERSAND] + Joined(ps[1..])
  }

  function Expected(ps: seq<Pair>): map<Bytes, Bytes> {
    if ps == [] then map[] else Expected(ps[..|ps| - 1])[ps[|ps| - 1].key := ps[|ps| - 1].value]
  }

  lemma {:induction false} SplitFree(s: Bytes, sep: byte)
    requires Free(s, sep)
    ensures Split(s, sep) == [s]
    decreases |s|
  {
    if s != [] {
      SplitFree(s[1..], sep);
      assert [s[0]] + s[1..] == s;
    }
  }

  lemma {:induction false} SplitJoin(s: Bytes, sep: byte, t: Bytes)
    requires Free(s, sep)
    ensures Split(s + [sep] + t, sep) == [s] + Split(t, sep)
    decreases |s|
  {
    var all := s + [sep] + t;
    if s == [] {
      assert all[1..] == t;
    } else {
      assert all[1..] == s[1..] + [sep] + t && all[0] == s[0];
      SplitJoin(s[1..], sep, t);
      assert [s[0]] + s[1..] == s;
    }
  }

  lemma {:induction false} SplitPairJoin(k: Bytes, v: Bytes)
    requires Free(k, EQUALS)
    ensures SplitPair(k + [EQUALS] + v) == Some((k, v))
    decreases |k|
  {
    var all := k + [EQUALS] + v;
    if k == [] {
      assert all[1..] == v;
    } else {
      assert all[1..] == k[1..] + [EQUALS] + v && all[0] == k[0];
      SplitPairJoin(k[1..], v);
      assert [k[0]] + k[1..] == k;
    }
  }

  lemma {:induction false} SplitJoined(ps: seq<Pair>)
    requires ps != [] && forall p :: p in ps ==> ValidPair(p)
    ensures Split(Joined(ps), AMPERSAND) == seq(|ps|, i requires 0 <= i < |ps| => Written(ps[i]))
    ensures Free(Joined(ps), QUESTION)
    decreases |ps|
  {
    assert ps[0] in ps && ValidPair(ps[0]);
    var w := Written(ps[0]);
    assert Free(w, AMPERSAND) && Free(w, QUESTION);
    if |ps| == 1 {
      SplitFree(w, AMPERSAND);
    } else {
      SplitJoined(ps[1..]);
      SplitJoin(w, AMPERSAND, Joined(ps[1..]));
    }
  }

  lemma {:induction false} AddWritten(ps: seq<Pair>, written: seq<Bytes>)
    requires forall p :: p in ps ==> ValidPair(p)
    requires |written| == |ps| && forall i :: 0 <= i < |ps| ==> written[i] == Written(ps[i])
    ensures AddPairs(Params(map[]), written) == Params(Expected(ps))
    decreases |ps|
  {
    if ps != [] {
      var last := ps[|ps| - 1];
      assert last in ps && ValidPair(last);
      AddWritten(ps[..|ps| - 1], written[..|ps| - 1]);
      SplitPairJoin(last.key, Concat(last.parts));
      DecodeUndoesEncode(last.value, last.parts);
    }
  }

  /** Parsing a path recovers the pairs its query was written from. */
  lemma ParseRecoversPairs(prefix: Bytes, ps: seq<Pair>)
    requires Free(prefix, QUESTION) && forall p :: p in ps ==> ValidPair(p)
    ensures ParseQuery(prefix + [QUESTION] + Joined(ps)) == Params(Expected(ps))
  {
    SplitJoin(prefix, QUESTION, Joined(ps));
    if ps == [] {
      SplitFree([], QUESTION);
      var none: seq<Bytes> := [[]];
      assert none[..0] == [];
      assert AddPairs(Params(map[]), none) == Params(map[]);
    } else {
      SplitJoined(ps);
      SplitFree(Joined(ps), QUESTION);
      AddWritten(ps, Split(Joined(ps), AMPERSAND));
    }
  }

  lemma {:induction false} NoPair(s: Bytes)
    requires Free(s, EQUALS)
    ensures SplitPair(s).None?
    decreases |s|
  {
    if s != [] {
      assert Free(s[1..], EQUALS) by { assert forall i :: 0 <= i < |s[1..]| ==> s[1..][i] == s[i + 1]; }
      NoPair(s[1..]);
    }
  }

  /** A piece without an equals sign adds nothing and takes nothing away. */
  lemma {:induction false} JunkIgnored(params: Params, pairs: seq<Bytes>, junk: Bytes)
    requires Free(junk, EQUALS)
    ensures AddPairs(params, pairs + [junk]) == AddPairs(params, pairs)
  {
    assert (pairs + [junk])[..|pairs|] == pairs;
    NoPair(junk);
  }

  lemma {:induction false} SplitLast(ps: seq<Pair>, junk: Bytes)
    requires ps != [] && forall p :: p in ps ==> ValidPair(p)
    requires Free(junk, AMPERSAND)
    ensures Split(Joined(ps) + [AMPERSAND] + junk, AMPERSAND)
         == seq(|ps|, i requires 0 <= i < |ps| => Written(ps[i])) + [junk]
    decreases |ps|
  {
    assert ps[0] in ps && ValidPair(ps[0]);
    var w := Written(ps[0]);
    assert Free(w, AMPERSAND);
    if |ps| == 1 {
      SplitJoin(w, AMPERSAND, junk);
      SplitFree(junk, AMPERSAND);
    } else {
      var rest := Joined(ps[1..]) + [AMPERSAND] + junk;
      SplitLast(ps[1..], junk);
      assert Joined(ps) + [AMPERSAND] + junk == w + [AMPERSAND] + rest;
      SplitJoin(w, AMPERSAND, rest);
    }
  }

  /** The query is what stands between the first two question marks; a trailing piece that
      is no pair leaves the pairs before it. */
  lemma ParseIgnoresTheRest(prefix: Bytes, ps: seq<Pair>, junk: Bytes, tail: Bytes)
    requires Free(prefix, QUESTION) && ps != [] && forall p :: p in ps ==> ValidPair(p)
    requires Free(junk, EQUALS) && Free(junk, AMPERSAND) && Free(junk, QUESTION)
    ensures ParseQuery(prefix + [QUESTION] + (Joined(ps) + [AMPERSAND] + junk) + [QUESTION] + tail)
         == Params(Expected(ps))
  {
    var query := Joined(ps) + [AMPERSAND] + junk;
    var path := prefix + [QUESTION] + query + [QUESTION] + tail;
    SplitJoined(ps);
    assert Free(query, QUESTION);
    assert path == prefix + [QUESTION] + (query + [QUESTION] + tail);
    SplitJoin(prefix, QUESTION, query + [QUESTION] + tail);
    SplitJoin(query, QUESTION, tail);
    SplitLast(ps, junk);
    var written := seq(|ps|, i requires 0 <= i < |ps| => Written(ps[i]));
    AddWritten(ps, written);
    JunkIgnored(Params(map[]), written, junk);
  }

  /** Without a question mark there are no parameters. */
  lemma NoQueryNoParams(path: Bytes)
    requires Free(path, QUESTION)
    ensures ParseQuery(path) == Params(map[])
  {
    SplitFree(path, QUESTION);
  }

  ghost predicate HasKey(ps: seq<Pair>, k: Bytes) {
    exists p :: p in ps && p.key == k
  }

  ghost predicate LastOfKey(ps: seq<Pair>, i: nat) {
    i < |ps| && forall j :: i < j < |ps| ==> ps[j].key != ps[i].key
  }

  /** The last pair of each key, and nothing else. */
  lemma {:induction false} ExpectedIsThePairs(ps: seq<Pair>)
    ensures forall i: nat :: LastOfKey(ps, i) ==> ps[i].key in Expected(ps) && Expected(ps)[ps[i].key] == ps[i].value
    ensures forall k :: k in Expected(ps) ==> HasKey(ps, k)
  {
    if ps != [] {
      var init, last := ps[..|ps| - 1], ps[|ps| - 1];
      ExpectedIsThePairs(init);
      assert ps == init + [last];
      forall k | k in Expected(ps) ensures HasKey(ps, k) {
        if k == last.key {
          assert last in ps;
        } else {
          assert k in Expected(init) && HasKey(init, k);
          var p :| p in init && p.key == k;
          assert p in ps;
        }
      }
    }
  }
}
