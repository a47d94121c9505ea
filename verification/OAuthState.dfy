/** The signed OAuth state: UTF-8, unpadded base64url, a decimal timestamp, a
    dot-separated layout that is split from the right, and the pipe-packed
    payloads of the GitHub and Hugging Face flows.  The signature is a parameter:
    any function that yields no dot. */
module OAuthState {
  import opened PyText

  newtype byte = b: int | 0 <= b < 256

  // ----- UTF-8 -----

  function EncodeChar(c: char): (bs: seq<byte>)
    ensures 1 <= |bs| <= 4
  {
    var n := c as int;
    if n < 0x80 then [n as byte]
    else if n < 0x800 then [(0xC0 + n / 64) as byte, (0x80 + n % 64) as byte]
    else if n < 0x10000 then
      [(0xE0 + n / 4096) as byte, (0x80 + n / 64 % 64) as byte, (0x80 + n % 64) as byte]
    else
      [(0xF0 + n / 262144) as byte, (0x80 + n / 4096 % 64) as byte,
       (0x80 + n / 64 % 64) as byte, (0x80 + n % 64) as byte]
  }

  /** ASCII text is its own encoding. */
  lemma {:induction false} Utf8OfAscii(s: string)
    requires forall i :: 0 <= i < |s| ==> s[i] < '\U{80}'
    ensures |Utf8(s)| == |s| && forall i :: 0 <= i < |s| ==> Utf8(s)[i] as int == s[i] as int
  {
    if s != "" {
      var rest := s[1..];
      assert forall i :: 0 <= i < |rest| ==> rest[i] == s[i + 1];
      Utf8OfAscii(rest);
      assert Utf8(s) == [s[0] as int as byte] + Utf8(rest);
      hide Utf8;
      assert forall i :: 0 < i < |s| ==> Utf8(s)[i] == Utf8(rest)[i - 1] && s[i] == rest[i - 1];
    }
  }

  /** The example of section 7 of RFC 3629: a letter, a sign, an alpha, a full stop. */
  lemma Utf8Vector()
    ensures Utf8("A\U{2262}\U{391}.") == [0x41, 0xE2, 0x89, 0xA2, 0xCE, 0x91, 0x2E]
  {
    assert EncodeChar('\U{2262}') == [0xE2, 0x89, 0xA2] && EncodeChar('\U{391}') == [0xCE, 0x91];
    var s := "A\U{2262}\U{391}.";
    assert s[1..][1..][1..] == ".";
    assert Utf8(".") == [0x2E];
    assert Utf8(s[1..][1..]) == [0xCE, 0x91] + [0x2E];
  }

  function Utf8(s: string): seq<byte> {
    if s == "" then [] else EncodeChar(s[0]) + Utf8(s[1..])
  }

  function SequenceLength(lead: byte): nat {
    if lead < 0x80 then 1
    else if 0xC2 <= lead < 0xE0 then 2
    else if 0xE0 <= lead < 0xF0 then 3
    else if 0xF0 <= lead < 0xF5 then 4
    else 0
  }

  function Continuation(b: byte): Option<int> {
    if 0x80 <= b < 0xC0 then Some(b as int - 0x80) else None
  }

  function CodePoint(bs: seq<byte>): Option<int>
    requires bs != [] && |bs| == SequenceLength(bs[0])
  {
    var b0 := bs[0] as int;
    if |bs| == 1 then Some(b0)
    else
      var c1 := Continuation(bs[1]);
      if c1.None? then None
      else if |bs| == 2 then Some((b0 - 0xC0) * 64 + c1.value)
      else
        var c2 := Continuation(bs[2]);
        if c2.None? then None
        else if |bs| == 3 then
          var n := ((b0 - 0xE0) * 64 + c1.value) * 64 + c2.value;
          if n < 0x800 then None else Some(n)
        else
          var c3 := Continuation(bs[3]);
          if c3.None? then None
          else
            var n := (((b0 - 0xF0) * 64 + c1.value) * 64 + c2.value) * 64 + c3.value;
            if n < 0x10000 then None else Some(n)
  }

  predicate IsScalar(n: int) {
    0 <= n < 0xD800 || 0xE000 <= n < 0x110000
  }

  function Utf8Decode(bs: seq<byte>): Option<string>
    decreases |bs|
  {
    if bs == [] then Some("")
    else
      var k := SequenceLength(bs[0]);
      if k == 0 || k > |bs| then None
      else
        var n := CodePoint(bs[..k]);
        if n.None? || !IsScalar(n.value) then None
        else
          var rest := Utf8Decode(bs[k..]);
          if rest.None? then None else Some([n.value as char] + rest.value)
  }

  /** Base-64 digits of a code point. */
  lemma Digits64(n: nat)
    ensures n == n / 64 * 64 + n % 64
    ensures n / 64 == n / 4096 * 64 + n / 64 % 64
    ensures n / 4096 == n / 262144 * 64 + n / 4096 % 64
  {
    assert n / 64 / 64 == n / 4096;
    assert n / 4096 / 64 == n / 262144;
  }

  lemma TwoBytes(c: char)
    requires 0x80 <= c as int < 0x800
    ensures var bs := EncodeChar(c); SequenceLength(bs[0]) == |bs| && CodePoint(bs) == Some(c as int)
  {
    Digits64(c as int);
  }

  lemma ThreeBytes(c: char)
    requires 0x800 <= c as int < 0x10000
    ensures var bs := EncodeChar(c); SequenceLength(bs[0]) == |bs| && CodePoint(bs) == Some(c as int)
  {
    Digits64(c as int);
  }

  lemma FourBytes(c: char)
    requires 0x10000 <= c as int
    ensures var bs := EncodeChar(c); SequenceLength(bs[0]) == |bs| && CodePoint(bs) == Some(c as int)
  {
    Digits64(c as int);
  }

  lemma CharRoundTrip(c: char)
    ensures var bs := EncodeChar(c);
            SequenceLength(bs[0]) == |bs| && CodePoint(bs) == Some(c as int) && IsScalar(c as int)
  {
    if c as int < 0x80 {
    } else if c as int < 0x800 {
      TwoBytes(c);
    } else if c as int < 0x10000 {
      ThreeBytes(c);
    } else {
      FourBytes(c);
    }
  }

  lemma {:induction false} Utf8RoundTrip(s: string)
    ensures Utf8Decode(Utf8(s)) == Some(s)
  {
    if s != "" {
      var head, rest := EncodeChar(s[0]), Utf8(s[1..]);
      CharRoundTrip(s[0]);
      Utf8RoundTrip(s[1..]);
      hide EncodeChar, CodePoint, SequenceLength;
      assert (head + rest)[..|head|] == head && (head + rest)[|head|..] == rest;
      assert [s[0]] + s[1..] == s;
    }
  }

  lemma SixBits(a: int, c: int)
    requires 0 <= c < 64
    ensures (a * 64 + c) / 64 == a && (a * 64 + c) % 64 == c
  {
  }

  /** What decodes to a scalar value is its shortest encoding. */
  lemma CodePointIsEncoded(bs: seq<byte>)
    requires bs != [] && |bs| == SequenceLength(bs[0])
    requires CodePoint(bs).Some? && IsScalar(CodePoint(bs).value)
    ensures EncodeChar(CodePoint(bs).value as char) == bs
  {
    if |bs| == 2 {
      SixBits(bs[0] as int - 0xC0, bs[1] as int - 0x80);
    } else if |bs| == 3 {
      ThreeBytesEncode(bs);
    } else if |bs| == 4 {
      FourBytesEncode(bs);
    }
  }

  lemma ThreeBytesEncode(bs: seq<byte>)
    requires |bs| == 3 == SequenceLength(bs[0])
    requires CodePoint(bs).Some? && IsScalar(CodePoint(bs).value)
    ensures EncodeChar(CodePoint(bs).value as char) == bs
  {
    var b0, n := bs[0] as int, CodePoint(bs).value;
    var m := (b0 - 0xE0) * 64 + (bs[1] as int - 0x80);
    SixBits(b0 - 0xE0, bs[1] as int - 0x80);
    SixBits(m, bs[2] as int - 0x80);
    Digits64(n);
  }

  lemma FourBytesEncode(bs: seq<byte>)
    requires |bs| == 4 == SequenceLength(bs[0])
    requires CodePoint(bs).Some? && IsScalar(CodePoint(bs).value)
    ensures EncodeChar(CodePoint(bs).value as char) == bs
  {
    var b0, n := bs[0] as int, CodePoint(bs).value;
    var m := (b0 - 0xF0) * 64 + (bs[1] as int - 0x80);
    var k := m * 64 + (bs[2] as int - 0x80);
    SixBits(b0 - 0xF0, bs[1] as int - 0x80);
    SixBits(m, bs[2] as int - 0x80);
    SixBits(k, bs[3] as int - 0x80);
    Digits64(n);
  }

  /** Decoding is strict: it succeeds on nothing but the encoding of its result, so
      overlong forms, surrogates and stray bytes are refused. */
  lemma {:induction false} Utf8DecodeIsStrict(bs: seq<byte>)
    ensures Utf8Decode(bs).Some? ==> Utf8(Utf8Decode(bs).value) == bs
    decreases |bs|
  {
    hide CodePoint, SequenceLength, EncodeChar, IsScalar;
    if bs != [] && Utf8Decode(bs).Some? {
      var k := SequenceLength(bs[0]);
      Utf8DecodeIsStrict(bs[k..]);
      CodePointIsEncoded(bs[..k]);
      var s := Utf8Decode(bs).value;
      assert s[1..] == Utf8Decode(bs[k..]).value;
      assert bs == bs[..k] + bs[k..];
    }
  }

  // ----- base64url (RFC 4648, sections 3.2 and 5) -----

  predicate IsSextet(n: int) { 0 <= n < 64 }

  function Digit(n: int): char
    requires IsSextet(n)
  {
    if n < 26 then ('A' as int + n) as char
    else if n < 52 then ('a' as int + n - 26) as char
    else if n < 62 then ('0' as int + n - 52) as char
    else if n == 62 then '-' else '_'
  }

  function Value(c: char): (v: Option<int>)
    ensures v.Some? ==> IsSextet(v.value)
  {
    if 'A' <= c <= 'Z' then Some(c as int - 'A' as int)
    else if 'a' <= c <= 'z' then Some(c as int - 'a' as int + 26)
    else if '0' <= c <= '9' then Some(c as int - '0' as int + 52)
    else if c == '-' then Some(62)
    else if c == '_' then Some(63)
    else None
  }

  lemma DigitValue(n: int)
    requires IsSextet(n)
    ensures Value(Digit(n)) == Some(n) && Digit(n) != '=' && Digit(n) != '.'
  {
  }

  ghost function Range(first: char, n: nat): string
    requires first as int + n < 0x80
  {
    seq(n, i requires 0 <= i < n => (first as int + i) as char)
  }

  /** The digits are those of table 2 of RFC 4648, the URL and file name safe
      alphabet: letters, decimal digits, and then '-' and '_'. */
  lemma DigitIsUrlSafe(n: int)
    requires IsSextet(n)
    ensures var alphabet := Range('A', 26) + Range('a', 26) + Range('0', 10) + "-_";
            |alphabet| == 64 && Digit(n) == alphabet[n]
  {
  }

  lemma ValueIff(c: char, n: int)
    ensures Value(c) == Some(n) <==> IsSextet(n) && Digit(n) == c
  {
  }

  /** The sextets of three bytes, and the bytes of four sextets. */
  function Sextets(b0: byte, b1: byte, b2: byte): (t: (int, int, int, int))
    ensures IsSextet(t.0) && IsSextet(t.1) && IsSextet(t.2) && IsSextet(t.3)
  {
    var (n0, n1, n2) := (b0 as int, b1 as int, b2 as int);
    (n0 / 4, n0 % 4 * 16 + n1 / 16, n1 % 16 * 4 + n2 / 64, n2 % 64)
  }

  function Bytes(v0: int, v1: int, v2: int, v3: int): (byte, byte, byte)
    requires IsSextet(v0) && IsSextet(v1) && IsSextet(v2) && IsSextet(v3)
  {
    ((v0 * 4 + v1 / 16) as byte, (v1 % 16 * 16 + v2 / 4) as byte, (v2 % 4 * 64 + v3) as byte)
  }

  /** Three bytes and their four sextets are the same 24-bit number, the first
      ones being the most significant. */
  lemma SextetsAreBits(b0: byte, b1: byte, b2: byte)
    ensures var t := Sextets(b0, b1, b2);
            ((t.0 * 64 + t.1) * 64 + t.2) * 64 + t.3 == (b0 as int * 256 + b1 as int) * 256 + b2 as int
  {
    CutRejoin(b0 as int, 4);
    CutRejoin(b1 as int, 16);
    CutRejoin(b2 as int, 64);
  }

  /** Cutting `a` at the digit `m` and rejoining it. */
  lemma CutRejoin(a: int, m: int)
    requires a >= 0 && m > 0
    ensures a / m * m + a % m == a
  {
  }

  lemma SextetsRejoin(b0: byte, b1: byte, b2: byte)
    ensures var t := Sextets(b0, b1, b2); Bytes(t.0, t.1, t.2, t.3) == (b0, b1, b2)
  {
    var n0, n1, n2 := b0 as int, b1 as int, b2 as int;
    var t := Sextets(b0, b1, b2);
    CutRejoin(n0, 4);
    CutRejoin(n1, 16);
    CutRejoin(n2, 64);
    assert t.1 / 16 == n0 % 4 && t.1 % 16 == n1 / 16;
    assert t.2 / 4 == n1 % 16 && t.2 % 4 == n2 / 64;
  }

  /** Standard encoding, with padding; missing bytes of the last group are 0. */
  function Base64(bs: seq<byte>): string {
    if bs == [] then ""
    else if |bs| == 1 then
      var t := Sextets(bs[0], 0, 0);
      [Digit(t.0), Digit(t.1), '=', '=']
    else if |bs| == 2 then
      var t := Sextets(bs[0], bs[1], 0);
      [Digit(t.0), Digit(t.1), Digit(t.2), '=']
    else
      var t := Sextets(bs[0], bs[1], bs[2]);
      [Digit(t.0), Digit(t.1), Digit(t.2), Digit(t.3)] + Base64(bs[3..])
  }

  /** The examples of section 10 of RFC 4648, and one with the two digits that the
      URL-safe alphabet changes. */
  lemma Base64Vectors()
    ensures Base64([102, 111, 111, 98, 97, 114]) == "Zm9vYmFy"
    ensures Base64([102, 111, 111, 98, 97]) == "Zm9vYmE="
    ensures Base64([102, 111, 111, 98]) == "Zm9vYg=="
    ensures Base64([251, 239, 255]) == "--__"
  {
    var foo: seq<byte> := [102, 111, 111];
    VectorGroups();
    FirstGroup(foo, [98, 97, 114]);
    FirstGroup(foo, [98, 97]);
    FirstGroup(foo, [98]);
    hide Base64, Digit;
    assert foo + [98, 97, 114] == [102, 111, 111, 98, 97, 114];
    assert foo + [98, 97] == [102, 111, 111, 98, 97];
    assert foo + [98] == [102, 111, 111, 98];
    assert Base64(foo + [98]) == "Zm9v" + "Yg==";
  }

  lemma VectorGroups()
    ensures Digit(25) == 'Z' && Digit(38) == 'm' && Digit(61) == '9' && Digit(47) == 'v'
    ensures Sextets(102, 111, 111) == (25, 38, 61, 47)
    ensures Base64([98, 97, 114]) == "YmFy" && Base64([98, 97]) == "YmE=" && Base64([98]) == "Yg=="
    ensures Base64([251, 239, 255]) == "--__"
  {
    LastGroup(98, 97, 114);
    LastGroup(251, 239, 255);
  }

  lemma LastGroup(b0: byte, b1: byte, b2: byte)
    ensures var t := Sextets(b0, b1, b2);
            Base64([b0, b1, b2]) == [Digit(t.0), Digit(t.1), Digit(t.2), Digit(t.3)]
  {
    assert [b0, b1, b2][3..] == [];
  }

  lemma FirstGroup(a: seq<byte>, rest: seq<byte>)
    requires |a| == 3
    ensures var t := Sextets(a[0], a[1], a[2]);
            Base64(a + rest) == [Digit(t.0), Digit(t.1), Digit(t.2), Digit(t.3)] + Base64(rest)
  {
    assert (a + rest)[3..] == rest;
  }

  predicate IsPad(c: char) { c == '=' }

  function Unpad(s: string): string {
    TrimRight(s, IsPad)
  }

  /** Padding restored from the length, as the verifier does it. */
  function Repad(s: string): string {
    var padding := 4 - |s| % 4;
    if padding == 4 then s else s + seq(padding, _ => '=')
  }

  /** One group of four characters; only the last group of the text is padded. */
  function DecodeGroup(c0: char, c1: char, c2: char, c3: char, isLast: bool): Option<seq<byte>> {
    if Value(c0).None? || Value(c1).None? then None
    else if isLast && c2 == '=' && c3 == '=' then
      Some([Bytes(Value(c0).value, Value(c1).value, 0, 0).0])
    else if Value(c2).None? then None
    else if isLast && c3 == '=' then
      var b := Bytes(Value(c0).value, Value(c1).value, Value(c2).value, 0);
      Some([b.0, b.1])
    else if Value(c3).None? then None
    else
      var b := Bytes(Value(c0).value, Value(c1).value, Value(c2).value, Value(c3).value);
      Some([b.0, b.1, b.2])
  }

  function Base64Decode(s: string): Option<seq<byte>>
    decreases |s|
  {
    if s == "" then Some([])
    else if |s| < 4 then None
    else
      var group := DecodeGroup(s[0], s[1], s[2], s[3], |s| == 4);
      var rest := Base64Decode(s[4..]);
      if group.None? || rest.None? then None else Some(group.value + rest.value)
  }

  lemma BytesNeed(v0: int, v1: int, v2: int, v3: int)
    requires IsSextet(v0) && IsSextet(v1) && IsSextet(v2) && IsSextet(v3)
    ensures Bytes(v0, v1, v2, v3).0 == Bytes(v0, v1, v2, 0).0 == Bytes(v0, v1, 0, 0).0
    ensures Bytes(v0, v1, v2, v3).1 == Bytes(v0, v1, v2, 0).1
  {
  }

  /** Every group comes back, also from its first two or three digits. */
  lemma {:induction false} GroupRoundTrip(b0: byte, b1: byte, b2: byte, isLast: bool)
    ensures var t := Sextets(b0, b1, b2);
            && DecodeGroup(Digit(t.0), Digit(t.1), Digit(t.2), Digit(t.3), isLast) == Some([b0, b1, b2])
            && DecodeGroup(Digit(t.0), Digit(t.1), Digit(t.2), '=', true) == Some([b0, b1])
            && DecodeGroup(Digit(t.0), Digit(t.1), '=', '=', true) == Some([b0])
  {
    var t := Sextets(b0, b1, b2);
    SextetsRejoin(b0, b1, b2);
    BytesNeed(t.0, t.1, t.2, t.3);
    DigitValue(t.0);
    DigitValue(t.1);
    DigitValue(t.2);
    DigitValue(t.3);
    hide Sextets, Bytes, Digit, Value;
  }

  lemma {:induction false} Base64RoundTrip(bs: seq<byte>)
    ensures Base64Decode(Base64(bs)) == Some(bs) && |Base64(bs)| % 4 == 0
    decreases |bs|
  {
    hide Sextets, Digit, DecodeGroup;
    if bs == [] {
      assert Base64(bs) == "";
    } else if |bs| == 1 {
      LastOne(bs[0]);
      assert bs == [bs[0]];
    } else if |bs| == 2 {
      LastTwo(bs[0], bs[1]);
      assert bs == [bs[0], bs[1]];
    } else {
      Base64RoundTrip(bs[3..]);
      FullGroup(bs[0], bs[1], bs[2], bs[3..]);
      assert bs == [bs[0], bs[1], bs[2]] + bs[3..];
    }
  }

  lemma LastOne(b: byte)
    ensures Base64Decode(Base64([b])) == Some([b]) && |Base64([b])| == 4
  {
    GroupRoundTrip(b, 0, 0, true);
    hide Sextets, Digit, DecodeGroup;
    DecodeStep(Base64([b]), [b], []);
    assert [b] + [] == [b];
  }

  lemma LastTwo(b: byte, c: byte)
    ensures Base64Decode(Base64([b, c])) == Some([b, c]) && |Base64([b, c])| == 4
  {
    GroupRoundTrip(b, c, 0, true);
    hide Sextets, Digit, DecodeGroup;
    DecodeStep(Base64([b, c]), [b, c], []);
    assert [b, c] + [] == [b, c];
  }

  lemma EncodeStep(b0: byte, b1: byte, b2: byte, more: seq<byte>)
    ensures var t := Sextets(b0, b1, b2);
            Base64([b0, b1, b2] + more) == [Digit(t.0), Digit(t.1), Digit(t.2), Digit(t.3)] + Base64(more)
  {
    hide Sextets, Digit;
    assert ([b0, b1, b2] + more)[3..] == more;
  }

  lemma FullGroup(b0: byte, b1: byte, b2: byte, more: seq<byte>)
    requires Base64Decode(Base64(more)) == Some(more)
    ensures var bs := [b0, b1, b2] + more;
            Base64Decode(Base64(bs)) == Some(bs) && |Base64(bs)| == 4 + |Base64(more)|
  {
    var s := Base64([b0, b1, b2] + more);
    EncodeStep(b0, b1, b2, more);
    GroupRoundTrip(b0, b1, b2, |s| == 4);
    hide Sextets, Digit, DecodeGroup, Base64Decode, Base64;
    assert s[4..] == Base64(more);
    DecodeStep(s, [b0, b1, b2], more);
  }

  lemma DecodeStep(s: string, group: seq<byte>, rest: seq<byte>)
    requires |s| >= 4 && DecodeGroup(s[0], s[1], s[2], s[3], |s| == 4) == Some(group)
    requires Base64Decode(s[4..]) == Some(rest)
    ensures Base64Decode(s) == Some(group + rest)
  {
    hide DecodeGroup;
  }

  /** No dots, and at most two pad characters, at the end. */
  lemma {:induction false} Base64Alphabet(bs: seq<byte>)
    ensures Without(Base64(bs), '.')
    ensures var s := Base64(bs);
            bs != [] ==> |s| >= 4 && s[0] != '=' && s[|s| - 3] != '='
    decreases |bs|
  {
    if bs != [] {
      var t := Sextets(bs[0], if |bs| > 1 then bs[1] else 0, if |bs| > 2 then bs[2] else 0);
      DigitValue(t.0);
      DigitValue(t.1);
      DigitValue(t.2);
      DigitValue(t.3);
      hide Digit, Value, Sextets;
      if |bs| > 2 {
        Base64Alphabet(bs[3..]);
      }
    }
  }

  lemma PaddingOfBase64(bs: seq<byte>)
    ensures var s := Base64(bs);
            |s| - 2 <= |Unpad(s)| <= |s| && (bs != [] ==> |Unpad(s)| > 0)
  {
    Base64Alphabet(bs);
  }

  /** Stripping the padding and restoring it from the length is the identity. */
  lemma {:induction false} RepadUnpad(bs: seq<byte>)
    ensures Repad(Unpad(Base64(bs))) == Base64(bs)
  {
    var s := Base64(bs);
    Base64RoundTrip(bs);
    PaddingOfBase64(bs);
    hide Base64, Base64Decode;
    var u := Unpad(s);
    assert forall i :: |u| <= i < |s| ==> s[i] == '=';
    assert s == u + seq(|s| - |u|, _ => '=');
  }

  ghost predicate IsDigits(s: string) {
    forall i :: 0 <= i < |s| ==> Value(s[i]).Some?
  }

  /** Only whole groups of digits decode, with at most two '=' at the end. */
  lemma {:induction false} DecodedAlphabet(s: string)
    requires Base64Decode(s).Some?
    ensures |s| % 4 == 0 && |s| <= |Unpad(s)| + 2 && IsDigits(Unpad(s))
    decreases |s|
  {
    hide Base64Decode, DecodeGroup, IsDigits, Unpad;
    DecodedParts(s);
    if s == "" {
      NoDigits();
    } else if |s| == 4 {
      LastGroupAlphabet(s);
    } else {
      DecodedAlphabet(s[4..]);
      GroupsAlphabet(s);
      FourMore(|s|);
    }
  }

  lemma FourMore(n: nat)
    requires n >= 4
    ensures n % 4 == (n - 4) % 4
  {
  }

  lemma GroupsAlphabet(s: string)
    requires |s| > 4 && DecodeGroup(s[0], s[1], s[2], s[3], false).Some?
    requires IsDigits(Unpad(s[4..])) && |s[4..]| <= |Unpad(s[4..])| + 2
    ensures |s| <= |Unpad(s)| + 2 && IsDigits(Unpad(s))
  {
    hide DecodeGroup, IsDigits, Unpad;
    GroupAlphabet(s);
    UnpadAfter(s[..4], s[4..]);
    DigitsConcat(s[..4], Unpad(s[4..]));
    assert s == s[..4] + s[4..];
  }

  lemma DecodedParts(s: string)
    requires Base64Decode(s).Some?
    ensures s == "" || |s| >= 4
    ensures s != "" ==> DecodeGroup(s[0], s[1], s[2], s[3], |s| == 4).Some? && Base64Decode(s[4..]).Some?
  {
    hide DecodeGroup;
  }

  lemma NoDigits()
    ensures Unpad("") == "" && IsDigits("")
  {
  }

  lemma GroupAlphabet(s: string)
    requires |s| >= 4 && DecodeGroup(s[0], s[1], s[2], s[3], false).Some?
    ensures IsDigits(s[..4])
  {
    hide Bytes;
  }

  lemma LastGroupAlphabet(s: string)
    requires |s| == 4 && DecodeGroup(s[0], s[1], s[2], s[3], true).Some?
    ensures |s| <= |Unpad(s)| + 2 && IsDigits(Unpad(s))
  {
    hide Bytes;
    var u := Unpad(s);
    assert forall i :: |u| <= i < 4 ==> s[i] == '=';
    assert Value(s[0]).Some? && Value(s[1]).Some? && s[1] != '=';
    assert s[3] == '=' || Value(s[3]).Some?;
    assert s[2] == '=' ==> s[3] == '=';
  }

  lemma UnpadAfter(a: string, b: string)
    requires a != "" && IsDigits(a)
    ensures Unpad(a + b) == a + Unpad(b)
  {
    assert !IsPad(a[|a| - 1]);
    TrimRightAfter(a, b, IsPad);
  }

  lemma DigitsConcat(a: string, b: string)
    requires IsDigits(a) && IsDigits(b)
    ensures IsDigits(a + b)
  {
  }

  // ----- decimal timestamps -----

  function Decimal(n: nat): string {
    if n < 10 then [('0' as int + n) as char]
    else Decimal(n / 10) + [('0' as int + n % 10) as char]
  }

  function ParseDecimal(s: string): Option<nat> {
    if s == "" then None
    else
      var last := s[|s| - 1];
      if last < '0' || last > '9' then None
      else
        var digit := last as int - '0' as int;
        if |s| == 1 then Some(digit)
        else
          var rest := ParseDecimal(s[..|s| - 1]);
          if rest.None? then None else Some(rest.value * 10 + digit)
  }

  lemma {:induction false} DecimalRoundTrip(n: nat)
    ensures ParseDecimal(Decimal(n)) == Some(n) && Without(Decimal(n), '.') && Decimal(n) != ""
  {
    if n >= 10 {
      DecimalRoundTrip(n / 10);
      var s := Decimal(n);
      assert s[..|s| - 1] == Decimal(n / 10);
    }
  }

  predicate IsDecimalDigit(c: char) { '0' <= c <= '9' }

  /** Exactly the non-empty digit strings parse. */
  lemma {:induction false} ParsesIff(s: string)
    ensures ParseDecimal(s).Some? <==> s != "" && All(s, IsDecimalDigit)
  {
    if s != "" {
      var init := s[..|s| - 1];
      ParsesIff(init);
      assert s == init + [s[|s| - 1]];
    }
  }

  /** A number is written without a leading zero, as `str` does. */
  lemma {:induction false} DecimalShape(n: nat)
    ensures Decimal(n) != "" && (Decimal(n)[0] == '0' <==> n == 0)
    ensures n == 0 ==> Decimal(n) == "0"
  {
    if n >= 10 {
      DecimalShape(n / 10);
    }
  }

  // ----- the state token -----

  function RedirectField(redirect: string): string {
    if redirect == "" then "" else Unpad(Base64(Utf8(redirect)))
  }

  function SignedData(nonce: string, ts: nat, redirect: string): string {
    nonce + "." + Decimal(ts) + "." + RedirectField(redirect)
  }

  function MakeState(nonce: string, ts: nat, redirect: string, sign: string -> string): string {
    var data := SignedData(nonce, ts, redirect);
    data + "." + sign(data)
  }

  /** Index of the last occurrence of `c`, or -1. */
  function LastIndex(s: string, c: char): (k: int)
    ensures -1 <= k < |s|
    ensures k >= 0 ==> s[k] == c
  {
    if s == "" then -1 else if s[|s| - 1] == c then |s| - 1 else LastIndex(s[..|s| - 1], c)
  }

  function FirstIndex(s: string, c: char): (k: int)
    ensures -1 <= k < |s|
    ensures k >= 0 ==> s[k] == c
  {
    if s == "" then -1
    else if s[0] == c then 0
    else
      var k := FirstIndex(s[1..], c);
      if k < 0 then -1 else k + 1
  }

  function DecodeRedirect(field: string): Option<string> {
    if field == "" then Some("")
    else
      var bs := Base64Decode(Repad(field));
      if bs.None? then None else Utf8Decode(bs.value)
  }

  /** The redirect of a valid state, or `None`. */
  function VerifyState(state: string, now: real, sign: string -> string): Option<string> {
    var d2 := LastIndex(state, '.');
    if d2 < 0 then None
    else
      var data, sig := state[..d2], state[d2 + 1..];
      var d1 := LastIndex(data, '.');
      if d1 < 0 then None
      else
        var head, field := data[..d1], data[d1 + 1..];
        var d0 := FirstIndex(head, '.');
        if d0 < 0 then None
        else
          var ts := ParseDecimal(head[d0 + 1..]);
          if ts.None? || now - ts.value as real > 600.0 || ts.value as real - now > 600.0 then None
          else if sign(data) != sig then None
          else DecodeRedirect(field)
  }

  lemma {:induction false} LastIndexOf(a: string, b: string, c: char)
    requires Without(b, c)
    ensures LastIndex(a + [c] + b, c) == |a|
    decreases |b|
  {
    var s := a + [c] + b;
    if b != "" {
      LastIndexOf(a, b[..|b| - 1], c);
      assert s[..|s| - 1] == a + [c] + b[..|b| - 1];
    }
  }

  lemma {:induction false} FirstIndexOf(a: string, b: string, c: char)
    requires Without(a, c)
    ensures FirstIndex(a + [c] + b, c) == |a|
  {
    var s := a + [c] + b;
    if a != "" {
      FirstIndexOf(a[1..], b, c);
      assert s[1..] == a[1..] + [c] + b;
    }
  }

  lemma RedirectFieldRoundTrip(redirect: string)
    ensures DecodeRedirect(RedirectField(redirect)) == Some(redirect)
    ensures Without(RedirectField(redirect), '.')
  {
    var bs := Utf8(redirect);
    Utf8RoundTrip(redirect);
    Base64RoundTrip(bs);
    RepadUnpad(bs);
    PaddingOfBase64(bs);
    Base64Alphabet(bs);
    assert redirect != "" ==> bs != [];
    hide Utf8, Base64, Base64Decode, Utf8Decode, Repad;
  }

  /** A state built at `ts` verifies at `now`, and gives back the redirect it was
      built with, exactly when the two are within 600 seconds: for any redirect,
      any dot-free nonce and any dot-free signature. */
  lemma {:induction false} StateRoundTripIff(nonce: string, ts: nat, redirect: string, sign: string -> string, now: real)
    requires Without(nonce, '.') && Without(sign(SignedData(nonce, ts, redirect)), '.')
    ensures VerifyState(MakeState(nonce, ts, redirect, sign), now, sign)
         == if -600.0 <= now - ts as real <= 600.0 then Some(redirect) else None
  {
    var field := RedirectField(redirect);
    var head := nonce + "." + Decimal(ts);
    var data := SignedData(nonce, ts, redirect);
    var state := MakeState(nonce, ts, redirect, sign);
    RedirectFieldRoundTrip(redirect);
    DecimalRoundTrip(ts);
    hide RedirectField, DecodeRedirect, Decimal, ParseDecimal;
    assert data == head + ['.'] + field;
    assert state == data + ['.'] + sign(data);
    LastIndexOf(data, sign(data), '.');
    LastIndexOf(head, field, '.');
    FirstIndexOf(nonce, Decimal(ts), '.');
    assert head == nonce + ['.'] + Decimal(ts);
    assert state[..|data|] == data && state[|data| + 1..] == sign(data);
    assert data[..|head|] == head && data[|head| + 1..] == field;
    assert head[|nonce| + 1..] == Decimal(ts);
  }

  lemma {:induction false} NoLastIndex(s: string, c: char)
    ensures LastIndex(s, c) < 0 <==> Without(s, c)
    ensures LastIndex(s, c) >= 0 ==> Without(s[LastIndex(s, c) + 1..], c)
  {
    if s != "" && s[|s| - 1] != c {
      NoLastIndex(s[..|s| - 1], c);
    }
  }

  /** The text has the layout of a state: nonce, timestamp, redirect field and the
      signature of the three, recent and with a field that decodes. */
  ghost predicate IsState(state: string, nonce: string, ts: string, field: string, sign: string -> string,
                          now: real, redirect: string) {
    var data := nonce + "." + ts + "." + field;
    && state == data + "." + sign(data)
    && Without(nonce, '.') && Without(field, '.') && Without(sign(data), '.')
    && ParseDecimal(ts).Some? && -600.0 <= now - ParseDecimal(ts).value as real <= 600.0
    && DecodeRedirect(field) == Some(redirect)
  }

  /** Exactly the texts of that layout verify, with the redirect of their field:
      three dots at the right places, both time bounds, and the signature. */
  lemma {:induction false} VerifiesIff(state: string, now: real, sign: string -> string, redirect: string)
    ensures VerifyState(state, now, sign) == Some(redirect)
       <==> exists nonce, ts, field :: IsState(state, nonce, ts, field, sign, now, redirect)
  {
    if VerifyState(state, now, sign) == Some(redirect) {
      var nonce, ts, field := VerifiedParts(state, now, sign, redirect);
    }
    if nonce, ts, field :| IsState(state, nonce, ts, field, sign, now, redirect) {
      PartsVerify(state, now, sign, redirect, nonce, ts, field);
    }
  }

  lemma VerifiedParts(state: string, now: real, sign: string -> string, redirect: string)
    returns (nonce: string, ts: string, field: string)
    requires VerifyState(state, now, sign) == Some(redirect)
    ensures IsState(state, nonce, ts, field, sign, now, redirect)
  {
    hide ParseDecimal, DecodeRedirect, LastIndex, FirstIndex, Without;
    var d2 := LastIndex(state, '.');
    var data := state[..d2];
    NoLastIndex(state, '.');
    var d1 := LastIndex(data, '.');
    NoLastIndex(data, '.');
    var head := data[..d1];
    field := data[d1 + 1..];
    var d0 := FirstIndex(head, '.');
    NoIndex(head, '.');
    nonce, ts := head[..d0], head[d0 + 1..];
    var sig := state[d2 + 1..];
    assert sig == sign(data) && Without(sig, '.') && DecodeRedirect(field) == Some(redirect);
    hide VerifyState;
    CutAt(state, d2, '.');
    CutAt(data, d1, '.');
    CutAt(head, d0, '.');
  }

  lemma CutAt(s: string, k: nat, c: char)
    requires k < |s| && s[k] == c
    ensures s == s[..k] + [c] + s[k + 1..]
  {
  }

  lemma PartsVerify(state: string, now: real, sign: string -> string, redirect: string,
                    nonce: string, ts: string, field: string)
    requires IsState(state, nonce, ts, field, sign, now, redirect)
    ensures VerifyState(state, now, sign) == Some(redirect)
  {
    hide ParseDecimal, DecodeRedirect, Without;
    var head := nonce + "." + ts;
    var data := head + "." + field;
    assert data == head + ['.'] + field && state == data + ['.'] + sign(data) && head == nonce + ['.'] + ts;
    LastIndexOf(data, sign(data), '.');
    LastIndexOf(head, field, '.');
    FirstIndexOf(nonce, ts, '.');
    hide LastIndex, FirstIndex;
    assert state[..|data|] == data && state[|data| + 1..] == sign(data);
    assert data[..|head|] == head && data[|head| + 1..] == field;
    assert head[|nonce| + 1..] == ts;
  }

  /** Nothing verifies unless its last field signs everything before it. */
  lemma {:induction false} AcceptedIsSigned(state: string, now: real, sign: string -> string)
    requires VerifyState(state, now, sign).Some?
    ensures var d := LastIndex(state, '.');
            d >= 0 && state == state[..d] + "." + sign(state[..d])
  {
    hide LastIndex, FirstIndex, ParseDecimal, DecodeRedirect;
    var d := LastIndex(state, '.');
    assert state == state[..d] + [state[d]] + state[d + 1..];
  }

  // ----- pipe-packed payloads -----

  /** `s.split("|", limit)`, the remainder kept whole. */
  function SplitLimit(s: string, limit: nat): (parts: seq<string>)
    ensures 1 <= |parts| <= limit + 1
    decreases limit
  {
    var k := FirstIndex(s, '|');
    if limit == 0 || k < 0 then [s] else [s[..k]] + SplitLimit(s[k + 1..], limit - 1)
  }

  function PackGitHub(redirect: string, existing: string): string {
    if existing != "" then redirect + "|" + existing else redirect
  }

  function UnpackGitHub(packed: string): (string, string) {
    if FirstIndex(packed, '|') >= 0 then
      var parts := SplitLimit(packed, 1);
      (parts[0], if |parts| > 1 then parts[1] else "")
    else (packed, "")
  }

  function PackHf(redirect: string, uri: string, user: string): string {
    if uri != "" || user != "" then redirect + "|" + uri + "|" + user else redirect
  }

  function UnpackHf(packed: string): (string, string, string) {
    if FirstIndex(packed, '|') >= 0 then
      var parts := SplitLimit(packed, 2);
      (parts[0], if |parts| > 1 then parts[1] else "", if |parts| > 2 then parts[2] else "")
    else (packed, "", "")
  }

  lemma {:induction false} NoIndex(s: string, c: char)
    ensures FirstIndex(s, c) < 0 <==> Without(s, c)
    ensures FirstIndex(s, c) >= 0 ==> Without(s[..FirstIndex(s, c)], c)
  {
    if s != "" { NoIndex(s[1..], c); }
  }

  lemma SplitAtPipe(s: string, limit: nat)
    requires limit > 0 && FirstIndex(s, '|') >= 0
    ensures var k := FirstIndex(s, '|');
            SplitLimit(s, limit) == [s[..k]] + SplitLimit(s[k + 1..], limit - 1)
  {
  }

  /** Only the remainder can hold a pipe. */
  lemma {:induction false} EarlyFieldIsPipeFree(s: string, limit: nat, n: nat)
    requires n < |SplitLimit(s, limit)| && n < limit
    ensures Without(SplitLimit(s, limit)[n], '|')
    decreases limit
  {
    NoIndex(s, '|');
    hide FirstIndex, Without;
    var k := FirstIndex(s, '|');
    if k >= 0 {
      SplitAtPipe(s, limit);
      hide SplitLimit;
      if n > 0 {
        EarlyFieldIsPipeFree(s[k + 1..], limit - 1, n - 1);
      }
    }
  }

  lemma SplitOffField(field: string, rest: string, limit: nat)
    requires Without(field, '|') && limit > 0
    ensures SplitLimit(field + "|" + rest, limit) == [field] + SplitLimit(rest, limit - 1)
    ensures FirstIndex(field + "|" + rest, '|') >= 0
  {
    var s := field + "|" + rest;
    assert s == field + ['|'] + rest;
    FirstIndexOf(field, rest, '|');
    hide FirstIndex, Without;
    assert s[..|field|] == field && s[|field| + 1..] == rest;
  }

  /** The GitHub payload unpacks to its fields exactly when the redirect holds
      no pipe; the user id may hold any. */
  lemma GitHubRoundTripIff(redirect: string, existing: string)
    ensures UnpackGitHub(PackGitHub(redirect, existing)) == (redirect, existing) <==> Without(redirect, '|')
  {
    var packed := PackGitHub(redirect, existing);
    NoIndex(packed, '|');
    EarlyFieldIsPipeFree(packed, 1, 0);
    if Without(redirect, '|') && existing != "" {
      SplitOffField(redirect, existing, 1);
      assert SplitLimit(existing, 0) == [existing];
    }
    hide SplitLimit, FirstIndex, Without;
  }

  /** The Hugging Face payload likewise needs its first two fields pipe-free. */
  lemma HfRoundTripIff(redirect: string, uri: string, user: string)
    ensures UnpackHf(PackHf(redirect, uri, user)) == (redirect, uri, user)
       <==> Without(redirect, '|') && Without(uri, '|')
  {
    var packed := PackHf(redirect, uri, user);
    if uri == "" && user == "" {
      NoIndex(redirect, '|');
      if !Without(redirect, '|') { EarlyFieldIsPipeFree(redirect, 2, 0); }
      hide SplitLimit, FirstIndex, Without;
    } else {
      assert packed == redirect + "|" + (uri + "|" + user);
      PackedHfIff(redirect, uri, user);
    }
    assert Without("", '|');
  }

  lemma PackedHfIff(redirect: string, uri: string, user: string)
    ensures UnpackHf(redirect + "|" + (uri + "|" + user)) == (redirect, uri, user)
       <==> Without(redirect, '|') && Without(uri, '|')
  {
    var packed := redirect + "|" + (uri + "|" + user);
    NoIndex(packed, '|');
    assert packed[|redirect|] == '|';
    EarlyFieldIsPipeFree(packed, 2, 0);
    if |SplitLimit(packed, 2)| > 1 { EarlyFieldIsPipeFree(packed, 2, 1); }
    if Without(redirect, '|') && Without(uri, '|') {
      SplitOffField(redirect, uri + "|" + user, 2);
      SplitOffField(uri, user, 1);
      assert SplitLimit(user, 0) == [user];
    }
    hide SplitLimit, FirstIndex, Without;
    assert UnpackHf(packed) == (redirect, uri, user) ==> |SplitLimit(packed, 2)| > 1 || uri == "";
  }

  /** The whole flow: what the GitHub callback recovers from the state that the
      login handler built is what the login was given, exactly when the two are
      within 600 seconds and the redirect holds no pipe. */
  lemma GitHubFlowIff(nonce: string, ts: nat, redirect: string, existing: string, sign: string -> string, now: real)
    requires Without(nonce, '.') && Without(sign(SignedData(nonce, ts, PackGitHub(redirect, existing))), '.')
    ensures var back := VerifyState(MakeState(nonce, ts, PackGitHub(redirect, existing), sign), now, sign);
            (back.Some? && UnpackGitHub(back.value) == (redirect, existing))
            <==> -600.0 <= now - ts as real <= 600.0 && Without(redirect, '|')
  {
    StateRoundTripIff(nonce, ts, PackGitHub(redirect, existing), sign, now);
    GitHubRoundTripIff(redirect, existing);
    hide VerifyState, MakeState, PackGitHub, UnpackGitHub, Without;
  }

  lemma HfFlowIff(nonce: string, ts: nat, redirect: string, uri: string, user: string,
                  sign: string -> string, now: real)
    requires Without(nonce, '.') && Without(sign(SignedData(nonce, ts, PackHf(redirect, uri, user))), '.')
    ensures var back := VerifyState(MakeState(nonce, ts, PackHf(redirect, uri, user), sign), now, sign);
            (back.Some? && UnpackHf(back.value) == (redirect, uri, user))
            <==> -600.0 <= now - ts as real <= 600.0 && Without(redirect, '|') && Without(uri, '|')
  {
    StateRoundTripIff(nonce, ts, PackHf(redirect, uri, user), sign, now);
    HfRoundTripIff(redirect, uri, user);
    hide VerifyState, MakeState, PackHf, UnpackHf, Without;
  }
}
