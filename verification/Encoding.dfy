/** Text encodings under the signing input: UTF-8, UTF-16 and unpadded base64url (section 5 of
    RFC 4648), with the orders that sorting encoded keys induces. */
module Encoding {
  import opened Text

  type byte = b: int | 0 <= b < 256

  // ---- UTF-8 and UTF-16 ----

  function Utf8Char(c: char): seq<byte> {
    var n := c as int;
    if n < 0x80 then [n]
    else if n < 0x800 then [0xC0 + n / 64, 0x80 + n % 64]
    else if n < 0x10000 then [0xE0 + n / 4096, 0x80 + n / 64 % 64, 0x80 + n % 64]
    else [0xF0 + n / 262144, 0x80 + n / 4096 % 64, 0x80 + n / 64 % 64, 0x80 + n % 64]
  }

  function Utf8(s: string): seq<byte> {
    if s == "" then [] else Utf8Char(s[0]) + Utf8(s[1..])
  }

  function Utf16Char(c: char): seq<int> {
    var n := c as int;
    if n < 0x10000 then [n] else [0xD800 + (n - 0x10000) / 1024, 0xDC00 + (n - 0x10000) % 1024]
  }

  function Utf16(s: string): seq<int> {
    if s == "" then [] else Utf16Char(s[0]) + Utf16(s[1..])
  }

  // ---- orders on encoded text ----

  predicate LessUnits(a: seq<int>, b: seq<int>) {
    b != [] && (a == [] || a[0] < b[0] || (a[0] == b[0] && LessUnits(a[1..], b[1..])))
  }

  lemma {:induction false} LessUnitsPrefix(p: seq<int>, x: seq<int>, y: seq<int>)
    ensures LessUnits(p + x, p + y) == LessUnits(x, y)
  {
    if p == [] {
      assert p + x == x && p + y == y;
    } else {
      assert (p + x)[1..] == p[1..] + x && (p + y)[1..] == p[1..] + y;
      LessUnitsPrefix(p[1..], x, y);
    }
  }

  /** The first difference decides. */
  lemma {:induction false} LessUnitsAt(k: nat, u: seq<int>, v: seq<int>, x: seq<int>, y: seq<int>)
    requires k < |u| && k < |v| && u[..k] == v[..k] && u[k] != v[k]
    ensures LessUnits(u + x, v + y) == (u[k] < v[k])
  {
    if k > 0 {
      assert u[0] == u[..k][0] == v[..k][0] == v[0];
      assert u[1..][..k - 1] == u[..k][1..] && v[1..][..k - 1] == v[..k][1..];
      assert (u + x)[1..] == u[1..] + x && (v + y)[1..] == v[1..] + y;
      LessUnitsAt(k - 1, u[1..], v[1..], x, y);
    }
  }

  lemma {:induction false} Utf8CharOrder(c: char, d: char, x: seq<int>, y: seq<int>)
    requires c != d
    ensures LessUnits(Utf8Char(c) + x, Utf8Char(d) + y) == (c < d)
  {
    hide LessUnits;
    hide Utf8Char;
    var u, v := Utf8Char(c), Utf8Char(d);
    LeadUnits(c, d);
    if u[0] != v[0] {
      LessUnitsAt(0, u, v, x, y);
    } else {
      LaterUnits(c, d);
      var k := if u[1] != v[1] then 1 else if u[2] != v[2] then 2 else 3;
      assert u[..k] == v[..k];
      LessUnitsAt(k, u, v, x, y);
    }
  }

  lemma LeadUnits(c: char, d: char)
    requires c != d
    ensures var u, v := Utf8Char(c), Utf8Char(d);
      && u != [] && v != [] && (u[0] < v[0] ==> c < d) && (v[0] < u[0] ==> d < c)
      && (u[0] == v[0] ==> |u| == |v| && |u| > 1)
  {
  }

  lemma LaterUnits(c: char, d: char)
    requires c != d && Utf8Char(c)[0] == Utf8Char(d)[0]
    ensures var u, v := Utf8Char(c), Utf8Char(d);
      && |u| == |v| && |u| > 1
      && (u[1] != v[1] ==> (u[1] < v[1] <==> c < d))
      && (u[1] == v[1] ==> |u| > 2 && (u[2] != v[2] ==> (u[2] < v[2] <==> c < d))
                           && (u[2] == v[2] ==> |u| > 3 && u[3] != v[3] && (u[3] < v[3] <==> c < d)))
  {
    LeadUnits(c, d);
    SixBits(c as int);
    SixBits(d as int);
  }

  lemma SixBits(n: nat)
    ensures n == n / 64 * 64 + n % 64 && n / 64 == n / 4096 * 64 + n / 64 % 64
    ensures n / 4096 == n / 262144 * 64 + n / 4096 % 64
  {
  }

  /** Sorting UTF-8 bytes sorts by code point. */
  lemma {:induction false} Utf8Order(a: string, b: string)
    ensures LessUnits(Utf8(a), Utf8(b)) == Less(a, b)
  {
    if a != "" && b != "" {
      if a[0] == b[0] {
        Utf8Order(a[1..], b[1..]);
        LessUnitsPrefix(Utf8Char(a[0]), Utf8(a[1..]), Utf8(b[1..]));
      } else {
        Utf8CharOrder(a[0], b[0], Utf8(a[1..]), Utf8(b[1..]));
      }
    }
  }

  /** Characters that UTF-16 code units order the other way round than code points: one beyond the
      basic plane, the other above the surrogates. */
  predicate InvertedChars(c: char, d: char) {
    (c as int >= 0x10000 && 0xE000 <= d as int < 0x10000) || (d as int >= 0x10000 && 0xE000 <= c as int < 0x10000)
  }

  /** The first difference of two strings is such a pair. */
  predicate Inverted(a: string, b: string) {
    a != "" && b != "" && (if a[0] == b[0] then Inverted(a[1..], b[1..]) else InvertedChars(a[0], b[0]))
  }

  lemma {:induction false} Utf16CharOrder(c: char, d: char, x: seq<int>, y: seq<int>)
    requires c != d
    ensures LessUnits(Utf16Char(c) + x, Utf16Char(d) + y) == (if InvertedChars(c, d) then d < c else c < d)
  {
    var u, v := Utf16Char(c), Utf16Char(d);
    var k := if u[0] != v[0] then 0 else 1;
    assert u[..k] == v[..k];
    LessUnitsAt(k, u, v, x, y);
  }

  /** Sorting UTF-16 code units disagrees with code points exactly on inverted pairs. */
  lemma {:induction false} Utf16Order(a: string, b: string)
    ensures LessUnits(Utf16(a), Utf16(b)) == if Inverted(a, b) then Less(b, a) else Less(a, b)
    ensures Inverted(a, b) ==> Less(a, b) != Less(b, a)
  {
    if a != "" && b != "" {
      if a[0] == b[0] {
        Utf16Order(a[1..], b[1..]);
        LessUnitsPrefix(Utf16Char(a[0]), Utf16(a[1..]), Utf16(b[1..]));
      } else {
        Utf16CharOrder(a[0], b[0], Utf16(a[1..]), Utf16(b[1..]));
      }
    }
  }

  // ---- UTF-8 is decodable ----

  function Scalar(n: int): char {
    if 0 <= n < 0xD800 || 0xE000 <= n < 0x11_0000 then n as char else '\U{FFFD}'
  }

  function Utf8Width(b: byte): nat {
    if b < 0x80 then 1 else if b < 0xE0 then 2 else if b < 0xF0 then 3 else 4
  }

  /** The code point of a UTF-8 group, from its lead and continuation units. */
  function CodePoint(g: seq<int>): int
    requires 1 <= |g| <= 4
  {
    if |g| == 1 then g[0]
    else if |g| == 2 then (g[0] - 0xC0) * 64 + (g[1] - 0x80)
    else if |g| == 3 then (g[0] - 0xE0) * 4096 + (g[1] - 0x80) * 64 + (g[2] - 0x80)
    else (g[0] - 0xF0) * 262144 + (g[1] - 0x80) * 4096 + (g[2] - 0x80) * 64 + (g[3] - 0x80)
  }

  function Utf8Decode(bs: seq<byte>): string {
    if bs == [] then ""
    else
      var w := Utf8Width(bs[0]);
      if |bs| < w then [Scalar(-1)] else [Scalar(CodePoint(bs[..w]))] + Utf8Decode(bs[w..])
  }

  lemma {:induction false} Utf8RoundTrip(s: string)
    ensures Utf8Decode(Utf8(s)) == s
  {
    hide Utf8Char; hide CodePoint; hide Utf8Width;
    if s != "" {
      Utf8RoundTrip(s[1..]);
      Utf8CharRoundTrip(s[0]);
      var u, rest := Utf8Char(s[0]), Utf8(s[1..]);
      assert (u + rest)[..|u|] == u && (u + rest)[|u|..] == rest;
      assert s == [s[0]] + s[1..];
    }
  }

  lemma Utf8CharRoundTrip(c: char)
    ensures Utf8Char(c) != [] && Utf8Width(Utf8Char(c)[0]) == |Utf8Char(c)| <= 4
    ensures Scalar(CodePoint(Utf8Char(c))) == c
  {
    SixBits(c as int);
  }

  // ---- base64url ----

  /** The URL-safe alphabet. */
  function Sextet(n: int): char
    requires 0 <= n < 64
  {
    if n < 26 then 'A' + n as char
    else if n < 52 then 'a' + (n - 26) as char
    else if n < 62 then '0' + (n - 52) as char
    else if n == 62 then '-' else '_'
  }

  function SextetValue(c: char): (n: int)
    ensures 0 <= n < 64
  {
    if 'A' <= c <= 'Z' then c as int - 'A' as int
    else if 'a' <= c <= 'z' then c as int - 'a' as int + 26
    else if '0' <= c <= '9' then c as int - '0' as int + 52
    else if c == '-' then 62 else 63
  }

  predicate IsSextet(c: char) {
    'A' <= c <= 'Z' || 'a' <= c <= 'z' || '0' <= c <= '9' || c == '-' || c == '_'
  }

  /** The four six-bit groups of three bytes. */
  function First(a: byte): (n: int)
    ensures 0 <= n < 64
  {
    a / 4
  }

  function Second(a: byte, b: byte): (n: int)
    ensures 0 <= n < 64
  {
    a % 4 * 16 + b / 16
  }

  function Third(b: byte, c: byte): (n: int)
    ensures 0 <= n < 64
  {
    b % 16 * 4 + c / 64
  }

  function Fourth(c: byte): (n: int)
    ensures 0 <= n < 64
  {
    c % 64
  }

  /** Go's `base64.RawURLEncoding`. */
  function Base64Url(bs: seq<byte>): string {
    if bs == [] then ""
    else if |bs| == 1 then [Sextet(First(bs[0])), Sextet(Second(bs[0], 0))]
    else if |bs| == 2 then [Sextet(First(bs[0])), Sextet(Second(bs[0], bs[1])), Sextet(Third(bs[1], 0))]
    else [Sextet(First(bs[0])), Sextet(Second(bs[0], bs[1])), Sextet(Third(bs[1], bs[2])), Sextet(Fourth(bs[2]))]
         + Base64Url(bs[3..])
  }

  /** The bytes of neighbouring groups. */
  function Join1(m: int, n: int): int {
    m * 4 + n / 16
  }

  function Join2(m: int, n: int): int {
    m % 16 * 16 + n / 4
  }

  function Join3(m: int, n: int): int {
    m % 4 * 64 + n
  }

  function Byte(n: int): byte {
    if 0 <= n < 256 then n else 0
  }

  function Byte1(x: char, y: char): byte {
    Byte(Join1(SextetValue(x), SextetValue(y)))
  }

  function Byte2(y: char, z: char): byte {
    Byte(Join2(SextetValue(y), SextetValue(z)))
  }

  function Byte3(z: char, w: char): byte {
    Byte(Join3(SextetValue(z), SextetValue(w)))
  }

  function Base64UrlDecode(s: string): seq<byte> {
    if |s| < 2 then []
    else if |s| == 2 then [Byte1(s[0], s[1])]
    else if |s| == 3 then [Byte1(s[0], s[1]), Byte2(s[1], s[2])]
    else [Byte1(s[0], s[1]), Byte2(s[1], s[2]), Byte3(s[2], s[3])] + Base64UrlDecode(s[4..])
  }

  lemma SextetRoundTrip(n: int)
    requires 0 <= n < 64
    ensures SextetValue(Sextet(n)) == n && IsSextet(Sextet(n))
  {
  }

  lemma GroupRoundTrip(a: byte, b: byte, c: byte)
    ensures Byte1(Sextet(First(a)), Sextet(Second(a, b))) == a
    ensures Byte2(Sextet(Second(a, b)), Sextet(Third(b, c))) == b
    ensures Byte3(Sextet(Third(b, c)), Sextet(Fourth(c))) == c
    ensures IsSextet(Sextet(First(a))) && IsSextet(Sextet(Second(a, b)))
    ensures IsSextet(Sextet(Third(b, c))) && IsSextet(Sextet(Fourth(c)))
  {
    hide Sextet; hide SextetValue; hide IsSextet;
    hide First; hide Second; hide Third; hide Fourth; hide Join1; hide Join2; hide Join3;
    SextetRoundTrip(First(a));
    SextetRoundTrip(Second(a, b));
    SextetRoundTrip(Third(b, c));
    SextetRoundTrip(Fourth(c));
    GroupArithmetic(a, b, c);
  }

  lemma GroupArithmetic(a: byte, b: byte, c: byte)
    ensures Join1(First(a), Second(a, b)) == a
    ensures Join2(Second(a, b), Third(b, c)) == b
    ensures Join3(Third(b, c), Fourth(c)) == c
  {
  }

  lemma {:induction false} Base64UrlRoundTrip(bs: seq<byte>)
    ensures Base64UrlDecode(Base64Url(bs)) == bs
    ensures forall c | c in Base64Url(bs) :: IsSextet(c)
  {
    hide Sextet; hide First; hide Second; hide Third; hide Fourth; hide Byte1; hide Byte2; hide Byte3; hide IsSextet;
    if |bs| == 1 {
      GroupRoundTrip(bs[0], 0, 0);
    } else if |bs| == 2 {
      GroupRoundTrip(bs[0], bs[1], 0);
    } else if |bs| >= 3 {
      GroupRoundTrip(bs[0], bs[1], bs[2]);
      Base64UrlRoundTrip(bs[3..]);
      assert Base64Url(bs)[4..] == Base64Url(bs[3..]);
      assert bs == [bs[0], bs[1], bs[2]] + bs[3..];
    }
  }

  // ---- the browser's way to the same text ----

  /** The standard alphabet of `btoa`. */
  function StandardSextet(n: int): char
    requires 0 <= n < 64
  {
    if n < 62 then Sextet(n) else if n == 62 then '+' else '/'
  }

  function CharByte(c: char): byte {
    (c as int) % 256
  }

  /** `btoa` on a string of Latin-1 characters: standard alphabet, padded. */
  function Btoa(binary: string): string {
    if binary == "" then ""
    else
      var a := CharByte(binary[0]);
      if |binary| == 1 then [StandardSextet(First(a)), StandardSextet(Second(a, 0)), '=', '=']
      else
        var b := CharByte(binary[1]);
        if |binary| == 2 then [StandardSextet(First(a)), StandardSextet(Second(a, b)), StandardSextet(Third(b, 0)), '=']
        else
          var c := CharByte(binary[2]);
          [StandardSextet(First(a)), StandardSextet(Second(a, b)), StandardSextet(Third(b, c)),
              StandardSextet(Fourth(c))]
          + Btoa(binary[3..])
  }

  function Latin1(bs: seq<byte>): string {
    seq(|bs|, i requires 0 <= i < |bs| => bs[i] as char)
  }

  function ReplaceChar(s: string, from: char, to: char): string {
    seq(|s|, i requires 0 <= i < |s| => if s[i] == from then to else s[i])
  }

  function StripPadding(s: string): string {
    if s != "" && s[|s| - 1] == '=' then StripPadding(s[..|s| - 1]) else s
  }

  /** The two replacements of the alphabet. */
  function UrlAlphabet(s: string): string {
    ReplaceChar(ReplaceChar(s, '+', '-'), '/', '_')
  }

  function UrlSafe(s: string): string {
    StripPadding(UrlAlphabet(s))
  }

  /** `base64UrlEncodeUtf8`: the bytes are turned into characters one by one and handed to `btoa`. */
  method Base64UrlEncodeUtf8(value: string) returns (r: string)
    ensures r == Base64Url(Utf8(value))
  {
    var bytes := Utf8(value);
    var binary := "";
    for i := 0 to |bytes|
      invariant binary == Latin1(bytes[..i])
    {
      binary := binary + [bytes[i] as char];
    }
    assert bytes[..|bytes|] == bytes;
    BtoaUrlSafe(bytes);
    r := UrlSafe(Btoa(binary));
  }

  lemma UrlAlphabetConcat(s: string, t: string)
    ensures UrlAlphabet(s + t) == UrlAlphabet(s) + UrlAlphabet(t)
  {
  }

  /** The replacements turn the standard alphabet into the URL-safe one and leave padding alone. */
  lemma UrlAlphabetOf(s: string)
    ensures |UrlAlphabet(s)| == |s|
    ensures forall i, n | 0 <= i < |s| && 0 <= n < 64 && s[i] == StandardSextet(n) :: UrlAlphabet(s)[i] == Sextet(n)
    ensures forall i | 0 <= i < |s| && s[i] == '=' :: UrlAlphabet(s)[i] == '='
  {
  }

  lemma {:induction false} StripAppend(p: string, s: string)
    requires p != "" && p[|p| - 1] != '='
    ensures StripPadding(p + s) == p + StripPadding(s)
    decreases |s|
  {
    if s == "" {
      assert p + s == p;
    } else if s[|s| - 1] == '=' {
      assert (p + s)[..|p + s| - 1] == p + s[..|s| - 1];
      StripAppend(p, s[..|s| - 1]);
    }
  }

  lemma {:induction false} BtoaUrlSafe(bs: seq<byte>)
    ensures UrlSafe(Btoa(Latin1(bs))) == Base64Url(bs)
  {
    hide Sextet; hide StandardSextet; hide UrlAlphabet; hide IsSextet; hide StripPadding;
    hide First; hide Second; hide Third; hide Fourth; hide CharByte;
    CharByteOfLatin1(bs);
    if bs == [] {
      UrlAlphabetOf("");
      StripEqualSigns();
      assert Btoa(Latin1(bs)) == "";
    } else if |bs| < 3 {
      var t := Btoa(Latin1(bs));
      UrlAlphabetOf(t);
      Base64UrlRoundTrip(bs);
      var r := Base64Url(bs);
      assert UrlAlphabet(t) == r + (if |bs| == 1 then "==" else "=");
      SextetNotPadding(r);
      StripAppend(r, if |bs| == 1 then "==" else "=");
      StripEqualSigns();
    } else {
      BtoaUrlSafe(bs[3..]);
      Base64UrlRoundTrip(bs);
      assert Latin1(bs)[3..] == Latin1(bs[3..]);
      var head, tail := Btoa(Latin1(bs))[..4], Btoa(Latin1(bs[3..]));
      assert Btoa(Latin1(bs)) == head + tail;
      UrlAlphabetConcat(head, tail);
      UrlAlphabetOf(head);
      assert UrlAlphabet(head) == Base64Url(bs)[..4];
      SextetNotPadding(UrlAlphabet(head));
      StripAppend(UrlAlphabet(head), UrlAlphabet(tail));
    }
  }

  lemma CharByteOfLatin1(bs: seq<byte>)
    ensures forall i | 0 <= i < |bs| :: CharByte(Latin1(bs)[i]) == bs[i]
  {
  }

  lemma SextetNotPadding(s: string)
    requires s != "" && forall c | c in s :: IsSextet(c)
    ensures s[|s| - 1] != '='
  {
    assert s[|s| - 1] in s;
  }

  lemma StripEqualSigns()
    ensures StripPadding("") == "" && StripPadding("=") == "" && StripPadding("==") == ""
  {
    assert "=="[..1] == "=" && "="[..0] == "";
  }

  // ---- what the encodings are ----

  /** RFC 3629, section 3: the number of units and the ranges of the lead and the later ones. */
  lemma {:induction false} Utf8Shape(c: char)
    ensures var n, u: seq<int> := c as int, Utf8Char(c);
      && |u| == (if n < 0x80 then 1 else if n < 0x800 then 2 else if n < 0x10000 then 3 else 4)
      && (|u| == 1 ==> u[0] == n) && (|u| == 2 ==> 0xC2 <= u[0] < 0xE0) && (|u| == 3 ==> 0xE0 <= u[0] < 0xF0)
      && (|u| == 4 ==> 0xF0 <= u[0] < 0xF5)
      && (forall i | 1 <= i < |u| :: 0x80 <= u[i] < 0xC0)
      && (|u| == 2 ==> n == (u[0] - 0xC0) * 64 + u[1] - 0x80)
      && (|u| == 3 ==> n == (u[0] - 0xE0) * 4096 + (u[1] - 0x80) * 64 + u[2] - 0x80)
      && (|u| == 4 ==>
            n == (u[0] - 0xF0) * 262144 + (u[1] - 0x80) * 4096 + (u[2] - 0x80) * 64 + u[3] - 0x80)
  {
    SixBits(c as int);
  }

  /** One unit, or a high and a low surrogate. */
  lemma {:induction false} Utf16Shape(c: char)
    ensures var n, u := c as int, Utf16Char(c);
      && (n < 0x10000 ==> u == [n])
      && (n >= 0x10000 ==> |u| == 2 && 0xD800 <= u[0] < 0xDC00 && 0xDC00 <= u[1] < 0xE000
                           && n == 0x10000 + (u[0] - 0xD800) * 1024 + (u[1] - 0xDC00))
  {
  }

  /** RFC 4648, section 4: three bytes are read as one number and written with four digits of six bits. */
  lemma {:induction false} GroupIsNumber(a: byte, b: byte, c: byte)
    ensures First(a) * 262144 + Second(a, b) * 4096 + Third(b, c) * 64 + Fourth(c) == a * 65536 + b * 256 + c
  {
  }

  /** RFC 4648, section 5: the URL-safe alphabet. */
  lemma {:induction false} AlphabetIs(n: int)
    requires 0 <= n < 64
    ensures (n < 26 ==> Sextet(n) as int == 65 + n) && (26 <= n < 52 ==> Sextet(n) as int == 97 + n - 26)
    ensures (52 <= n < 62 ==> Sextet(n) as int == 48 + n - 52) && Sextet(62) == '-' && Sextet(63) == '_'
  {
  }
}
