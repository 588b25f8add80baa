/** Base64 as Node.js Buffers implement it, and the base64url helpers of
    src/session.js built on it.

    Encoding (`buf.toString('base64')`) uses the standard alphabet of section 4
    of RFC 4648 with '=' padding. Decoding (`Buffer(s, 'base64')`) is Node's
    lenient decoder: it stops at the first '=', skips characters outside the
    alphabet, and reads both the standard ('+', '/') and the URL-safe ('-', '_')
    characters of section 5 of RFC 4648 for the values 62 and 63. */
module Base64 {
  import opened Common
  import opened Strings

  /** A 6-bit group: the value of one base64 character. */
  type sextet = x: int | 0 <= x < 64

  /** The standard alphabet (section 4 of RFC 4648). */
  function StdChar(v: sextet): char
  {
    if v < 26 then ('A' as int + v) as char
    else if v < 52 then ('a' as int + (v - 26)) as char
    else if v < 62 then ('0' as int + (v - 52)) as char
    else if v == 62 then '+' else '/'
  }

  /** The URL- and filename-safe alphabet (section 5 of RFC 4648). */
  function UrlChar(v: sextet): char
  {
    if v == 62 then '-' else if v == 63 then '_' else StdChar(v)
  }

  /** Characters Node's decoder gives a value to. */
  predicate InAlphabet(c: char)
  {
    'A' <= c <= 'Z' || 'a' <= c <= 'z' || '0' <= c <= '9' || c in "+/-_"
  }

  function ValueOf(c: char): (v: sextet)
    requires InAlphabet(c)
  {
    if 'A' <= c <= 'Z' then c as int - 'A' as int
    else if 'a' <= c <= 'z' then c as int - 'a' as int + 26
    else if '0' <= c <= '9' then c as int - '0' as int + 52
    else if c == '+' || c == '-' then 62
    else 63
  }

  /** Each alphabet decodes back to the value it encodes. */
  lemma CharValues(v: sextet)
    ensures InAlphabet(StdChar(v)) && ValueOf(StdChar(v)) == v
    ensures InAlphabet(UrlChar(v)) && ValueOf(UrlChar(v)) == v
    ensures StdChar(v) != '=' && StdChar(v) != '-' && StdChar(v) != '_' && StdChar(v) as int < 128
    ensures UrlChar(v) != '=' && UrlChar(v) != '+' && UrlChar(v) != '/'
  {
  }

  /** The 6-bit groups of a byte string: four per full 3-byte block, and two or
      three for a final block of one or two bytes (its spare bits zero). */
  function Sextets(b: Bytes): (v: seq<sextet>)
    ensures |v| == (|b| / 3) * 4 + (if |b| % 3 == 0 then 0 else |b| % 3 + 1)
    decreases |b|
  {
    if |b| == 0 then []
    else if |b| == 1 then [b[0] / 4, (b[0] % 4) * 16]
    else if |b| == 2 then [b[0] / 4, (b[0] % 4) * 16 + b[1] / 16, (b[1] % 16) * 4]
    else [b[0] / 4, (b[0] % 4) * 16 + b[1] / 16, (b[1] % 16) * 4 + b[2] / 64, b[2] % 64]
         + Sextets(b[3..])
  }

  /** The bytes a run of 6-bit groups packs into; a trailing single group
      carries no whole byte and is dropped, as Node does. */
  function Unpack(v: seq<sextet>): Bytes
    decreases |v|
  {
    if |v| < 2 then []
    else
      var v0, v1 := v[0] as int, v[1] as int;
      if |v| == 2 then [v0 * 4 + v1 / 16]
      else
        var v2 := v[2] as int;
        if |v| == 3 then [v0 * 4 + v1 / 16, (v1 % 16) * 16 + v2 / 4]
        else [v0 * 4 + v1 / 16, (v1 % 16) * 16 + v2 / 4, (v2 % 4) * 64 + v[3] as int]
             + Unpack(v[4..])
  }

  /** The first byte of a block is recovered from its first two groups. */
  lemma FirstByte(x: byte, y: byte)
    ensures (x / 4) * 4 + ((x % 4) * 16 + y / 16) / 16 == x
  {
    assert ((x % 4) * 16 + y / 16) / 16 == x % 4;
  }

  /** The second byte of a block is recovered from its second and third groups. */
  lemma SecondByte(x: byte, y: byte, z: byte)
    ensures (((x % 4) * 16 + y / 16) % 16) * 16 + ((y % 16) * 4 + z / 64) / 4 == y
  {
    assert ((x % 4) * 16 + y / 16) % 16 == y / 16;
    assert ((y % 16) * 4 + z / 64) / 4 == y % 16;
  }

  /** The third byte of a block is recovered from its last two groups. */
  lemma ThirdByte(y: byte, z: byte)
    ensures (((y % 16) * 4 + z / 64) % 4) * 64 + z % 64 == z
  {
    assert ((y % 16) * 4 + z / 64) % 4 == z / 64;
  }

  /** A full leading block packs back into its three bytes. */
  lemma {:induction false} UnpackBlock(b: Bytes)
    requires |b| >= 3
    ensures Unpack(Sextets(b)) == b[..3] + Unpack(Sextets(b[3..]))
  {
    var v := Sextets(b);
    var x, y, z := b[0], b[1], b[2];
    assert v[4..] == Sextets(b[3..]);
    FirstByte(x, y);
    SecondByte(x, y, z);
    ThirdByte(y, z);
    assert Unpack(v)[..3] == [x, y, z];
    assert b[..3] == [x, y, z];
  }

  /** A final block of one or two bytes packs back into them. */
  lemma {:induction false} UnpackShort(b: Bytes)
    requires |b| < 3
    ensures Unpack(Sextets(b)) == b
  {
    if |b| == 2 {
      assert b == [b[0], b[1]];
    } else if |b| == 1 {
      assert b == [b[0]];
    }
  }

  /** Packing the groups of a byte string gives the byte string back. */
  lemma {:induction false} UnpackSextets(b: Bytes)
    ensures Unpack(Sextets(b)) == b
    decreases |b|
  {
    if |b| >= 3 {
      UnpackBlock(b);
      UnpackSextets(b[3..]);
      assert b == b[..3] + b[3..];
    } else {
      UnpackShort(b);
    }
  }

  function StdText(v: seq<sextet>): (s: string)
    ensures |s| == |v| && forall i :: 0 <= i < |v| ==> s[i] == StdChar(v[i])
    decreases |v|
  {
    if |v| == 0 then "" else [StdChar(v[0])] + StdText(v[1..])
  }

  function UrlText(v: seq<sextet>): (s: string)
    ensures |s| == |v| && forall i :: 0 <= i < |v| ==> s[i] == UrlChar(v[i])
    decreases |v|
  {
    if |v| == 0 then "" else [UrlChar(v[0])] + UrlText(v[1..])
  }

  function Padding(n: nat): string
  {
    if n % 3 == 1 then "==" else if n % 3 == 2 then "=" else ""
  }

  /** `buf.toString('base64')`. */
  function Encode(b: Bytes): (s: string)
    ensures |s| % 4 == 0
  {
    var q, m := |b| / 3, |b| % 3;
    assert |Sextets(b)| == q * 4 + (if m == 0 then 0 else m + 1);
    assert |Padding(|b|)| == if m == 0 then 0 else 3 - m;
    StdText(Sextets(b)) + Padding(|b|)
  }

  /** The values Node's decoder reads from `s`: up to the first '=', skipping
      characters outside the alphabet. */
  function Values(s: string): seq<sextet>
    decreases |s|
  {
    if |s| == 0 || s[0] == '=' then []
    else if InAlphabet(s[0]) then [ValueOf(s[0])] + Values(s[1..])
    else Values(s[1..])
  }

  /** `Buffer(s, 'base64')`. */
  function Decode(s: string): Bytes
  {
    Unpack(Values(s))
  }

  lemma {:induction false} ValuesOfStdText(v: seq<sextet>, pad: string)
    requires pad == "" || pad[0] == '='
    ensures Values(StdText(v) + pad) == v
    decreases |v|
  {
    if |v| > 0 {
      var s := StdText(v) + pad;
      CharValues(v[0]);
      assert s[0] == StdChar(v[0]);
      assert s[1..] == StdText(v[1..]) + pad;
      ValuesOfStdText(v[1..], pad);
    } else {
      assert StdText(v) + pad == pad;
    }
  }

  lemma {:induction false} ValuesOfUrlText(v: seq<sextet>)
    ensures Values(UrlText(v)) == v
    decreases |v|
  {
    if |v| > 0 {
      var s := UrlText(v);
      CharValues(v[0]);
      assert s[1..] == UrlText(v[1..]);
      ValuesOfUrlText(v[1..]);
    }
  }

  /** Decoding what Node encodes gives the bytes back, padded or not. */
  lemma DecodeEncode(b: Bytes)
    ensures Decode(Encode(b)) == b
    ensures Decode(ReplaceAll(Encode(b), '=', "")) == b
  {
    ValuesOfStdText(Sextets(b), Padding(|b|));
    UnpackSextets(b);
    StrippedEncode(b);
    ValuesOfStdText(Sextets(b), "");
    assert StdText(Sextets(b)) + "" == StdText(Sextets(b));
  }

  /** Stripping the padding leaves the standard-alphabet text of the groups. */
  lemma StrippedEncode(b: Bytes)
    ensures ReplaceAll(Encode(b), '=', "") == StdText(Sextets(b))
  {
    var v := Sextets(b);
    forall i | 0 <= i < |v| ensures StdText(v)[i] != '=' { CharValues(v[i]); }
    ReplaceAllConcat(StdText(v), Padding(|b|), '=', "");
    var p := Padding(|b|);
    assert ReplaceAll(p, '=', "") == "" by {
      if p == "==" {
        assert p[1..] == "=";
      }
    }
  }

  /** Encoded text consists of ASCII characters only. */
  lemma EncodeIsAscii(b: Bytes)
    ensures forall i :: 0 <= i < |Encode(b)| ==> Encode(b)[i] as int < 128
  {
    var v := Sextets(b);
    forall i | 0 <= i < |v| ensures StdText(v)[i] as int < 128 { CharValues(v[i]); }
  }

  /** `new Buffer(s)` for an ASCII string: one byte per character. */
  function AsciiBytes(s: string): (b: Bytes)
    requires forall i :: 0 <= i < |s| ==> s[i] as int < 128
    ensures |b| == |s|
  {
    seq(|s|, i requires 0 <= i < |s| => s[i] as int)
  }

  /** `base64url(buf)` of src/session.js: the standard encoding with '+' and '/'
      rewritten to '-' and '_' and the '=' padding removed. */
  function Base64Url(b: Bytes): string
  {
    ReplaceAll(ReplaceAll(ReplaceAll(Encode(b), '+', "-"), '/', "_"), '=', "")
  }

  /** `bufferFromBase64url(string)` of src/session.js: '-' and '_' rewritten to
      '+' and '/', then decoded. */
  function BufferFromBase64url(s: string): Bytes
  {
    Decode(ReplaceAll(ReplaceAll(s, '-', "+"), '_', "/"))
  }

  /** One standard character becomes its URL-safe counterpart. */
  lemma RewriteStdChar(v: sextet)
    ensures ReplaceAll(ReplaceAll([StdChar(v)], '+', "-"), '/', "_") == [UrlChar(v)]
  {
    var c := StdChar(v);
    ReplaceAllChar(c, '+', "-");
    if c != '+' {
      ReplaceAllChar(c, '/', "_");
    }
  }

  lemma {:induction false} RewriteStdText(v: seq<sextet>)
    ensures ReplaceAll(ReplaceAll(StdText(v), '+', "-"), '/', "_") == UrlText(v)
    decreases |v|
  {
    if |v| > 0 {
      assert StdText(v) == [StdChar(v[0])] + StdText(v[1..]);
      ReplaceTwiceConcat([StdChar(v[0])], StdText(v[1..]), '+', "-", '/', "_");
      RewriteStdChar(v[0]);
      RewriteStdText(v[1..]);
    }
  }

  /** The padding is untouched by the alphabet rewrite and removed by the last step. */
  lemma PaddingRewrite(n: nat)
    ensures ReplaceAll(ReplaceAll(Padding(n), '+', "-"), '/', "_") == Padding(n)
    ensures ReplaceAll(Padding(n), '=', "") == ""
  {
    var p := Padding(n);
    if p == "==" {
      assert p[1..] == "=";
    }
  }

  /** base64url is the URL-safe text of the groups: no '+', '/' or '=' (the
      unpadded alphabet of section 5 of RFC 4648). */
  lemma Base64UrlText(b: Bytes)
    ensures Base64Url(b) == UrlText(Sextets(b))
    ensures '+' !in Base64Url(b) && '/' !in Base64Url(b) && '=' !in Base64Url(b)
  {
    var v := Sextets(b);
    var p := Padding(|b|);
    var t1 := ReplaceAll(StdText(v), '+', "-");
    ReplaceAllConcat(StdText(v), p, '+', "-");
    assert ReplaceAll(Encode(b), '+', "-") == t1 + ReplaceAll(p, '+', "-");
    ReplaceAllConcat(t1, ReplaceAll(p, '+', "-"), '/', "_");
    RewriteStdText(v);
    PaddingRewrite(|b|);
    assert ReplaceAll(ReplaceAll(Encode(b), '+', "-"), '/', "_") == UrlText(v) + p;
    UrlTextHasNo(v);
    ReplaceAllConcat(UrlText(v), p, '=', "");
    assert ReplaceAll(UrlText(v), '=', "") == UrlText(v);
  }

  lemma UrlTextHasNo(v: seq<sextet>)
    ensures '+' !in UrlText(v) && '/' !in UrlText(v) && '=' !in UrlText(v)
  {
    forall i | 0 <= i < |v| ensures UrlText(v)[i] != '+' && UrlText(v)[i] != '/' && UrlText(v)[i] != '=' {
      CharValues(v[i]);
    }
  }

  /** Rewriting one character to the standard alphabet keeps the values
      the decoder reads. */
  lemma ValuesOfRewrittenChar(c: char, rest: string)
    ensures Values(ReplaceAll(ReplaceAll([c], '-', "+"), '_', "/") + rest) == Values([c] + rest)
  {
    ReplaceAllChar(c, '-', "+");
    var c1 := if c == '-' then "+" else [c];
    if c != '-' {
      ReplaceAllChar(c, '_', "/");
    }
    var c2 := ReplaceAll(c1, '_', "/");
    assert |c2| == 1 && (c2 + rest)[1..] == rest && ([c] + rest)[1..] == rest;
  }

  lemma {:induction false} ValuesIgnoreAlphabet(s: string)
    ensures Values(ReplaceAll(ReplaceAll(s, '-', "+"), '_', "/")) == Values(s)
    decreases |s|
  {
    if |s| > 0 {
      var rest := ReplaceAll(ReplaceAll(s[1..], '-', "+"), '_', "/");
      assert s == [s[0]] + s[1..];
      ReplaceTwiceConcat([s[0]], s[1..], '-', "+", '_', "/");
      ValuesOfRewrittenChar(s[0], rest);
      ValuesIgnoreAlphabet(s[1..]);
      assert ([s[0]] + rest)[1..] == rest && ([s[0]] + s[1..])[1..] == s[1..];
    }
  }

  /** Node's decoder already accepts the URL-safe characters, so
      `bufferFromBase64url` is plain base64 decoding on every string; in
      particular on the standard-alphabet digest `setToken` stores. */
  lemma BufferFromBase64urlIsDecode(s: string)
    ensures BufferFromBase64url(s) == Decode(s)
  {
    ValuesIgnoreAlphabet(s);
  }

  /** `bufferFromBase64url(base64url(b)) == b`. */
  lemma Base64UrlRoundTrip(b: Bytes)
    ensures BufferFromBase64url(Base64Url(b)) == b
  {
    Base64UrlText(b);
    BufferFromBase64urlIsDecode(Base64Url(b));
    ValuesOfUrlText(Sextets(b));
    UnpackSextets(b);
  }

  /** The characters base64url can produce. */
  predicate IsUrlChar(c: char)
  {
    'A' <= c <= 'Z' || 'a' <= c <= 'z' || '0' <= c <= '9' || c == '-' || c == '_'
  }

  /** Every character of base64url output is in the URL-safe alphabet. */
  lemma Base64UrlAlphabet(b: Bytes)
    ensures forall i :: 0 <= i < |Base64Url(b)| ==> IsUrlChar(Base64Url(b)[i])
  {
    Base64UrlText(b);
    var v := Sextets(b);
    forall i | 0 <= i < |v| ensures IsUrlChar(UrlText(v)[i]) { CharValues(v[i]); }
  }

  /** One URL-safe character becomes its standard counterpart. */
  lemma RewriteUrlChar(v: sextet)
    ensures ReplaceAll(ReplaceAll([UrlChar(v)], '-', "+"), '_', "/") == [StdChar(v)]
  {
    var c := UrlChar(v);
    ReplaceAllChar(c, '-', "+");
    if c != '-' {
      ReplaceAllChar(c, '_', "/");
    }
  }

  lemma {:induction false} RewriteUrlText(v: seq<sextet>)
    ensures ReplaceAll(ReplaceAll(UrlText(v), '-', "+"), '_', "/") == StdText(v)
    decreases |v|
  {
    if |v| > 0 {
      assert UrlText(v) == [UrlChar(v[0])] + UrlText(v[1..]);
      ReplaceTwiceConcat([UrlChar(v[0])], UrlText(v[1..]), '-', "+", '_', "/");
      RewriteUrlChar(v[0]);
      RewriteUrlText(v[1..]);
    }
  }

  /** Rewriting base64url back to the standard alphabet gives the standard
      encoding without its '=' padding. */
  lemma Base64UrlToStd(b: Bytes)
    ensures ReplaceAll(ReplaceAll(Base64Url(b), '-', "+"), '_', "/") == ReplaceAll(Encode(b), '=', "")
  {
    Base64UrlText(b);
    RewriteUrlText(Sextets(b));
    StrippedEncode(b);
  }
}
