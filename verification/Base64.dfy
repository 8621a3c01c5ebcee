/** Url-safe base64 (section 5 of RFC 4648) written without padding and read leniently. */
module Base64 {
  import opened Wrappers

  type Byte = x: int | 0 <= x < 256

  type Sextet = x: int | 0 <= x < 64

  function Symbol(v: Sextet): (c: char)
    ensures ('A' <= c <= 'Z') || ('a' <= c <= 'z') || ('0' <= c <= '9') || c == '-' || c == '_'
  {
    if v < 26 then ('A' as int + v) as char
    else if v < 52 then ('a' as int + (v - 26)) as char
    else if v < 62 then ('0' as int + (v - 52)) as char
    else if v == 62 then '-' else '_'
  }

  /** The reader maps `-` and `_` onto `+` and `/`, so it takes all four; anything else is no symbol. */
  function Meaning(c: char): Option<Sextet> {
    if 'A' <= c <= 'Z' then Some(c as int - 'A' as int)
    else if 'a' <= c <= 'z' then Some(c as int - 'a' as int + 26)
    else if '0' <= c <= '9' then Some(c as int - '0' as int + 52)
    else if c == '+' || c == '-' then Some(62)
    else if c == '/' || c == '_' then Some(63)
    else None
  }

  /** `base64.urlsafe_b64encode`. */
  function Encode(b: seq<Byte>): string {
    if b == [] then ""
    else if |b| == 1 then [Symbol(b[0] / 4), Symbol(b[0] % 4 * 16), '=', '=']
    else if |b| == 2 then
      [Symbol(b[0] / 4), Symbol(b[0] % 4 * 16 + b[1] / 16), Symbol(b[1] % 16 * 4), '=']
    else Quad(b[0], b[1], b[2]) + Encode(b[3..])
  }

  function Quad(a: Byte, b: Byte, c: Byte): (r: string)
    ensures |r| == 4
  {
    [Symbol(a / 4), Symbol(a % 4 * 16 + b / 16), Symbol(b % 16 * 4 + c / 64), Symbol(c % 64)]
  }

  /** `s.rstrip("=")`. */
  function StripPad(s: string): string {
    if s != "" && s[|s| - 1] == '=' then StripPad(s[..|s| - 1]) else s
  }

  /** `"=" * (-n % 4)`. */
  function Padding(n: nat): string {
    if n % 4 == 0 then "" else if n % 4 == 1 then "===" else if n % 4 == 2 then "==" else "="
  }

  /**
   The reader, one character at a time: `pos` symbols of the current group of four are in,
   `left` holds their bits not yet written. Characters that are no symbol are skipped.
   */
  function Scan(s: string, pos: nat, left: nat, pads: nat): Option<seq<Byte>>
    requires pos < 4 && (pos == 0 || (pos == 1 && left < 64) || (pos == 2 && left < 16) || (pos == 3 && left < 4))
  {
    if s == "" then (if pos == 0 then Some([]) else None)
    else if s[0] == '=' then
      if pos < 2 then Scan(s[1..], pos, left, pads)
      else if pos + pads + 1 >= 4 then Some([])
      else Scan(s[1..], pos, left, pads + 1)
    else if Meaning(s[0]).None? then Scan(s[1..], pos, left, pads)
    else
      var v := Meaning(s[0]).value;
      if pos == 0 then Scan(s[1..], 1, v, 0)
      else if pos == 1 then Emit(left * 4 + v / 16, Scan(s[1..], 2, v % 16, 0))
      else if pos == 2 then Emit(left * 16 + v / 4, Scan(s[1..], 3, v % 4, 0))
      else Emit(left * 64 + v, Scan(s[1..], 0, 0, 0))
  }

  function Emit(b: Byte, rest: Option<seq<Byte>>): Option<seq<Byte>> {
    if rest.Some? then Some([b] + rest.value) else None
  }

  /** `base64.urlsafe_b64decode`; absent where it raises. */
  function Decode(s: string): Option<seq<Byte>> {
    if exists i :: 0 <= i < |s| && s[i] as int >= 128 then None else Scan(s, 0, 0, 0)
  }

  // ----- what the pair promises -----

  lemma SymbolMeaning(v: Sextet)
    ensures Meaning(Symbol(v)) == Some(v) && Symbol(v) != '=' && Symbol(v) as int < 128
  {
  }

  /** Each symbol of a group of four hands its bits on. */
  lemma ScanSymbol(v: Sextet, s: string, pos: nat, left: nat)
    requires pos < 4 && (pos == 0 || (pos == 1 && left < 64) || (pos == 2 && left < 16) || (pos == 3 && left < 4))
    ensures Scan([Symbol(v)] + s, pos, left, 0)
         == if pos == 0 then Scan(s, 1, v, 0)
            else if pos == 1 then Emit(left * 4 + v / 16, Scan(s, 2, v % 16, 0))
            else if pos == 2 then Emit(left * 16 + v / 4, Scan(s, 3, v % 4, 0))
            else Emit(left * 64 + v, Scan(s, 0, 0, 0))
  {
    SymbolMeaning(v);
    assert ([Symbol(v)] + s)[1..] == s;
  }

  lemma FirstByte(a: Byte, b: Byte)
    ensures a / 4 * 4 + (a % 4 * 16 + b / 16) / 16 == a && (a % 4 * 16 + b / 16) % 16 == b / 16
    ensures a % 4 * 16 + b / 16 < 64
  {
  }

  lemma SecondByte(b: Byte, c: Byte)
    ensures b / 16 * 16 + (b % 16 * 4 + c / 64) / 4 == b && (b % 16 * 4 + c / 64) % 4 == c / 64
    ensures b % 16 * 4 + c / 64 < 64
  {
  }

  lemma ScanPair(a: Byte, b: Byte, s: string)
    ensures Scan([Symbol(a / 4)] + ([Symbol(a % 4 * 16 + b / 16)] + s), 0, 0, 0) == Emit(a, Scan(s, 2, b / 16, 0))
  {
    FirstByte(a, b);
    ScanSymbol(a / 4, [Symbol(a % 4 * 16 + b / 16)] + s, 0, 0);
    ScanSymbol(a % 4 * 16 + b / 16, s, 1, a / 4);
  }

  lemma ScanThird(b: Byte, c: Byte, s: string)
    ensures Scan([Symbol(b % 16 * 4 + c / 64)] + s, 2, b / 16, 0) == Emit(b, Scan(s, 3, c / 64, 0))
  {
    hide *;
    SecondByte(b, c);
    ScanSymbol(b % 16 * 4 + c / 64, s, 2, b / 16);
  }

  lemma ScanFourth(c: Byte, s: string)
    ensures Scan([Symbol(c % 64)] + s, 3, c / 64, 0) == Emit(c, Scan(s, 0, 0, 0))
  {
    ScanSymbol(c % 64, s, 3, c / 64);
    assert c / 64 * 64 + c % 64 == c;
  }

  lemma ScanQuad(a: Byte, b: Byte, c: Byte, s: string)
    ensures Scan(Quad(a, b, c) + s, 0, 0, 0) == Emit(a, Emit(b, Emit(c, Scan(s, 0, 0, 0))))
  {
    var s3 := [Symbol(c % 64)] + s;
    var s2 := [Symbol(b % 16 * 4 + c / 64)] + s3;
    assert Quad(a, b, c) + s == [Symbol(a / 4)] + ([Symbol(a % 4 * 16 + b / 16)] + s2);
    ScanPair(a, b, s2);
    ScanThird(b, c, s3);
    ScanFourth(c, s);
  }

  lemma ScanOne(a: Byte, rest: string)
    ensures Scan([Symbol(a / 4), Symbol(a % 4 * 16), '=', '='] + rest, 0, 0, 0) == Some([a])
  {
    var s := [Symbol(a / 4), Symbol(a % 4 * 16), '=', '='] + rest;
    assert s == [Symbol(a / 4)] + ([Symbol(a % 4 * 16 + 0 / 16)] + ("==" + rest));
    ScanPair(a, 0, "==" + rest);
    assert ("==" + rest)[1..] == "=" + rest;
    assert Scan("=" + rest, 2, 0, 1) == Some([]);
    assert Scan("==" + rest, 2, 0, 0) == Some([]);
    assert [a] + [] == [a];
  }

  lemma ScanTwo(a: Byte, b: Byte, rest: string)
    ensures Scan([Symbol(a / 4), Symbol(a % 4 * 16 + b / 16), Symbol(b % 16 * 4), '='] + rest, 0, 0, 0) == Some([a, b])
  {
    var s2 := [Symbol(b % 16 * 4 + 0 / 64)] + ("=" + rest);
    assert [Symbol(a / 4), Symbol(a % 4 * 16 + b / 16), Symbol(b % 16 * 4), '='] + rest
        == [Symbol(a / 4)] + ([Symbol(a % 4 * 16 + b / 16)] + s2);
    ScanPair(a, b, s2);
    ScanThird(b, 0, "=" + rest);
    assert Scan("=" + rest, 3, 0, 0) == Some([]);
    assert [a] + ([b] + []) == [a, b];
  }

  lemma ScanEmpty()
    ensures Scan("", 0, 0, 0) == Some([])
  {
  }

  /** A padded encoding is read back; where padding ends it, whatever follows is not looked at. */
  lemma {:induction false} ScanEncode(b: seq<Byte>, rest: string)
    requires rest == "" || |b| % 3 != 0
    ensures Scan(Encode(b) + rest, 0, 0, 0) == Some(b)
  {
    hide Scan, Symbol, Quad;
    if b == [] { ScanEmpty(); }
    if |b| == 1 {
      ScanOne(b[0], rest);
      assert b == [b[0]];
    } else if |b| == 2 {
      ScanTwo(b[0], b[1], rest);
      assert b == [b[0], b[1]];
    } else if |b| >= 3 {
      ScanEncode(b[3..], rest);
      ScanQuad(b[0], b[1], b[2], Encode(b[3..]) + rest);
      assert Quad(b[0], b[1], b[2]) + (Encode(b[3..]) + rest) == Encode(b) + rest;
      assert b == [b[0]] + ([b[1]] + ([b[2]] + b[3..]));
    }
  }

  /** A character outside the alphabet is passed over, wherever it stands. */
  lemma {:induction false} ScanPassesOver(a: string, c: char, b: string, pos: nat, left: nat, pads: nat)
    requires pos < 4 && (pos == 0 || (pos == 1 && left < 64) || (pos == 2 && left < 16) || (pos == 3 && left < 4))
    requires Meaning(c).None? && c != '='
    ensures Scan(a + [c] + b, pos, left, pads) == Scan(a + b, pos, left, pads)
    decreases |a|
  {
    if a == "" {
      assert a + [c] + b == [c] + b && a + b == b;
    } else {
      assert (a + [c] + b)[1..] == a[1..] + [c] + b && (a + b)[1..] == a[1..] + b;
      var v := Meaning(a[0]);
      if a[0] == '=' {
        ScanPassesOver(a[1..], c, b, pos, left, pads);
        ScanPassesOver(a[1..], c, b, pos, left, pads + 1);
      } else if v.None? {
        ScanPassesOver(a[1..], c, b, pos, left, pads);
      } else if pos == 0 {
        ScanPassesOver(a[1..], c, b, 1, v.value, 0);
      } else if pos == 1 {
        ScanPassesOver(a[1..], c, b, 2, v.value % 16, 0);
      } else if pos == 2 {
        ScanPassesOver(a[1..], c, b, 3, v.value % 4, 0);
      } else {
        ScanPassesOver(a[1..], c, b, 0, 0, 0);
      }
    }
  }

  lemma {:induction false} StripPadOnce(s: string, pad: string)
    requires pad == "" || pad == "=" || pad == "=="
    requires s == "" || s[|s| - 1] != '='
    ensures StripPad(s + pad) == s
  {
    if pad == "" {
      assert s + pad == s;
    } else {
      StripPadOnce(s, pad[1..]);
      assert (s + pad)[..|s + pad| - 1] == s + pad[1..];
    }
  }

  ghost predicate IsUnpadded(body: string) {
    && |body| % 4 != 1
    && forall i :: 0 <= i < |body| ==> body[i] as int < 128 && body[i] != '='
  }

  lemma StripPadding(body: string)
    requires IsUnpadded(body)
    ensures StripPad(body + Padding(|body|)) == body
  {
    StripPadOnce(body, Padding(|body|));
  }

  lemma ShapeFront(q: string, rest: string)
    requires IsUnpadded(rest) && |q| == 4
    requires forall i :: 0 <= i < |q| ==> q[i] as int < 128 && q[i] != '='
    ensures IsUnpadded(q + rest)
    ensures q + (rest + Padding(|rest|)) == (q + rest) + Padding(|q + rest|)
  {
    assert Padding(|q + rest|) == Padding(|rest|);
  }

  lemma ShapeShort(b: seq<Byte>) returns (body: string)
    requires |b| == 1 || |b| == 2
    ensures IsUnpadded(body) && Encode(b) == body + Padding(|body|)
    ensures |body| >= 2 && body[0] == Symbol(b[0] / 4)
  {
    if |b| == 1 {
      body := [Symbol(b[0] / 4), Symbol(b[0] % 4 * 16)];
      assert Encode(b) == body + "==";
    } else {
      body := [Symbol(b[0] / 4), Symbol(b[0] % 4 * 16 + b[1] / 16), Symbol(b[1] % 16 * 4)];
      assert Encode(b) == body + "=";
    }
  }

  /** Stripping the padding and rebuilding it from the length gives the padded form back. */
  lemma {:induction false} EncodeShape(b: seq<Byte>) returns (body: string)
    ensures IsUnpadded(body) && Encode(b) == body + Padding(|body|)
    ensures b != [] ==> |body| >= 2 && body[0] == Symbol(b[0] / 4)
  {
    if b == [] {
      body := "";
    } else if |b| <= 2 {
      body := ShapeShort(b);
    } else {
      var rest := EncodeShape(b[3..]);
      var q := Quad(b[0], b[1], b[2]);
      QuadShape(b[0], b[1], b[2]);
      assert Encode(b) == q + Encode(b[3..]);
      hide *;
      ShapeFront(q, rest);
      body := q + rest;
    }
  }

  lemma QuadShape(a: Byte, b: Byte, c: Byte)
    ensures var q := Quad(a, b, c);
            |q| == 4 && q[0] == Symbol(a / 4) && forall i :: 0 <= i < |q| ==> q[i] as int < 128 && q[i] != '='
  {
  }

  /** The unpadded text decodes to the bytes it was made from. */
  lemma Base64RoundTrip(b: seq<Byte>)
    ensures var text := StripPad(Encode(b)); Decode(text + Padding(|text|)) == Some(b)
  {
    var body := EncodeShape(b);
    StripPadding(body);
    ScanEncode(b, "");
    assert Encode(b) + "" == Encode(b);
    var s := body + Padding(|body|);
    forall i | 0 <= i < |s| ensures s[i] as int < 128 {
      if i >= |body| {
        assert s[i] == Padding(|body|)[i - |body|] == '=';
      }
    }
  }

  const UPPER := "ABCDEFGHIJKLMNOPQRSTUVWXYZ"

  const LOWER := "abcdefghijklmnopqrstuvwxyz"

  /** The URL and filename safe alphabet of RFC 4648, section 5. */
  const ALPHABET := UPPER + LOWER + "0123456789" + "-_"

  /** Each value is written as its letter of the alphabet, and read back from it or from the standard `+` and `/`. */
  lemma AlphabetExact(v: Sextet)
    ensures |ALPHABET| == 64 && Symbol(v) == ALPHABET[v] && Meaning(ALPHABET[v]) == Some(v)
    ensures forall c :: Meaning(c) == Some(v) ==> c == ALPHABET[v] || (v == 62 && c == '+') || (v == 63 && c == '/')
    ensures Meaning('+') == Some(62) && Meaning('/') == Some(63)
  {
    Letters(v);
    hide ALPHABET;
  }

  lemma Letters(v: Sextet)
    ensures |ALPHABET| == 64 && ALPHABET[v] == Symbol(v)
  {
    if v < 26 {
      UpperLetters(v);
    } else if v < 52 {
      LowerLetters(v - 26);
    } else if v < 62 {
      assert "0123456789"[v - 52] as int == '0' as int + v - 52;
    }
    Lengths();
    hide UPPER, LOWER;
  }

  lemma Lengths()
    ensures |UPPER| == 26 && |LOWER| == 26
  {
  }

  lemma UpperLetters(i: nat)
    requires i < 26
    ensures UPPER[i] as int == 'A' as int + i
  {
  }

  lemma LowerLetters(i: nat)
    requires i < 26
    ensures LOWER[i] as int == 'a' as int + i
  {
  }

  /** The padding fills a text up to the next multiple of four. */
  lemma PaddingExact(n: nat)
    ensures |Padding(n)| < 4 && (n + |Padding(n)|) % 4 == 0 && forall c :: c in Padding(n) ==> c == '='
  {
  }

  /** A text outside ASCII is not decoded. */
  lemma AsciiOnly(s: string, i: nat)
    requires i < |s| && s[i] as int >= 128
    ensures Decode(s).None?
  {
    assert 0 <= i < |s| && s[i] as int >= 128;
  }
}
