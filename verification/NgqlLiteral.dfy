/** String values as nGQL literals: five replacement passes, and a reader that takes them apart again. */
module NgqlLiteral {
  import opened Wrappers

  /** `s.replace(c, sub)` for a single character. */
  function Replace(s: string, c: char, sub: string): string {
    if s == "" then "" else (if s[0] == c then sub else [s[0]]) + Replace(s[1..], c, sub)
  }

  /** The passes in their order: the backslash first, or later passes would be escaped again. */
  function Passes(s: string): string {
    var backslash := Replace(s, '\\', "\\\\");
    var quote := Replace(backslash, '"', "\\\"");
    var newline := Replace(quote, '\n', "\\n");
    var carriage := Replace(newline, '\r', "\\r");
    Replace(carriage, '\t', "\\t")
  }

  function FormatValue(s: string): string { "\"" + Passes(s) + "\"" }

  // ----- one character at a time -----

  function EscapeChar(c: char): string {
    if c == '\\' then "\\\\"
    else if c == '"' then "\\\""
    else if c == '\n' then "\\n"
    else if c == '\r' then "\\r"
    else if c == '\t' then "\\t"
    else [c]
  }

  function Escape(s: string): string {
    if s == "" then "" else EscapeChar(s[0]) + Escape(s[1..])
  }

  lemma {:induction false} ReplaceConcat(a: string, b: string, c: char, sub: string)
    ensures Replace(a + b, c, sub) == Replace(a, c, sub) + Replace(b, c, sub)
  {
    if a == "" {
      assert a + b == b;
    } else {
      assert (a + b)[1..] == a[1..] + b;
      ReplaceConcat(a[1..], b, c, sub);
    }
  }

  lemma ReplaceOne(x: char, c: char, sub: string)
    ensures Replace([x], c, sub) == if x == c then sub else [x]
  {
    assert [x][1..] == "";
  }

  lemma ReplaceTwo(x: char, y: char, c: char, sub: string)
    requires x != c && y != c
    ensures Replace([x, y], c, sub) == [x, y]
  {
    assert [x, y] == [x] + [y];
    ReplaceConcat([x], [y], c, sub);
    ReplaceOne(x, c, sub);
    ReplaceOne(y, c, sub);
  }

  lemma PassesConcat(a: string, b: string)
    ensures Passes(a + b) == Passes(a) + Passes(b)
  {
    ReplaceConcat(a, b, '\\', "\\\\");
    var a1, b1 := Replace(a, '\\', "\\\\"), Replace(b, '\\', "\\\\");
    ReplaceConcat(a1, b1, '"', "\\\"");
    var a2, b2 := Replace(a1, '"', "\\\""), Replace(b1, '"', "\\\"");
    ReplaceConcat(a2, b2, '\n', "\\n");
    var a3, b3 := Replace(a2, '\n', "\\n"), Replace(b2, '\n', "\\n");
    ReplaceConcat(a3, b3, '\r', "\\r");
    ReplaceConcat(Replace(a3, '\r', "\\r"), Replace(b3, '\r', "\\r"), '\t', "\\t");
  }

  lemma PassesOne(c: char)
    ensures Passes([c]) == EscapeChar(c)
  {
    ReplaceOne(c, '\\', "\\\\");
    ReplaceOne(c, '"', "\\\"");
    ReplaceOne(c, '\n', "\\n");
    ReplaceOne(c, '\r', "\\r");
    ReplaceOne(c, '\t', "\\t");
    ReplaceTwo('\\', '\\', '"', "\\\"");
    ReplaceTwo('\\', '\\', '\n', "\\n");
    ReplaceTwo('\\', '\\', '\r', "\\r");
    ReplaceTwo('\\', '\\', '\t', "\\t");
    ReplaceTwo('\\', '"', '\n', "\\n");
    ReplaceTwo('\\', '"', '\r', "\\r");
    ReplaceTwo('\\', '"', '\t', "\\t");
    ReplaceTwo('\\', 'n', '\r', "\\r");
    ReplaceTwo('\\', 'n', '\t', "\\t");
    ReplaceTwo('\\', 'r', '\t', "\\t");
    assert "\\\\" == ['\\', '\\'] && "\\\"" == ['\\', '"'] && "\\n" == ['\\', 'n'] && "\\r" == ['\\', 'r'];
    hide Replace;
  }

  /** The five passes come to one escape of each character. */
  lemma {:induction false} PassesAreEscape(s: string)
    ensures Passes(s) == Escape(s)
  {
    if s != "" {
      assert s == [s[0]] + s[1..];
      PassesConcat([s[0]], s[1..]);
      PassesOne(s[0]);
      PassesAreEscape(s[1..]);
    }
  }

  // ----- reading it back -----

  /** What a backslash and this character stand for. */
  function Meaning(c: char): Option<char> {
    if c == '\\' || c == '"' then Some(c)
    else if c == 'n' then Some('\n')
    else if c == 'r' then Some('\r')
    else if c == 't' then Some('\t')
    else None
  }

  /** Reads up to the first quote that no backslash precedes; gives the value and the text after the quote. */
  function ReadBody(text: string): Option<(string, string)> {
    if text == "" then None
    else if text[0] == '"' then Some(("", text[1..]))
    else if text[0] == '\\' then
      if |text| < 2 || Meaning(text[1]).None? then None
      else
        var rest := ReadBody(text[2..]);
        if rest.None? then None else Some(([Meaning(text[1]).value] + rest.value.0, rest.value.1))
    else
      var rest := ReadBody(text[1..]);
      if rest.None? then None else Some(([text[0]] + rest.value.0, rest.value.1))
  }

  function ReadLiteral(text: string): Option<(string, string)> {
    if text == "" || text[0] != '"' then None else ReadBody(text[1..])
  }

  function Prepend(c: char, rest: Option<(string, string)>): Option<(string, string)> {
    if rest.None? then None else Some(([c] + rest.value.0, rest.value.1))
  }

  lemma ReadPair(e: char, text: string)
    requires Meaning(e).Some?
    ensures ReadBody(['\\', e] + text) == Prepend(Meaning(e).value, ReadBody(text))
  {
    var t := ['\\', e] + text;
    assert t[0] == '\\' && t[1] == e && t[2..] == text;
    var rest := ReadBody(t[2..]);
  }

  lemma ReadPlain(c: char, text: string)
    requires c != '"' && c != '\\'
    ensures ReadBody([c] + text) == Prepend(c, ReadBody(text))
  {
    var t := [c] + text;
    assert t[0] == c && t[1..] == text;
    var rest := ReadBody(t[1..]);
  }

  lemma ReadEscaped(c: char, text: string)
    ensures ReadBody(EscapeChar(c) + text) == Prepend(c, ReadBody(text))
  {
    var e := EscapeChar(c);
    if |e| == 2 {
      ReadPair(e[1], text);
      assert e == ['\\', e[1]] && Meaning(e[1]) == Some(c);
    } else {
      ReadPlain(c, text);
    }
    hide ReadBody;
  }

  lemma {:induction false} ReadEscape(s: string, after: string)
    ensures ReadBody(Escape(s) + ("\"" + after)) == Some((s, after))
  {
    if s == "" {
      assert "" + ("\"" + after) == "\"" + after && ("\"" + after)[1..] == after;
    } else {
      var tail := Escape(s[1..]) + ("\"" + after);
      assert Escape(s) + ("\"" + after) == EscapeChar(s[0]) + tail;
      ReadEscape(s[1..], after);
      ReadEscaped(s[0], tail);
      assert s == [s[0]] + s[1..];
    }
  }

  /** Whatever text follows, the literal reads back as the string it was made from and ends where it was meant to. */
  lemma LiteralRoundTrip(s: string, after: string)
    ensures ReadLiteral(FormatValue(s) + after) == Some((s, after))
  {
    PassesAreEscape(s);
    ReadEscape(s, after);
    assert (FormatValue(s) + after)[1..] == Escape(s) + ("\"" + after);
  }

  /** Different strings have different literals, and none is the beginning of another's. */
  lemma LiteralInjective(s: string, t: string)
    requires FormatValue(s) <= FormatValue(t)
    ensures s == t
  {
    var after := FormatValue(t)[|FormatValue(s)|..];
    assert FormatValue(s) + after == FormatValue(t) && FormatValue(t) + "" == FormatValue(t);
    LiteralRoundTrip(s, after);
    LiteralRoundTrip(t, "");
  }

  /** How many backslashes stand right before place `k`. */
  function Backslashes(text: string, k: nat): nat
    requires k <= |text|
  {
    if k == 0 || text[k - 1] != '\\' then 0 else 1 + Backslashes(text, k - 1)
  }

  lemma {:induction false} BackslashesAfter(a: string, b: string, k: nat)
    requires k <= |b| && (a == "" || a[|a| - 1] != '\\' || Backslashes(a, |a|) % 2 == 0)
    ensures Backslashes(a + b, |a| + k) % 2 == Backslashes(b, k) % 2
    decreases k
  {
    if k == 0 {
      BackslashesPrefix(a, b, |a|);
    } else if b[k - 1] == '\\' {
      assert (a + b)[|a| + k - 1] == '\\';
      BackslashesAfter(a, b, k - 1);
    }
  }

  lemma {:induction false} BackslashesPrefix(a: string, b: string, k: nat)
    requires k <= |a|
    ensures Backslashes(a + b, k) == Backslashes(a, k)
    decreases k
  {
    if k > 0 && a[k - 1] == '\\' {
      BackslashesPrefix(a, b, k - 1);
    }
  }

  lemma EscapeCharShape(c: char)
    ensures var e := EscapeChar(c);
            && Backslashes(e, |e|) % 2 == 0
            && forall k :: 0 <= k < |e| && e[k] == '"' ==> Backslashes(e, k) % 2 == 1
  {
    var e := EscapeChar(c);
    assert |e| == 2 ==> Backslashes(e, 1) == 1;
    assert Backslashes(e, 0) == 0;
  }

  /** Every quote in the body is escaped: an odd number of backslashes stands right before it. */
  lemma {:induction false} NoBareQuote(s: string)
    ensures var body := Passes(s);
            && Backslashes(body, |body|) % 2 == 0
            && forall k :: 0 <= k < |body| && body[k] == '"' ==> Backslashes(body, k) % 2 == 1
  {
    PassesAreEscape(s);
    if s != "" {
      var e, rest := EscapeChar(s[0]), Escape(s[1..]);
      EscapeCharShape(s[0]);
      NoBareQuote(s[1..]);
      PassesAreEscape(s[1..]);
      BackslashesAfter(e, rest, |rest|);
      forall k | 0 <= k < |Escape(s)| && Escape(s)[k] == '"' ensures Backslashes(Escape(s), k) % 2 == 1 {
        if k < |e| {
          BackslashesPrefix(e, rest, k);
        } else {
          BackslashesAfter(e, rest, k - |e|);
          assert rest[k - |e|] == '"';
        }
      }
    }
  }
}
