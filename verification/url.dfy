/** UTF-8 encoding of a single character. */
module Utf8 {

  type Byte = b: int | 0 <= b < 256

  /** The one to four bytes UTF-8 uses for `c`. */
  function Encode(c: char): (r: seq<Byte>)
    ensures 1 <= |r| <= 4
    ensures |r| == 1 <==> (c as int) < 0x80
    ensures |r| == 1 ==> r[0] == c as int
    ensures forall k :: 0 <= k < |r| ==> (r[k] < 0x80 <==> |r| == 1)
  {
    var n := c as int;
    if n < 0x80 then [n]
    else if n < 0x800 then [0xC0 + n / 64, 0x80 + n % 64]
    else if n < 0x10000 then [0xE0 + n / 4096, 0x80 + (n / 64) % 64, 0x80 + n % 64]
    else [0xF0 + n / 262144, 0x80 + (n / 4096) % 64, 0x80 + (n / 64) % 64, 0x80 + n % 64]
  }

  /** UTF-8 encoding of a whole string (Python's `s.encode('utf-8')`). */
  function EncodeString(s: string): seq<Byte>
    decreases |s|
  {
    if |s| == 0 then [] else Encode(s[0]) + EncodeString(s[1..])
  }
}

/** `urllib.parse.quote` and `urllib.parse.unquote`. */
module Url {
  import opened Utf8
  import Strings

  /** Characters `quote` never escapes: ASCII letters, digits and `_.-~`. */
  predicate AlwaysSafe(c: char) {
    ('A' <= c <= 'Z') || ('a' <= c <= 'z') || ('0' <= c <= '9')
    || c == '_' || c == '.' || c == '-' || c == '~'
  }

  /** The safe set of `quote(s)` with its default `safe='/'`. */
  predicate QuoteSafe(c: char) {
    AlwaysSafe(c) || c == '/'
  }

  /** Upper-case hexadecimal digit, as `quote` writes it. */
  function HexDigit(d: int): (c: char)
    requires 0 <= d < 16
    ensures AlwaysSafe(c)
  {
    if d < 10 then ('0' as int + d) as char else ('A' as int + d - 10) as char
  }

  /** `%XX` for one byte. */
  function Escape(b: Byte): string {
    ['%', HexDigit(b / 16), HexDigit(b % 16)]
  }

  function EscapeAll(bs: seq<Byte>): (r: string)
    ensures forall k :: 0 <= k < |r| ==> AlwaysSafe(r[k]) || r[k] == '%'
    decreases |bs|
  {
    if |bs| == 0 then "" else Escape(bs[0]) + EscapeAll(bs[1..])
  }

  /** A safe character stands for itself; any other is escaped byte by byte. */
  function QuoteChar(c: char): string {
    if QuoteSafe(c) then [c] else EscapeAll(Encode(c))
  }

  /** `urllib.parse.quote(s)`: percent-encodes every UTF-8 byte outside the safe set. The
      output is plain URL text, and text that is already safe comes back unchanged. */
  function Quote(s: string): (r: string)
    ensures forall k :: 0 <= k < |r| ==> QuoteSafe(r[k]) || r[k] == '%'
    ensures (forall k :: 0 <= k < |s| ==> QuoteSafe(s[k])) ==> r == s
    decreases |s|
  {
    if |s| == 0 then "" else QuoteChar(s[0]) + Quote(s[1..])
  }

  /** `quote` works character by character. */
  lemma {:induction false} QuoteConcat(a: string, b: string)
    ensures Quote(a + b) == Quote(a) + Quote(b)
    decreases |a|
  {
    if |a| == 0 {
      assert a + b == b;
    } else {
      assert (a + b)[0] == a[0] && (a + b)[1..] == a[1..] + b;
      QuoteConcat(a[1..], b);
    }
  }

  predicate IsHex(c: char) {
    ('0' <= c <= '9') || ('a' <= c <= 'f') || ('A' <= c <= 'F')
  }

  function HexVal(c: char): (v: int)
    requires IsHex(c)
    ensures 0 <= v < 16
  {
    if '0' <= c <= '9' then c as int - '0' as int
    else if 'a' <= c <= 'f' then c as int - 'a' as int + 10
    else c as int - 'A' as int + 10
  }

  /** A unit of percent-decoded text: a byte (from `%XX` or an ASCII character), or a
      non-ASCII character, which `unquote` passes through untouched. */
  datatype Tok = Raw(b: Byte) | Wide(c: char)

  /** Splits `s` into decoded units; a `%` not followed by two hex digits is literal. */
  function Tokens(s: string): seq<Tok>
    decreases |s|
  {
    if |s| == 0 then []
    else if s[0] == '%' && |s| >= 3 && IsHex(s[1]) && IsHex(s[2]) then
      [Raw(16 * HexVal(s[1]) + HexVal(s[2]))] + Tokens(s[3..])
    else if (s[0] as int) < 0x80 then [Raw(s[0] as int)] + Tokens(s[1..])
    else [Wide(s[0])] + Tokens(s[1..])
  }

  function ByteToks(bs: seq<Byte>): (r: seq<Tok>)
    ensures |r| == |bs|
    ensures forall k :: 0 <= k < |bs| ==> r[k] == Raw(bs[k])
  {
    seq(|bs|, k requires 0 <= k < |bs| => Raw(bs[k]))
  }

  const Replacement: char := '\U{FFFD}'

  /** Token `i` is a byte within `lo..hi`. */
  predicate ByteIn(ts: seq<Tok>, i: nat, lo: int, hi: int) {
    i < |ts| && ts[i].Raw? && lo <= ts[i].b <= hi
  }

  /** One step of UTF-8 decoding with `errors='replace'`: a well-formed sequence becomes its
      character; otherwise the longest prefix that could still have begun a well-formed
      sequence (at least one byte) becomes U+FFFD. */
  function Step(ts: seq<Tok>): (r: (nat, char))
    requires |ts| > 0 && ts[0].Raw?
    ensures 1 <= r.0 <= |ts|
  {
    var b0 := ts[0].b;
    if b0 < 0x80 then (1, b0 as char)
    else if 0xC2 <= b0 <= 0xDF then
      if ByteIn(ts, 1, 0x80, 0xBF) then (2, ((b0 - 0xC0) * 64 + (ts[1].b - 0x80)) as char)
      else (1, Replacement)
    else if 0xE0 <= b0 <= 0xEF then
      var lo := if b0 == 0xE0 then 0xA0 else 0x80;
      var hi := if b0 == 0xED then 0x9F else 0xBF;
      if !ByteIn(ts, 1, lo, hi) then (1, Replacement)
      else if !ByteIn(ts, 2, 0x80, 0xBF) then (2, Replacement)
      else (3, ((b0 - 0xE0) * 4096 + (ts[1].b - 0x80) * 64 + (ts[2].b - 0x80)) as char)
    else if 0xF0 <= b0 <= 0xF4 then
      var lo := if b0 == 0xF0 then 0x90 else 0x80;
      var hi := if b0 == 0xF4 then 0x8F else 0xBF;
      if !ByteIn(ts, 1, lo, hi) then (1, Replacement)
      else if !ByteIn(ts, 2, 0x80, 0xBF) then (2, Replacement)
      else if !ByteIn(ts, 3, 0x80, 0xBF) then (3, Replacement)
      else (4, ((b0 - 0xF0) * 262144 + (ts[1].b - 0x80) * 4096
                + (ts[2].b - 0x80) * 64 + (ts[3].b - 0x80)) as char)
    else (1, Replacement)
  }

  function Decode(ts: seq<Tok>): string
    decreases |ts|
  {
    if |ts| == 0 then ""
    else if ts[0].Wide? then [ts[0].c] + Decode(ts[1..])
    else var st := Step(ts); [st.1] + Decode(ts[st.0..])
  }

  /** `urllib.parse.unquote(s)`: `%XX` escapes are decoded as UTF-8 bytes. */
  function Unquote(s: string): string {
    Decode(Tokens(s))
  }

  /** Text without `%` is returned unchanged by `unquote`. */
  lemma {:induction false} UnquoteLiteral(s: string)
    requires '%' !in s
    ensures Unquote(s) == s
    decreases |s|
  {
    if |s| > 0 {
      var rest := Tokens(s[1..]);
      UnquoteLiteral(s[1..]);
      if (s[0] as int) < 0x80 {
        var ts := [Raw(s[0] as int)] + rest;
        assert Tokens(s) == ts;
        assert Step(ts) == (1, s[0]);
        assert ts[1..] == rest;
      } else {
        var ts := [Wide(s[0])] + rest;
        assert Tokens(s) == ts;
        assert ts[1..] == rest;
      }
      assert [s[0]] + s[1..] == s;
    }
  }

  // ---- quote / unquote round trip ----

  lemma HexRoundTrip(d: int)
    requires 0 <= d < 16
    ensures IsHex(HexDigit(d)) && HexVal(HexDigit(d)) == d
  {
  }

  lemma EscapeTokens(b: Byte, rest: string)
    ensures Tokens(Escape(b) + rest) == [Raw(b)] + Tokens(rest)
  {
    var s := Escape(b) + rest;
    HexRoundTrip(b / 16);
    HexRoundTrip(b % 16);
    assert s[0] == '%' && s[1] == HexDigit(b / 16) && s[2] == HexDigit(b % 16);
    assert s[3..] == rest;
  }

  lemma {:induction false} EscapeAllTokens(bs: seq<Byte>, rest: string)
    ensures Tokens(EscapeAll(bs) + rest) == ByteToks(bs) + Tokens(rest)
    decreases |bs|
  {
    if |bs| == 0 {
      assert EscapeAll(bs) + rest == rest;
      assert ByteToks(bs) + Tokens(rest) == Tokens(rest);
    } else {
      EscapeAllTokens(bs[1..], rest);
      EscapeAllStep(bs, rest);
    }
  }

  /** The inductive step of `EscapeAllTokens`: the first escape decodes to the first byte. */
  lemma EscapeAllStep(bs: seq<Byte>, rest: string)
    requires |bs| > 0
    requires Tokens(EscapeAll(bs[1..]) + rest) == ByteToks(bs[1..]) + Tokens(rest)
    ensures Tokens(EscapeAll(bs) + rest) == ByteToks(bs) + Tokens(rest)
  {
    var b := bs[0];
    var tail := EscapeAll(bs[1..]) + rest;
    var bt := ByteToks(bs[1..]);
    var tr := Tokens(rest);
    EscapeAllCons(bs, rest);
    EscapeTokens(b, tail);
    ByteToksCons(bs);
    Strings.ConcatAssoc([Raw(b)], bt, tr);
  }

  lemma EscapeAllCons(bs: seq<Byte>, rest: string)
    requires |bs| > 0
    ensures EscapeAll(bs) + rest == Escape(bs[0]) + (EscapeAll(bs[1..]) + rest)
  {
    assert EscapeAll(bs) == Escape(bs[0]) + EscapeAll(bs[1..]);
    Strings.ConcatAssoc(Escape(bs[0]), EscapeAll(bs[1..]), rest);
  }

  lemma ByteToksCons(bs: seq<Byte>)
    requires |bs| > 0
    ensures ByteToks(bs) == [Raw(bs[0])] + ByteToks(bs[1..])
  {
  }

  lemma QuoteCharTokens(c: char, rest: string)
    ensures Tokens(QuoteChar(c) + rest) == ByteToks(Encode(c)) + Tokens(rest)
  {
    if QuoteSafe(c) {
      var s := [c] + rest;
      assert s[0] == c && s[1..] == rest;
      assert ByteToks(Encode(c)) == [Raw(c as int)];
    } else {
      EscapeAllTokens(Encode(c), rest);
    }
  }

  lemma {:induction false} QuoteTokens(s: string)
    ensures Tokens(Quote(s)) == ByteToks(EncodeString(s))
    decreases |s|
  {
    if |s| > 0 {
      assert Quote(s) == QuoteChar(s[0]) + Quote(s[1..]);
      QuoteCharTokens(s[0], Quote(s[1..]));
      QuoteTokens(s[1..]);
      assert EncodeString(s) == Encode(s[0]) + EncodeString(s[1..]);
      ByteToksConcat(Encode(s[0]), EncodeString(s[1..]));
    }
  }

  lemma ByteToksConcat(a: seq<Byte>, b: seq<Byte>)
    ensures ByteToks(a + b) == ByteToks(a) + ByteToks(b)
  {
  }

  lemma DivMod64(n: int)
    requires n >= 0
    ensures n == (n / 64) * 64 + n % 64
    ensures n / 64 == (n / 4096) * 64 + (n / 64) % 64
    ensures n / 4096 == (n / 262144) * 64 + (n / 4096) % 64
  {
  }

  /** Decoding the bytes of one encoded character, whatever follows, yields that character
      and consumes exactly its bytes. */
  lemma StepEncoded(c: char, rest: seq<Tok>)
    ensures var ts := ByteToks(Encode(c)) + rest;
      |ts| > 0 && ts[0].Raw? && Step(ts) == (|Encode(c)|, c)
  {
    var n := c as int;
    if n < 0x80 {
      assert (ByteToks(Encode(c)) + rest)[0] == Raw(n);
    } else if n < 0x800 {
      StepEncoded2(c, rest);
    } else if n < 0x10000 {
      StepEncoded3(c, rest);
    } else {
      StepEncoded4(c, rest);
    }
  }

  lemma StepEncoded2(c: char, rest: seq<Tok>)
    requires 0x80 <= c as int < 0x800
    ensures var ts := ByteToks(Encode(c)) + rest;
      |ts| > 0 && ts[0].Raw? && Step(ts) == (|Encode(c)|, c)
  {
    var n := c as int;
    var bs := Encode(c);
    var ts := ByteToks(bs) + rest;
    DivMod64(n);
    assert ts[0] == Raw(bs[0]) && ts[1] == Raw(bs[1]);
    assert ts[1].b - 0x80 == n % 64;
  }

  lemma StepEncoded3(c: char, rest: seq<Tok>)
    requires 0x800 <= c as int < 0x10000
    ensures var ts := ByteToks(Encode(c)) + rest;
      |ts| > 0 && ts[0].Raw? && Step(ts) == (|Encode(c)|, c)
  {
    var n := c as int;
    var bs := Encode(c);
    var ts := ByteToks(bs) + rest;
    DivMod64(n);
    assert ts[0] == Raw(bs[0]) && ts[1] == Raw(bs[1]) && ts[2] == Raw(bs[2]);
    assert bs[0] == 0xE0 + n / 4096;
    assert bs[0] == 0xE0 ==> n / 64 >= 32 && (n / 64) % 64 == n / 64;
    assert bs[0] == 0xED ==> 0xD000 <= n < 0xD800;
  }

  lemma StepEncoded4(c: char, rest: seq<Tok>)
    requires 0x10000 <= c as int
    ensures var ts := ByteToks(Encode(c)) + rest;
      |ts| > 0 && ts[0].Raw? && Step(ts) == (|Encode(c)|, c)
  {
    var n := c as int;
    var bs := Encode(c);
    var ts := ByteToks(bs) + rest;
    DivMod64(n);
    assert ts[0] == Raw(bs[0]) && ts[1] == Raw(bs[1]) && ts[2] == Raw(bs[2]) && ts[3] == Raw(bs[3]);
    assert bs[0] == 0xF0 + n / 262144;
    assert bs[0] == 0xF0 ==> n / 4096 >= 16 && (n / 4096) % 64 == n / 4096;
    assert bs[0] == 0xF4 ==> 0x100000 <= n < 0x110000 && (n / 4096) % 64 == n / 4096 - 256;
  }

  lemma {:induction false} DecodeEncoded(s: string)
    ensures Decode(ByteToks(EncodeString(s))) == s
    decreases |s|
  {
    if |s| > 0 {
      var bs := Encode(s[0]);
      var rest := ByteToks(EncodeString(s[1..]));
      assert ByteToks(EncodeString(s)) == ByteToks(bs) + rest;
      StepEncoded(s[0], rest);
      assert (ByteToks(bs) + rest)[|bs|..] == rest;
      DecodeEncoded(s[1..]);
    }
  }

  /** `unquote` undoes `quote`, for every string. */
  lemma UnquoteQuote(s: string)
    ensures Unquote(Quote(s)) == s
  {
    QuoteTokens(s);
    DecodeEncoded(s);
  }
}
