/**
 Cleaning up the path of a URL that is not a local file (models/link.py): the
 path is split at `@` and `%2F`, each piece is unquoted and quoted again.
 What the decoder makes of malformed UTF-8 is a parameter.
 */
module UrlPath {
  import opened Basics

  type Bytes = seq<byte>

  predicate Ascii(c: char) { c as int < 128 }

  // ---------------------------------------------------------------- UTF-8

  function EncodeChar(c: char): (r: Bytes)
    ensures r != [] && !Continuation(r[0])
    ensures Ascii(c) ==> r == [c as int as byte]
  {
    var n := c as int;
    if n < 0x80 then [n as byte]
    else if n < 0x800 then [(0xC0 + n / 64) as byte, Tail(n)]
    else if n < 0x1_0000 then [(0xE0 + n / 4096) as byte, Tail(n / 64), Tail(n)]
    else [(0xF0 + n / 262144) as byte, Tail(n / 4096), Tail(n / 64), Tail(n)]
  }

  function Tail(n: nat): byte { (0x80 + n % 64) as byte }

  function Encode(s: string): Bytes {
    if s == "" then [] else EncodeChar(s[0]) + Encode(s[1..])
  }

  predicate Continuation(b: byte) { 0x80 <= b <= 0xBF }

  /** The second bytes that may follow a lead byte of two, three or four bytes. */
  predicate Follows(lead: byte, second: byte) {
    if 0xC2 <= lead <= 0xDF then Continuation(second)
    else if lead == 0xE0 then 0xA0 <= second <= 0xBF
    else if lead == 0xED then 0x80 <= second <= 0x9F
    else if 0xE1 <= lead <= 0xEF then Continuation(second)
    else if lead == 0xF0 then 0x90 <= second <= 0xBF
    else if 0xF1 <= lead <= 0xF3 then Continuation(second)
    else lead == 0xF4 && 0x80 <= second <= 0x8F
  }

  /** The length of the well-formed sequence at the start, or 0 if there is none. */
  function SequenceLength(bs: Bytes): (n: nat)
    ensures n <= |bs| && n <= 4
    ensures forall i :: 1 <= i < n ==> Continuation(bs[i])
  {
    if bs == [] then 0
    else if bs[0] < 0x80 then 1
    else if |bs| < 2 || !Follows(bs[0], bs[1]) then 0
    else if bs[0] <= 0xDF then 2
    else if |bs| < 3 || !Continuation(bs[2]) then 0
    else if bs[0] <= 0xEF then 3
    else if |bs| < 4 || !Continuation(bs[3]) then 0
    else 4
  }

  predicate WellFormedUtf8(bs: Bytes) {
    bs == [] || (SequenceLength(bs) > 0 && WellFormedUtf8(bs[SequenceLength(bs)..]))
  }

  /** The character of the sequence at the start. */
  function FirstChar(bs: Bytes): char
    requires SequenceLength(bs) > 0
  {
    var b0 := bs[0] as int;
    if b0 < 0x80 then b0 as char
    else
      var b1 := bs[1] as int - 0x80;
      if b0 <= 0xDF then ((b0 - 0xC0) * 64 + b1) as char
      else
        var b2 := bs[2] as int - 0x80;
        if b0 <= 0xEF then ((b0 - 0xE0) * 4096 + b1 * 64 + b2) as char
        else ((b0 - 0xF0) * 262144 + b1 * 4096 + b2 * 64 + bs[3] as int - 0x80) as char
  }

  lemma Sextets(n: int)
    requires 0 <= n
    ensures n == n / 64 * 64 + n % 64 && 0 <= n % 64 < 64
    ensures n / 64 == n / 4096 * 64 + n / 64 % 64 && 0 <= n / 64 % 64 < 64
    ensures n / 4096 == n / 262144 * 64 + n / 4096 % 64 && 0 <= n / 4096 % 64 < 64
  {
  }

  lemma FromSextets(a: int, b: int, c: int, d: int)
    requires 0 <= a && 0 <= b < 64 && 0 <= c < 64 && 0 <= d < 64
    ensures var n := a * 262144 + b * 4096 + c * 64 + d;
            n % 64 == d && n / 64 % 64 == c && n / 4096 % 64 == b && n / 262144 == a
            && n / 64 == a * 4096 + b * 64 + c && n / 4096 == a * 64 + b
  {
    var n := a * 262144 + b * 4096 + c * 64 + d;
    assert n == (a * 4096 + b * 64 + c) * 64 + d;
    assert a * 4096 + b * 64 + c == (a * 64 + b) * 64 + c;
  }

  lemma CharRoundTrip(c: char, rest: Bytes)
    ensures SequenceLength(EncodeChar(c) + rest) == |EncodeChar(c)|
    ensures FirstChar(EncodeChar(c) + rest) == c
    ensures (EncodeChar(c) + rest)[|EncodeChar(c)|..] == rest
  {
    var n, bs := c as int, EncodeChar(c) + rest;
    Sextets(n);
    assert forall i :: 0 <= i < |EncodeChar(c)| ==> bs[i] == EncodeChar(c)[i];
    if n < 0x80 {
    } else if n < 0x800 {
      assert 0xC2 <= bs[0] <= 0xDF;
    } else if n < 0x1_0000 {
      assert 0xE0 <= bs[0] <= 0xEF;
      assert Follows(bs[0], bs[1]);
      assert FirstChar(bs) as int == n;
    } else {
      assert 0xF0 <= bs[0] <= 0xF4;
      assert Follows(bs[0], bs[1]);
      assert FirstChar(bs) as int == n;
    }
  }

  lemma TwoBytes(bs: Bytes)
    requires SequenceLength(bs) == 2
    ensures EncodeChar(FirstChar(bs)) == [bs[0], bs[1]]
  {
    FromSextets(0, 0, bs[0] as int - 0xC0, bs[1] as int - 0x80);
  }

  lemma ThreeBytes(bs: Bytes)
    requires SequenceLength(bs) == 3
    ensures EncodeChar(FirstChar(bs)) == [bs[0], bs[1], bs[2]]
  {
    var n := FirstChar(bs) as int;
    FromSextets(0, bs[0] as int - 0xE0, bs[1] as int - 0x80, bs[2] as int - 0x80);
    assert 0x800 <= n < 0x1_0000;
  }

  lemma FourBytes(bs: Bytes)
    requires SequenceLength(bs) == 4
    ensures EncodeChar(FirstChar(bs)) == [bs[0], bs[1], bs[2], bs[3]]
  {
    var n := FirstChar(bs) as int;
    FromSextets(bs[0] as int - 0xF0, bs[1] as int - 0x80, bs[2] as int - 0x80, bs[3] as int - 0x80);
    assert 0x1_0000 <= n;
  }

  lemma SequenceRoundTrip(bs: Bytes)
    requires SequenceLength(bs) > 0
    ensures EncodeChar(FirstChar(bs)) == bs[..SequenceLength(bs)]
  {
    match SequenceLength(bs)
    case 1 =>
    case 2 => TwoBytes(bs);
    case 3 => ThreeBytes(bs);
    case _ => FourBytes(bs);
  }

  lemma EncodeOneMore(c: char, s: string)
    ensures Encode([c] + s) == EncodeChar(c) + Encode(s)
  {
    assert ([c] + s)[1..] == s;
  }

  lemma {:induction false} EncodeConcat(s: string, t: string)
    ensures Encode(s + t) == Encode(s) + Encode(t)
  {
    if s == "" {
      assert s + t == t;
    } else {
      assert (s + t)[1..] == s[1..] + t;
      EncodeConcat(s[1..], t);
    }
  }

  lemma EncodeParts(s: string, n: nat)
    requires n <= |s|
    ensures Encode(s) == Encode(s[..n]) + Encode(s[n..]) && s == s[..n] + s[n..]
  {
    assert s == s[..n] + s[n..];
    EncodeConcat(s[..n], s[n..]);
  }

  /** What is encoded is well-formed ... */
  lemma {:induction false} EncodedIsWellFormed(s: string)
    ensures WellFormedUtf8(Encode(s))
  {
    if s == "" {
    } else {
      CharRoundTrip(s[0], Encode(s[1..]));
      EncodedIsWellFormed(s[1..]);
    }
  }

  lemma FirstSequence(bs: Bytes, s: string)
    requires SequenceLength(bs) > 0 && Encode(s) == bs[SequenceLength(bs)..]
    ensures Encode([FirstChar(bs)] + s) == bs
  {
    SequenceRoundTrip(bs);
    EncodeOneMore(FirstChar(bs), s);
    assert bs == bs[..SequenceLength(bs)] + bs[SequenceLength(bs)..];
  }

  /** ... and what is well-formed is the code of some text. */
  lemma {:induction false} WellFormedIsEncoded(bs: Bytes) returns (s: string)
    requires WellFormedUtf8(bs)
    ensures Encode(s) == bs
  {
    if bs == [] {
      s := "";
    } else {
      s := WellFormedIsEncoded(bs[SequenceLength(bs)..]);
      FirstSequence(bs, s);
      s := [FirstChar(bs)] + s;
    }
  }

  lemma SequenceWithin(a: Bytes, b: Bytes)
    requires a != [] && SequenceLength(a + b) > 0 && (b != [] ==> !Continuation(b[0]))
    ensures var n := SequenceLength(a + b);
            n <= |a| && SequenceLength(a) == n && (a + b)[n..] == a[n..] + b
  {
    var all, n := a + b, SequenceLength(a + b);
    if b != [] { assert all[|a|] == b[0]; }
    assert n <= |a|;
    assert forall i :: 0 <= i < |a| ==> all[i] == a[i];
  }

  /** Well-formedness is decided on either side of a byte that begins a character. */
  lemma {:induction false} WellFormedSplit(a: Bytes, b: Bytes)
    requires WellFormedUtf8(a + b) && (b != [] ==> !Continuation(b[0]))
    ensures WellFormedUtf8(a) && WellFormedUtf8(b)
    decreases |a|
  {
    if a == [] {
      assert a + b == b;
    } else {
      SequenceWithin(a, b);
      WellFormedSplit(a[SequenceLength(a)..], b);
    }
  }

  /** A decoder takes well-formed text back; what it makes of anything else is left open. */
  type Decoder = Bytes -> string

  ghost predicate Utf8(decode: Decoder) {
    forall s: string :: decode(Encode(s)) == s
  }

  /** A decoded well-formed sequence is encoded as it was, and nothing else is. */
  lemma ReencodedExact(decode: Decoder, bs: Bytes)
    requires Utf8(decode)
    ensures Encode(decode(bs)) == bs <==> WellFormedUtf8(bs)
  {
    EncodedIsWellFormed(decode(bs));
    if WellFormedUtf8(bs) {
      var s := WellFormedIsEncoded(bs);
      assert decode(Encode(s)) == s;
    }
  }

  /** The longest part of a malformed sequence that could have begun a well-formed one. */
  function Malformed(bs: Bytes): (n: nat)
    requires bs != []
    ensures 1 <= n <= |bs| && n <= 3
  {
    if |bs| < 2 || bs[0] < 0x80 || !Follows(bs[0], bs[1]) then 1
    else if bs[0] < 0xF0 || |bs| < 3 || !Continuation(bs[2]) then 2
    else 3
  }

  /** Each such part is replaced by one U+FFFD. */
  function DecodeReplacing(bs: Bytes): string
    decreases |bs|
  {
    if bs == [] then ""
    else if SequenceLength(bs) > 0 then [FirstChar(bs)] + DecodeReplacing(bs[SequenceLength(bs)..])
    else ['\U{FFFD}'] + DecodeReplacing(bs[Malformed(bs)..])
  }

  lemma {:induction false} DecodeEncoded(s: string)
    ensures DecodeReplacing(Encode(s)) == s
  {
    if s == "" {
    } else {
      CharRoundTrip(s[0], Encode(s[1..]));
      DecodeEncoded(s[1..]);
      assert s == [s[0]] + s[1..];
    }
  }

  lemma DecodeReplacingIsUtf8()
    ensures Utf8(DecodeReplacing)
  {
    forall s: string ensures DecodeReplacing(Encode(s)) == s { DecodeEncoded(s); }
  }

  // ---------------------------------------------------------------- percent-encoding (section 2.1 of RFC 3986)

  function HexDigit(n: int): char
    requires 0 <= n < 16
  {
    if n < 10 then ('0' as int + n) as char else ('A' as int + n - 10) as char
  }

  predicate IsHex(c: char) { '0' <= c <= '9' || 'A' <= c <= 'F' || 'a' <= c <= 'f' }

  function HexValue(c: char): (n: int)
    requires IsHex(c)
    ensures 0 <= n < 16
  {
    if c <= '9' then c as int - '0' as int
    else if c <= 'F' then c as int - 'A' as int + 10
    else c as int - 'a' as int + 10
  }

  /** Left as they are by `quote`: unreserved characters and the slash. */
  predicate Safe(b: byte) {
    var c := b as int as char;
    'a' <= c <= 'z' || 'A' <= c <= 'Z' || '0' <= c <= '9' || c == '_' || c == '.' || c == '-' || c == '~' || c == '/'
  }

  function PercentByte(b: byte): string {
    if Safe(b) then [b as int as char]
    else ['%', HexDigit(b as int / 16), HexDigit(b as int % 16)]
  }

  /** The unreserved characters of section 2.3 of RFC 3986. */
  predicate Unreserved(c: char) {
    'A' <= c <= 'Z' || 'a' <= c <= 'z' || '0' <= c <= '9' || c in "-._~"
  }

  /** Exactly unreserved characters and slashes stay; any other byte becomes its two hexadecimal digits, in capitals. */
  lemma PercentByteMeans(b: byte)
    ensures var c := b as int as char;
            PercentByte(b) == if Unreserved(c) || c == '/' then [c]
                              else ['%', "0123456789ABCDEF"[b as int / 16], "0123456789ABCDEF"[b as int % 16]]
  {
    var c := b as int as char;
    HexDigitMeans(b as int / 16);
    HexDigitMeans(b as int % 16);
  }

  lemma HexDigitMeans(n: int)
    requires 0 <= n < 16
    ensures HexDigit(n) == "0123456789ABCDEF"[n]
    ensures HexValue("0123456789ABCDEF"[n]) == n == HexValue("0123456789abcdef"[n])
  {
  }

  function Percent(bs: Bytes): string {
    if bs == [] then "" else PercentByte(bs[0]) + Percent(bs[1..])
  }

  predicate Triplet(s: string) { |s| >= 3 && s[0] == '%' && IsHex(s[1]) && IsHex(s[2]) }

  /** A `%` without two hexadecimal digits stands for itself. */
  function Unpercent(s: string): Bytes
    requires forall i :: 0 <= i < |s| ==> Ascii(s[i])
  {
    if s == "" then []
    else if Triplet(s) then [(16 * HexValue(s[1]) + HexValue(s[2])) as byte] + Unpercent(s[3..])
    else
      assert Ascii(s[0]);
      [s[0] as int as byte] + Unpercent(s[1..])
  }

  lemma PercentByteAscii(b: byte)
    ensures forall i :: 0 <= i < |PercentByte(b)| ==> Ascii(PercentByte(b)[i])
  {
  }

  lemma {:induction false} PercentAscii(bs: Bytes)
    ensures forall i :: 0 <= i < |Percent(bs)| ==> Ascii(Percent(bs)[i])
  {
    if bs == [] {
    } else {
      PercentByteAscii(bs[0]);
      PercentAscii(bs[1..]);
    }
  }

  lemma HexRoundTrip(n: int)
    requires 0 <= n < 16
    ensures IsHex(HexDigit(n)) && HexValue(HexDigit(n)) == n
  {
  }

  /** Decoding undoes encoding, for all bytes. */
  lemma {:induction false} UnpercentPercent(bs: Bytes)
    ensures forall i :: 0 <= i < |Percent(bs)| ==> Ascii(Percent(bs)[i])
    ensures Unpercent(Percent(bs)) == bs
  {
    PercentAscii(bs);
    if bs == [] {
    } else {
      PercentAscii(bs[1..]);
      UnpercentPercent(bs[1..]);
      var s, b := Percent(bs), bs[0];
      if Safe(b) {
        assert s[1..] == Percent(bs[1..]);
      } else {
        HexRoundTrip(b as int / 16);
        HexRoundTrip(b as int % 16);
        assert s[3..] == Percent(bs[1..]);
      }
    }
  }

  // ---------------------------------------------------------------- quote and unquote

  function Quote(s: string): string { Percent(Encode(s)) }

  /** The length of the run of ASCII characters at the start. */
  function AsciiRun(s: string): (n: nat)
    ensures n <= |s| && forall i :: 0 <= i < n ==> Ascii(s[i])
    ensures n < |s| ==> !Ascii(s[n])
  {
    if s == "" || !Ascii(s[0]) then 0 else 1 + AsciiRun(s[1..])
  }

  /** Runs of ASCII are decoded as a whole, other characters stay. */
  function Unquote(u: Decoder, s: string): string
    decreases |s|
  {
    if s == "" then ""
    else if Ascii(s[0]) then u(Unpercent(s[..AsciiRun(s)])) + Unquote(u, s[AsciiRun(s)..])
    else [s[0]] + Unquote(u, s[1..])
  }

  /** `_clean_url_path_part` */
  function CleanPart(u: Decoder, part: string): string { Quote(Unquote(u, part)) }

  /** The bytes a piece of a path stands for. */
  function PartBytes(s: string): Bytes
    decreases |s|
  {
    if s == "" then []
    else if Ascii(s[0]) then Unpercent(s[..AsciiRun(s)]) + PartBytes(s[AsciiRun(s)..])
    else EncodeChar(s[0]) + PartBytes(s[1..])
  }

  lemma {:induction false} WholeRun(s: string)
    requires forall i :: 0 <= i < |s| ==> Ascii(s[i])
    ensures AsciiRun(s) == |s|
  {
    if s == "" {
    } else {
      WholeRun(s[1..]);
    }
  }

  lemma UnquoteQuote(u: Decoder, s: string)
    requires Utf8(u)
    ensures Unquote(u, Quote(s)) == s
    ensures PartBytes(Quote(s)) == Encode(s)
  {
    var bs := Encode(s);
    var q := Percent(bs);
    UnpercentPercent(bs);
    WholeRun(q);
    if q == "" {
      assert bs == [] && s == "";
    } else {
      assert q[..AsciiRun(q)] == q && q[AsciiRun(q)..] == "";
      assert u(bs) + "" == s;
      assert bs + [] == bs;
    }
  }

  /** Cleaning a piece again changes nothing. */
  lemma CleanPartIdempotent(u: Decoder, part: string)
    requires Utf8(u)
    ensures CleanPart(u, CleanPart(u, part)) == CleanPart(u, part)
  {
    UnquoteQuote(u, Unquote(u, part));
  }

  lemma PartBytesBegin(s: string)
    requires s != "" && !Ascii(s[0])
    ensures PartBytes(s) != [] && !Continuation(PartBytes(s)[0])
  {
  }

  /** Well-formed runs are decoded to what they stand for. */
  lemma {:induction false} WellFormedStays(u: Decoder, s: string)
    requires Utf8(u) && WellFormedUtf8(PartBytes(s))
    ensures Encode(Unquote(u, s)) == PartBytes(s)
    decreases |s|
  {
    if s == "" {
    } else if Ascii(s[0]) {
      var n := AsciiRun(s);
      var bs, rest := Unpercent(s[..n]), s[n..];
      if rest != "" { PartBytesBegin(rest); }
      WellFormedSplit(bs, PartBytes(rest));
      ReencodedExact(u, bs);
      WellFormedStays(u, rest);
      EncodeConcat(u(bs), Unquote(u, rest));
    } else {
      var c, rest := s[0], s[1..];
      CharRoundTrip(c, PartBytes(rest));
      WellFormedStays(u, rest);
      assert Encode([c]) == EncodeChar(c) + Encode("") == EncodeChar(c);
      EncodeConcat([c], Unquote(u, rest));
    }
  }

  /** A piece keeps its bytes exactly when they are well-formed UTF-8. */
  lemma CleanPartKeepsBytes(u: Decoder, part: string)
    requires Utf8(u)
    ensures PartBytes(CleanPart(u, part)) == PartBytes(part) <==> WellFormedUtf8(PartBytes(part))
  {
    UnquoteQuote(u, Unquote(u, part));
    EncodedIsWellFormed(Unquote(u, part));
    if WellFormedUtf8(PartBytes(part)) { WellFormedStays(u, part); }
  }

  /** A piece that does not: the byte FF alone is the code of nothing. */
  lemma LoneByteChanges(u: Decoder)
    requires Utf8(u)
    ensures PartBytes("%FF") == [0xFF] && PartBytes(CleanPart(u, "%FF")) != [0xFF]
  {
    WholeRun("%FF");
    assert "%FF"[..3] == "%FF" && "%FF"[3..] == "";
    assert Triplet("%FF") && Unpercent("") == [];
    CleanPartKeepsBytes(u, "%FF");
  }

  lemma {:induction false} PlainAscii(s: string)
    requires '%' !in s && forall i :: 0 <= i < |s| ==> Ascii(s[i])
    ensures Unpercent(s) == Encode(s)
  {
    if s == "" {
    } else {
      assert s == [s[0]] + s[1..];
      assert Ascii(s[0]);
      PlainAscii(s[1..]);
    }
  }

  lemma PartBytesOfRun(s: string)
    ensures PartBytes(s) == Unpercent(s[..AsciiRun(s)]) + PartBytes(s[AsciiRun(s)..])
  {
    if s == "" || !Ascii(s[0]) {
      assert s[..AsciiRun(s)] == "" && s[AsciiRun(s)..] == s;
    }
  }

  lemma PlainRun(u: Decoder, s: string)
    requires Utf8(u) && '%' !in s && s != "" && Ascii(s[0])
    ensures var n := AsciiRun(s);
            n > 0 && PartBytes(s) == Encode(s[..n]) + PartBytes(s[n..]) && Unquote(u, s) == s[..n] + Unquote(u, s[n..])
  {
    var n := AsciiRun(s);
    PlainAscii(s[..n]);
    assert u(Encode(s[..n])) == s[..n];
  }

  /** Text without a percent sign stands for itself. */
  lemma {:induction false} PlainText(u: Decoder, s: string)
    requires Utf8(u) && '%' !in s
    ensures PartBytes(s) == Encode(s) && Unquote(u, s) == s
    decreases |s|
  {
    if s == "" {
    } else if Ascii(s[0]) {
      PlainRun(u, s);
      PlainText(u, s[AsciiRun(s)..]);
      EncodeParts(s, AsciiRun(s));
    } else {
      PlainText(u, s[1..]);
      assert s == [s[0]] + s[1..];
    }
  }

  lemma {:induction false} RunBehind(p: string, s: string)
    requires forall i :: 0 <= i < |p| ==> Ascii(p[i])
    ensures AsciiRun(p + s) == |p| + AsciiRun(s)
  {
    if p == "" {
      assert p + s == s;
    } else {
      assert (p + s)[1..] == p[1..] + s && (p + s)[0] == p[0];
      RunBehind(p[1..], s);
    }
  }

  lemma CutBehind(p: string, s: string, n: nat)
    requires n <= |s|
    ensures (p + s)[..|p| + n] == p + s[..n] && (p + s)[|p| + n..] == s[n..]
  {
  }

  lemma UnpercentTriplet(s: string, b: byte)
    requires Triplet(s) && forall i :: 0 <= i < |s| ==> Ascii(s[i])
    requires b as int == 16 * HexValue(s[1]) + HexValue(s[2])
    ensures Unpercent(s) == [b] + Unpercent(s[3..])
  {
  }

  lemma RunInFront(p: string, b: byte, run: string)
    requires |p| == 3 && Triplet(p) && b as int == 16 * HexValue(p[1]) + HexValue(p[2])
    requires forall i :: 0 <= i < |run| ==> Ascii(run[i])
    ensures forall i :: 0 <= i < |p + run| ==> Ascii((p + run)[i])
    ensures Unpercent(p + run) == [b] + Unpercent(run)
  {
    assert (p + run)[3..] == run;
    UnpercentTriplet(p + run, b);
  }

  lemma Grouped(a: Bytes, b: Bytes, c: Bytes)
    ensures (a + b) + c == a + (b + c)
  {
  }

  /** A percent sign with two hexadecimal digits, in either case, stands for that byte. */
  lemma EncodedByte(p: string, b: byte, s: string)
    requires |p| == 3 && Triplet(p) && b as int == 16 * HexValue(p[1]) + HexValue(p[2])
    ensures PartBytes(p + s) == [b] + PartBytes(s)
  {
    var n := AsciiRun(s);
    RunBehind(p, s);
    CutBehind(p, s, n);
    RunInFront(p, b, s[..n]);
    PartBytesOfRun(p + s);
    PartBytesOfRun(s);
    Grouped([b], Unpercent(s[..n]), PartBytes(s[n..]));
  }

  // ---------------------------------------------------------------- separators

  /** The length of the reserved character at the start: `@`, or an encoded slash in either case. */
  function Reserved(s: string): (n: nat)
    ensures n <= |s|
  {
    if s == "" then 0
    else if s[0] == '@' then 1
    else if |s| >= 3 && s[0] == '%' && s[1] == '2' && (s[2] == 'F' || s[2] == 'f') then 3
    else 0
  }

  /** Pieces, each with the separator that follows it; the last has none. */
  function SplitReserved(s: string): (r: seq<(string, string)>)
    ensures r != []
    decreases |s|
  {
    if s == "" then [("", "")]
    else if Reserved(s) > 0 then [("", s[..Reserved(s)])] + SplitReserved(s[Reserved(s)..])
    else
      var r := SplitReserved(s[1..]);
      [([s[0]] + r[0].0, r[0].1)] + r[1..]
  }

  /** Upper case; of a separator only the `f` of an encoded slash can be lower. */
  function Upper(s: string): string {
    seq(|s|, i requires 0 <= i < |s| => if 'a' <= s[i] <= 'z' then (s[i] as int - 32) as char else s[i])
  }

  predicate Separator(s: string) { s == "@" || s == "%2F" }

  /** The cleaned pieces with their separators in upper case. */
  function CleanPairs(u: Decoder, pairs: seq<(string, string)>): seq<(string, string)> {
    seq(|pairs|, i requires 0 <= i < |pairs| => (CleanPart(u, pairs[i].0), Upper(pairs[i].1)))
  }

  function Join(pairs: seq<(string, string)>): string {
    if pairs == [] then "" else pairs[0].0 + pairs[0].1 + Join(pairs[1..])
  }

  function Clean(u: Decoder, path: string): string { Join(CleanPairs(u, SplitReserved(path))) }

  /** Pieces, then one without a separator. */
  predicate Listing(pairs: seq<(string, string)>) {
    pairs != [] && pairs[|pairs| - 1].1 == ""
  }

  lemma {:induction false} SplitIsListing(s: string)
    ensures Listing(SplitReserved(s))
    ensures forall i :: 0 <= i < |SplitReserved(s)| - 1 ==> Separator(Upper(SplitReserved(s)[i].1))
    decreases |s|
  {
    if s == "" {
    } else {
      if Reserved(s) > 0 {
        SplitIsListing(s[Reserved(s)..]);
        if s[0] == '@' { assert Upper(s[..1]) == "@"; } else { assert Upper(s[..3]) == "%2F"; }
      } else {
        SplitIsListing(s[1..]);
      }
    }
  }

  /** The pairs with `p` in front of the first piece. */
  function Prefixed(p: string, r: seq<(string, string)>): seq<(string, string)>
    requires r != []
  {
    [(p + r[0].0, r[0].1)] + r[1..]
  }

  lemma PrefixedTwice(p: string, q: string, r: seq<(string, string)>)
    requires r != []
    ensures Prefixed(p, Prefixed(q, r)) == Prefixed(p + q, r)
  {
    assert p + (q + r[0].0) == (p + q) + r[0].0;
  }

  lemma SkipChar(c: char, rest: string)
    requires c != '@' && Reserved([c] + rest) == 0
    ensures SplitReserved([c] + rest) == Prefixed([c], SplitReserved(rest))
  {
    assert ([c] + rest)[1..] == rest;
  }

  /** An encoded byte is never a slash, because slashes are not encoded. */
  lemma SplitByte(b: byte, more: string)
    ensures SplitReserved(PercentByte(b) + more) == Prefixed(PercentByte(b), SplitReserved(more))
  {
    if Safe(b) {
      SkipChar(b as int as char, more);
    } else {
      SplitTriplet(HexDigit(b as int / 16), HexDigit(b as int % 16), more);
    }
  }

  lemma SplitTriplet(x: char, y: char, more: string)
    requires IsHex(x) && IsHex(y) && !(x == '2' && (y == 'F' || y == 'f'))
    ensures SplitReserved(['%', x, y] + more) == Prefixed(['%', x, y], SplitReserved(more))
  {
    var r, tail := SplitReserved(more), [x] + ([y] + more);
    SkipChar(y, more);
    SkipChar(x, [y] + more);
    assert (['%'] + tail)[1] == x && (['%'] + tail)[2] == y;
    SkipChar('%', tail);
    PrefixedTwice([x], [y], r);
    PrefixedTwice(['%'], [x] + [y], r);
    assert ['%'] + ([x] + [y]) == ['%', x, y];
    assert ['%'] + tail == ['%', x, y] + more;
  }

  /** Quoted text holds no separator, and none begins in it. */
  lemma {:induction false} SplitQuoted(bs: Bytes, rest: string)
    ensures SplitReserved(Percent(bs) + rest) == Prefixed(Percent(bs), SplitReserved(rest))
  {
    if bs == [] {
      assert "" + rest == rest;
      assert Prefixed("", SplitReserved(rest)) == SplitReserved(rest) by {
        assert "" + SplitReserved(rest)[0].0 == SplitReserved(rest)[0].0;
      }
    } else {
      assert Percent(bs) + rest == PercentByte(bs[0]) + (Percent(bs[1..]) + rest);
      SplitByte(bs[0], Percent(bs[1..]) + rest);
      SplitQuoted(bs[1..], rest);
      PrefixedTwice(PercentByte(bs[0]), Percent(bs[1..]), SplitReserved(rest));
    }
  }

  lemma SplitSeparator(sep: string, rest: string)
    requires Separator(sep)
    ensures SplitReserved(sep + rest) == [("", sep)] + SplitReserved(rest)
  {
    var s := sep + rest;
    assert s[..|sep|] == sep && s[|sep|..] == rest;
    assert Reserved(s) == |sep|;
  }

  lemma SplitPiece(bs: Bytes, sep: string, rest: string)
    requires Separator(sep)
    ensures SplitReserved(Percent(bs) + (sep + rest)) == [(Percent(bs), sep)] + SplitReserved(rest)
  {
    SplitSeparator(sep, rest);
    SplitQuoted(bs, sep + rest);
    var tail := SplitReserved(rest);
    var r := [("", sep)] + tail;
    assert r[1..] == tail && r[0] == ("", sep);
    assert Percent(bs) + "" == Percent(bs);
  }

  lemma SplitLast(bs: Bytes)
    ensures SplitReserved(Percent(bs)) == [(Percent(bs), "")]
  {
    SplitQuoted(bs, "");
    assert Percent(bs) + "" == Percent(bs);
  }

  lemma CleanPairsFirst(u: Decoder, pairs: seq<(string, string)>)
    requires pairs != []
    ensures CleanPairs(u, pairs) == [(CleanPart(u, pairs[0].0), Upper(pairs[0].1))] + CleanPairs(u, pairs[1..])
  {
  }

  /** Splitting a path joined from quoted pieces and separators gives them back. */
  lemma {:induction false} SplitJoined(u: Decoder, pairs: seq<(string, string)>)
    requires Listing(pairs) && forall i :: 0 <= i < |pairs| - 1 ==> Separator(Upper(pairs[i].1))
    ensures SplitReserved(Join(CleanPairs(u, pairs))) == CleanPairs(u, pairs)
  {
    var bs, sep, rest := Encode(Unquote(u, pairs[0].0)), Upper(pairs[0].1), CleanPairs(u, pairs[1..]);
    CleanPairsFirst(u, pairs);
    if |pairs| == 1 {
      assert sep == "" && rest == [];
      assert CleanPairs(u, pairs) == [(Percent(bs), "")];
      JoinOne(Percent(bs), "");
      SplitLast(bs);
    } else {
      JoinMore(Percent(bs), sep, rest);
      SplitJoined(u, pairs[1..]);
      SplitPiece(bs, sep, Join(rest));
    }
  }

  lemma JoinOne(piece: string, sep: string)
    ensures Join([(piece, sep)]) == piece + sep
    ensures sep == "" ==> Join([(piece, sep)]) == piece + "" == piece
  {
    assert [(piece, sep)][1..] == [];
  }

  lemma JoinMore(piece: string, sep: string, rest: seq<(string, string)>)
    ensures Join([(piece, sep)] + rest) == piece + (sep + Join(rest))
  {
    assert ([(piece, sep)] + rest)[1..] == rest;
  }

  /**
   Cleaning keeps the pieces and separators: the cleaned path splits into the
   cleaned pieces with the same separators in upper case, and no others.
   */
  lemma CleanKeepsSeparators(u: Decoder, path: string)
    ensures SplitReserved(Clean(u, path)) == CleanPairs(u, SplitReserved(path))
  {
    SplitIsListing(path);
    SplitJoined(u, SplitReserved(path));
  }

  lemma UpperIdempotent(s: string)
    ensures Upper(Upper(s)) == Upper(s)
  {
  }

  /** Cleaning twice is cleaning once. */
  lemma CleanIdempotent(u: Decoder, path: string)
    requires Utf8(u)
    ensures Clean(u, Clean(u, path)) == Clean(u, path)
  {
    CleanKeepsSeparators(u, path);
    var pairs := SplitReserved(path);
    var once := CleanPairs(u, pairs);
    var twice := CleanPairs(u, once);
    forall i | 0 <= i < |pairs| ensures twice[i] == once[i] {
      CleanPartIdempotent(u, pairs[i].0);
      UpperIdempotent(pairs[i].1);
    }
    assert twice == once;
  }

  /** Piece by piece the path stands for the same bytes exactly when they are well-formed UTF-8. */
  lemma CleanKeepsBytesExact(u: Decoder, path: string)
    requires Utf8(u)
    ensures var before, after := SplitReserved(path), SplitReserved(Clean(u, path));
            && |after| == |before|
            && ((forall i :: 0 <= i < |before| ==> PartBytes(after[i].0) == PartBytes(before[i].0))
                <==> forall i :: 0 <= i < |before| ==> WellFormedUtf8(PartBytes(before[i].0)))
  {
    CleanKeepsSeparators(u, path);
    var before := SplitReserved(path);
    forall i | 0 <= i < |before|
      ensures PartBytes(CleanPart(u, before[i].0)) == PartBytes(before[i].0) <==> WellFormedUtf8(PartBytes(before[i].0))
    {
      CleanPartKeepsBytes(u, before[i].0);
    }
  }

  lemma Regroup(a: string, b: string, c: string, d: string)
    ensures a + (b + (c + d)) == a + b + c + d
  {
  }

  /** `_clean_url_path` for a path that is not local. */
  method CleanUrlPath(u: Decoder, path: string) returns (r: string)
    ensures r == Clean(u, path)
  {
    var parts := SplitReserved(path);
    r := "";
    for i := 0 to |parts|
      invariant Clean(u, path) == r + Join(CleanPairs(u, parts[i..]))
    {
      var piece, sep, rest := CleanPart(u, parts[i].0), Upper(parts[i].1), CleanPairs(u, parts[i + 1..]);
      CleanPairsFirst(u, parts[i..]);
      assert parts[i..][1..] == parts[i + 1..];
      JoinMore(piece, sep, rest);
      Regroup(r, piece, sep, Join(rest));
      r := r + CleanPart(u, parts[i].0);
      r := r + Upper(parts[i].1);
    }
    assert CleanPairs(u, parts[|parts|..]) == [];
    assert r + "" == r;
  }

  lemma JoinPrefixed(p: string, r: seq<(string, string)>)
    requires r != []
    ensures Join(Prefixed(p, r)) == p + Join(r)
  {
    var piece, sep, rest := r[0].0, r[0].1, r[1..];
    JoinMore(p + piece, sep, rest);
    assert r == [(piece, sep)] + rest;
    JoinMore(piece, sep, rest);
    assert (p + piece) + (sep + Join(rest)) == p + (piece + (sep + Join(rest)));
  }

  /** Splitting a path loses nothing. */
  lemma {:induction false} JoinSplit(s: string)
    ensures Join(SplitReserved(s)) == s
    decreases |s|
  {
    if s == "" {
      JoinOne("", "");
    } else if Reserved(s) > 0 {
      var sep := s[..Reserved(s)];
      JoinMore("", sep, SplitReserved(s[Reserved(s)..]));
      JoinSplit(s[Reserved(s)..]);
    } else {
      JoinPrefixed([s[0]], SplitReserved(s[1..]));
      JoinSplit(s[1..]);
      assert s == [s[0]] + s[1..];
    }
  }

  predicate Clear(s: string) { forall i :: 0 <= i < |s| ==> Unreserved(s[i]) || s[i] in "/%" }

  lemma {:induction false} QuotedIsClear(bs: Bytes)
    ensures Clear(Percent(bs))
  {
    if bs == [] {
    } else {
      PercentByteMeans(bs[0]);
      QuotedIsClear(bs[1..]);
      assert forall n :: 0 <= n < 16 ==> Unreserved("0123456789ABCDEF"[n]);
    }
  }

  /** A cleaned piece consists of unreserved characters, slashes and encoded bytes. */
  lemma CleanPartIsClear(u: Decoder, part: string)
    ensures Clear(CleanPart(u, part))
  {
    QuotedIsClear(Encode(Unquote(u, part)));
  }

  /** No separator begins at this place. */
  predicate NoSeparatorAt(s: string, i: nat)
    requires i < |s|
  {
    s[i] != '@' && !(i + 2 < |s| && s[i] == '%' && s[i + 1] == '2' && (s[i + 2] == 'F' || s[i + 2] == 'f'))
  }

  predicate NoSeparatorIn(s: string) { forall i :: 0 <= i < |s| ==> NoSeparatorAt(s, i) }

  /** One more character in front of a piece makes no separator if none begins there. */
  lemma NoneInFront(c: char, piece: string, rest: string)
    requires NoSeparatorIn(piece) && piece <= rest && Reserved([c] + rest) == 0
    ensures NoSeparatorIn([c] + piece)
  {
    var s, all := [c] + piece, [c] + rest;
    forall i | 0 <= i < |s| ensures NoSeparatorAt(s, i) {
      if i == 0 {
        assert forall j :: 0 <= j < |s| ==> s[j] == all[j];
      } else {
        assert NoSeparatorAt(piece, i - 1);
      }
    }
  }

  lemma {:induction false} FirstPieceIsPrefix(s: string)
    ensures SplitReserved(s)[0].0 <= s
    decreases |s|
  {
    if s == "" || Reserved(s) > 0 {
    } else {
      FirstPieceIsPrefix(s[1..]);
    }
  }

  lemma {:induction false} PiecesHaveNoSeparator(s: string, i: nat)
    requires i < |SplitReserved(s)|
    ensures NoSeparatorIn(SplitReserved(s)[i].0)
    decreases |s|
  {
    if s == "" {
    } else if Reserved(s) > 0 {
      if i > 0 { PiecesHaveNoSeparator(s[Reserved(s)..], i - 1); }
    } else {
      PiecesHaveNoSeparator(s[1..], i);
      if i == 0 {
        FirstPieceIsPrefix(s[1..]);
        assert s == [s[0]] + s[1..];
        NoneInFront(s[0], SplitReserved(s[1..])[0].0, s[1..]);
      }
    }
  }

  lemma {:induction false} SeparatorsAre(s: string, i: nat)
    requires i < |SplitReserved(s)|
    ensures var sep := SplitReserved(s)[i].1;
            if i == |SplitReserved(s)| - 1 then sep == "" else sep == "@" || sep == "%2F" || sep == "%2f"
    decreases |s|
  {
    if s == "" {
    } else if Reserved(s) > 0 {
      if i > 0 {
        SeparatorsAre(s[Reserved(s)..], i - 1);
      } else if Reserved(s) == 1 {
        assert s[..1] == "@";
      } else {
        assert s[..3] == ['%', '2', s[2]];
      }
    } else {
      SeparatorsAre(s[1..], i);
    }
  }

  /** A path is split at every `@` and every encoded slash in either case, and nowhere else. */
  lemma SplitExact(s: string)
    ensures var r := SplitReserved(s);
            && r[|r| - 1].1 == ""
            && (forall i :: 0 <= i < |r| - 1 ==> r[i].1 == "@" || r[i].1 == "%2F" || r[i].1 == "%2f")
            && (forall i :: 0 <= i < |r| ==> NoSeparatorIn(r[i].0))
  {
    var r := SplitReserved(s);
    forall i | 0 <= i < |r| ensures NoSeparatorIn(r[i].0) { PiecesHaveNoSeparator(s, i); }
    forall i | 0 <= i < |r| - 1 ensures r[i].1 == "@" || r[i].1 == "%2F" || r[i].1 == "%2f" { SeparatorsAre(s, i); }
    SeparatorsAre(s, |r| - 1);
  }

  predicate SafeText(s: string) {
    forall i :: 0 <= i < |s| ==> Ascii(s[i]) && Safe(s[i] as int as byte)
  }

  lemma {:induction false} SafeBytes(s: string)
    requires SafeText(s)
    ensures Unpercent(s) == Encode(s) && Percent(Encode(s)) == s
  {
    if s == "" {
    } else {
      assert Ascii(s[0]) && Safe(s[0] as int as byte);
      SafeBytes(s[1..]);
      assert s == [s[0]] + s[1..];
    }
  }

  /** A piece that needs no quoting is left alone. */
  lemma SafePartStays(u: Decoder, part: string)
    requires Utf8(u) && SafeText(part)
    ensures CleanPart(u, part) == part
  {
    SafeBytes(part);
    UnquoteQuote(u, part);
  }
}
