/**
 * `encodeURIComponent`: every character outside the unreserved set
 * A-Z a-z 0-9 - _ . ! ~ * ' ( ) is written as its UTF-8 bytes, each as `%`
 * and two upper-case hexadecimal digits.
 *
 * `PercentDecode` undoes it; the round trip proves the encoding injective,
 * which is what makes the YouTube search URL determine the query.
 */
module UriComponent {
  import opened JsText

  predicate IsUnreserved(c: char) {
    ('A' <= c <= 'Z') || ('a' <= c <= 'z') || ('0' <= c <= '9')
    || c == '-' || c == '_' || c == '.' || c == '!' || c == '~' || c == '*'
    || c == '\'' || c == '(' || c == ')'
  }

  predicate IsUpperHexDigit(c: char) {
    ('0' <= c <= '9') || ('A' <= c <= 'F')
  }

  function HexDigit(n: nat): (c: char)
    requires n < 16
    ensures IsUpperHexDigit(c)
  {
    if n < 10 then ('0' as int + n) as char else ('A' as int + n - 10) as char
  }

  /** Value of a hexadecimal digit of either case. */
  function HexValue(c: char): Option<nat> {
    if '0' <= c <= '9' then Some(c as int - '0' as int)
    else if 'A' <= c <= 'F' then Some(c as int - 'A' as int + 10)
    else if 'a' <= c <= 'f' then Some(c as int - 'a' as int + 10)
    else None
  }

  /** `%` and the two hexadecimal digits of one byte. */
  function Triple(b: nat): (r: string)
    requires b < 256
    ensures |r| == 3 && r[0] == '%' && IsUpperHexDigit(r[1]) && IsUpperHexDigit(r[2])
  {
    ['%', HexDigit(b / 16), HexDigit(b % 16)]
  }

  /** Reads one `%XX` at the start of `s`. */
  function ParseByte(s: string): Option<nat> {
    if |s| < 3 || s[0] != '%' then None
    else match (HexValue(s[1]), HexValue(s[2]))
      case (Some(h), Some(l)) => Some(16 * h + l)
      case _ => None
  }

  lemma ParseTriple(b: nat, rest: string)
    requires b < 256
    ensures ParseByte(Triple(b) + rest) == Some(b)
  {
    var s := Triple(b) + rest;
    assert s[0] == '%' && s[1] == HexDigit(b / 16) && s[2] == HexDigit(b % 16);
  }

  /**
   * The UTF-8 encoding of code point `cp` >= 0x80: the lead byte and the
   * six-bit payloads of the continuation bytes, most significant first.
   */
  function Utf8Lead(cp: int): (b: nat)
    requires 0x80 <= cp < 0x11_0000
    ensures 0xC0 <= b < 0xF8
  {
    if cp < 0x800 then 0xC0 + cp / 64
    else if cp < 0x10000 then 0xE0 + cp / 64 / 64
    else 0xF0 + cp / 64 / 64 / 64
  }

  function Utf8Tail(cp: int): (ds: seq<nat>)
    requires 0x80 <= cp < 0x11_0000
    ensures forall k :: 0 <= k < |ds| ==> ds[k] < 64
  {
    if cp < 0x800 then [cp % 64]
    else if cp < 0x10000 then [cp / 64 % 64, cp % 64]
    else [cp / 64 / 64 % 64, cp / 64 % 64, cp % 64]
  }

  /** Continuation bytes `%XX`, XX = 0x80 + payload. */
  function Continuations(ds: seq<nat>): (r: string)
    requires forall k :: 0 <= k < |ds| ==> ds[k] < 64
    ensures |r| == 3 * |ds|
    ensures forall k :: 0 <= k < |r| ==> r[k] == '%' || IsUpperHexDigit(r[k])
  {
    if ds == [] then [] else Triple(0x80 + ds[0]) + Continuations(ds[1..])
  }

  /** The percent-escaped encoding of one character. */
  function EncodeChar(c: char): (r: string)
    ensures |r| > 0
    ensures forall k :: 0 <= k < |r| ==> IsUnreserved(r[k]) || r[k] == '%' || IsUpperHexDigit(r[k])
  {
    if IsUnreserved(c) then [c]
    else if c as int < 0x80 then Triple(c as int)
    else Triple(Utf8Lead(c as int)) + Continuations(Utf8Tail(c as int))
  }

  /** `encodeURIComponent(s)`; the output uses only unreserved characters, `%` and hexadecimal digits. */
  function EncodeURIComponent(s: string): (r: string)
    ensures forall k :: 0 <= k < |r| ==> IsUnreserved(r[k]) || r[k] == '%' || IsUpperHexDigit(r[k])
    ensures |r| >= |s|
  {
    if s == [] then [] else EncodeChar(s[0]) + EncodeURIComponent(s[1..])
  }

  /** A continuation byte `%XX` with 0x80 <= XX < 0xC0; yields its six payload bits. */
  function ContinuationBits(s: string): Option<nat> {
    match ParseByte(s)
    case Some(b) => if 0x80 <= b < 0xC0 then Some(b - 0x80) else None
    case None => None
  }

  function ToChar(cp: int, len: nat): Option<(char, nat)> {
    if 0 <= cp < 0xD800 || 0xE000 <= cp < 0x11_0000 then Some((cp as char, len)) else None
  }

  /**
   * Reads `n` continuation bytes from `t`, shifting each payload into `acc`;
   * `used` counts the characters consumed so far.
   */
  function Continue(t: string, n: nat, acc: int, used: nat): (r: Option<(char, nat)>)
    ensures r.Some? ==> r.value.1 == used + 3 * n && 3 * n <= |t|
  {
    if n == 0 then ToChar(acc, used)
    else match ContinuationBits(t)
      case Some(x) => Continue(t[3..], n - 1, acc * 64 + x, used + 3)
      case None => None
  }

  /** Decodes the first character of `s`, with the number of characters of `s` it used. */
  function DecodeOne(s: string): (r: Option<(char, nat)>)
    requires s != []
    ensures r.Some? ==> 0 < r.value.1 <= |s|
  {
    if s[0] != '%' then Some((s[0], 1))
    else match ParseByte(s)
      case None => None
      case Some(b0) =>
        if b0 < 0x80 then ToChar(b0, 3)
        else if 0xC0 <= b0 < 0xE0 then Continue(s[3..], 1, b0 - 0xC0, 3)
        else if 0xE0 <= b0 < 0xF0 then Continue(s[3..], 2, b0 - 0xE0, 3)
        else if 0xF0 <= b0 < 0xF8 then Continue(s[3..], 3, b0 - 0xF0, 3)
        else None
  }

  /** Inverse of `EncodeURIComponent` (in the manner of `decodeURIComponent`). */
  function PercentDecode(s: string): Option<string>
    decreases |s|
  {
    if s == [] then Some([])
    else match DecodeOne(s)
      case None => None
      case Some((c, n)) =>
        match PercentDecode(s[n..])
        case None => None
        case Some(rest) => Some([c] + rest)
  }

  /** Shifting six-bit payloads into an accumulator. */
  function Shift(acc: int, ds: seq<nat>): int
    decreases ds
  {
    if ds == [] then acc else Shift(acc * 64 + ds[0], ds[1..])
  }

  lemma {:induction false} ContinueReads(ds: seq<nat>, acc: int, used: nat, rest: string)
    requires forall k :: 0 <= k < |ds| ==> ds[k] < 64
    ensures Continue(Continuations(ds) + rest, |ds|, acc, used) == ToChar(Shift(acc, ds), used + 3 * |ds|)
  {
    if ds != [] {
      var t := Continuations(ds) + rest;
      assert t == Triple(0x80 + ds[0]) + (Continuations(ds[1..]) + rest);
      ParseTriple(0x80 + ds[0], Continuations(ds[1..]) + rest);
      assert t[3..] == Continuations(ds[1..]) + rest;
      ContinueReads(ds[1..], acc * 64 + ds[0], used + 3, rest);
    }
  }

  /** The lead byte's payload followed by the continuation payloads spell the code point. */
  lemma Utf8Payload(cp: int)
    requires 0x80 <= cp < 0x11_0000
    ensures var lead := Utf8Lead(cp);
      |Utf8Tail(cp)| == (if lead < 0xE0 then 1 else if lead < 0xF0 then 2 else 3)
      && Shift(lead - (if lead < 0xE0 then 0xC0 else if lead < 0xF0 then 0xE0 else 0xF0), Utf8Tail(cp)) == cp
  {
    var q := cp / 64;
    var q2 := q / 64;
    assert q * 64 + cp % 64 == cp;
    assert q2 * 64 + q % 64 == q;
    assert q2 / 64 * 64 + q2 % 64 == q2;
    if cp < 0x800 {
      assert Shift(q, [cp % 64]) == Shift(q * 64 + cp % 64, []);
    } else if cp < 0x10000 {
      assert Shift(q2, [q % 64, cp % 64]) == Shift(q, [cp % 64]);
      assert Shift(q, [cp % 64]) == Shift(cp, []);
    } else {
      assert Shift(q2 / 64, [q2 % 64, q % 64, cp % 64]) == Shift(q2, [q % 64, cp % 64]);
      assert Shift(q2, [q % 64, cp % 64]) == Shift(q, [cp % 64]);
      assert Shift(q, [cp % 64]) == Shift(cp, []);
    }
  }

  lemma DecodeEncodedChar(c: char, rest: string)
    ensures DecodeOne(EncodeChar(c) + rest) == Some((c, |EncodeChar(c)|))
  {
    var cp := c as int;
    if IsUnreserved(c) {
      assert (EncodeChar(c) + rest)[0] == c;
    } else if cp < 0x80 {
      ParseTriple(cp, rest);
    } else {
      var lead, tail := Utf8Lead(cp), Utf8Tail(cp);
      var s := EncodeChar(c) + rest;
      assert s == Triple(lead) + (Continuations(tail) + rest);
      ParseTriple(lead, Continuations(tail) + rest);
      assert s[3..] == Continuations(tail) + rest;
      Utf8Payload(cp);
      ContinueReads(tail, lead - (if lead < 0xE0 then 0xC0 else if lead < 0xF0 then 0xE0 else 0xF0), 3, rest);
    }
  }

  /** Decoding inverts encoding. */
  lemma {:induction false} DecodeEncode(s: string)
    ensures PercentDecode(EncodeURIComponent(s)) == Some(s)
    decreases |s|
  {
    if s != [] {
      var e := EncodeChar(s[0]);
      var tail := EncodeURIComponent(s[1..]);
      DecodeEncodedChar(s[0], tail);
      assert (e + tail)[|e|..] == tail;
      DecodeEncode(s[1..]);
      assert [s[0]] + s[1..] == s;
    }
  }

  /** Distinct texts encode differently. */
  lemma EncodeInjective(a: string, b: string)
    requires EncodeURIComponent(a) == EncodeURIComponent(b)
    ensures a == b
  {
    DecodeEncode(a);
    DecodeEncode(b);
  }

  /** Encoding works character by character. */
  lemma {:induction false} EncodeConcat(a: string, b: string)
    ensures EncodeURIComponent(a + b) == EncodeURIComponent(a) + EncodeURIComponent(b)
    decreases |a|
  {
    if a == [] {
      assert a + b == b;
    } else {
      assert (a + b)[0] == a[0] && (a + b)[1..] == a[1..] + b;
      EncodeConcat(a[1..], b);
    }
  }

  /** Text made of unreserved characters is left as it is. */
  lemma {:induction false} EncodeUnreserved(s: string)
    requires forall k :: 0 <= k < |s| ==> IsUnreserved(s[k])
    ensures EncodeURIComponent(s) == s
    decreases |s|
  {
    if s != [] {
      EncodeUnreserved(s[1..]);
      assert [s[0]] + s[1..] == s;
    }
  }

  /** A space is written as `%20`. */
  lemma EncodeSpace()
    ensures EncodeURIComponent(" ") == "%20"
  {
    assert " "[1..] == [];
    assert EncodeChar(' ') == Triple(0x20);
  }
}
