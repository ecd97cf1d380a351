/**
 * Decoding of the object key carried by a storage notification.
 *
 * Both ingestion and deletion turn the raw key into the stored image name
 * with `decodeURIComponent(key.replace(/\+/g, " "))`: every '+' becomes a
 * space first, then percent escapes are decoded.  The decoder follows
 * decodeURIComponent (section 19.2.6.2 of ECMA-262) and the Decode
 * operation it uses: an escape below 0x80 is one character; a higher
 * escape opens a UTF-8 sequence whose length its leading one-bits give,
 * continued by escapes of the form 10xxxxxx, and the
 * sequence must encode one Unicode scalar value in its shortest form.
 * Anything else is a URIError, modelled as `None`.
 *
 * The partner of the decoder is `EncodeKey`, the way a notification writes
 * a key: a space as '+', the unreserved characters of section 2.3 of
 * RFC 3986 as themselves, everything else as percent-encoded UTF-8 bytes.
 */
module ObjectKey {
  import opened Wrappers

  /** `key.replace(/\+/g, " ")`. */
  function ReplacePlus(s: string): (r: string)
    ensures |r| == |s| && '+' !in r
    ensures '+' !in s ==> r == s
    ensures forall i :: 0 <= i < |s| && s[i] != '+' ==> r[i] == s[i]
    ensures forall i :: 0 <= i < |s| && s[i] == '+' ==> r[i] == ' '
  {
    seq(|s|, i requires 0 <= i < |s| => if s[i] == '+' then ' ' else s[i])
  }

  lemma ReplacePlusConcat(a: string, b: string)
    ensures ReplacePlus(a + b) == ReplacePlus(a) + ReplacePlus(b)
  {
    assert forall i :: 0 <= i < |a + b| ==> ReplacePlus(a + b)[i] == (ReplacePlus(a) + ReplacePlus(b))[i];
  }

  // ---------------------------------------------------------------- escapes

  predicate IsHexDigit(c: char) {
    '0' <= c <= '9' || 'a' <= c <= 'f' || 'A' <= c <= 'F'
  }

  function HexValue(c: char): (v: nat)
    requires IsHexDigit(c)
    ensures v < 16
  {
    if c <= '9' then c as int - '0' as int
    else if c <= 'F' then c as int - 'A' as int + 10
    else c as int - 'a' as int + 10
  }

  /** The upper-case hexadecimal digit of a value below 16. */
  function HexDigit(v: nat): (c: char)
    requires v < 16
    ensures IsHexDigit(c) && HexValue(c) == v
  {
    if v < 10 then (48 + v) as char else (55 + v) as char
  }

  /** The byte written by an escape `%XY` at position k of s, if one is there. */
  function EscapeAt(s: string, k: nat): (b: Option<nat>)
    ensures b.Some? ==> k + 3 <= |s| && s[k] == '%' && b.value < 256
    ensures b.Some? <==> k + 3 <= |s| && s[k] == '%' && IsHexDigit(s[k + 1]) && IsHexDigit(s[k + 2])
  {
    if k + 3 <= |s| && s[k] == '%' && IsHexDigit(s[k + 1]) && IsHexDigit(s[k + 2]) then
      Some(16 * HexValue(s[k + 1]) + HexValue(s[k + 2]))
    else
      None
  }

  // ------------------------------------------------------------------ UTF-8

  /**
   * The length of the UTF-8 sequence a byte opens, that is its number of
   * leading one-bits, or 1 for a byte below 0x80; 0 when the byte cannot
   * open a sequence (a continuation byte or five or more leading ones).
   */
  function SequenceLength(b: nat): (n: nat)
    ensures n <= 4
  {
    if b < 0x80 then 1
    else if b < 0xC0 then 0
    else if b < 0xE0 then 2
    else if b < 0xF0 then 3
    else if b < 0xF8 then 4
    else 0
  }

  predicate IsContinuation(b: nat) {
    0x80 <= b < 0xC0
  }

  /** The `count` continuation bytes escaped at positions 3m, 3(m+1), ... of s. */
  function Continuations(s: string, m: nat, count: nat): (r: Option<seq<nat>>)
    ensures r.Some? ==> |r.value| == count && forall b <- r.value :: IsContinuation(b)
    ensures r.Some? && count > 0 ==> 3 * (m + count) <= |s|
    decreases count
  {
    if count == 0 then Some([])
    else match EscapeAt(s, 3 * m)
      case None => None
      case Some(b) =>
        if !IsContinuation(b) then None
        else match Continuations(s, m + 1, count - 1)
          case None => None
          case Some(rest) => Some([b] + rest)
  }

  /**
   * The character a multi-byte UTF-8 sequence encodes: the payload bits of
   * the lead byte and its continuations, accepted only when the value needs
   * that many bytes (no overlong form), is not a surrogate and is at most
   * 0x10FFFF.
   */
  function ScalarOf(lead: nat, cont: seq<nat>): (r: Option<char>)
    requires 2 <= SequenceLength(lead) == |cont| + 1
    requires forall b <- cont :: IsContinuation(b)
    ensures r.Some? ==> r.value as int >= 0x80
  {
    var n := |cont| + 1;
    var cp: int :=
      if n == 2 then (lead - 0xC0) * 64 + (cont[0] as int - 0x80)
      else if n == 3 then (lead - 0xE0) * 4096 + (cont[0] as int - 0x80) * 64 + (cont[1] as int - 0x80)
      else (lead - 0xF0) * 262144 + (cont[0] as int - 0x80) * 4096 + (cont[1] as int - 0x80) * 64 + (cont[2] as int - 0x80);
    var least := if n == 2 then 0x80 else if n == 3 then 0x800 else 0x10000;
    if least <= cp <= 0x10FFFF && !(0xD800 <= cp < 0xE000) then Some(cp as char) else None
  }

  /**
   * Decodes the group of escapes at the start of s, which starts with '%':
   * the character it stands for and how many characters of s it takes.
   */
  function DecodeGroup(s: string): (r: Option<(char, nat)>)
    requires |s| > 0 && s[0] == '%'
    ensures r.Some? ==> 3 <= r.value.1 <= |s|
  {
    match EscapeAt(s, 0)
    case None => None
    case Some(lead) =>
      var n := SequenceLength(lead);
      if n == 0 then None
      else if n == 1 then Some((lead as char, 3))
      else match Continuations(s, 1, n - 1)
        case None => None
        case Some(cont) =>
          match ScalarOf(lead, cont)
          case None => None
          case Some(c) => Some((c, 3 * n))
  }

  function Cons(c: char, r: Option<string>): Option<string> {
    if r.Some? then Some([c] + r.value) else None
  }

  function Prefixed(p: string, r: Option<string>): Option<string> {
    if r.Some? then Some(p + r.value) else None
  }

  /** `decodeURIComponent`; `None` is the URIError it throws. */
  function PercentDecode(s: string): (r: Option<string>)
    ensures r.Some? ==> |r.value| <= |s|
    decreases |s|
  {
    if s == [] then Some([])
    else if s[0] != '%' then Cons(s[0], PercentDecode(s[1..]))
    else match DecodeGroup(s)
      case None => None
      case Some((c, used)) => Cons(c, PercentDecode(s[used..]))
  }

  /** The stored image name for a raw notification key (processImage.ts:32, processDelete.ts:25). */
  function DecodeKey(raw: string): (r: Option<string>)
    ensures '%' !in raw ==> r == Some(ReplacePlus(raw))
  {
    var spaced := ReplacePlus(raw);
    // Both branches decode `spaced`; the second only proves the no-'%' case.
    if '%' in raw then PercentDecode(spaced)
    else
      assert forall k :: 0 <= k < |spaced| ==> spaced[k] != '%' by {
        assert forall k :: 0 <= k < |raw| ==> raw[k] != '%';
      }
      LiteralPrefix(spaced, []);
      assert spaced + [] == spaced;
      PercentDecode(spaced)
  }

  // ---------------------------------------------------------- error cases

  /** A '%' not followed by two hexadecimal digits is a URIError. */
  lemma BrokenEscapeFails(s: string)
    requires |s| > 0 && s[0] == '%'
    requires |s| < 3 || !IsHexDigit(s[1]) || !IsHexDigit(s[2])
    ensures PercentDecode(s) == None
  {
  }

  lemma LiteralFront(c: char, s: string)
    requires c != '%'
    ensures PercentDecode([c] + s) == Cons(c, PercentDecode(s))
  {
    assert ([c] + s)[1..] == s;
  }

  /** An escape below 0x80 at the front decodes to that character alone. */
  lemma AsciiEscapeFront(hi: char, lo: char, rest: string)
    requires IsHexDigit(hi) && IsHexDigit(lo) && 16 * HexValue(hi) + HexValue(lo) < 0x80
    ensures PercentDecode(['%', hi, lo] + rest) == Cons((16 * HexValue(hi) + HexValue(lo)) as char, PercentDecode(rest))
  {
    var s := ['%', hi, lo] + rest;
    assert s[0] == '%' && s[1] == hi && s[2] == lo && s[3..] == rest;
  }

  /** One escape below 0x80 between unescaped text decodes to its character. */
  lemma EscapeBetweenLiterals(p: string, hi: char, lo: char, q: string)
    requires forall k :: 0 <= k < |p| ==> p[k] != '%'
    requires forall k :: 0 <= k < |q| ==> q[k] != '%'
    requires IsHexDigit(hi) && IsHexDigit(lo) && 16 * HexValue(hi) + HexValue(lo) < 0x80
    ensures PercentDecode(p + (['%', hi, lo] + q)) == Some(p + ([(16 * HexValue(hi) + HexValue(lo)) as char] + q))
  {
    AsciiEscapeFront(hi, lo, q);
    Unescaped(q);
    LiteralPrefix(p, ['%', hi, lo] + q);
  }

  lemma Unescaped(p: string)
    requires forall k :: 0 <= k < |p| ==> p[k] != '%'
    ensures PercentDecode(p) == Some(p)
  {
    LiteralPrefix(p, []);
    assert p + [] == p;
  }

  /** A prefix with no escapes in it is copied unchanged, and a failure behind it stays a failure. */
  lemma {:induction false} LiteralPrefix(p: string, s: string)
    requires forall k :: 0 <= k < |p| ==> p[k] != '%'
    ensures PercentDecode(p + s) == Prefixed(p, PercentDecode(s))
    decreases |p|
  {
    if p == [] {
      assert p + s == s;
      if PercentDecode(s).Some? {
        assert p + PercentDecode(s).value == PercentDecode(s).value;
      }
    } else {
      var c, rest := p[0], p[1..];
      assert p + s == [c] + (rest + s);
      LiteralFront(c, rest + s);
      LiteralPrefix(rest, s);
      if PercentDecode(s).Some? {
        assert [c] + (rest + PercentDecode(s).value) == p + PercentDecode(s).value;
      }
    }
  }

  /**
   * An escape that opens an n-byte UTF-8 sequence must be followed by n - 1
   * escapes of continuation bytes (10xxxxxx): when one of them is missing or
   * is not a continuation byte, the decode is a URIError.
   */
  lemma MissingContinuationFails(s: string)
    requires |s| > 0 && s[0] == '%'
    requires EscapeAt(s, 0).Some? && SequenceLength(EscapeAt(s, 0).value) >= 2
    requires Continuations(s, 1, SequenceLength(EscapeAt(s, 0).value) - 1).None?
    ensures PercentDecode(s) == None
  {
  }

  /** "my+photo%20v2.png" names the object "my photo v2.png". */
  lemma PlusIsSpaceExample()
    ensures DecodeKey("my+photo" + "%20" + "v2.png") == Some("my photo" + " " + "v2.png")
  {
    var p, q := "my+photo", "v2.png";
    assert ReplacePlus(p) == "my photo" by {
      assert forall k :: 0 <= k < |p| ==> ReplacePlus(p)[k] == "my photo"[k];
    }
    assert ReplacePlus(q) == q;
    EscapeInKey(p, '2', '0', q);
    assert p + "%20" + q == p + (['%', '2', '0'] + q);
    assert "my photo" + " " + q == "my photo" + ([' '] + q);
  }

  /**
   * Around one escape below 0x80, a key decodes as its '+'s turned into
   * spaces and the escape turned into its character, in that order: an
   * escaped "%2B" is a '+' that stays a '+'.
   */
  lemma EscapeInKey(p: string, hi: char, lo: char, q: string)
    requires '%' !in p && '%' !in q
    requires IsHexDigit(hi) && IsHexDigit(lo) && 16 * HexValue(hi) + HexValue(lo) < 0x80
    ensures DecodeKey(p + (['%', hi, lo] + q)) ==
      Some(ReplacePlus(p) + ([(16 * HexValue(hi) + HexValue(lo)) as char] + ReplacePlus(q)))
  {
    var e := ['%', hi, lo];
    var raw := p + (e + q);
    assert raw[|p|] == '%';
    assert ReplacePlus(raw) == ReplacePlus(p) + (e + ReplacePlus(q)) by {
      ReplacePlusConcat(p, e + q);
      ReplacePlusConcat(e, q);
      assert ReplacePlus(e) == e;
    }
    var sp, sq := ReplacePlus(p), ReplacePlus(q);
    assert forall k :: 0 <= k < |sp| ==> sp[k] != '%';
    assert forall k :: 0 <= k < |sq| ==> sq[k] != '%';
    EscapeBetweenLiterals(sp, hi, lo, sq);
  }

  lemma EscapedPlusKept(p: string, q: string)
    requires '%' !in p && '%' !in q
    ensures DecodeKey(p + "%2B" + q) == Some(ReplacePlus(p) + "+" + ReplacePlus(q))
  {
    EscapeInKey(p, '2', 'B', q);
    assert p + "%2B" + q == p + (['%', '2', 'B'] + q);
    assert ReplacePlus(p) + "+" + ReplacePlus(q) == ReplacePlus(p) + (['+'] + ReplacePlus(q));
  }

  lemma MalformedEscapeExample()
    ensures DecodeKey("bad%ZZ.png") == None
  {
    var raw := "bad%ZZ.png";
    assert ReplacePlus(raw) == raw by {
      assert forall k :: 0 <= k < |raw| ==> raw[k] != '+';
    }
    BrokenEscapeFails("%ZZ.png");
    LiteralPrefix("bad", "%ZZ.png");
    assert "bad" + "%ZZ.png" == raw;
  }

  lemma TruncatedSequenceExample()
    ensures DecodeKey("half%C3.png") == None
  {
    var raw := "half%C3.png";
    assert ReplacePlus(raw) == raw by {
      assert forall k :: 0 <= k < |raw| ==> raw[k] != '+';
    }
    assert EscapeAt("%C3.png", 0) == Some(0xC3);
    MissingContinuationFails("%C3.png");
    LiteralPrefix("half", "%C3.png");
    assert "half" + "%C3.png" == raw;
  }

  /** "%C3%41": the byte after the lead byte 0xC3 is 0x41, not a continuation byte. */
  lemma NonContinuationExample()
    ensures PercentDecode("%C3" + "%41") == None
  {
    var s := "%C3" + "%41";
    assert EscapeAt(s, 0) == Some(0xC3);
    assert EscapeAt(s, 3) == Some(0x41);
    MissingContinuationFails(s);
  }

  // ---------------------------------------------------------- the encoder

  /** The unreserved characters of section 2.3 of RFC 3986. */
  predicate IsUnreserved(c: char) {
    'A' <= c <= 'Z' || 'a' <= c <= 'z' || '0' <= c <= '9' || c == '-' || c == '.' || c == '_' || c == '~'
  }

  predicate IsByteString(bs: seq<nat>) {
    forall k :: 0 <= k < |bs| ==> bs[k] < 256
  }

  /** The UTF-8 encoding of a character (section 3 of RFC 3629). */
  function Utf8Bytes(c: char): (bs: seq<nat>)
    ensures 1 <= |bs| <= 4 && IsByteString(bs)
  {
    var cp := c as int;
    if cp < 0x80 then [cp]
    else if cp < 0x800 then [0xC0 + cp / 64, 0x80 + cp % 64]
    else if cp < 0x10000 then [0xE0 + cp / 64 / 64, 0x80 + cp / 64 % 64, 0x80 + cp % 64]
    else [0xF0 + cp / 64 / 64 / 64, 0x80 + cp / 64 / 64 % 64, 0x80 + cp / 64 % 64, 0x80 + cp % 64]
  }

  function Escape(b: nat): (e: string)
    requires b < 256
    ensures |e| == 3
  {
    ['%', HexDigit(b / 16), HexDigit(b % 16)]
  }

  function Escapes(bs: seq<nat>): (e: string)
    requires IsByteString(bs)
    ensures |e| == 3 * |bs|
    ensures forall k :: 0 <= k < |e| ==> e[k] == '%' || IsHexDigit(e[k])
  {
    if bs == [] then [] else Escape(bs[0]) + Escapes(bs[1..])
  }

  function EncodeChar(c: char): (e: string)
    ensures |e| > 0
  {
    if c == ' ' then "+" else if IsUnreserved(c) then [c] else Escapes(Utf8Bytes(c))
  }

  /** A key as a notification writes it. */
  function EncodeKey(k: string): (e: string)
    ensures ' ' !in e
  {
    if k == [] then [] else EncodeChar(k[0]) + EncodeKey(k[1..])
  }

  // ------------------------------------------------------ the round trip

  lemma EscapeAtShift(x: string, y: string, k: nat)
    ensures EscapeAt(x + y, |x| + k) == EscapeAt(y, k)
  {
    if |x| + k + 3 <= |x + y| {
      assert (x + y)[|x| + k] == y[k];
      assert (x + y)[|x| + k + 1] == y[k + 1];
      assert (x + y)[|x| + k + 2] == y[k + 2];
    }
  }

  /** The m-th escape of an escaped byte string reads back as the m-th byte. */
  lemma {:induction false} EscapesReadBack(bs: seq<nat>, tail: string, m: nat)
    requires IsByteString(bs)
    requires m < |bs|
    ensures EscapeAt(Escapes(bs) + tail, 3 * m) == Some(bs[m])
    decreases m
  {
    var e := Escape(bs[0]);
    assert Escapes(bs) + tail == e + (Escapes(bs[1..]) + tail);
    if m == 0 {
      var s := e + (Escapes(bs[1..]) + tail);
      assert s[0] == '%' && s[1] == HexDigit(bs[0] / 16) && s[2] == HexDigit(bs[0] % 16);
    } else {
      EscapesReadBack(bs[1..], tail, m - 1);
      EscapeAtShift(e, Escapes(bs[1..]) + tail, 3 * (m - 1));
    }
  }

  lemma {:induction false} ContinuationsReadBack(bs: seq<nat>, tail: string, m: nat)
    requires IsByteString(bs)
    requires 1 <= m <= |bs|
    requires forall k :: m <= k < |bs| ==> IsContinuation(bs[k])
    ensures Continuations(Escapes(bs) + tail, m, |bs| - m) == Some(bs[m..])
    decreases |bs| - m
  {
    if m < |bs| {
      EscapesReadBack(bs, tail, m);
      ContinuationsReadBack(bs, tail, m + 1);
      assert bs[m..] == [bs[m]] + bs[m + 1..];
    } else {
      assert bs[m..] == [];
    }
  }

  /** The arithmetic of UTF-8: the bytes of a character decode back to it. */
  lemma Utf8ReadBack(c: char)
    ensures var bs := Utf8Bytes(c);
      SequenceLength(bs[0]) == |bs|
      && (forall k :: 1 <= k < |bs| ==> IsContinuation(bs[k]))
      && (|bs| == 1 ==> bs[0] == c as int)
      && (|bs| > 1 ==> ScalarOf(bs[0], bs[1..]) == Some(c))
  {
    var cp := c as int;
    var q1, r1 := cp / 64, cp % 64;
    var q2, r2 := q1 / 64, q1 % 64;
    var q3, r3 := q2 / 64, q2 % 64;
    assert cp == 64 * q1 + r1 && q1 == 64 * q2 + r2 && q2 == 64 * q3 + r3;
    if 0x10000 <= cp {
      assert q3 <= 4;
    }
  }

  /** An escaped character is decoded back from the front of any string. */
  lemma GroupReadBack(c: char, tail: string)
    requires c != ' ' && !IsUnreserved(c)
    ensures var e := EncodeChar(c);
      |e| > 0 && (e + tail)[0] == '%' && DecodeGroup(e + tail) == Some((c, |e|))
  {
    var bs := Utf8Bytes(c);
    var s := Escapes(bs) + tail;
    Utf8ReadBack(c);
    EscapesReadBack(bs, tail, 0);
    assert s[0] == '%';
    if |bs| > 1 {
      ContinuationsReadBack(bs, tail, 1);
    }
  }

  lemma EncodeCharUnplussed(c: char)
    ensures ReplacePlus(EncodeChar(c)) == if c == ' ' then " " else EncodeChar(c)
  {
  }

  /** A group of escapes at the front decodes to its character, followed by the rest. */
  lemma GroupFront(u: string, v: string, c: char)
    requires |u| > 0 && (u + v)[0] == '%' && DecodeGroup(u + v) == Some((c, |u|))
    ensures PercentDecode(u + v) == Cons(c, PercentDecode(v))
  {
    assert (u + v)[|u|..] == v;
  }

  /** `DecodeKey` is percent-decoding after the '+' replacement, whether or not a '%' occurs. */
  lemma DecodeKeyUnfolds(raw: string)
    ensures DecodeKey(raw) == PercentDecode(ReplacePlus(raw))
  {
  }

  lemma {:induction false} DecodeSpaced(k: string)
    ensures PercentDecode(ReplacePlus(EncodeKey(k))) == Some(k)
    decreases |k|
  {
    if k != [] {
      var c, rest := k[0], k[1..];
      var u := ReplacePlus(EncodeChar(c));
      var v := ReplacePlus(EncodeKey(rest));
      assert ReplacePlus(EncodeKey(k)) == u + v by {
        ReplacePlusConcat(EncodeChar(c), EncodeKey(rest));
      }
      assert PercentDecode(v) == Some(rest) by {
        DecodeSpaced(rest);
      }
      EncodeCharUnplussed(c);
      if c == ' ' || IsUnreserved(c) {
        assert u == [c];
        LiteralFront(c, v);
      } else {
        GroupReadBack(c, v);
        GroupFront(u, v, c);
      }
      assert [c] + rest == k;
    }
  }

  /** Decoding a key as a notification writes it gives the key back. */
  lemma DecodeEncoded(k: string)
    ensures DecodeKey(EncodeKey(k)) == Some(k)
  {
    DecodeKeyUnfolds(EncodeKey(k));
    DecodeSpaced(k);
  }
}
