/**
 Cutting a text to a byte bound at a line or a character (claude-plugin/scripts/
 cg-answer.js), over the UTF-8 encoding of section 3 of RFC 3629.
 */
module Truncate {
  import opened Options

  /** A Unicode scalar value. */
  type Scalar = c: int | 0 <= c < 0x11_0000 && !(0xD800 <= c < 0xE000)

  newtype Byte = b: int | 0 <= b < 256

  const NEWLINE: Scalar := 10
  const REPLACEMENT: Scalar := 0xFFFD

  function Width(c: Scalar): (n: nat)
    ensures 1 <= n <= 4
  {
    if c < 0x80 then 1 else if c < 0x800 then 2 else if c < 0x1_0000 then 3 else 4
  }

  function EncodeScalar(c: Scalar): (b: seq<Byte>)
    ensures |b| == Width(c)
  {
    if c < 0x80 then [c as Byte]
    else if c < 0x800 then [(0xC0 + c / 64) as Byte, (0x80 + c % 64) as Byte]
    else if c < 0x1_0000 then [(0xE0 + c / 4096) as Byte, (0x80 + c / 64 % 64) as Byte, (0x80 + c % 64) as Byte]
    else [(0xF0 + c / 262144) as Byte, (0x80 + c / 4096 % 64) as Byte, (0x80 + c / 64 % 64) as Byte,
        (0x80 + c % 64) as Byte]
  }

  function Encode(text: seq<Scalar>): seq<Byte> {
    if text == [] then [] else EncodeScalar(text[0]) + Encode(text[1..])
  }

  /** The test `(byte & 0xc0) === 0x80`. */
  predicate IsContinuation(b: Byte) {
    b / 64 == 2
  }

  /** A character starts with a byte that is no continuation and goes on with bytes
      that are; only a newline holds byte 10. */
  lemma EncodedBytes(c: Scalar)
    ensures !IsContinuation(EncodeScalar(c)[0])
    ensures forall i :: 1 <= i < Width(c) ==> IsContinuation(EncodeScalar(c)[i])
    ensures EncodeScalar(c)[0] == 10 <==> c == NEWLINE
  {
  }

  lemma {:induction false} EncodeConcat(a: seq<Scalar>, b: seq<Scalar>)
    ensures Encode(a + b) == Encode(a) + Encode(b)
  {
    if a == [] {
      assert a + b == b;
    } else {
      assert (a + b)[1..] == a[1..] + b;
      EncodeConcat(a[1..], b);
    }
  }

  // ---------- Decoding, with a replacement character for what is malformed ----------

  function LeadWidth(b: Byte): (n: nat)
    ensures n <= 4
  {
    if b < 0x80 then 1
    else if 0xC2 <= b < 0xE0 then 2
    else if 0xE0 <= b < 0xF0 then 3
    else if 0xF0 <= b < 0xF5 then 4
    else 0
  }

  /** The number a sequence of `n` bytes stands for. */
  function ScalarBits(b: seq<Byte>, n: nat): int
    requires 1 <= n <= 4 && n <= |b|
  {
    if n == 1 then b[0] as int
    else if n == 2 then (b[0] as int - 0xC0) * 64 + (b[1] as int - 0x80)
    else if n == 3 then (b[0] as int - 0xE0) * 4096 + (b[1] as int - 0x80) * 64 + (b[2] as int - 0x80)
    else (b[0] as int - 0xF0) * 262144 + (b[1] as int - 0x80) * 4096 + (b[2] as int - 0x80) * 64 + (b[3] as int - 0x80)
  }

  /** The character `b` starts with, if it starts with one. */
  function FirstScalar(b: seq<Byte>): (r: Option<Scalar>)
    requires b != []
    ensures r.Some? ==> EncodeScalar(r.value) <= b
  {
    var n := LeadWidth(b[0]);
    if n == 0 || |b| < n then None else
      var v := ScalarBits(b, n);
      if 0 <= v < 0x11_0000 && !(0xD800 <= v < 0xE000) && EncodeScalar(v) <= b then Some(v) else None
  }

  function Decode(b: seq<Byte>): seq<Scalar>
    decreases |b|
  {
    if b == [] then []
    else
      var c := FirstScalar(b);
      if c.Some? then [c.value] + Decode(b[Width(c.value)..])
      else if |b| < LeadWidth(b[0]) && forall i :: 1 <= i < |b| ==> IsContinuation(b[i]) then [REPLACEMENT]
      else [REPLACEMENT] + Decode(b[1..])
  }

  lemma FirstOfEncoded(c: Scalar, rest: seq<Byte>)
    ensures FirstScalar(EncodeScalar(c) + rest) == Some(c)
  {
    var e := EncodeScalar(c);
    var b := e + rest;
    LeadOfEncoded(c);
    assert forall i :: 0 <= i < |e| ==> b[i] == e[i];
    BitsOfEncoded(c);
    assert ScalarBits(b, |e|) == ScalarBits(e, |e|);
  }

  lemma LeadOfEncoded(c: Scalar)
    ensures LeadWidth(EncodeScalar(c)[0]) == Width(c)
  {
  }

  lemma BitsOfEncoded(c: Scalar)
    ensures ScalarBits(EncodeScalar(c), Width(c)) == c
  {
    assert c == c / 64 * 64 + c % 64;
    assert c / 64 == c / 4096 * 64 + c / 64 % 64;
    assert c / 4096 == c / 262144 * 64 + c / 4096 % 64;
  }

  lemma DecodeStep(c: Scalar, rest: seq<Byte>)
    ensures Decode(EncodeScalar(c) + rest) == [c] + Decode(rest)
  {
    hide FirstScalar, EncodeScalar;
    var b := EncodeScalar(c) + rest;
    FirstOfEncoded(c, rest);
    assert b[Width(c)..] == rest;
  }

  lemma EncodeNothing()
    ensures Encode([]) == []
  {
  }

  lemma EncodeFirst(text: seq<Scalar>, tail: seq<Byte>)
    requires text != []
    ensures Encode(text) + tail == EncodeScalar(text[0]) + (Encode(text[1..]) + tail)
  {
    hide EncodeScalar;
  }

  /** Whole characters are decoded to themselves. */
  lemma {:induction false} DecodeWhole(text: seq<Scalar>, tail: seq<Byte>)
    ensures Decode(Encode(text) + tail) == text + Decode(tail)
    decreases |text|
  {
    hide Decode, EncodeScalar, Encode;
    if text == [] {
      EncodeNothing();
      assert [] + tail == tail && text + Decode(tail) == Decode(tail);
    } else {
      var rest := Encode(text[1..]) + tail;
      EncodeFirst(text, tail);
      DecodeStep(text[0], rest);
      DecodeWhole(text[1..], tail);
      assert [text[0]] + (text[1..] + Decode(tail)) == text + Decode(tail);
    }
  }

  /** A character cut in the middle is one replacement character. */
  lemma DecodeCut(c: Scalar, r: nat)
    requires 0 < r < Width(c)
    ensures Decode(EncodeScalar(c)[..r]) == [REPLACEMENT]
  {
    hide ScalarBits;
    LeadOfEncoded(c);
    EncodedBytes(c);
  }

  // ---------- The cut ----------

  /** How many characters of `text` fit in `max` bytes. */
  function FitCount(text: seq<Scalar>, max: nat): (k: nat)
    ensures k <= |text|
  {
    if text == [] || Width(text[0]) > max then 0 else 1 + FitCount(text[1..], max - Width(text[0]))
  }

  /** That many fit and one more does not. */
  lemma {:induction false} FitCountLongest(text: seq<Scalar>, max: nat)
    ensures var k := FitCount(text, max);
      && |Encode(text[..k])| <= max
      && (k < |text| ==> |Encode(text[..k + 1])| == |Encode(text[..k])| + Width(text[k]) > max)
    decreases |text|
  {
    hide EncodeScalar;
    var k := FitCount(text, max);
    if k > 0 {
      FitCountLongest(text[1..], max - Width(text[0]));
      assert text[..k][1..] == text[1..][..k - 1];
      if k < |text| {
        assert text[..k + 1][1..] == text[1..][..k];
      }
    } else if text != [] {
      assert text[..1][1..] == [];
      assert Encode(text[..1]) == EncodeScalar(text[0]) + [];
    }
  }

  lemma {:induction false} EncodeFits(text: seq<Scalar>, max: nat)
    ensures FitCount(text, max) == |text| <==> |Encode(text)| <= max
    decreases |text|
  {
    hide EncodeScalar;
    if text != [] {
      if Width(text[0]) <= max {
        EncodeFits(text[1..], max - Width(text[0]));
      }
    }
  }

  lemma EncodeSplit(text: seq<Scalar>, k: nat)
    requires k < |text|
    ensures Encode(text) == Encode(text[..k]) + (EncodeScalar(text[k]) + Encode(text[k + 1..]))
  {
    hide EncodeScalar;
    assert text == text[..k] + text[k..];
    EncodeConcat(text[..k], text[k..]);
    assert text[k..][0] == text[k] && text[k..][1..] == text[k + 1..];
  }

  lemma HeadSlices(whole: seq<Byte>, a: seq<Byte>, c: seq<Byte>, rest: seq<Byte>, max: nat)
    requires whole == a + (c + rest) && |a| <= max < |a| + |c|
    ensures max <= |whole| && |a| + |c| <= |whole|
    ensures whole[..max] == a + c[..max - |a|]
    ensures whole[|a|..|a| + |c|] == c && whole[..|a|] == a
  {
  }

  /** The bytes below the bound: whole characters, then a piece of the next one. */
  lemma HeadBytes(text: seq<Scalar>, max: nat)
    requires |Encode(text)| > max
    ensures var k := FitCount(text, max);
      var start := |Encode(text[..k])|;
      && k < |text| && start <= max < start + Width(text[k]) <= |Encode(text)|
      && Encode(text)[..max] == Encode(text[..k]) + EncodeScalar(text[k])[..max - start]
      && Encode(text)[start..start + Width(text[k])] == EncodeScalar(text[k])
      && Encode(text)[..start] == Encode(text[..k])
  {
    hide EncodeScalar, Encode, FitCount, Width;
    var k := FitCount(text, max);
    EncodeFits(text, max);
    FitCountLongest(text, max);
    EncodeSplit(text, k);
    HeadSlices(Encode(text), Encode(text[..k]), EncodeScalar(text[k]), Encode(text[k + 1..]), max);
  }

  /** The decoded head: the characters that fit, and a replacement character when
      the bound falls inside the next one. */
  lemma HeadDecoded(text: seq<Scalar>, max: nat)
    requires |Encode(text)| > max
    ensures var k := FitCount(text, max);
      Decode(Encode(text)[..max]) ==
        text[..k] + if |Encode(text[..k])| == max then [] else [REPLACEMENT]
  {
    hide EncodeScalar, Decode, Encode;
    var k := FitCount(text, max);
    HeadBytes(text, max);
    var r := max - |Encode(text[..k])|;
    DecodeWhole(text[..k], EncodeScalar(text[k])[..r]);
    if r > 0 {
      DecodeCut(text[k], r);
    } else {
      DecodeNothing();
    }
  }

  lemma DecodeNothing()
    ensures Decode([]) == []
  {
  }

  /** Decoding undoes encoding. */
  lemma RoundTrip(text: seq<Scalar>)
    ensures Decode(Encode(text)) == text
  {
    hide Decode, Encode;
    DecodeWhole(text, []);
    DecodeNothing();
    assert Encode(text) + [] == Encode(text) && text + [] == text;
  }

  method LastIndexOf(s: seq<Scalar>, c: Scalar) returns (i: int)
    ensures -1 <= i < |s|
    ensures i >= 0 ==> s[i] == c
    ensures forall j :: i < j < |s| ==> s[j] != c
  {
    i := |s| - 1;
    while i >= 0 && s[i] != c
      invariant -1 <= i < |s|
      invariant forall j :: i < j < |s| ==> s[j] != c
    {
      i := i - 1;
    }
  }

  /** The result is a prefix of whole characters within the bound, flagged exactly when
      the text does not fit: cut before the last newline that fits, past position 0, or
      else the longest such prefix. */
  method TruncateAtLine(text: seq<Scalar>, maxBytes: nat) returns (out: seq<Scalar>, truncated: bool)
    ensures truncated <==> |Encode(text)| > maxBytes
    ensures out <= text && |Encode(out)| <= maxBytes
    ensures !truncated ==> out == text
    ensures truncated ==>
      var k := FitCount(text, maxBytes);
      if exists j :: 0 < j < k && text[j] == NEWLINE
      then 0 < |out| < k && text[|out|] == NEWLINE && forall j :: |out| < j < k ==> text[j] != NEWLINE
      else out == text[..k]
  {
    hide Decode, Encode, EncodeScalar, FitCount, IsContinuation;
    var buf := Encode(text);
    if |buf| <= maxBytes {
      return text, false;
    }
    ghost var k := FitCount(text, maxBytes);
    HeadBytes(text, maxBytes);
    HeadDecoded(text, maxBytes);
    var head := Decode(buf[..maxBytes]);
    assert forall j :: 0 <= j < k ==> head[j] == text[j];
    var lastNl := LastIndexOf(head, NEWLINE);
    if lastNl > 0 {
      assert lastNl < k;
      assert head[..lastNl] == text[..lastNl];
      PrefixFits(text, lastNl, k);
      return head[..lastNl], true;
    }
    assert forall j :: 0 < j < k ==> text[j] != NEWLINE by {
      assert forall j :: 0 < j < k ==> head[j] != NEWLINE;
    }
    ghost var start := |Encode(text[..k])|;
    EncodedBytes(text[k]);
    assert forall i :: start <= i < start + Width(text[k]) ==>
      buf[i] == buf[start..start + Width(text[k])][i - start];
    var end := maxBytes;
    while end > 0 && IsContinuation(buf[end])
      invariant start <= end <= maxBytes
    {
      end := end - 1;
    }
    assert end == start;
    RoundTrip(text[..k]);
    out, truncated := Decode(buf[..end]), true;
    FitCountLongest(text, maxBytes);
  }

  lemma PrefixFits(text: seq<Scalar>, j: nat, k: nat)
    requires j <= k <= |text|
    ensures |Encode(text[..j])| <= |Encode(text[..k])|
  {
    hide Encode;
    assert text[..k] == text[..j] + text[j..k];
    EncodeConcat(text[..j], text[j..k]);
  }

  /** One of the bytes behind the first. */
  predicate Tail(b: Byte) {
    0x80 <= b < 0xC0
  }

  /** The form of an encoded character: its length by its value, the range of each byte,
      and the value as the bits behind the marker bits, highest first. */
  lemma EncodedForm(c: Scalar)
    ensures var b := EncodeScalar(c);
      if c < 0x80 then |b| == 1 && b[0] as int == c
      else if c < 0x800 then
        && |b| == 2 && 0xC0 <= b[0] < 0xE0 && Tail(b[1])
        && (b[0] as int - 0xC0) * 64 + (b[1] as int - 0x80) == c
      else if c < 0x1_0000 then
        && |b| == 3 && 0xE0 <= b[0] < 0xF0 && Tail(b[1]) && Tail(b[2])
        && (b[0] as int - 0xE0) * 4096 + (b[1] as int - 0x80) * 64 + (b[2] as int - 0x80) == c
      else
        && |b| == 4 && 0xF0 <= b[0] < 0xF8 && Tail(b[1]) && Tail(b[2]) && Tail(b[3])
        && (b[0] as int - 0xF0) * 262144 + (b[1] as int - 0x80) * 4096 + (b[2] as int - 0x80) * 64
             + (b[3] as int - 0x80) == c
  {
    hide EncodeScalar;
    BitsOfEncoded(c);
    ByteRanges(c);
  }

  lemma ByteRanges(c: Scalar)
    ensures var b := EncodeScalar(c);
      && (if c < 0x80 then |b| == 1 else if c < 0x800 then |b| == 2 && 0xC0 <= b[0] < 0xE0
          else if c < 0x1_0000 then |b| == 3 && 0xE0 <= b[0] < 0xF0 else |b| == 4 && 0xF0 <= b[0] < 0xF8)
      && forall i :: 1 <= i < |b| ==> Tail(b[i])
  {
  }
}
