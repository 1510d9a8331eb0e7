/**
 * `Strings.uft8Encode`: the pre-pass both compressors run. Each UTF-16 code
 * unit of the text is re-expressed, on its own, with the UTF-8 scheme of
 * section 3 of RFC 3629 (one, two or three units carrying 7, 11 or 16 payload
 * bits), so the compressors only ever see units below 0xF0. Surrogate pairs
 * are not combined: each half is encoded as a separate three-unit sequence.
 *
 * The source's bitwise operators act on disjoint bits, so they are written
 * arithmetically: `x >> 6` is `x / 64`, `x & 63` is `x % 64`, and `b | y` with
 * y below the lowest set bit of b is `b + y`.
 */
module Strings {
  import opened Wrappers
  import opened JavaText

  /** A continuation unit of the scheme: 10xxxxxx. */
  predicate IsContinuation(u: int) { 0x80 <= u < 0xC0 }

  /** The units `uft8Encode` emits for the single code unit c. */
  function EncodeUnit(c: Unit): (r: seq<Unit>)
    ensures 1 <= |r| <= 3
    ensures forall k :: 0 <= k < |r| ==> r[k] < 0xF0
    ensures |r| == 1 <==> c < 0x80
    ensures |r| == 1 ==> r[0] == c
    ensures |r| == 2 <==> 0x80 <= c < 0x800
    ensures |r| == 2 ==> (0xC2 <= r[0] < 0xE0 && IsContinuation(r[1])
                          && (r[0] - 0xC0) * 64 + (r[1] - 0x80) == c)
    ensures |r| == 3 ==> (0xE0 <= r[0] < 0xF0 && IsContinuation(r[1]) && IsContinuation(r[2])
                          && (r[0] - 0xE0) * 4096 + (r[1] - 0x80) * 64 + (r[2] - 0x80) == c)
  {
    if c < 128 then [c]
    else if c < 2048 then [0xC0 + c / 64, 0x80 + c % 64]
    else [0xE0 + c / 4096, 0x80 + (c / 64) % 64, 0x80 + c % 64]
  }

  /** The whole encoded text: the units of each input unit, in order. */
  function Encode(text: seq<Unit>): seq<Unit>
    decreases |text|
  {
    if |text| == 0 then [] else EncodeUnit(text[0]) + Encode(text[1..])
  }

  /** The encoding distributes over concatenation. */
  lemma {:induction false} EncodeAppend(a: seq<Unit>, b: seq<Unit>)
    ensures Encode(a + b) == Encode(a) + Encode(b)
    decreases |a|
  {
    if |a| > 0 {
      assert (a + b)[1..] == a[1..] + b;
      EncodeAppend(a[1..], b);
    } else {
      assert a + b == b;
    }
  }

  /** Between one and three units per input unit. */
  lemma {:induction false} EncodeLength(text: seq<Unit>)
    ensures |text| <= |Encode(text)| <= 3 * |text|
    decreases |text|
  {
    if |text| > 0 {
      EncodeLength(text[1..]);
    }
  }

  /** Every encoded unit is below 0xF0; in particular 0xFF never occurs. */
  lemma {:induction false} EncodeBelowF0(text: seq<Unit>)
    ensures forall k :: 0 <= k < |Encode(text)| ==> Encode(text)[k] < 0xF0
    decreases |text|
  {
    if |text| > 0 {
      EncodeBelowF0(text[1..]);
      var head, tail := EncodeUnit(text[0]), Encode(text[1..]);
      assert Encode(text) == head + tail;
      forall k | 0 <= k < |head + tail| ensures (head + tail)[k] < 0xF0 {
        if k >= |head| { assert (head + tail)[k] == tail[k - |head|]; }
      }
    }
  }

  /**
   * A decoder for the scheme: a lead unit says how many continuation units
   * follow and the payload bits are put back together. None on a malformed
   * sequence.
   */
  function Decode(u: seq<Unit>): (r: Option<seq<Unit>>)
    decreases |u|
  {
    if |u| == 0 then Some([])
    else if u[0] < 0x80 then
      match Decode(u[1..])
      case Some(rest) => Some([u[0]] + rest)
      case None => None
    else if 0xC0 <= u[0] < 0xE0 && |u| >= 2 && IsContinuation(u[1]) then
      match Decode(u[2..])
      case Some(rest) => Some([(u[0] - 0xC0) * 64 + (u[1] - 0x80)] + rest)
      case None => None
    else if 0xE0 <= u[0] < 0xF0 && |u| >= 3 && IsContinuation(u[1]) && IsContinuation(u[2]) then
      match Decode(u[3..])
      case Some(rest) => Some([(u[0] - 0xE0) * 4096 + (u[1] - 0x80) * 64 + (u[2] - 0x80)] + rest)
      case None => None
    else None
  }

  /** Decoding one unit's encoding, followed by anything, yields that unit first. */
  lemma DecodeUnitPrefix(c: Unit, rest: seq<Unit>)
    ensures Decode(EncodeUnit(c) + rest) ==
            match Decode(rest) case Some(t) => Some([c] + t) case None => None
  {
    var e := EncodeUnit(c);
    var u := e + rest;
    assert u[|e|..] == rest;
    if |e| == 1 {
      assert u[1..] == rest;
    } else if |e| == 2 {
      assert u[0] == e[0] && u[1] == e[1];
      assert u[2..] == rest;
    } else {
      assert u[0] == e[0] && u[1] == e[1] && u[2] == e[2];
      assert u[3..] == rest;
    }
  }

  /** The encoding is lossless: decoding it gives the text back. */
  lemma {:induction false} DecodeEncode(text: seq<Unit>)
    ensures Decode(Encode(text)) == Some(text)
    decreases |text|
  {
    if |text| > 0 {
      DecodeEncode(text[1..]);
      DecodeUnitPrefix(text[0], Encode(text[1..]));
      assert [text[0]] + text[1..] == text;
    }
  }

  /** `Strings.uft8Encode(text)`: the loop appending each unit's encoding to a builder. */
  method Uft8Encode(text: seq<Unit>) returns (res: seq<Unit>)
    ensures res == Encode(text)
  {
    res := [];
    for k := 0 to |text|
      invariant res == Encode(text[..k])
    {
      var i := text[k];
      ghost var before := res;
      if i < 128 {
        res := res + [i];
      } else if i < 2048 {
        var j := 192 + i / 64;
        res := res + [j];
        j := 128 + i % 64;
        res := res + [j];
        assert res == before + EncodeUnit(i);
      } else {
        var j := 224 + i / 4096;
        res := res + [j];
        j := 128 + (i / 64) % 64;
        res := res + [j];
        j := 128 + i % 64;
        res := res + [j];
        assert res == before + EncodeUnit(i);
      }
      EncodeAppend(text[..k], [text[k]]);
      assert text[..k + 1] == text[..k] + [text[k]];
      assert Encode([text[k]]) == EncodeUnit(text[k]);
    }
    assert text[..|text|] == text;
  }
}
