/**
 * UTF-8 as specified in section 3 of RFC 3629, over Dafny characters (Unicode scalar
 * values), and the UTF-16 length that java.lang.String.length() reports.
 */
module Utf8 {
  import opened Basics

  predicate IsContinuation(b: byte) { 0x80 <= b < 0xC0 }

  /** The one to four octets of one scalar value. */
  function EncodeScalar(c: char): (r: seq<byte>)
    ensures 1 <= |r| <= 4
    ensures |r| == 1 <==> (c as int) < 0x80
    ensures |r| == 4 <==> (c as int) >= 0x1_0000
  {
    var v := c as int;
    // v, v / 64 and v / 4096 hold the 6-bit groups from the lowest up
    var q, q2 := v / 64, v / 64 / 64;
    if v < 0x80 then [v]
    else if v < 0x800 then [0xC0 + q, 0x80 + v % 64]
    else if v < 0x1_0000 then [0xE0 + q2, 0x80 + q % 64, 0x80 + v % 64]
    else [0xF0 + q2 / 64, 0x80 + q2 % 64, 0x80 + q % 64, 0x80 + v % 64]
  }

  /** String.getBytes(UTF_8) of a string made of scalar values. */
  function Encode(s: string): (r: seq<byte>)
    ensures |s| <= |r| <= 4 * |s|
    decreases |s|
  {
    if |s| == 0 then [] else EncodeScalar(s[0]) + Encode(s[1..])
  }

  /** The first scalar value of `b` and how many octets it takes, if `b` starts with a well-formed one. */
  function DecodeFirst(b: seq<byte>): (r: Option<(char, nat)>)
    ensures r.Some? ==> 1 <= r.value.1 <= |b|
  {
    if |b| == 0 then None
    else if b[0] < 0x80 then Some((b[0] as char, 1))
    else if 0xC2 <= b[0] < 0xE0 then
      if |b| >= 2 && IsContinuation(b[1]) then
        Some((((b[0] as int - 0xC0) * 64 + (b[1] as int - 0x80)) as char, 2))
      else None
    else if 0xE0 <= b[0] < 0xF0 then
      if |b| >= 3 && IsContinuation(b[1]) && IsContinuation(b[2]) then
        var v := ((b[0] as int - 0xE0) * 64 + (b[1] as int - 0x80)) * 64 + (b[2] as int - 0x80);
        if 0x800 <= v && !(0xD800 <= v < 0xE000) then Some((v as char, 3)) else None
      else None
    else if 0xF0 <= b[0] < 0xF5 then
      if |b| >= 4 && IsContinuation(b[1]) && IsContinuation(b[2]) && IsContinuation(b[3]) then
        var v := (((b[0] as int - 0xF0) * 64 + (b[1] as int - 0x80)) * 64 + (b[2] as int - 0x80)) * 64 + (b[3] as int - 0x80);
        if 0x1_0000 <= v < 0x11_0000 then Some((v as char, 4)) else None
      else None
    else None
  }

  /** Strict decoding: every octet must belong to a well-formed, shortest-form sequence. */
  function Decode(b: seq<byte>): Option<string>
    decreases |b|
  {
    if |b| == 0 then Some([])
    else match DecodeFirst(b)
      case None => None
      case Some((c, n)) =>
        match Decode(b[n..])
        case None => None
        case Some(rest) => Some([c] + rest)
  }

  /** The decoder reads back the scalar value that the encoder wrote, whatever follows it. */
  lemma DecodeFirstEncodeScalar(c: char, rest: seq<byte>)
    ensures DecodeFirst(EncodeScalar(c) + rest) == Some((c, |EncodeScalar(c)|))
  {
    var v := c as int;
    if v < 0x80 {
    } else if v < 0x800 {
      DecodeTwo(c, rest);
    } else if v < 0x1_0000 {
      DecodeThree(c, rest);
    } else {
      DecodeFour(c, rest);
    }
  }

  lemma DecodeTwo(c: char, rest: seq<byte>)
    requires 0x80 <= c as int < 0x800
    ensures DecodeFirst(EncodeScalar(c) + rest) == Some((c, 2))
  {
    var v := c as int;
    var b := EncodeScalar(c) + rest;
    var x0, x1 := v / 64, v % 64;
    assert v == x0 * 64 + x1 && 2 <= x0 < 32;
    assert b[0] == 0xC0 + x0 && b[1] == 0x80 + x1;
  }

  lemma DecodeThree(c: char, rest: seq<byte>)
    requires 0x800 <= c as int < 0x1_0000
    ensures DecodeFirst(EncodeScalar(c) + rest) == Some((c, 3))
  {
    var v := c as int;
    var b := EncodeScalar(c) + rest;
    var q, q2 := v / 64, v / 64 / 64;
    assert v == q * 64 + v % 64 && q == q2 * 64 + q % 64 && q2 < 16;
    assert b[0] == 0xE0 + q2 && b[1] == 0x80 + q % 64 && b[2] == 0x80 + v % 64;
  }

  lemma DecodeFour(c: char, rest: seq<byte>)
    requires 0x1_0000 <= c as int
    ensures DecodeFirst(EncodeScalar(c) + rest) == Some((c, 4))
  {
    var v := c as int;
    var b := EncodeScalar(c) + rest;
    var q, q2 := v / 64, v / 64 / 64;
    assert v == q * 64 + v % 64 && q == q2 * 64 + q % 64 && q2 == (q2 / 64) * 64 + q2 % 64;
    assert q2 / 64 < 5;
    assert b[0] == 0xF0 + q2 / 64 && b[1] == 0x80 + q2 % 64 && b[2] == 0x80 + q % 64 && b[3] == 0x80 + v % 64;
  }

  /** Round trip: decoding the UTF-8 of any string gives the string back. */
  lemma {:induction false} DecodeEncode(s: string)
    ensures Decode(Encode(s)) == Some(s)
    decreases |s|
  {
    if |s| > 0 {
      var head := EncodeScalar(s[0]);
      var tail := Encode(s[1..]);
      DecodeFirstEncodeScalar(s[0], tail);
      assert (head + tail)[|head|..] == tail;
      DecodeEncode(s[1..]);
      assert [s[0]] + s[1..] == s;
    }
  }

  /** UTF-8 of a concatenation is the concatenation of the UTF-8s. */
  lemma {:induction false} EncodeAppend(a: string, b: string)
    ensures Encode(a + b) == Encode(a) + Encode(b)
    decreases |a|
  {
    if |a| > 0 {
      assert (a + b)[0] == a[0] && (a + b)[1..] == a[1..] + b;
      EncodeAppend(a[1..], b);
    } else {
      assert a + b == b;
    }
  }

  /** All characters are ASCII: the case where every length measure agrees. */
  predicate IsAscii(s: string) {
    forall i :: 0 <= i < |s| ==> (s[i] as int) < 0x80
  }

  /** The UTF-8 of an ASCII string is its character codes, one octet each. */
  lemma {:induction false} EncodeAscii(s: string)
    requires IsAscii(s)
    ensures |Encode(s)| == |s|
    ensures forall i :: 0 <= i < |s| ==> Encode(s)[i] == s[i] as int
    decreases |s|
  {
    if |s| > 0 {
      assert IsAscii(s[1..]) by {
        forall i | 0 <= i < |s[1..]| ensures (s[1..][i] as int) < 0x80 {
          assert s[1..][i] == s[i + 1];
        }
      }
      EncodeAscii(s[1..]);
      forall i | 0 <= i < |s| ensures Encode(s)[i] == s[i] as int {
        if i > 0 { assert s[i] == s[1..][i - 1]; }
      }
    }
  }

  /** Code units java.lang.String spends on one scalar value: a surrogate pair above U+FFFF. */
  function Utf16Units(c: char): nat {
    if (c as int) < 0x1_0000 then 1 else 2
  }

  /** java.lang.String.length(): the number of UTF-16 code units. */
  function Utf16Length(s: string): (n: nat)
    ensures |s| <= n <= 2 * |s|
    decreases |s|
  {
    if |s| == 0 then 0 else Utf16Units(s[0]) + Utf16Length(s[1..])
  }

  /**
   * String.length() never exceeds the UTF-8 octet count, and the two agree exactly when
   * the string is ASCII.
   */
  lemma {:induction false} Utf16LengthAtMostOctets(s: string)
    ensures Utf16Length(s) <= |Encode(s)|
    ensures Utf16Length(s) == |Encode(s)| <==> IsAscii(s)
    decreases |s|
  {
    if |s| > 0 {
      Utf16LengthAtMostOctets(s[1..]);
      if IsAscii(s) {
        assert IsAscii(s[1..]) by {
          forall i | 0 <= i < |s[1..]| ensures (s[1..][i] as int) < 0x80 {
            assert s[1..][i] == s[i + 1];
          }
        }
      }
      if IsAscii(s[1..]) && (s[0] as int) < 0x80 {
        forall i | 0 <= i < |s| ensures (s[i] as int) < 0x80 {
          if i > 0 { assert s[i] == s[1..][i - 1]; }
        }
      }
    }
  }
}
