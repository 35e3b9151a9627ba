/**
 * Base64 with the standard alphabet of section 4 of RFC 4648: '=' padding, no line
 * breaks. This is what java.util.Base64.getEncoder() produces.
 *
 * The encoder is written in two layers, as the RFC describes it: the octets are cut
 * into 6-bit groups (Sextets), each group is written as one alphabet character
 * (Symbols), and '=' pads the text to a multiple of four characters (Padding).
 * The decoder undoes the layers in the opposite order.
 */
module Base64 {
  import opened Basics

  /** A 6-bit group, the value one base64 character carries. */
  type sextet = x: int | 0 <= x < 64

  /** The 6-bit value of an alphabet character; None for anything else, '=' included. */
  function SymbolValue(c: char): Option<sextet> {
    if 'A' <= c <= 'Z' then Some(c as int - 65)
    else if 'a' <= c <= 'z' then Some(c as int - 97 + 26)
    else if '0' <= c <= '9' then Some(c as int - 48 + 52)
    else if c == '+' then Some(62)
    else if c == '/' then Some(63)
    else None
  }

  predicate IsSymbol(c: char) { SymbolValue(c).Some? }

  /** The character for a 6-bit value: 'A'-'Z', 'a'-'z', '0'-'9', '+', '/'. */
  function Symbol(x: sextet): char {
    if x < 26 then (65 + x) as char
    else if x < 52 then (97 + x - 26) as char
    else if x < 62 then (48 + x - 52) as char
    else if x == 62 then '+'
    else '/'
  }

  /** The decoder reads every character of the alphabet back as the value it was written for. */
  lemma SymbolValueSymbol(x: sextet)
    ensures SymbolValue(Symbol(x)) == Some(x)
  {
  }

  // ---------------------------------------------------------------------------
  // Octets and 6-bit groups

  /** Three octets as four 6-bit groups, most significant bits first. */
  function Quad(a: byte, b: byte, c: byte): (r: seq<sextet>)
    ensures |r| == 4
  {
    [a / 4, (a % 4) * 16 + b / 16, (b % 16) * 4 + c / 64, c % 64]
  }

  /** A last one or two octets as two or three 6-bit groups, the missing bits being zero. */
  function Tail(s: seq<byte>): (r: seq<sextet>)
    requires 1 <= |s| <= 2
    ensures |r| == |s| + 1
  {
    if |s| == 1 then [s[0] / 4, (s[0] % 4) * 16]
    else [s[0] / 4, (s[0] % 4) * 16 + s[1] / 16, (s[1] % 16) * 4]
  }

  /** The octets cut into 6-bit groups: Quad for every three, Tail for the one or two left over. */
  function Sextets(s: seq<byte>): seq<sextet>
    decreases |s|
  {
    if |s| == 0 then []
    else if |s| < 3 then Tail(s)
    else Quad(s[0], s[1], s[2]) + Sextets(s[3..])
  }

  /** The octet spread over the first two groups of four. */
  function First(x0: sextet, x1: sextet): byte { (x0 as int) * 4 + (x1 as int) / 16 }

  /** The octet spread over the second and third groups of four. */
  function Second(x1: sextet, x2: sextet): byte { ((x1 as int) % 16) * 16 + (x2 as int) / 4 }

  /** The octet spread over the last two groups of four. */
  function Third(x2: sextet, x3: sextet): byte { ((x2 as int) % 4) * 64 + (x3 as int) }

  /**
   * The octets carried by a sequence of 6-bit groups; None when one group is left over
   * alone, or when a last group of two or three has bits set beyond its last octet.
   */
  function Unpack(xs: seq<sextet>): (r: Option<seq<byte>>)
    decreases |xs|
  {
    if |xs| == 0 then Some([])
    else if |xs| == 1 then None
    else if |xs| == 2 then
      if (xs[1] as int) % 16 != 0 then None else Some([First(xs[0], xs[1])])
    else if |xs| == 3 then
      if (xs[2] as int) % 4 != 0 then None else Some([First(xs[0], xs[1]), Second(xs[1], xs[2])])
    else match Unpack(xs[4..])
      case None => None
      case Some(rest) =>
        Some([First(xs[0], xs[1]), Second(xs[1], xs[2]), Third(xs[2], xs[3])] + rest)
  }

  /** Four groups for every three octets, and one more group than octets for a last one or two. */
  lemma {:induction false} SextetsLength(s: seq<byte>)
    ensures |Sextets(s)| == |s| / 3 * 4 + (if |s| % 3 == 0 then 0 else |s| % 3 + 1)
    decreases |s|
  {
    if |s| > 2 {
      SextetsLength(s[3..]);
    }
  }

  /** A group of four in front of more groups gives its three octets back in front of theirs. */
  lemma UnpackQuad(a: byte, b: byte, c: byte, rest: seq<sextet>)
    requires Unpack(rest).Some?
    ensures Unpack(Quad(a, b, c) + rest) == Some([a, b, c] + Unpack(rest).value)
  {
    var g := Quad(a, b, c);
    assert First(g[0], g[1]) == a && Second(g[1], g[2]) == b && Third(g[2], g[3]) == c;
    var xs := g + rest;
    assert xs[0] == g[0] && xs[1] == g[1] && xs[2] == g[2] && xs[3] == g[3];
    assert xs[4..] == rest;
    if |rest| == 0 {
      assert [a, b, c] + [] == [a, b, c];
    }
  }

  /** The groups of a last one or two octets give them back. */
  lemma UnpackTail(s: seq<byte>)
    requires 1 <= |s| <= 2
    ensures Unpack(Tail(s)) == Some(s)
  {
    var t := Tail(s);
    if |s| == 1 {
      assert (t[1] as int) % 16 == 0;
      assert First(t[0], t[1]) == s[0];
      assert [s[0]] == s;
    } else {
      assert (t[2] as int) % 4 == 0;
      assert First(t[0], t[1]) == s[0] && Second(t[1], t[2]) == s[1];
      assert [s[0], s[1]] == s;
    }
  }

  /** Cutting octets into groups loses nothing: the groups give the octets back. */
  lemma {:induction false} UnpackSextets(s: seq<byte>)
    ensures Unpack(Sextets(s)) == Some(s)
    decreases |s|
  {
    if 1 <= |s| < 3 {
      UnpackTail(s);
    } else if |s| >= 3 {
      UnpackSextets(s[3..]);
      UnpackQuad(s[0], s[1], s[2], Sextets(s[3..]));
      assert [s[0], s[1], s[2]] + s[3..] == s;
    }
  }

  /** Cutting a whole number of three-octet groups and then the rest is cutting the concatenation. */
  lemma {:induction false} SextetsAppend(a: seq<byte>, b: seq<byte>)
    requires |a| % 3 == 0
    ensures Sextets(a + b) == Sextets(a) + Sextets(b)
    decreases |a|
  {
    if |a| == 0 {
      assert a + b == b;
    } else {
      assert |a| >= 3;
      var ab := a + b;
      assert ab[0] == a[0] && ab[1] == a[1] && ab[2] == a[2];
      assert ab[3..] == a[3..] + b;
      var g := Quad(a[0], a[1], a[2]);
      SextetsAppend(a[3..], b);
      assert g + (Sextets(a[3..]) + Sextets(b)) == (g + Sextets(a[3..])) + Sextets(b);
    }
  }

  // ---------------------------------------------------------------------------
  // 6-bit groups and characters

  /** Each group written as its alphabet character. */
  function Symbols(xs: seq<sextet>): (t: string)
    ensures |t| == |xs|
  {
    seq(|xs|, i requires 0 <= i < |xs| => Symbol(xs[i]))
  }

  /** The groups a text of alphabet characters carries; None at the first other character. */
  function Values(t: string): Option<seq<sextet>>
    decreases |t|
  {
    if |t| == 0 then Some([])
    else match (SymbolValue(t[0]), Values(t[1..]))
      case (Some(x), Some(rest)) => Some([x] + rest)
      case _ => None
  }

  /** Reading the characters back gives the groups. */
  lemma {:induction false} ValuesSymbols(xs: seq<sextet>)
    ensures Values(Symbols(xs)) == Some(xs)
    decreases |xs|
  {
    if |xs| > 0 {
      var t := Symbols(xs);
      SymbolValueSymbol(xs[0]);
      assert t[0] == Symbol(xs[0]);
      assert t[1..] == Symbols(xs[1..]);
      ValuesSymbols(xs[1..]);
      assert [xs[0]] + xs[1..] == xs;
    }
  }

  /** Every character written for a group is in the alphabet. */
  lemma SymbolsInAlphabet(xs: seq<sextet>)
    ensures forall i :: 0 <= i < |xs| ==> IsSymbol(Symbols(xs)[i])
  {
    forall i | 0 <= i < |xs| ensures IsSymbol(Symbols(xs)[i]) {
      SymbolValueSymbol(xs[i]);
    }
  }

  /** Writing two runs of groups one after the other. */
  lemma SymbolsAppend(xs: seq<sextet>, ys: seq<sextet>)
    ensures Symbols(xs + ys) == Symbols(xs) + Symbols(ys)
  {
  }

  // ---------------------------------------------------------------------------
  // Encoding and decoding

  /** '=' characters that fill the last group of four: none, two or one for 0, 1 or 2 octets left over. */
  function Padding(rem: nat): string {
    if rem == 1 then "==" else if rem == 2 then "=" else ""
  }

  /** The whole input, three octets at a time, the last one or two padded with '='. */
  function Encode(s: seq<byte>): string {
    Symbols(Sextets(s)) + Padding(|s| % 3)
  }

  /** How many '=' end a text: two, one or none. */
  function PadCount(t: string): nat {
    if |t| >= 2 && t[|t| - 1] == '=' && t[|t| - 2] == '=' then 2
    else if |t| >= 1 && t[|t| - 1] == '=' then 1
    else 0
  }

  /**
   * Decoding: None unless the text is a multiple of four characters, all in the
   * alphabet except for at most two '=' at the end, that carry whole octets.
   */
  function Decode(t: string): Option<seq<byte>> {
    if |t| % 4 != 0 then None
    else match Values(t[..|t| - PadCount(t)])
      case None => None
      case Some(xs) => Unpack(xs)
  }

  /** Four characters for every three octets or part of three: 4 * ceil(n / 3). */
  lemma EncodeLength(s: seq<byte>)
    ensures |Encode(s)| == 4 * ((|s| + 2) / 3)
  {
    SextetsLength(s);
    var n := |s|;
    assert (n + 2) / 3 == n / 3 + (if n % 3 == 0 then 0 else 1);
  }

  /** '=' after a text that does not end in '=' are counted exactly, and dropping them gives the text back. */
  lemma PadCountAppend(u: string, p: string)
    requires |u| > 0 ==> u[|u| - 1] != '='
    requires p == "" || ((p == "=" || p == "==") && |u| > 0)
    ensures PadCount(u + p) == |p|
    ensures (u + p)[..|u|] == u
  {
    var t := u + p;
    if p == "=" {
      assert t[|t| - 2] == u[|u| - 1];
    } else if p == "==" {
      assert t[|t| - 1] == '=' && t[|t| - 2] == '=';
    } else {
      assert t == u;
      if |u| > 0 {
        assert t[|t| - 1] == u[|u| - 1];
      }
    }
  }

  /** The last character written for a group is never '='. */
  lemma SymbolsEndInAlphabet(xs: seq<sextet>)
    requires |xs| > 0
    ensures Symbols(xs)[|xs| - 1] != '='
  {
    SymbolValueSymbol(xs[|xs| - 1]);
    assert !IsSymbol('=');
  }

  /** Round trip: decoding the base64 of any octet string gives the octets back. */
  lemma DecodeEncode(s: seq<byte>)
    ensures Decode(Encode(s)) == Some(s)
  {
    var xs := Sextets(s);
    var u, p := Symbols(xs), Padding(|s| % 3);
    var t := Encode(s);
    assert t == u + p;
    EncodeLength(s);
    assert |t| % 4 == 0;
    SextetsLength(s);
    assert p != "" ==> |xs| > 0;
    if |xs| > 0 {
      SymbolsEndInAlphabet(xs);
    }
    PadCountAppend(u, p);
    assert t[..|t| - PadCount(t)] == u;
    ValuesSymbols(xs);
    UnpackSextets(s);
  }

  /** Whole three-octet groups in front leave the number of octets left over unchanged. */
  lemma ModThree(x: nat, y: nat)
    requires x % 3 == 0
    ensures (x + y) % 3 == y % 3
  {
    var k, q := x / 3, y / 3;
    assert x == 3 * k;
    assert y == 3 * q + y % 3;
    assert x + y == 3 * (k + q) + y % 3;
  }

  /** Encoding a whole number of three-octet groups and then the rest is encoding the concatenation. */
  lemma EncodeAppend(a: seq<byte>, b: seq<byte>)
    requires |a| % 3 == 0
    ensures Encode(a + b) == Encode(a) + Encode(b)
  {
    var xa, xb := Sextets(a), Sextets(b);
    SextetsAppend(a, b);
    SymbolsAppend(xa, xb);
    ModThree(|a|, |b|);
    var p := Padding(|b| % 3);
    assert Padding(|a| % 3) == "";
    calc {
      Encode(a + b);
      Symbols(xa + xb) + p;
      (Symbols(xa) + Symbols(xb)) + p;
      Symbols(xa) + (Symbols(xb) + p);
    }
  }

  /** Alphabet characters, except for at most two '=' at the very end. */
  predicate IsPadded(e: string) {
    forall i :: 0 <= i < |e| ==> IsSymbol(e[i]) || (e[i] == '=' && i >= |e| - 2)
  }

  /**
   * The output uses only the alphabet, except for at most two '=' that end it; no line
   * breaks or other characters.
   */
  lemma EncodeAlphabet(s: seq<byte>)
    ensures IsPadded(Encode(s))
  {
    var xs := Sextets(s);
    SymbolsInAlphabet(xs);
    var e := Encode(s);
    forall i | 0 <= i < |e| ensures IsSymbol(e[i]) || (e[i] == '=' && i >= |e| - 2) {
      if i < |xs| {
        assert e[i] == Symbols(xs)[i];
      }
    }
  }

  /**
   * The decoder is strict: "QQ==" is the only text for the octet 65, and "QR==", whose
   * leftover bits are not zero, is refused.
   */
  lemma DecodeRejectsLeftoverBits()
    ensures Decode("QQ==") == Some([65])
    ensures Decode("QR==") == None
  {
    assert SymbolValue('Q') == Some(16) && SymbolValue('R') == Some(17);
    assert "R"[0] == 'R' && "R"[1..] == "" && Values("") == Some([]);
    assert [17] + [] == [17];
    assert Values("R") == Some([17]);
    assert "QR"[0] == 'Q' && "QR"[1..] == "R";
    assert [16] + [17] == [16, 17];
    assert Values("QR") == Some([16, 17]);
    assert "Q"[0] == 'Q' && "Q"[1..] == "";
    assert [16] + [] == [16];
    assert Values("Q") == Some([16]);
    assert "QQ"[0] == 'Q' && "QQ"[1..] == "Q";
    assert [16] + [16] == [16, 16];
    assert Values("QQ") == Some([16, 16]);
    assert PadCount("QR==") == 2 && "QR=="[..2] == "QR";
    assert PadCount("QQ==") == 2 && "QQ=="[..2] == "QQ";
  }
}
