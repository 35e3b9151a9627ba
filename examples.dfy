/**
 * The expected outputs of the repository's tests (TestCopy, TestQuery, TestClear),
 * stated as lemmas about the model. Each test builds of(str).clipboard(c).mode(m).limit(l)
 * or ofQuery()/ofClear() with a clipboard and a mode, and compares toString() with a
 * literal.
 */
module Osc52Examples {
  import opened Basics
  import opened Osc52
  import Strings
  import Utf8
  import Base64

  /** The request a copy test builds. */
  function Copy(str: string, c: Clipboard, m: Mode, l: Int32): Request {
    Of([str]).WithClipboard(c).WithMode(m).WithLimit(l)
  }

  /** An ASCII literal's UTF-8 is its character codes, and it counts one unit per character. */
  lemma AsciiOctets(s: string, b: seq<byte>)
    requires Utf8.IsAscii(s) && |b| == |s|
    requires forall i :: 0 <= i < |s| ==> b[i] == s[i] as int
    ensures Utf8.Encode(s) == b
    ensures Utf8.Utf16Length(s) == |s|
  {
    Utf8.EncodeAscii(s);
    Utf8.Utf16LengthAtMostOctets(s);
  }

  /** A payload's Set body from its octets and their base64. */
  lemma BodyOf(str: string, octets: seq<byte>, text: string)
    requires Utf8.Encode(str) == octets && Base64.Encode(octets) == text
    ensures SetBody(str) == text && |Utf8.Encode(str)| == |octets|
  {
  }

  /**
   * A copy test's expected text, outside screen mode: the Set body of its payload in its
   * mode's frame, when the payload is within the limit.
   */
  lemma CopyRenders(str: string, c: Clipboard, m: Mode, l: Int32, body: string, expected: string)
    requires m != Mode.Screen
    requires l <= 0 || Utf8.Utf16Length(str) <= l
    requires SetBody(str) == body && Frame(m, c, body) == expected
    ensures Sequence(Copy(str, c, m, l)) == expected
  {
    assert Copy(str, c, m, l) == Request(str, if l > 0 then l else 0, Set, m, c);
  }

  /** The same in screen mode, for a Set body shorter than one 76-character chunk. */
  lemma CopyRendersOneChunk(str: string, c: Clipboard, l: Int32, body: string, expected: string)
    requires l <= 0 || Utf8.Utf16Length(str) <= l
    requires SetBody(str) == body && 0 < |body| < 76 && Frame(Mode.Screen, c, body) == expected
    ensures Sequence(Copy(str, c, Mode.Screen, l)) == expected
  {
    var r := Copy(str, c, Mode.Screen, l);
    assert r == Request(str, if l > 0 then l else 0, Set, Mode.Screen, c);
    assert Chunks(body) == [body];
    assert |body| % 76 == |body|;
    ScreenSetBody(r);
  }

  /** The tmux frame with the system selector, written out around a body. */
  lemma TmuxFrame(body: string)
    ensures Frame(Mode.Tmux, System, body) == "\U{1B}Ptmux;\U{1B}\U{1B}]52;c;" + body + "\U{07}\U{1B}\\"
  {
    FrameText(Mode.Tmux, System, body);
  }

  lemma HelloFrameSystem()
    ensures Frame(Default, System, "aGVsbG8gd29ybGQ=") == "\U{1B}]52;c;aGVsbG8gd29ybGQ=\U{07}"
  {
  }

  lemma HelloFramePrimary()
    ensures Frame(Default, Clipboard.Primary, "aGVsbG8gd29ybGQ=") == "\U{1B}]52;p;aGVsbG8gd29ybGQ=\U{07}"
  {
  }

  lemma HelloFrameTmux()
    ensures Frame(Mode.Tmux, System, "aGVsbG8gd29ybGQ=") == "\U{1B}Ptmux;\U{1B}\U{1B}]52;c;aGVsbG8gd29ybGQ=\U{07}\U{1B}\\"
  {
    TmuxFrame("aGVsbG8gd29ybGQ=");
  }

  lemma HelloFrameScreen()
    ensures Frame(Mode.Screen, System, "aGVsbG8gd29ybGQ=") == "\U{1B}P\U{1B}]52;c;aGVsbG8gd29ybGQ=\U{07}\U{1B}\\"
  {
  }

  lemma HelloWorldOctets()
    ensures Utf8.Encode("hello world") == [104, 101, 108, 108, 111, 32, 119, 111, 114, 108, 100]
    ensures Utf8.Utf16Length("hello world") == 11
  {
    AsciiOctets("hello world", [104, 101, 108, 108, 111, 32, 119, 111, 114, 108, 100]);
  }

  lemma HelloWorldSextets()
    ensures Base64.Sextets([104, 101, 108, 108, 111, 32, 119, 111, 114, 108, 100])
         == [26, 6, 21, 44, 27, 6, 60, 32, 29, 54, 61, 50, 27, 6, 16]
  {
  }

  lemma HelloWorldSymbols()
    ensures Base64.Symbols([26, 6, 21, 44, 27, 6, 60, 32, 29, 54, 61, 50, 27, 6, 16]) == "aGVsbG8gd29ybGQ"
  {
  }

  lemma HelloWorldBase64()
    ensures Base64.Encode([104, 101, 108, 108, 111, 32, 119, 111, 114, 108, 100]) == "aGVsbG8gd29ybGQ="
  {
    HelloWorldSextets();
    HelloWorldSymbols();
  }

  /** "hello world" travels as aGVsbG8gd29ybGQ= (TestCopy.java:15). */
  lemma HelloWorldBody()
    ensures SetBody("hello world") == "aGVsbG8gd29ybGQ="
    ensures Utf8.Utf16Length("hello world") == 11
  {
    HelloWorldOctets();
    HelloWorldBase64();
    BodyOf("hello world", [104, 101, 108, 108, 111, 32, 119, 111, 114, 108, 100], "aGVsbG8gd29ybGQ=");
  }

  lemma CopyHelloWorld()
    ensures Sequence(Copy("hello world", System, Default, 0)) == "\U{1B}]52;c;aGVsbG8gd29ybGQ=\U{07}"
  {
    HelloWorldBody();
    HelloFrameSystem();
    CopyRenders("hello world", System, Default, 0, "aGVsbG8gd29ybGQ=", "\U{1B}]52;c;aGVsbG8gd29ybGQ=\U{07}");
  }

  lemma CopyEmptyString()
    ensures Sequence(Copy("", System, Default, 0)) == "\U{1B}]52;c;\U{07}"
  {
  }

  lemma CopyHelloWorldPrimary()
    ensures Sequence(Copy("hello world", Clipboard.Primary, Default, 0)) == "\U{1B}]52;p;aGVsbG8gd29ybGQ=\U{07}"
  {
    HelloWorldBody();
    HelloFramePrimary();
    CopyRenders("hello world", Clipboard.Primary, Default, 0, "aGVsbG8gd29ybGQ=", "\U{1B}]52;p;aGVsbG8gd29ybGQ=\U{07}");
  }

  lemma CopyHelloWorldTmux()
    ensures Sequence(Copy("hello world", System, Mode.Tmux, 0))
         == "\U{1B}Ptmux;\U{1B}\U{1B}]52;c;aGVsbG8gd29ybGQ=\U{07}\U{1B}\\"
  {
    HelloWorldBody();
    HelloFrameTmux();
    CopyRenders("hello world", System, Mode.Tmux, 0, "aGVsbG8gd29ybGQ=",
      "\U{1B}Ptmux;\U{1B}\U{1B}]52;c;aGVsbG8gd29ybGQ=\U{07}\U{1B}\\");
  }

  lemma CopyHelloWorldScreen()
    ensures Sequence(Copy("hello world", System, Mode.Screen, 0))
         == "\U{1B}P\U{1B}]52;c;aGVsbG8gd29ybGQ=\U{07}\U{1B}\\"
  {
    HelloWorldBody();
    HelloFrameScreen();
    CopyRendersOneChunk("hello world", System, 0, "aGVsbG8gd29ybGQ=",
      "\U{1B}P\U{1B}]52;c;aGVsbG8gd29ybGQ=\U{07}\U{1B}\\");
  }

  /** k copies of s, one after the other. */
  function Repeat(s: string, k: nat): string {
    if k == 0 then "" else s + Repeat(s, k - 1)
  }

  lemma Assoc(a: string, b: string, c: string)
    ensures a + (b + c) == a + b + c
  {
  }

  /**
   * When the head's UTF-8 is a whole number of 3-octet groups, repeating it repeats its
   * base64: the Set body of k heads and a last part is k head bodies and the last body.
   */
  lemma {:induction false} RepeatedBody(head: string, last: string, k: nat)
    requires |Utf8.Encode(head)| % 3 == 0
    ensures SetBody(Repeat(head, k) + last) == Repeat(SetBody(head), k) + SetBody(last)
  {
    if k == 0 {
      assert Repeat(head, 0) + last == last;
    } else {
      var tail := Repeat(head, k - 1) + last;
      assert Repeat(head, k) + last == head + tail;
      SetBodyAppend(head, tail);
      RepeatedBody(head, last, k - 1);
      Assoc(SetBody(head), Repeat(SetBody(head), k - 1), SetBody(last));
    }
  }

  /**
   * The same in screen mode, for a Set body of one full 76-character chunk and a shorter
   * one: two DCS passthroughs.
   */
  lemma CopyRendersTwoChunks(str: string, c: Clipboard, l: Int32, c1: string, c2: string, expected: string)
    requires l <= 0 || Utf8.Utf16Length(str) <= l
    requires SetBody(str) == c1 + c2 && |c1| == 76 && 0 < |c2| < 76
    requires Frame(Mode.Screen, c, c1 + ScreenSeparator + c2) == expected
    ensures Sequence(Copy(str, c, Mode.Screen, l)) == expected
  {
    var r := Copy(str, c, Mode.Screen, l);
    assert r == Request(str, if l > 0 then l else 0, Set, Mode.Screen, c);
    var b := c1 + c2;
    assert b[..76] == c1 && b[76..] == c2;
    assert Chunks(b[76..]) == [c2];
    assert Chunks(b) == [c1, c2];
    assert |b| % 76 == |c2|;
    ScreenSetBody(r);
  }

  lemma HelloSpaceOctets()
    ensures Utf8.Encode("hello world ") == [104, 101, 108, 108, 111, 32, 119, 111, 114, 108, 100, 32]
  {
    AsciiOctets("hello world ", [104, 101, 108, 108, 111, 32, 119, 111, 114, 108, 100, 32]);
  }

  lemma HelloSpaceSextets()
    ensures Base64.Sextets([104, 101, 108, 108, 111, 32, 119, 111, 114, 108, 100, 32])
         == [26, 6, 21, 44, 27, 6, 60, 32, 29, 54, 61, 50, 27, 6, 16, 32]
  {
  }

  lemma HelloSpaceSymbols()
    ensures Base64.Symbols([26, 6, 21, 44, 27, 6, 60, 32, 29, 54, 61, 50, 27, 6, 16, 32]) == "aGVsbG8gd29ybGQg"
  {
  }

  /** A payload whose octets are a whole number of 3-octet groups. */
  lemma WholeGroups(str: string, octets: seq<byte>, n: nat)
    requires Utf8.Encode(str) == octets && |octets| == 3 * n
    ensures |Utf8.Encode(str)| % 3 == 0
  {
  }

  lemma HelloSpaceGroups()
    ensures |Utf8.Encode("hello world ")| % 3 == 0
  {
    HelloSpaceOctets();
    WholeGroups("hello world ", [104, 101, 108, 108, 111, 32, 119, 111, 114, 108, 100, 32], 4);
  }

  lemma HelloSpaceBase64()
    ensures Base64.Encode([104, 101, 108, 108, 111, 32, 119, 111, 114, 108, 100, 32]) == "aGVsbG8gd29ybGQg"
  {
    HelloSpaceSextets();
    HelloSpaceSymbols();
  }

  /** "hello world " is twelve octets, four whole groups: aGVsbG8gd29ybGQg. */
  lemma HelloSpaceBody()
    ensures SetBody("hello world ") == "aGVsbG8gd29ybGQg"
  {
    HelloSpaceOctets();
    HelloSpaceBase64();
    BodyOf("hello world ", [104, 101, 108, 108, 111, 32, 119, 111, 114, 108, 100, 32], "aGVsbG8gd29ybGQg");
  }

  lemma RepeatSeven(s: string)
    ensures Repeat(s, 7) == s + s + s + s + s + s + s
  {
    assert Repeat(s, 1) == s;
    assert Repeat(s, 2) == s + s;
    assert Repeat(s, 3) == s + (s + s);
    assert Repeat(s, 4) == s + (s + s + s);
    assert Repeat(s, 5) == s + (s + s + s + s);
    assert Repeat(s, 6) == s + (s + s + s + s + s);
  }

  /** The screen frame around two chunks, with the system selector. */
  lemma LongFrame(c1: string, c2: string)
    ensures Frame(Mode.Screen, System, c1 + ScreenSeparator + c2)
         == "\U{1B}P\U{1B}]52;c;" + c1 + "\U{1B}\\\U{1B}P" + c2 + "\U{07}\U{1B}\\"
  {
    FrameText(Mode.Screen, System, c1 + ScreenSeparator + c2);
    assert ScreenSeparator == "\U{1B}\\\U{1B}P";
  }

  /**
   * Seven copies of a payload whose base64 is whole groups, then a last payload: the
   * base64 is seven copies of the first body and then the last body, and cutting one
   * copy into x and y splits it after four copies and x.
   */
  lemma SevenThenLast(head: string, last: string, hb: string, lb: string, x: string, y: string)
    requires |Utf8.Encode(head)| % 3 == 0
    requires SetBody(head) == hb && SetBody(last) == lb && hb == x + y
    ensures SetBody(Repeat(head, 7) + last) == (hb + hb + hb + hb + x) + (y + hb + hb + lb)
  {
    RepeatedBody(head, last, 7);
    RepeatSeven(hb);
    var four := hb + hb + hb + hb;
    var p := four + x;
    calc {
      Repeat(hb, 7) + lb;
      four + hb + hb + hb + lb;
      { Assoc(four, x, y); }
      p + y + hb + hb + lb;
      { Assoc(p, y, hb); }
      p + (y + hb) + hb + lb;
      { Assoc(p, y + hb, hb); }
      p + (y + hb + hb) + lb;
      { Assoc(p, y + hb + hb, lb); }
      p + (y + hb + hb + lb);
    }
  }

  /** Where the first screen chunk ends inside the fifth copy. */
  lemma HelloSpaceSplit()
    ensures "aGVsbG8gd29ybGQg" == "aGVsbG8gd29y" + "bGQg"
  {
  }

  /**
   * The base64 of eight "hello world" is 128 characters: seven times aGVsbG8gd29ybGQg and
   * then aGVsbG8gd29ybGQ=, which the chunking cuts after four copies and aGVsbG8gd29y.
   * The texts come in as parameters pinned to their literals so that the proof combines
   * the per-literal lemmas without the solver re-evaluating SetBody on the literals.
   */
  lemma LongBody(head: string, last: string, hb: string, lb: string, x: string, y: string)
    requires head == "hello world " && last == "hello world"
    requires hb == "aGVsbG8gd29ybGQg" && lb == "aGVsbG8gd29ybGQ=" && x == "aGVsbG8gd29y" && y == "bGQg"
    ensures SetBody(Repeat(head, 7) + last) == (hb + hb + hb + hb + x) + (y + hb + hb + lb)
  {
    HelloSpaceGroups();
    HelloSpaceBody();
    HelloWorldBody();
    HelloSpaceSplit();
    SevenThenLast(head, last, hb, lb, x, y);
  }

  /**
   * Eight "hello world" in screen mode: 128 base64 characters, cut after 76 into two
   * passthroughs (TestCopy.java:49-56). The expected text is the test's literal, written
   * as the pieces it is made of.
   */
  lemma CopyHelloWorldScreenLong()
    ensures Sequence(Copy(Repeat("hello world ", 7) + "hello world", System, Mode.Screen, 0))
         == "\U{1B}P\U{1B}]52;c;"
          + ("aGVsbG8gd29ybGQg" + "aGVsbG8gd29ybGQg" + "aGVsbG8gd29ybGQg" + "aGVsbG8gd29ybGQg" + "aGVsbG8gd29y")
          + "\U{1B}\\\U{1B}P"
          + ("bGQg" + "aGVsbG8gd29ybGQg" + "aGVsbG8gd29ybGQg" + "aGVsbG8gd29ybGQ=")
          + "\U{07}\U{1B}\\"
  {
    var c1 := "aGVsbG8gd29ybGQg" + "aGVsbG8gd29ybGQg" + "aGVsbG8gd29ybGQg" + "aGVsbG8gd29ybGQg" + "aGVsbG8gd29y";
    var c2 := "bGQg" + "aGVsbG8gd29ybGQg" + "aGVsbG8gd29ybGQg" + "aGVsbG8gd29ybGQ=";
    LongBody("hello world ", "hello world", "aGVsbG8gd29ybGQg", "aGVsbG8gd29ybGQ=", "aGVsbG8gd29y", "bGQg");
    LongFrame(c1, c2);
    CopyRendersTwoChunks(Repeat("hello world ", 7) + "hello world", System, 0, c1, c2,
      "\U{1B}P\U{1B}]52;c;" + c1 + "\U{1B}\\\U{1B}P" + c2 + "\U{07}\U{1B}\\");
  }

  lemma CopyHelloWorldLimit11()
    ensures Sequence(Copy("hello world", System, Default, 11)) == "\U{1B}]52;c;aGVsbG8gd29ybGQ=\U{07}"
  {
    HelloWorldBody();
    HelloFrameSystem();
    CopyRenders("hello world", System, Default, 11, "aGVsbG8gd29ybGQ=", "\U{1B}]52;c;aGVsbG8gd29ybGQ=\U{07}");
  }

  lemma CopyHelloWorldLimit10()
    ensures Sequence(Copy("hello world", System, Default, 10)) == ""
  {
    HelloWorldOctets();
  }

  lemma QuerySystem()
    ensures Sequence(OfQuery().WithClipboard(System).WithMode(Default)) == "\U{1B}]52;c;?\U{07}"
  {
  }

  lemma QueryPrimary()
    ensures Sequence(OfQuery().WithClipboard(Clipboard.Primary).WithMode(Default)) == "\U{1B}]52;p;?\U{07}"
  {
  }

  lemma QuerySystemTmux()
    ensures Sequence(OfQuery().WithClipboard(System).WithMode(Mode.Tmux))
         == "\U{1B}Ptmux;\U{1B}\U{1B}]52;c;?\U{07}\U{1B}\\"
  {
  }

  lemma QuerySystemScreen()
    ensures Sequence(OfQuery().WithClipboard(System).WithMode(Mode.Screen))
         == "\U{1B}P\U{1B}]52;c;?\U{07}\U{1B}\\"
  {
  }

  lemma QueryPrimaryTmux()
    ensures Sequence(OfQuery().WithClipboard(Clipboard.Primary).WithMode(Mode.Tmux))
         == "\U{1B}Ptmux;\U{1B}\U{1B}]52;p;?\U{07}\U{1B}\\"
  {
  }

  lemma QueryPrimaryScreen()
    ensures Sequence(OfQuery().WithClipboard(Clipboard.Primary).WithMode(Mode.Screen))
         == "\U{1B}P\U{1B}]52;p;?\U{07}\U{1B}\\"
  {
  }

  lemma ClearSystem()
    ensures Sequence(OfClear().WithClipboard(System).WithMode(Default)) == "\U{1B}]52;c;!\U{07}"
  {
  }

  lemma ClearSystemTmux()
    ensures Sequence(OfClear().WithClipboard(System).WithMode(Mode.Tmux))
         == "\U{1B}Ptmux;\U{1B}\U{1B}]52;c;!\U{07}\U{1B}\\"
  {
  }

  lemma ClearSystemScreen()
    ensures Sequence(OfClear().WithClipboard(System).WithMode(Mode.Screen))
         == "\U{1B}P\U{1B}]52;c;!\U{07}\U{1B}\\"
  {
  }

  /** Whatever the mode, a payload within a positive limit renders something. */
  lemma WithinLimitRenders(str: string, c: Clipboard, m: Mode, l: Int32)
    requires Utf8.Utf16Length(str) <= l
    ensures Sequence(Copy(str, c, m, l)) != ""
  {
    SuppressedIffEmpty(Copy(str, c, m, l));
  }

  lemma NullFrame()
    ensures Frame(Mode.Screen, System, "null") == "\U{1B}P\U{1B}]52;c;null\U{07}\U{1B}\\"
  {
  }

  /** No test covers it: an empty payload in screen mode leaves the only slot null, written "null". */
  lemma EmptyPayloadOnScreenWritesNull()
    ensures Sequence(Of([]).Screen()) == "\U{1B}P\U{1B}]52;c;null\U{07}\U{1B}\\"
  {
    var r := Of([]).Screen();
    assert r.str == "" && r.limit == 0;
    assert SetBody("") == "";
    ScreenSetBody(r);
    NullFrame();
  }

  lemma AcuteOctets()
    ensures Utf8.Encode("éééééé") == [0xC3, 0xA9, 0xC3, 0xA9, 0xC3, 0xA9, 0xC3, 0xA9, 0xC3, 0xA9, 0xC3, 0xA9]
  {
  }

  lemma AcuteUnits()
    ensures Utf8.Utf16Length("éééééé") == 6
  {
  }

  /** Six 'é' fit a limit of 10 (six UTF-16 units) although their UTF-8 is twelve octets. */
  lemma LimitCountsCharacters()
    ensures |Utf8.Encode("éééééé")| == 12
    ensures Sequence(Copy("éééééé", System, Default, 10)) != ""
  {
    AcuteOctets();
    AcuteUnits();
    WithinLimitRenders("éééééé", System, Default, 10);
  }
}
