/**
 * The OSC 52 sequence builder: xterm's "Manipulate Selection Data" control (OSC Ps = 52),
 * optionally wrapped for the screen and tmux terminal multiplexers.
 *
 * A request is an immutable record; every setter returns a copy with one field replaced.
 * Rendering writes ESC ] 52 ; <selector> ; <body> BEL between the multiplexer's opening
 * and closing escapes.
 */
module Osc52 {
  import opened Basics
  import Strings
  import Utf8
  import Base64

  /** Which multiplexer convention wraps the sequence. */
  datatype Mode = Default | Screen | Tmux

  /** What the terminal is asked to do with the selection. */
  datatype Operation = Set | Query | Clear

  /** Which selection buffer is targeted. */
  datatype Clipboard = System | Primary

  /** The character naming the buffer inside the sequence. */
  function Selector(c: Clipboard): char {
    match c
    case System => 'c'
    case Primary => 'p'
  }

  const ESC: char := '\U{1B}'
  const BEL: char := '\U{07}'

  /** Java's int. */
  type Int32 = x: int | -0x8000_0000 <= x < 0x8000_0000

  /** A stored limit: never negative; 0 means "no limit". */
  type Limit = x: Int32 | 0 <= x

  /** One OSC 52 request: the payload text, the limit, the operation, the mode and the buffer. */
  datatype Request = Request(str: string, limit: Limit, op: Operation, mode: Mode, clipboard: Clipboard)
  {
    /** A copy with another mode. */
    function WithMode(m: Mode): (r: Request)
      ensures r == this.(mode := m)
    {
      Make(str, limit, op, m, clipboard)
    }

    /** Shortcut for WithMode(Tmux). */
    function Tmux(): (r: Request)
      ensures r == this.(mode := Mode.Tmux)
    {
      WithMode(Mode.Tmux)
    }

    /** Shortcut for WithMode(Screen). */
    function Screen(): (r: Request)
      ensures r == this.(mode := Mode.Screen)
    {
      WithMode(Mode.Screen)
    }

    /** A copy targeting another buffer. */
    function WithClipboard(c: Clipboard): (r: Request)
      ensures r == this.(clipboard := c)
    {
      Make(str, limit, op, mode, c)
    }

    /** Shortcut for WithClipboard(Primary). */
    function Primary(): (r: Request)
      ensures r == this.(clipboard := Clipboard.Primary)
    {
      WithClipboard(Clipboard.Primary)
    }

    /** A copy with another limit; zero and negative values both switch the limit off. */
    function WithLimit(l: Int32): (r: Request)
      ensures r.limit >= 0 && r.limit >= l && (r.limit == l || r.limit == 0)
      ensures r == this.(limit := r.limit)
    {
      Make(str, l, op, mode, clipboard)
    }

    /** A copy with another operation. */
    function WithOperation(o: Operation): (r: Request)
      ensures r == this.(op := o)
    {
      Make(str, limit, o, mode, clipboard)
    }

    /** Shortcut for WithOperation(Clear). */
    function Clear(): (r: Request)
      ensures r == this.(op := Operation.Clear)
    {
      WithOperation(Operation.Clear)
    }

    /** Shortcut for WithOperation(Query). */
    function Query(): (r: Request)
      ensures r == this.(op := Operation.Query)
    {
      WithOperation(Operation.Query)
    }

    /** A copy whose payload is the given strings joined by single spaces. */
    function WithString(strs: seq<string>): (r: Request)
      ensures r == this.(str := Strings.Join(" ", strs))
    {
      Make(Strings.Join(" ", strs), limit, op, mode, clipboard)
    }
  }

  /** The record's only constructor: it stores max(0, limit) and every other argument as given. */
  function Make(str: string, limit: Int32, op: Operation, mode: Mode, clipboard: Clipboard): (r: Request)
    ensures r.limit >= 0 && r.limit >= limit && (r.limit == limit || r.limit == 0)
    ensures r.str == str && r.op == op && r.mode == mode && r.clipboard == clipboard
  {
    Request(str, if limit > 0 then limit else 0, op, mode, clipboard)
  }

  /** A Set request for the given strings joined by single spaces, with every other field at its default. */
  function Of(strs: seq<string>): (r: Request)
    ensures r.str == Strings.Join(" ", strs)
    ensures r.limit == 0 && r.op == Set && r.mode == Default && r.clipboard == System
  {
    Make(Strings.Join(" ", strs), 0, Set, Default, System)
  }

  /** Of() with the operation set to Query. */
  function OfQuery(): (r: Request)
    ensures r == Request("", 0, Operation.Query, Default, System)
  {
    Of([]).Query()
  }

  /** Of() with the operation set to Clear. */
  function OfClear(): (r: Request)
    ensures r == Request("", 0, Operation.Clear, Default, System)
  {
    Of([]).Clear()
  }

  /** The structural equality of the record: all five fields agree. */
  predicate Equals(a: Request, b: Request) {
    && a.mode == b.mode
    && a.op == b.op
    && a.clipboard == b.clipboard
    && a.limit == b.limit
    && a.str == b.str
  }

  // ---------------------------------------------------------------------------------------
  // Rendering
  // ---------------------------------------------------------------------------------------

  /** The multiplexer's opening escape: DCS for screen, a DCS "tmux;" passthrough with a doubled ESC for tmux. */
  function SeqStart(m: Mode): string {
    match m
    case Tmux => [ESC] + "Ptmux;" + [ESC]
    case Screen => [ESC, 'P']
    case Default => ""
  }

  /** The multiplexer's closing escape: the string terminator ESC \ for screen and tmux. */
  function SeqEnd(m: Mode): string {
    match m
    case Tmux => [ESC, '\\']
    case Screen => [ESC, '\\']
    case Default => ""
  }

  /** OSC 52 ; <selector> ; */
  function Header(c: Clipboard): string {
    [ESC, ']', '5', '2', ';', Selector(c), ';']
  }

  /** Closes one screen DCS passthrough and opens the next, between base64 chunks. */
  const ScreenSeparator: string := [ESC, '\\', ESC, 'P']

  /**
   * A Set whose payload is longer than a positive limit renders nothing. The payload is
   * measured by String.length(), in UTF-16 code units.
   */
  predicate Suppressed(r: Request) {
    r.op == Set && r.limit > 0 && Utf8.Utf16Length(r.str) > r.limit
  }

  /** The Set body before any chunking: the base64 of the payload's UTF-8. */
  function SetBody(str: string): string {
    Base64.Encode(Utf8.Encode(str))
  }

  /** What a terminal does with a Set body: base64-decode it, then UTF-8-decode the octets. */
  function DecodeBody(body: string): Option<string> {
    match Base64.Decode(body)
    case None => None
    case Some(octets) => Utf8.Decode(octets)
  }

  /** The text cut into 76-character pieces, the last one possibly shorter. */
  function Chunks(b: string): (cs: seq<string>)
    ensures 76 * |cs| - 76 < |b| <= 76 * |cs|
    decreases |b|
  {
    if |b| == 0 then []
    else if |b| <= 76 then [b]
    else [b[..76]] + Chunks(b[76..])
  }

  /** The chunks are non-empty, all but the last hold exactly 76 characters, and together they are the text. */
  lemma {:induction false} ChunksPartition(b: string)
    ensures var cs := Chunks(b);
      && (forall i :: 0 <= i < |cs| ==> 0 < |cs[i]| <= 76)
      && (forall i :: 0 <= i < |cs| - 1 ==> |cs[i]| == 76)
      && Strings.Concat(cs) == b
    decreases |b|
  {
    if |b| > 76 {
      var rest := b[76..];
      ChunksPartition(rest);
      var cs := Chunks(b);
      assert cs[1..] == Chunks(rest);
      assert b[..76] + rest == b;
    }
  }

  /** A slot of the Java String[] built for screen: unassigned (null) or holding a chunk. */
  datatype Slot = Null | Chunk(text: string)

  /** How String.join writes a slot: a null element becomes the four letters "null". */
  function SlotText(s: Slot): string {
    match s
    case Null => "null"
    case Chunk(t) => t
  }

  function Texts(slots: seq<Slot>): seq<string> {
    seq(|slots|, i requires 0 <= i < |slots| => SlotText(slots[i]))
  }

  function ChunkSlots(cs: seq<string>): seq<Slot> {
    seq(|cs|, i requires 0 <= i < |cs| => Chunk(cs[i]))
  }

  /**
   * The array that the screen branch fills: |b| / 76 + 1 slots, one per chunk, and one
   * more left null when |b| is a multiple of 76 (zero included).
   */
  function ScreenSlots(b: string): seq<Slot> {
    ChunkSlots(Chunks(b)) + (if |b| % 76 == 0 then [Null] else [])
  }

  /** The body between "52;c;" and BEL. */
  function Body(r: Request): string {
    match r.op
    case Query => "?"
    case Clear => "!"
    case Set =>
      var b := SetBody(r.str);
      if r.mode == Mode.Screen then Strings.Join(ScreenSeparator, Texts(ScreenSlots(b))) else b
  }

  /** A body framed by the mode's escapes, the header and BEL. */
  function Frame(m: Mode, c: Clipboard, body: string): string {
    SeqStart(m) + Header(c) + body + [BEL] + SeqEnd(m)
  }

  /** The text toString() returns. */
  function Sequence(r: Request): string {
    if Suppressed(r) then "" else Frame(r.mode, r.clipboard, Body(r))
  }

  function Min(a: int, b: int): int { if a < b then a else b }

  /** Chunk k is the substring the screen loop cuts at offset 76 * k. */
  lemma {:induction false} ChunkAt(b: string, k: nat)
    requires k < |Chunks(b)|
    ensures Chunks(b)[k] == b[76 * k .. Min(76 * k + 76, |b|)]
    decreases |b|
  {
    if |b| > 76 && k > 0 {
      var rest := b[76..];
      assert Chunks(b)[k] == Chunks(rest)[k - 1];
      ChunkAt(rest, k - 1);
      var lo := 76 * (k - 1);
      var hi := Min(lo + 76, |rest|);
      assert 76 + lo == 76 * k && 76 + hi == Min(76 * k + 76, |b|);
      Strings.SliceOfDrop(b, 76, lo, hi);
    }
  }

  /**
   * The screen array has |b| / 76 + 1 slots: one per chunk, and one more exactly when
   * |b| is a multiple of 76.
   */
  lemma SlotCount(len: nat, chunks: nat)
    requires 76 * chunks - 76 < len <= 76 * chunks
    ensures len / 76 + 1 == chunks + (if len % 76 == 0 then 1 else 0)
  {
    var q, r := len / 76, len % 76;
    assert len == 76 * q + r;
    if r == 0 {
      assert chunks == q;
    } else {
      assert chunks == q + 1;
    }
  }

  /** The screen branch: fills a String[] slot by slot, as the source's loop does. */
  method SplitForScreen(b64: string) returns (s: array<Slot>)
    ensures s[..] == ScreenSlots(b64)
  {
    s := new Slot[|b64| / 76 + 1](_ => Null);
    ghost var cs := Chunks(b64);
    SlotCount(|b64|, |cs|);
    var i := 0;
    ghost var n := 0;
    while i < |b64|
      invariant i == 76 * n && 0 <= n <= |cs|
      invariant n < |cs| <==> i < |b64|
      invariant forall k :: 0 <= k < n ==> s[k] == Chunk(cs[k])
      invariant forall k :: n <= k < s.Length ==> s[k] == Null
    {
      var end := i + 76;
      if end > |b64| {
        end := |b64|;
      }
      ChunkAt(b64, n);
      assert i / 76 == n;
      s[i / 76] := Chunk(b64[i..end]);
      i := i + 76;
      n := n + 1;
    }
    assert s[..] == ScreenSlots(b64);
  }

  /** toString(): appends piece by piece, returning "" early for an over-limit Set. */
  method Render(r: Request) returns (out: string)
    ensures out == Sequence(r)
  {
    var sb := SeqStart(r.mode);
    sb := sb + Header(r.clipboard);
    match r.op {
      case Set =>
        if r.limit > 0 && Utf8.Utf16Length(r.str) > r.limit {
          return "";
        }
        var b64 := Base64.Encode(Utf8.Encode(r.str));
        if r.mode == Mode.Screen {
          var s := SplitForScreen(b64);
          sb := sb + Strings.Join(ScreenSeparator, Texts(s[..]));
        } else {
          sb := sb + b64;
        }
      case Query =>
        sb := sb + "?";
      case Clear =>
        sb := sb + "!";
    }
    sb := sb + [BEL];
    sb := sb + SeqEnd(r.mode);
    out := sb;
  }

  // ---------------------------------------------------------------------------------------
  // Properties
  // ---------------------------------------------------------------------------------------

  /** The stored limit is max(0, l): zero and every negative value alike mean "no limit". */
  lemma NonPositiveLimitMeansNoLimit(r: Request, l: Int32)
    requires l <= 0
    ensures r.WithLimit(l) == r.WithLimit(0)
    ensures r.WithLimit(l).limit == 0
    ensures !Suppressed(r.WithLimit(l)) && Sequence(r.WithLimit(l)) != ""
  {
  }

  /** Several payload strings are stored joined by single spaces: of("a", "b") is of("a b"). */
  lemma OfJoinsWithSpace(before: seq<string>, a: string, b: string, after: seq<string>, r: Request)
    ensures Of(before + [a, b] + after) == Of(before + [a + " " + b] + after)
    ensures r.WithString(before + [a, b] + after) == r.WithString(before + [a + " " + b] + after)
  {
    Strings.JoinMerge(" ", before, a, b, after);
  }

  /** The render is empty exactly for an over-limit Set; every other request renders a framed sequence. */
  lemma SuppressedIffEmpty(r: Request)
    ensures Sequence(r) == "" <==> Suppressed(r)
    ensures !Suppressed(r) ==> Sequence(r) == Frame(r.mode, r.clipboard, Body(r))
  {
  }

  /** An over-limit Set renders "" whatever the mode and the buffer. */
  lemma OverLimitSetRendersNothing(r: Request, m: Mode, c: Clipboard)
    requires r.op == Set && r.limit > 0 && Utf8.Utf16Length(r.str) > r.limit
    ensures Sequence(r.WithMode(m).WithClipboard(c)) == ""
  {
  }

  /**
   * The limit counts UTF-16 code units, not octets: whatever it suppresses is also over
   * the limit in octets, and for ASCII payloads the two rules agree.
   */
  lemma LimitCountsUnitsNotOctets(r: Request)
    ensures Suppressed(r) ==> r.op == Set && r.limit > 0 && |Utf8.Encode(r.str)| > r.limit
    ensures Utf8.IsAscii(r.str) ==>
      (Suppressed(r) <==> r.op == Set && r.limit > 0 && |Utf8.Encode(r.str)| > r.limit)
  {
    Utf8.Utf16LengthAtMostOctets(r.str);
  }

  /** Query and Clear bodies are the single characters '?' and '!', whatever the payload and the limit. */
  lemma QueryAndClearIgnorePayload(r: Request, strs: seq<string>, l: Int32)
    requires r.op != Set
    ensures Sequence(r) == Frame(r.mode, r.clipboard, if r.op == Operation.Query then "?" else "!")
    ensures Sequence(r.WithString(strs).WithLimit(l)) == Sequence(r)
  {
  }

  /**
   * A Set body is 4 * ceil(n / 3) characters of the base64 alphabet and padding, for the n
   * octets of the payload's UTF-8, and decoding it gives the payload back.
   */
  lemma SetBodyRecoversPayload(str: string)
    ensures |SetBody(str)| == 4 * ((|Utf8.Encode(str)| + 2) / 3)
    ensures Base64.IsPadded(SetBody(str))
    ensures DecodeBody(SetBody(str)) == Some(str)
  {
    var octets := Utf8.Encode(str);
    Base64.EncodeLength(octets);
    Base64.EncodeAlphabet(octets);
    Base64.DecodeEncode(octets);
    Utf8.DecodeEncode(str);
  }

  /** A payload whose UTF-8 is a whole number of 3-octet groups encodes independently of what follows it. */
  lemma SetBodyAppend(a: string, b: string)
    requires |Utf8.Encode(a)| % 3 == 0
    ensures SetBody(a + b) == SetBody(a) + SetBody(b)
  {
    Utf8.EncodeAppend(a, b);
    Base64.EncodeAppend(Utf8.Encode(a), Utf8.Encode(b));
  }

  /** Outside screen, a Set that is not over the limit carries its body unbroken between the header and BEL. */
  lemma SetIsFramedBody(r: Request)
    requires r.op == Set && r.mode != Mode.Screen && !Suppressed(r)
    ensures Sequence(r) == Frame(r.mode, r.clipboard, SetBody(r.str))
  {
  }

  /** A frame in any mode is the unwrapped frame between the mode's opening and closing escapes. */
  lemma FrameWraps(m: Mode, c: Clipboard, body: string)
    ensures Frame(m, c, body) == SeqStart(m) + Frame(Mode.Default, c, body) + SeqEnd(m)
  {
    var inner := Header(c) + body + [BEL];
    assert Frame(Mode.Default, c, body) == inner;
    calc {
      Frame(m, c, body);
      SeqStart(m) + Header(c) + body + [BEL] + SeqEnd(m);
      SeqStart(m) + inner + SeqEnd(m);
    }
  }

  /**
   * The frame written out for each mode: ESC ] 5 2 ; selector ; body BEL, preceded by
   * nothing, ESC P tmux ; ESC or ESC P and followed by nothing, ESC \ or ESC \.
   */
  lemma FrameText(m: Mode, c: Clipboard, body: string)
    ensures m == Default ==> Frame(m, c, body) == "\U{1B}]52;" + [Selector(c)] + ";" + body + "\U{07}"
    ensures m == Mode.Tmux ==>
      Frame(m, c, body) == "\U{1B}Ptmux;\U{1B}" + "\U{1B}]52;" + [Selector(c)] + ";" + body + "\U{07}" + "\U{1B}\\"
    ensures m == Mode.Screen ==>
      Frame(m, c, body) == "\U{1B}P" + "\U{1B}]52;" + [Selector(c)] + ";" + body + "\U{07}" + "\U{1B}\\"
  {
  }

  /** tmux wrapping: ESC P tmux ; ESC before and ESC \ after the unwrapped sequence. */
  lemma TmuxWrapsDefault(r: Request)
    requires !Suppressed(r)
    ensures Sequence(r.Tmux()) == [ESC] + "Ptmux;" + [ESC] + Sequence(r.WithMode(Default)) + [ESC, '\\']
  {
    var t, d := r.Tmux(), r.WithMode(Default);
    assert Body(t) == Body(d);
    FrameWraps(Mode.Tmux, r.clipboard, Body(d));
  }

  /**
   * screen wrapping: ESC P before and ESC \ after the unwrapped sequence, for Query, Clear
   * and a Set whose base64 is shorter than one chunk.
   */
  lemma ScreenWrapsDefault(r: Request)
    requires !Suppressed(r)
    requires r.op != Set || 0 < |SetBody(r.str)| < 76
    ensures Sequence(r.Screen()) == [ESC, 'P'] + Sequence(r.WithMode(Default)) + [ESC, '\\']
  {
    var sc, d := r.Screen(), r.WithMode(Default);
    if r.op == Set {
      var b := SetBody(r.str);
      assert Chunks(b) == [b];
      assert Texts(ScreenSlots(b)) == [b];
    }
    assert Body(sc) == Body(d);
    FrameWraps(Mode.Screen, r.clipboard, Body(d));
  }

  /**
   * The screen Set body: the base64 cut into 76-character chunks (they concatenate back to
   * it; all but the last are full) joined by ESC \ ESC P. When the base64 length is a
   * multiple of 76 the array keeps one null slot, which is written as "null".
   */
  lemma {:induction false} ScreenSetBody(r: Request)
    requires r.op == Set && r.mode == Mode.Screen && !Suppressed(r)
    ensures var b := SetBody(r.str); var cs := Chunks(b);
      && Strings.Concat(cs) == b
      && (forall i :: 0 <= i < |cs| - 1 ==> |cs[i]| == 76)
      && (|b| % 76 != 0 ==>
            Sequence(r) == Frame(Mode.Screen, r.clipboard, Strings.Join(ScreenSeparator, cs)))
      && (|b| % 76 == 0 && |b| > 0 ==>
            Sequence(r) == Frame(Mode.Screen, r.clipboard, Strings.Join(ScreenSeparator, cs) + ScreenSeparator + "null"))
      && (|b| == 0 ==> Sequence(r) == Frame(Mode.Screen, r.clipboard, "null"))
  {
    var b := SetBody(r.str);
    var cs := Chunks(b);
    ChunksPartition(b);
    if |b| % 76 != 0 {
      assert Texts(ScreenSlots(b)) == cs;
    } else {
      assert Texts(ScreenSlots(b)) == cs + ["null"];
      if |b| > 0 {
        Strings.JoinSnoc(ScreenSeparator, cs, "null");
      }
    }
  }

  /** The record's equality compares all five fields, and equal requests render the same text. */
  lemma EqualsIsStructural(a: Request, b: Request)
    ensures Equals(a, b) <==> a == b
    ensures Equals(a, b) ==> Sequence(a) == Sequence(b)
  {
  }
}
