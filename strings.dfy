/** The parts of java.lang.String that the sequence builder relies on. */
module Strings {

  /** String.join(sep, parts): the parts with one copy of sep between neighbours. */
  function Join(sep: string, parts: seq<string>): string
    decreases |parts|
  {
    if |parts| == 0 then ""
    else if |parts| == 1 then parts[0]
    else parts[0] + sep + Join(sep, parts[1..])
  }

  /** The parts glued together with nothing between them. */
  function Concat(parts: seq<string>): string
    decreases |parts|
  {
    if |parts| == 0 then "" else parts[0] + Concat(parts[1..])
  }

  /** Appending one more part adds one separator and the part at the end. */
  lemma {:induction false} JoinSnoc(sep: string, parts: seq<string>, last: string)
    requires |parts| > 0
    ensures Join(sep, parts + [last]) == Join(sep, parts) + sep + last
    decreases |parts|
  {
    if |parts| > 1 {
      assert (parts + [last])[1..] == parts[1..] + [last];
      JoinSnoc(sep, parts[1..], last);
    }
  }

  /** Joining two neighbouring parts first, with the separator, does not change the result. */
  lemma {:induction false} JoinMerge(sep: string, before: seq<string>, a: string, b: string, after: seq<string>)
    ensures Join(sep, before + [a, b] + after) == Join(sep, before + [a + sep + b] + after)
    decreases |before|
  {
    var xs := before + [a, b] + after;
    var ys := before + [a + sep + b] + after;
    if |before| == 0 {
      assert xs == [a, b] + after && ys == [a + sep + b] + after;
      assert xs[1..] == [b] + after && xs[1..][1..] == after;
      if |after| > 0 {
        assert ys[1..] == after;
      }
    } else {
      assert xs[1..] == before[1..] + [a, b] + after;
      assert ys[1..] == before[1..] + [a + sep + b] + after;
      JoinMerge(sep, before[1..], a, b, after);
    }
  }

  /** A slice of a suffix is a slice of the whole, shifted by where the suffix starts. */
  lemma SliceOfDrop<T>(s: seq<T>, d: nat, lo: nat, hi: nat)
    requires lo <= hi && d + hi <= |s|
    ensures s[d..][lo..hi] == s[d + lo .. d + hi]
  {
    forall j | 0 <= j < hi - lo ensures s[d..][lo..hi][j] == s[d + lo .. d + hi][j] {
    }
  }
}
