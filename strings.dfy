/** Joining string lists with a separator (Python's `sep.join(xs)`), and the
    reading back of a `", "`-joined list. */
module Strings {

  /** Python's `sep.join(xs)`. */
  function Join(xs: seq<string>, sep: string): (r: string)
    ensures |xs| == 0 ==> r == ""
    ensures |xs| > 0 ==> xs[0] <= r
  {
    if |xs| == 0 then ""
    else if |xs| == 1 then xs[0]
    else xs[0] + sep + Join(xs[1..], sep)
  }

  /** Putting a character before the first item puts it before the
      joined string. */
  lemma JoinOntoFirst(c: char, xs: seq<string>, sep: string)
    requires |xs| > 0
    ensures Join([[c] + xs[0]] + xs[1..], sep) == [c] + Join(xs, sep)
  {
    var ys := [[c] + xs[0]] + xs[1..];
    assert ys[1..] == xs[1..];
  }

  /** A character that occurs in no item and not in the separator does not
      occur in the joined string. */
  lemma {:induction false} JoinAvoids(xs: seq<string>, sep: string, c: char)
    requires c !in sep
    requires forall i :: 0 <= i < |xs| ==> c !in xs[i]
    ensures c !in Join(xs, sep)
  {
    if |xs| > 1 {
      JoinAvoids(xs[1..], sep, c);
      assert forall i :: 0 <= i < |xs[1..]| ==> xs[1..][i] == xs[i + 1];
    }
  }

  /** The index of the first `c` in `s`, or `|s|` when there is none. */
  function IndexOf(s: string, c: char): (i: nat)
    ensures i <= |s|
    ensures i < |s| ==> s[i] == c
    ensures forall j :: 0 <= j < i ==> s[j] != c
  {
    if s == [] then 0
    else if s[0] == c then 0
    else 1 + IndexOf(s[1..], c)
  }

  /** Reads a `", "`-separated list back into its items: it cuts at each
      comma and drops one blank that follows it. */
  function SplitList(s: string): seq<string>
    decreases |s|
  {
    var i := IndexOf(s, ',');
    if i == |s| then [s]
    else
      var rest := s[i + 1..];
      [s[..i]] + SplitList(if |rest| > 0 && rest[0] == ' ' then rest[1..] else rest)
  }

  lemma IndexOfConcat(a: string, b: string, c: char)
    requires c !in a && |b| > 0 && b[0] == c
    ensures IndexOf(a + b, c) == |a|
  {
    assert (a + b)[|a|] == c;
  }

  /** Joining with `", "` and reading the list back gives the items again,
      provided no item holds a comma. */
  lemma {:induction false} SplitJoin(xs: seq<string>)
    requires |xs| > 0
    requires forall k :: 0 <= k < |xs| ==> ',' !in xs[k]
    ensures SplitList(Join(xs, ", ")) == xs
  {
    if |xs| == 1 {
      assert IndexOf(xs[0], ',') == |xs[0]|;
    } else {
      var tail := Join(xs[1..], ", ");
      var s := xs[0] + ", " + tail;
      assert s == xs[0] + (", " + tail);
      IndexOfConcat(xs[0], ", " + tail, ',');
      assert s[..|xs[0]|] == xs[0];
      assert s[|xs[0]| + 1..] == " " + tail;
      assert (" " + tail)[1..] == tail;
      SplitJoin(xs[1..]);
      assert [xs[0]] + xs[1..] == xs;
    }
  }
}
