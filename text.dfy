/** The two pieces of Python string handling that `get_temp` relies on:
    `str.split(sep)` with a one-character separator, and its inverse `sep.join`. */
module Text {

  /** Python's `s.split(sep)`: the pieces of `s` between occurrences of `sep`.
      There is always at least one piece, and no piece contains the separator. */
  function Split(s: string, sep: char): (pieces: seq<string>)
    ensures |pieces| >= 1
    ensures forall k :: 0 <= k < |pieces| ==> sep !in pieces[k]
    decreases |s|
  {
    if s == [] then [""]
    else
      var rest := Split(s[1..], sep);
      if s[0] == sep then [""] + rest
      else [[s[0]] + rest[0]] + rest[1..]
  }

  /** Python's `sep.join(pieces)`. */
  function Join(pieces: seq<string>, sep: char): string
    decreases |pieces|
  {
    if pieces == [] then ""
    else if |pieces| == 1 then pieces[0]
    else pieces[0] + [sep] + Join(pieces[1..], sep)
  }

  /** The longest prefix of `s` that contains no character of `stop`. */
  function TakeUntil(s: string, stop: set<char>): (p: string)
    ensures p <= s
    ensures forall k :: 0 <= k < |p| ==> p[k] !in stop
    ensures |p| < |s| ==> s[|p|] in stop
    decreases |s|
  {
    if s == [] || s[0] in stop then ""
    else [s[0]] + TakeUntil(s[1..], stop)
  }

  /** The three properties in TakeUntil's contract determine its result. */
  lemma {:induction false} TakeUntilUnique(s: string, stop: set<char>, p: string)
    requires p <= s
    requires forall k :: 0 <= k < |p| ==> p[k] !in stop
    requires |p| < |s| ==> s[|p|] in stop
    ensures TakeUntil(s, stop) == p
  {
  }

  /** Cutting at one set of characters and then at another is cutting at both. */
  lemma {:induction false} TakeUntilTwice(s: string, a: set<char>, b: set<char>)
    ensures TakeUntil(TakeUntil(s, a), b) == TakeUntil(s, a + b)
    decreases |s|
  {
    if s != [] && s[0] !in a {
      var t := TakeUntil(s[1..], a);
      assert ([s[0]] + t)[1..] == t;
      TakeUntilTwice(s[1..], a, b);
    }
  }

  /** Joining the pieces of a split gives back the original string. */
  lemma {:induction false} JoinSplit(s: string, sep: char)
    ensures Join(Split(s, sep), sep) == s
    decreases |s|
  {
    if s != [] {
      var rest := Split(s[1..], sep);
      JoinSplit(s[1..], sep);
      if s[0] == sep {
        assert ([""] + rest)[1..] == rest;
      } else if |rest| > 1 {
        var pieces := [[s[0]] + rest[0]] + rest[1..];
        assert pieces[1..] == rest[1..];
        assert Join(rest, sep) == rest[0] + [sep] + Join(rest[1..], sep);
      }
    }
  }

  /** A separator-free string followed by a separator contributes exactly one piece. */
  lemma {:induction false} SplitAfterPiece(a: string, sep: char, b: string)
    requires sep !in a
    ensures Split(a + [sep] + b, sep) == [a] + Split(b, sep)
    decreases |a|
  {
    var s := a + [sep] + b;
    if a == [] {
      assert s[1..] == b;
    } else {
      assert s[1..] == a[1..] + [sep] + b;
      SplitAfterPiece(a[1..], sep, b);
      assert [a[0]] + a[1..] == a;
    }
  }

  /** A string without the separator is a single piece. */
  lemma {:induction false} SplitWithoutSeparator(s: string, sep: char)
    requires sep !in s
    ensures Split(s, sep) == [s]
    decreases |s|
  {
    if s != [] {
      SplitWithoutSeparator(s[1..], sep);
      assert [s[0]] + s[1..] == s;
    }
  }

  /** Splitting undoes joining, for at least one piece none of which holds the separator. */
  lemma {:induction false} SplitJoin(pieces: seq<string>, sep: char)
    requires |pieces| >= 1
    requires forall k :: 0 <= k < |pieces| ==> sep !in pieces[k]
    ensures Split(Join(pieces, sep), sep) == pieces
    decreases |pieces|
  {
    if |pieces| == 1 {
      SplitWithoutSeparator(pieces[0], sep);
    } else {
      SplitJoin(pieces[1..], sep);
      SplitAfterPiece(pieces[0], sep, Join(pieces[1..], sep));
    }
  }

  /** There is one more piece than there are separators in the string. */
  lemma {:induction false} SplitCount(s: string, sep: char)
    ensures |Split(s, sep)| == multiset(s)[sep] + 1
    decreases |s|
  {
    if s != [] {
      SplitCount(s[1..], sep);
      assert s == [s[0]] + s[1..];
      assert multiset(s) == multiset([s[0]]) + multiset(s[1..]);
    }
  }

  /** The first piece is everything before the first separator. */
  lemma {:induction false} SplitFirstPiece(s: string, sep: char)
    ensures Split(s, sep)[0] == TakeUntil(s, {sep})
    decreases |s|
  {
    if s != [] && s[0] != sep {
      SplitFirstPiece(s[1..], sep);
    }
  }

  /** When the separator occurs, the pieces are the text before its first occurrence followed by the
      pieces of the text after it. */
  lemma {:induction false} SplitAtFirst(s: string, sep: char)
    requires sep in s
    ensures var i := |TakeUntil(s, {sep})|;
      i < |s| && s[i] == sep && Split(s, sep) == [s[..i]] + Split(s[i + 1..], sep)
  {
    var i := |TakeUntil(s, {sep})|;
    assert s == s[..i] + [sep] + s[i + 1..];
    SplitAfterPiece(s[..i], sep, s[i + 1..]);
  }
}
