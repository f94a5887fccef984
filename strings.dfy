/** The Python `str` operations the service applies to catalog text and to
    planet names: `split` with a one-character separator, `strip` and
    `lower`, on the ASCII range. `Join` is the inverse of `Split` and is used
    to state what a rendered CSV text is made of. */
module Strings {

  /** Python's `str.isspace()` on ASCII: space, tab, line feed, vertical tab,
      form feed, carriage return and the four separator controls 0x1C-0x1F. */
  predicate IsSpace(c: char) {
    var k := c as int;
    k == 32 || 9 <= k <= 13 || 28 <= k <= 31
  }

  predicate AllSpace(s: string) {
    forall k :: 0 <= k < |s| ==> IsSpace(s[k])
  }

  /** True of a text with no whitespace at either end (the empty text included). */
  predicate Trimmed(s: string) {
    s == [] || (!IsSpace(s[0]) && !IsSpace(s[|s| - 1]))
  }

  /** `sep.join(parts)`. */
  function Join(parts: seq<string>, sep: char): string
    decreases |parts|
  {
    if |parts| == 0 then ""
    else if |parts| == 1 then parts[0]
    else parts[0] + [sep] + Join(parts[1..], sep)
  }

  /** `s.split(sep)`: the pieces between occurrences of `sep`, always at least
      one and none containing `sep` (`SplitThenJoin` shows that joined by
      `sep` they give back `s`). */
  function Split(s: string, sep: char): (parts: seq<string>)
    ensures |parts| >= 1
    ensures forall k :: 0 <= k < |parts| ==> sep !in parts[k]
    decreases |s|
  {
    if |s| == 0 then [""]
    else
      var rest := Split(s[1..], sep);
      if s[0] == sep then [""] + rest
      else
        var parts := [[s[0]] + rest[0]] + rest[1..];
        assert forall k :: 1 <= k < |parts| ==> parts[k] == rest[k];
        parts
  }

  /** Round trip: joining the pieces of a split by its separator gives back
      the text. */
  lemma {:induction false} SplitThenJoin(s: string, sep: char)
    ensures Join(Split(s, sep), sep) == s
    decreases |s|
  {
    if |s| > 0 {
      SplitThenJoin(s[1..], sep);
      var rest := Split(s[1..], sep);
      if s[0] == sep {
        assert s == [sep] + s[1..];
      } else {
        var parts := Split(s, sep);
        assert parts[1..] == rest[1..];
        assert Join(parts, sep) == [s[0]] + Join(rest, sep);
      }
    }
  }

  /** Splitting a text with no separator in it gives the text alone. */
  lemma {:induction false} SplitNoSeparator(s: string, sep: char)
    requires sep !in s
    ensures Split(s, sep) == [s]
    decreases |s|
  {
    if |s| > 0 {
      SplitNoSeparator(s[1..], sep);
      assert [s[0]] + s[1..] == s;
    }
  }

  /** A text that has no separator, then a separator, then anything: its
      first piece is that text and the remaining pieces are those of the rest. */
  lemma {:induction false} SplitAfterSeparator(x: string, sep: char, y: string)
    requires sep !in x
    ensures Split(x + [sep] + y, sep) == [x] + Split(y, sep)
    decreases |x|
  {
    if |x| == 0 {
      assert x + [sep] + y == [sep] + y;
      assert ([sep] + y)[1..] == y;
    } else {
      var s := x + [sep] + y;
      assert s[1..] == x[1..] + [sep] + y;
      SplitAfterSeparator(x[1..], sep, y);
      assert [x[0]] + x[1..] == x;
    }
  }

  /** A text that starts with `x`, a separator, then `y` up to the next
      separator or the end: its first two pieces are `x` and `y`, and they are
      all its pieces when nothing follows `y`. */
  lemma SplitFirstTwo(x: string, y: string, tail: string, sep: char)
    requires sep !in x && sep !in y && (tail == [] || tail[0] == sep)
    ensures var p := Split(x + [sep] + y + tail, sep); |p| >= 2 && p[0] == x && p[1] == y
    ensures tail == [] ==> Split(x + [sep] + y + tail, sep) == [x, y]
  {
    assert x + [sep] + y + tail == x + [sep] + (y + tail);
    SplitAfterSeparator(x, sep, y + tail);
    if tail == [] {
      assert y + tail == y;
      SplitNoSeparator(y, sep);
    } else {
      assert y + tail == y + [sep] + tail[1..];
      SplitAfterSeparator(y, sep, tail[1..]);
    }
  }

  /** Round trip: splitting the join of separator-free pieces gives them back. */
  lemma {:induction false} SplitJoin(parts: seq<string>, sep: char)
    requires |parts| >= 1
    requires forall k :: 0 <= k < |parts| ==> sep !in parts[k]
    ensures Split(Join(parts, sep), sep) == parts
    decreases |parts|
  {
    if |parts| == 1 {
      SplitNoSeparator(parts[0], sep);
    } else {
      SplitJoin(parts[1..], sep);
      SplitAfterSeparator(parts[0], sep, Join(parts[1..], sep));
      assert [parts[0]] + parts[1..] == parts;
    }
  }

  /** A join of three or more pieces, terminated: the first piece, the
      second, then a separator and the rest. */
  lemma JoinFirstTwo(parts: seq<string>, sep: char)
    requires |parts| >= 3
    ensures Join(parts, sep) + [sep] == parts[0] + [sep] + parts[1] + ([sep] + Join(parts[2..], sep) + [sep])
  {
    assert parts[1..][1..] == parts[2..];
  }

  /** A join begins with its first piece. */
  lemma JoinFirst(parts: seq<string>, sep: char)
    requires |parts| >= 1
    ensures Join(parts, sep)[..|parts[0]|] == parts[0]
  {
  }

  /** A join ends with its last piece. */
  lemma {:induction false} JoinLast(parts: seq<string>, sep: char)
    requires |parts| >= 1
    ensures var j := Join(parts, sep); var p := parts[|parts| - 1];
      |p| <= |j| && j[|j| - |p|..] == p
    decreases |parts|
  {
    if |parts| > 1 {
      JoinLast(parts[1..], sep);
    }
  }

  /** A character that is neither the separator nor in any piece is not in
      their join. */
  lemma {:induction false} JoinExcludes(parts: seq<string>, sep: char, c: char)
    requires c != sep
    requires forall k :: 0 <= k < |parts| ==> c !in parts[k]
    ensures c !in Join(parts, sep)
    decreases |parts|
  {
    if |parts| > 1 {
      JoinExcludes(parts[1..], sep, c);
    }
  }

  /** A join whose first piece does not begin, and whose last piece does not
      end, with whitespace is trimmed. */
  lemma JoinTrimmed(parts: seq<string>, sep: char)
    requires |parts| >= 1 && |parts[0]| >= 1 && |parts[|parts| - 1]| >= 1
    requires !IsSpace(parts[0][0]) && Trimmed(parts[|parts| - 1])
    ensures |Join(parts, sep)| >= 1 && Trimmed(Join(parts, sep))
  {
    var j, p := Join(parts, sep), parts[|parts| - 1];
    JoinFirst(parts, sep);
    JoinLast(parts, sep);
    assert j[0] == j[..|parts[0]|][0] == parts[0][0];
    assert j[|j| - 1] == j[|j| - |p|..][|p| - 1] == p[|p| - 1];
  }

  /** `s.strip()`: whitespace is dropped from the front, then from the back,
      until neither end is whitespace. The result is trimmed, no longer than
      `s`, and a text already trimmed is returned as is (`StripSlice` shows
      it is the slice of `s` between whitespace-only ends). */
  function Strip(s: string): (r: string)
    ensures |r| <= |s|
    ensures Trimmed(r)
    ensures Trimmed(s) ==> r == s
    decreases |s|
  {
    if |s| > 0 && IsSpace(s[0]) then Strip(s[1..])
    else if |s| > 0 && IsSpace(s[|s| - 1]) then Strip(s[..|s| - 1])
    else s
  }

  /** Where the stripped text starts in `s`: the number of whitespace
      characters `s` begins with (all of them when `s` is only whitespace). */
  function StripStart(s: string): (n: nat)
    ensures n <= |s|
    decreases |s|
  {
    if |s| > 0 && IsSpace(s[0]) then 1 + StripStart(s[1..])
    else if |s| > 0 && IsSpace(s[|s| - 1]) then StripStart(s[..|s| - 1])
    else 0
  }

  /** `r` is the slice of `s` starting at `i`, with only whitespace before
      and after it. */
  predicate SpaceAround(s: string, i: nat, r: string) {
    && i + |r| <= |s| && r == s[i..i + |r|]
    && AllSpace(s[..i]) && AllSpace(s[i + |r|..])
  }

  /** Putting a whitespace character in front keeps a slice surrounded by
      whitespace, one position further on. */
  lemma SpaceAroundFront(s: string, i: nat, r: string)
    requires |s| > 0 && IsSpace(s[0]) && SpaceAround(s[1..], i, r)
    ensures SpaceAround(s, i + 1, r)
  {
    var t := s[1..];
    assert t[i..i + |r|] == s[i + 1..i + 1 + |r|];
    assert s[..i + 1] == [s[0]] + t[..i];
    assert s[i + 1 + |r|..] == t[i + |r|..];
  }

  /** Putting a whitespace character behind keeps a slice surrounded by
      whitespace at the same position. */
  lemma SpaceAroundBack(s: string, i: nat, r: string)
    requires |s| > 0 && IsSpace(s[|s| - 1]) && SpaceAround(s[..|s| - 1], i, r)
    ensures SpaceAround(s, i, r)
  {
    var t := s[..|s| - 1];
    assert t[i..i + |r|] == s[i..i + |r|];
    assert s[..i] == t[..i];
    assert s[i + |r|..] == t[i + |r|..] + [s[|s| - 1]];
  }

  /** `s.strip()` is the slice of `s` that starts at `StripStart(s)`, with
      only whitespace before and after it. */
  lemma {:induction false} StripSlice(s: string)
    ensures SpaceAround(s, StripStart(s), Strip(s))
    decreases |s|
  {
    if |s| > 0 && IsSpace(s[0]) {
      StripSlice(s[1..]);
      SpaceAroundFront(s, StripStart(s[1..]), Strip(s[1..]));
    } else if |s| > 0 && IsSpace(s[|s| - 1]) {
      StripSlice(s[..|s| - 1]);
      SpaceAroundBack(s, StripStart(s[..|s| - 1]), Strip(s[..|s| - 1]));
    } else {
      assert s[..0] == [] && s[|s|..] == [] && s[0..|s|] == s;
    }
  }

  /** Stripping a trimmed text followed by a line terminator removes exactly
      the terminator. */
  lemma StripTerminated(s: string)
    requires |s| >= 1 && Trimmed(s)
    ensures Strip(s + "\n") == s
  {
    var t := s + "\n";
    assert t[0] == s[0] && t[|t| - 1] == '\n';
    assert t[..|t| - 1] == s;
  }

  /** Python's `str.lower()` on one character: ASCII capitals become small
      letters, every other character is unchanged. */
  function LowerChar(c: char): char {
    if 'A' <= c <= 'Z' then (c as int + 32) as char else c
  }

  predicate IsLower(s: string) {
    forall k :: 0 <= k < |s| ==> !('A' <= s[k] <= 'Z')
  }

  /** `s.lower()`: same length, the same characters lowered, no capital left,
      and already lower-case text is returned as is. */
  function Lower(s: string): (r: string)
    ensures |r| == |s|
    ensures forall k :: 0 <= k < |s| ==> r[k] == LowerChar(s[k])
    ensures IsLower(r)
    ensures IsLower(s) ==> r == s
  {
    seq(|s|, k requires 0 <= k < |s| => LowerChar(s[k]))
  }

  /** Lower-casing is idempotent. */
  lemma LowerIdempotent(s: string)
    ensures Lower(Lower(s)) == Lower(s)
  {
  }

  /** Lower-casing distributes over concatenation. */
  lemma LowerConcat(a: string, b: string)
    ensures Lower(a + b) == Lower(a) + Lower(b)
  {
    assert forall k :: 0 <= k < |a + b| ==> Lower(a + b)[k] == (Lower(a) + Lower(b))[k];
  }
}
