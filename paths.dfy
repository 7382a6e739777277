/**
 * The two string operations the router uses on a route, written out as they behave
 * in JavaScript: `startsWith(prefix)` and `split(sep)` with a one-character separator.
 * `Join` is the inverse of `Split` (JavaScript's `join(sep)`), used to state what a
 * split keeps and what it throws away.
 */
module Paths {

  /** `s.startsWith(prefix)`: exact, case-sensitive comparison of the first characters. */
  predicate StartsWith(s: string, prefix: string)
  {
    |prefix| <= |s| && s[..|prefix|] == prefix
  }

  /** How many times `c` occurs in `s`. */
  function Count(s: string, c: char): nat
  {
    if s == [] then 0 else (if s[0] == c then 1 else 0) + Count(s[1..], c)
  }

  /**
   * `s.split(sep)`: the pieces of `s` between occurrences of `sep`, including the empty
   * pieces before a leading separator, between two adjacent ones and after a trailing
   * one. The empty string splits into one empty piece, as in JavaScript.
   */
  function Split(s: string, sep: char): (parts: seq<string>)
    ensures |parts| == Count(s, sep) + 1
    ensures forall k :: 0 <= k < |parts| ==> sep !in parts[k]
  {
    if s == [] then [[]]
    else
      var rest := Split(s[1..], sep);
      if s[0] == sep then [[]] + rest
      else [[s[0]] + rest[0]] + rest[1..]
  }

  /** `parts.join(sep)`. */
  function Join(parts: seq<string>, sep: char): string
  {
    if parts == [] then []
    else if |parts| == 1 then parts[0]
    else parts[0] + [sep] + Join(parts[1..], sep)
  }

  /** Splitting loses nothing: joining the pieces back with the separator gives the input. */
  lemma {:induction false} JoinSplit(s: string, sep: char)
    ensures Join(Split(s, sep), sep) == s
  {
    if s != [] {
      var rest := Split(s[1..], sep);
      JoinSplit(s[1..], sep);
      if s[0] == sep {
        assert Split(s, sep) == [[]] + rest;
        assert [sep] + s[1..] == s;
      } else {
        var parts := [[s[0]] + rest[0]] + rest[1..];
        assert Split(s, sep) == parts;
        if |rest| == 1 {
          assert Join(parts, sep) == [s[0]] + rest[0];
        } else {
          assert parts[1..] == rest[1..];
          assert Join(rest, sep) == rest[0] + [sep] + Join(rest[1..], sep);
          assert Join(parts, sep) == [s[0]] + rest[0] + [sep] + Join(rest[1..], sep);
        }
        assert [s[0]] + s[1..] == s;
      }
    }
  }

  /** A word without the separator is a single piece. */
  lemma {:induction false} SplitWord(w: string, sep: char)
    requires sep !in w
    ensures Split(w, sep) == [w]
  {
    if w != [] {
      SplitWord(w[1..], sep);
      assert [w[0]] + w[1..] == w;
    }
  }

  /** A word without the separator, followed by the separator, is the first piece. */
  lemma {:induction false} SplitWordThenSep(w: string, sep: char, tail: string)
    requires sep !in w
    ensures Split(w + [sep] + tail, sep) == [w] + Split(tail, sep)
  {
    var s := w + [sep] + tail;
    if w == [] {
      assert s == [sep] + tail;
      assert s[1..] == tail;
    } else {
      assert s[0] == w[0];
      assert s[1..] == w[1..] + [sep] + tail;
      SplitWordThenSep(w[1..], sep, tail);
      assert [w[0]] + w[1..] == w;
    }
  }

  /**
   * The first piece of `w + tail` is `w` when `w` holds no separator and `tail` is
   * empty or starts at a separator: whatever follows is not part of the first piece.
   */
  lemma FirstPiece(w: string, sep: char, tail: string)
    requires sep !in w
    requires tail == [] || tail[0] == sep
    ensures Split(w + tail, sep)[0] == w
  {
    if tail == [] {
      assert w + tail == w;
      SplitWord(w, sep);
    } else {
      assert w + tail == w + [sep] + tail[1..];
      SplitWordThenSep(w, sep, tail[1..]);
    }
  }

  /** Splitting undoes joining, for a non-empty list of pieces free of the separator. */
  lemma {:induction false} SplitJoin(parts: seq<string>, sep: char)
    requires parts != []
    requires forall k :: 0 <= k < |parts| ==> sep !in parts[k]
    ensures Split(Join(parts, sep), sep) == parts
  {
    if |parts| == 1 {
      SplitWord(parts[0], sep);
    } else {
      SplitJoin(parts[1..], sep);
      SplitWordThenSep(parts[0], sep, Join(parts[1..], sep));
      assert [parts[0]] + parts[1..] == parts;
    }
  }

  /** Every string is a separator-free first piece followed by nothing or by a separator. */
  lemma FirstPieceOf(s: string, sep: char)
    ensures var w := Split(s, sep)[0];
      StartsWith(s, w) && sep !in w && (|w| == |s| || s[|w|] == sep)
  {
    var w := Split(s, sep)[0];
    JoinSplit(s, sep);
    var parts := Split(s, sep);
    if |parts| == 1 {
      assert s == w;
    } else {
      assert s == w + [sep] + Join(parts[1..], sep);
      assert s[..|w|] == w;
    }
  }
}
