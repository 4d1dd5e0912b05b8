/** Splitting a text into lines on '\n' and joining lines back with '\n',
    with the semantics of ECMAScript's String.prototype.split and
    Array.prototype.join for a one-character separator: every separator
    ends one line and starts the next, so a text without separators (the
    empty text included) is one line, and a trailing separator yields a
    trailing empty line. */
module Lines {

  /** The lines of `s`: the maximal separator-free pieces between '\n's. */
  function Split(s: string): (lines: seq<string>)
    ensures |lines| >= 1
    ensures forall k :: 0 <= k < |lines| ==> IsLine(lines[k])
  {
    if s == [] then [[]]
    else
      var rest := Split(s[1..]);
      if s[0] == '\n' then [[]] + rest
      else [[s[0]] + rest[0]] + rest[1..]
  }

  /** The lines of `lines` concatenated with a '\n' between each two. */
  function Join(lines: seq<string>): string
  {
    if |lines| == 0 then []
    else if |lines| == 1 then lines[0]
    else lines[0] + "\n" + Join(lines[1..])
  }

  /** A line with no separator in it. */
  predicate IsLine(line: string)
  {
    '\n' !in line
  }

  /** Joining the lines of a text gives the text back. */
  lemma {:induction false} JoinSplit(s: string)
    ensures Join(Split(s)) == s
  {
    if s != [] {
      var rest := Split(s[1..]);
      JoinSplit(s[1..]);
      if s[0] == '\n' {
        assert Split(s) == [[]] + rest;
        assert Join(Split(s)) == [] + "\n" + Join(rest);
      } else if |rest| == 1 {
        assert Split(s) == [[s[0]] + rest[0]];
      } else {
        assert Split(s)[1..] == rest[1..];
        assert Join(rest) == rest[0] + "\n" + Join(rest[1..]);
        assert Join(Split(s)) == [s[0]] + rest[0] + "\n" + Join(rest[1..]);
        assert s == [s[0]] + s[1..];
      }
    }
  }

  /** A separator-free prefix is glued onto the first line of what follows it. */
  lemma {:induction false} SplitPrefix(x: string, t: string)
    requires IsLine(x)
    ensures Split(x + t) == [x + Split(t)[0]] + Split(t)[1..]
  {
    if x != [] {
      SplitPrefix(x[1..], t);
      assert (x + t)[1..] == x[1..] + t;
      assert [x[0]] + (x[1..] + Split(t)[0]) == x + Split(t)[0];
    } else {
      assert x + t == t && x + Split(t)[0] == Split(t)[0];
      assert Split(t) == [Split(t)[0]] + Split(t)[1..];
    }
  }

  /** Splitting the join of a non-empty list of separator-free lines gives
      the list back: Split and Join are inverse to each other. */
  lemma {:induction false} SplitJoin(lines: seq<string>)
    requires |lines| >= 1
    requires forall k :: 0 <= k < |lines| ==> IsLine(lines[k])
    ensures Split(Join(lines)) == lines
  {
    if |lines| == 1 {
      SplitPrefix(lines[0], []);
      assert lines[0] + [] == lines[0];
    } else {
      var tail := lines[1..];
      SplitJoin(tail);
      assert Split("\n" + Join(tail)) == [[]] + Split(Join(tail)) by {
        assert ("\n" + Join(tail))[1..] == Join(tail);
      }
      SplitPrefix(lines[0], "\n" + Join(tail));
      assert lines[0] + "\n" + Join(tail) == lines[0] + ("\n" + Join(tail));
      assert lines[0] + [] == lines[0];
      assert lines == [lines[0]] + tail;
    }
  }
}
