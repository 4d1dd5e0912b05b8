/** The greedy line differ: two cursors walk the old and the new lines
    forward together and classify each line as unchanged, added or removed.
    It is not a longest-common-subsequence diff: whether a line "occurs in
    the other text" is a membership test over the whole other line list,
    wherever the other cursor stands.

    The differ only ever compares lines for equality, so everything but the
    entry point is stated for lines of any type `L`; `DiffLines` uses it with
    `L := string`. */
module DiffUtils {
  import opened Lines

  datatype Kind = Unchanged | Added | Removed

  /** One edit operation: a line and how it is classified. */
  datatype DiffOp<L> = DiffOp(kind: Kind, text: L)

  /** How many operations of `ops` have kind `kind`. */
  function Count<L>(ops: seq<DiffOp<L>>, kind: Kind): (n: nat)
    ensures n <= |ops|
  {
    if ops == [] then 0
    else (if ops[0].kind == kind then 1 else 0) + Count(ops[1..], kind)
  }

  /** The texts, in order, of the operations of `ops` whose kind is not
      `omit`. */
  function Keep<L>(ops: seq<DiffOp<L>>, omit: Kind): seq<L>
  {
    if ops == [] then []
    else (if ops[0].kind == omit then [] else [ops[0].text]) + Keep(ops[1..], omit)
  }

  /** The old text's lines as an edit script records them: its unchanged and
      removed lines. */
  function OldSide<L>(ops: seq<DiffOp<L>>): seq<L>
  {
    Keep(ops, Added)
  }

  /** The new text's lines as an edit script records them: its unchanged and
      added lines. */
  function NewSide<L>(ops: seq<DiffOp<L>>): seq<L>
  {
    Keep(ops, Removed)
  }

  /** The four branches of one loop iteration. */
  datatype Branch = Same | TakeNew | TakeOld | Substitute

  /** The branch the differ takes with cursors `i` into `a` (old lines) and
      `j` into `b` (new lines) while at least one cursor has lines left. The
      tests are tried in order; the substitution fallback is reached only
      with both cursors in bounds, on two different lines each of which
      occurs somewhere in the other list. */
  function Choose<L(==)>(a: seq<L>, b: seq<L>, i: nat, j: nat): (br: Branch)
    requires i <= |a| && j <= |b| && (i < |a| || j < |b|)
    ensures br == Same <==> i < |a| && j < |b| && a[i] == b[j]
    ensures br == TakeNew ==> j < |b| && (i == |a| || b[j] !in a)
    ensures br == TakeOld ==> i < |a| && (j == |b| || a[i] !in b)
    ensures br == Substitute ==> i < |a| && j < |b| && a[i] != b[j] && a[i] in b && b[j] in a
  {
    if i < |a| && j < |b| && a[i] == b[j] then Same
    else if j < |b| && (b[j] !in a || i >= |a|) then TakeNew
    else if i < |a| && (a[i] !in b || j >= |b|) then TakeOld
    else Substitute
  }

  /** The operations one iteration emits from cursors `i` and `j`: at least
      one, and no more than the lines the iteration moves the cursors past. */
  function Emitted<L(==)>(a: seq<L>, b: seq<L>, i: nat, j: nat): (ops: seq<DiffOp<L>>)
    requires i <= |a| && j <= |b| && (i < |a| || j < |b|)
    ensures 1 <= |ops| <= (Cursors(a, b, i, j).0 - i) + (Cursors(a, b, i, j).1 - j)
  {
    match Choose(a, b, i, j)
    case Same => [DiffOp(Unchanged, a[i])]
    case TakeNew => [DiffOp(Added, b[j])]
    case TakeOld => [DiffOp(Removed, a[i])]
    case Substitute => [DiffOp(Removed, a[i]), DiffOp(Added, b[j])]
  }

  /** The cursors after one iteration from `i` and `j`: each stays in
      bounds, neither moves back, and at least one moves forward. */
  function Cursors<L(==)>(a: seq<L>, b: seq<L>, i: nat, j: nat): (next: (nat, nat))
    requires i <= |a| && j <= |b| && (i < |a| || j < |b|)
    ensures i <= next.0 <= |a| && j <= next.1 <= |b|
    ensures i + j < next.0 + next.1
  {
    match Choose(a, b, i, j)
    case Same => (i + 1, j + 1)
    case TakeNew => (i, j + 1)
    case TakeOld => (i + 1, j)
    case Substitute => (i + 1, j + 1)
  }

  /** The operations the differ emits from cursors `i` and `j` to the end:
      one iteration after another until both cursors are at the end. There
      are none exactly when both cursors are already at the end, and never
      more than the lines left in both lists together. */
  function DiffFrom<L(==)>(a: seq<L>, b: seq<L>, i: nat, j: nat): (ops: seq<DiffOp<L>>)
    requires i <= |a| && j <= |b|
    ensures |ops| == 0 <==> i == |a| && j == |b|
    ensures |ops| <= |a| - i + |b| - j
    decreases |a| - i + |b| - j
  {
    if i == |a| && j == |b| then []
    else Emitted(a, b, i, j) + DiffFrom(a, b, Cursors(a, b, i, j).0, Cursors(a, b, i, j).1)
  }

  /** The edit script between the line lists `a` and `b`. */
  function Diff<L(==)>(a: seq<L>, b: seq<L>): seq<DiffOp<L>>
  {
    DiffFrom(a, b, 0, 0)
  }

  /** Keep distributes over concatenation. */
  lemma {:induction false} KeepAppend<L>(x: seq<DiffOp<L>>, y: seq<DiffOp<L>>, omit: Kind)
    ensures Keep(x + y, omit) == Keep(x, omit) + Keep(y, omit)
  {
    if x != [] {
      KeepAppend(x[1..], y, omit);
      assert (x + y)[1..] == x[1..] + y;
    } else {
      assert x + y == y;
    }
  }

  /** Two scripts covering adjacent stretches of a line list, one after the
      other, cover the joined stretch. */
  lemma KeepAdjacent<L>(x: seq<DiffOp<L>>, y: seq<DiffOp<L>>, omit: Kind, s: seq<L>, lo: nat, mid: nat, hi: nat)
    requires lo <= mid <= hi <= |s|
    requires Keep(x, omit) == s[lo..mid] && Keep(y, omit) == s[mid..hi]
    ensures Keep(x + y, omit) == s[lo..hi]
  {
    KeepAppend(x, y, omit);
    assert s[lo..hi] == s[lo..mid] + s[mid..hi];
  }

  /** A one-operation script has that operation's text on each side it
      belongs to, and nothing on the other. */
  lemma Single<L>(op: DiffOp<L>)
    ensures OldSide([op]) == (if op.kind == Added then [] else [op.text])
    ensures NewSide([op]) == (if op.kind == Removed then [] else [op.text])
  {
    var none: seq<DiffOp<L>> := [];
    assert [op][1..] == none;
    assert Keep(none, Added) == [] && Keep(none, Removed) == [];
  }

  /** The sides of a removal followed by an addition: the removed line on
      the old side, the added line on the new side. */
  lemma Pair<L>(x: L, y: L)
    ensures OldSide([DiffOp(Removed, x), DiffOp(Added, y)]) == [x]
    ensures NewSide([DiffOp(Removed, x), DiffOp(Added, y)]) == [y]
  {
    Single(DiffOp(Removed, x));
    Single(DiffOp(Added, y));
    assert [DiffOp(Removed, x)] + [DiffOp(Added, y)] == [DiffOp(Removed, x), DiffOp(Added, y)];
    KeepAppend([DiffOp(Removed, x)], [DiffOp(Added, y)], Added);
    KeepAppend([DiffOp(Removed, x)], [DiffOp(Added, y)], Removed);
  }

  /** EmittedSides on the branch taken when both lines are equal. */
  lemma SameSides<L>(a: seq<L>, b: seq<L>, i: nat, j: nat)
    requires i <= |a| && j <= |b| && (i < |a| || j < |b|)
    requires Choose(a, b, i, j) == Same
    ensures OldSide(Emitted(a, b, i, j)) == a[i..Cursors(a, b, i, j).0]
    ensures NewSide(Emitted(a, b, i, j)) == b[j..Cursors(a, b, i, j).1]
  {
    Single(DiffOp(Unchanged, a[i]));
    assert a[i..i + 1] == [a[i]] && b[j..j + 1] == [b[j]];
  }

  /** EmittedSides on the branch that takes a new line. */
  lemma TakeNewSides<L>(a: seq<L>, b: seq<L>, i: nat, j: nat)
    requires i <= |a| && j <= |b| && (i < |a| || j < |b|)
    requires Choose(a, b, i, j) == TakeNew
    ensures OldSide(Emitted(a, b, i, j)) == a[i..Cursors(a, b, i, j).0]
    ensures NewSide(Emitted(a, b, i, j)) == b[j..Cursors(a, b, i, j).1]
  {
    Single(DiffOp(Added, b[j]));
    assert a[i..i] == [] && b[j..j + 1] == [b[j]];
  }

  /** EmittedSides on the branch that takes an old line. */
  lemma TakeOldSides<L>(a: seq<L>, b: seq<L>, i: nat, j: nat)
    requires i <= |a| && j <= |b| && (i < |a| || j < |b|)
    requires Choose(a, b, i, j) == TakeOld
    ensures OldSide(Emitted(a, b, i, j)) == a[i..Cursors(a, b, i, j).0]
    ensures NewSide(Emitted(a, b, i, j)) == b[j..Cursors(a, b, i, j).1]
  {
    Single(DiffOp(Removed, a[i]));
    assert a[i..i + 1] == [a[i]] && b[j..j] == [];
  }

  /** EmittedSides on the substitution fallback. */
  lemma SubstituteSides<L>(a: seq<L>, b: seq<L>, i: nat, j: nat)
    requires i <= |a| && j <= |b| && (i < |a| || j < |b|)
    requires Choose(a, b, i, j) == Substitute
    ensures OldSide(Emitted(a, b, i, j)) == a[i..Cursors(a, b, i, j).0]
    ensures NewSide(Emitted(a, b, i, j)) == b[j..Cursors(a, b, i, j).1]
  {
    Pair(a[i], b[j]);
    assert a[i..i + 1] == [a[i]] && b[j..j + 1] == [b[j]];
  }

  /** The lines one iteration emits on each side are exactly the lines it
      moves each cursor past. */
  lemma EmittedSides<L>(a: seq<L>, b: seq<L>, i: nat, j: nat)
    requires i <= |a| && j <= |b| && (i < |a| || j < |b|)
    ensures OldSide(Emitted(a, b, i, j)) == a[i..Cursors(a, b, i, j).0]
    ensures NewSide(Emitted(a, b, i, j)) == b[j..Cursors(a, b, i, j).1]
  {
    match Choose(a, b, i, j)
    case Same => SameSides(a, b, i, j);
    case TakeNew => TakeNewSides(a, b, i, j);
    case TakeOld => TakeOldSides(a, b, i, j);
    case Substitute => SubstituteSides(a, b, i, j);
  }

  /** Appending the operations of one iteration extends both covered
      prefixes by the lines that iteration consumed. */
  lemma Advance<L>(done: seq<DiffOp<L>>, a: seq<L>, b: seq<L>, i: nat, j: nat)
    requires i <= |a| && j <= |b| && (i < |a| || j < |b|)
    requires OldSide(done) == a[..i] && NewSide(done) == b[..j]
    ensures OldSide(done + Emitted(a, b, i, j)) == a[..Cursors(a, b, i, j).0]
    ensures NewSide(done + Emitted(a, b, i, j)) == b[..Cursors(a, b, i, j).1]
  {
    EmittedSides(a, b, i, j);
    KeepAdjacent(done, Emitted(a, b, i, j), Added, a, 0, i, Cursors(a, b, i, j).0);
    KeepAdjacent(done, Emitted(a, b, i, j), Removed, b, 0, j, Cursors(a, b, i, j).1);
  }

  /** One iteration keeps the loop's invariants: what is emitted so far covers
      the lines before each cursor, and followed by the script from the
      cursors it is the whole script. */
  lemma Step<L>(done: seq<DiffOp<L>>, a: seq<L>, b: seq<L>, i: nat, j: nat)
    requires i <= |a| && j <= |b| && (i < |a| || j < |b|)
    requires OldSide(done) == a[..i] && NewSide(done) == b[..j]
    requires done + DiffFrom(a, b, i, j) == Diff(a, b)
    ensures OldSide(done + Emitted(a, b, i, j)) == a[..Cursors(a, b, i, j).0]
    ensures NewSide(done + Emitted(a, b, i, j)) == b[..Cursors(a, b, i, j).1]
    ensures done + Emitted(a, b, i, j) + DiffFrom(a, b, Cursors(a, b, i, j).0, Cursors(a, b, i, j).1)
         == Diff(a, b)
  {
    Advance(done, a, b, i, j);
    var next := Cursors(a, b, i, j);
    var e, rest := Emitted(a, b, i, j), DiffFrom(a, b, next.0, next.1);
    assert DiffFrom(a, b, i, j) == e + rest;
    assert done + e + rest == done + (e + rest);
  }

  /** diffLines: split both texts into lines and run the two-cursor loop.
      The result is the edit script `Diff` of the two line lists; its
      unchanged and removed lines are exactly the old text's lines, its
      unchanged and added lines exactly the new text's, so joining either
      side with '\n' rebuilds that text. */
  method DiffLines(oldStr: string, newStr: string) returns (result: seq<DiffOp<string>>)
    ensures result == Diff(Split(oldStr), Split(newStr))
    ensures OldSide(result) == Split(oldStr) && Join(OldSide(result)) == oldStr
    ensures NewSide(result) == Split(newStr) && Join(NewSide(result)) == newStr
  {
    var oldLines := Split(oldStr);
    var newLines := Split(newStr);
    var i, j := 0, 0;
    result := [];
    while i < |oldLines| || j < |newLines|
      invariant i <= |oldLines| && j <= |newLines|
      invariant OldSide(result) == oldLines[..i]
      invariant NewSide(result) == newLines[..j]
      invariant result + DiffFrom(oldLines, newLines, i, j) == Diff(oldLines, newLines)
      decreases |oldLines| - i + |newLines| - j
    {
      ghost var i0, j0 := i, j;
      Step(result, oldLines, newLines, i, j);
      var step: seq<DiffOp<string>>;
      if i < |oldLines| && j < |newLines| && oldLines[i] == newLines[j] {
        assert Choose(oldLines, newLines, i, j) == Same;
        step := [DiffOp(Unchanged, oldLines[i])];
        i, j := i + 1, j + 1;
      } else if j < |newLines| && (newLines[j] !in oldLines || i >= |oldLines|) {
        assert Choose(oldLines, newLines, i, j) == TakeNew;
        step := [DiffOp(Added, newLines[j])];
        j := j + 1;
      } else if i < |oldLines| && (oldLines[i] !in newLines || j >= |newLines|) {
        assert Choose(oldLines, newLines, i, j) == TakeOld;
        step := [DiffOp(Removed, oldLines[i])];
        i := i + 1;
      } else {
        // fallback: a substitution, emitted as a removal then an addition
        assert Choose(oldLines, newLines, i, j) == Substitute;
        step := [DiffOp(Removed, oldLines[i]), DiffOp(Added, newLines[j])];
        i, j := i + 1, j + 1;
      }
      assert step == Emitted(oldLines, newLines, i0, j0) && (i, j) == Cursors(oldLines, newLines, i0, j0);
      result := result + step;
    }
    assert oldLines[..i] == oldLines && newLines[..j] == newLines;
    JoinSplit(oldStr);
    JoinSplit(newStr);
  }
}
