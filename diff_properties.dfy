/** What the greedy line differ guarantees about its edit script. */
module DiffProperties {
  import opened Lines
  import opened DiffUtils

  /** A script made of two parts covering adjacent stretches of a line
      list, the second running to its end, covers the joined stretch. */
  lemma Cover<L>(whole: seq<DiffOp<L>>, x: seq<DiffOp<L>>, y: seq<DiffOp<L>>, omit: Kind,
                 s: seq<L>, lo: nat, mid: nat)
    requires lo <= mid <= |s| && whole == x + y
    requires Keep(x, omit) == s[lo..mid] && Keep(y, omit) == s[mid..]
    ensures Keep(whole, omit) == s[lo..]
  {
    KeepAppend(x, y, omit);
    assert s[lo..] == s[lo..mid] + s[mid..];
  }

  /** If the script from the cursors one iteration leaves covers the rest of
      both line lists, so does the script from the cursors before it. */
  lemma CoverageStep<L>(a: seq<L>, b: seq<L>, i: nat, j: nat)
    requires i <= |a| && j <= |b| && (i < |a| || j < |b|)
    requires OldSide(DiffFrom(a, b, Cursors(a, b, i, j).0, Cursors(a, b, i, j).1)) == a[Cursors(a, b, i, j).0..]
    requires NewSide(DiffFrom(a, b, Cursors(a, b, i, j).0, Cursors(a, b, i, j).1)) == b[Cursors(a, b, i, j).1..]
    ensures OldSide(DiffFrom(a, b, i, j)) == a[i..]
    ensures NewSide(DiffFrom(a, b, i, j)) == b[j..]
  {
    var next := Cursors(a, b, i, j);
    var e, rest := Emitted(a, b, i, j), DiffFrom(a, b, next.0, next.1);
    assert DiffFrom(a, b, i, j) == e + rest;
    EmittedSides(a, b, i, j);
    Cover(DiffFrom(a, b, i, j), e, rest, Added, a, i, next.0);
    Cover(DiffFrom(a, b, i, j), e, rest, Removed, b, j, next.1);
  }

  /** From any pair of cursors, the script covers the rest of the old lines
      (as its unchanged and removed operations) and the rest of the new
      lines (as its unchanged and added operations), each exactly once and
      in order. */
  lemma {:induction false} CoverageFrom<L>(a: seq<L>, b: seq<L>, i: nat, j: nat)
    requires i <= |a| && j <= |b|
    ensures OldSide(DiffFrom(a, b, i, j)) == a[i..]
    ensures NewSide(DiffFrom(a, b, i, j)) == b[j..]
    decreases |a| - i + |b| - j
  {
    if i < |a| || j < |b| {
      CoverageFrom(a, b, Cursors(a, b, i, j).0, Cursors(a, b, i, j).1);
      CoverageStep(a, b, i, j);
    }
  }

  /** The script between two line lists covers both of them. */
  lemma Coverage<L>(a: seq<L>, b: seq<L>)
    ensures OldSide(Diff(a, b)) == a && NewSide(Diff(a, b)) == b
  {
    CoverageFrom(a, b, 0, 0);
  }

  /** A side holds one line per operation that is not omitted from it. */
  lemma {:induction false} KeepLength<L>(ops: seq<DiffOp<L>>, omit: Kind)
    ensures |Keep(ops, omit)| == |ops| - Count(ops, omit)
  {
    if ops != [] {
      KeepLength(ops[1..], omit);
    }
  }

  /** Every operation is unchanged, added or removed. */
  lemma {:induction false} CountKinds<L>(ops: seq<DiffOp<L>>)
    ensures |ops| == Count(ops, Unchanged) + Count(ops, Added) + Count(ops, Removed)
  {
    if ops != [] {
      CountKinds(ops[1..]);
    }
  }

  /** The script has one operation per old line plus one per new line, less
      one per unchanged line (which stands for a line of each); so it is at
      least as long as the longer line list and at most as long as both
      together. */
  lemma Length<L>(a: seq<L>, b: seq<L>)
    ensures |Diff(a, b)| == |a| + |b| - Count(Diff(a, b), Unchanged)
    ensures |a| <= |Diff(a, b)| && |b| <= |Diff(a, b)|
    ensures |Diff(a, b)| <= |a| + |b|
  {
    Coverage(a, b);
    CountKinds(Diff(a, b));
    KeepLength(Diff(a, b), Added);
    KeepLength(Diff(a, b), Removed);
  }

  /** From equal cursors into one list compared with itself, every line is
      unchanged. */
  lemma {:induction false} SelfFrom<L>(a: seq<L>, i: nat)
    requires i <= |a|
    ensures |DiffFrom(a, a, i, i)| == |a| - i
    ensures forall k :: 0 <= k < |a| - i ==> DiffFrom(a, a, i, i)[k] == DiffOp(Unchanged, a[i + k])
    decreases |a| - i
  {
    if i < |a| {
      SelfFrom(a, i + 1);
      assert Choose(a, a, i, i) == Same;
      var ops, rest := DiffFrom(a, a, i, i), DiffFrom(a, a, i + 1, i + 1);
      assert ops == [DiffOp(Unchanged, a[i])] + rest;
      forall k | 0 <= k < |a| - i
        ensures ops[k] == DiffOp(Unchanged, a[i + k])
      {
        if 0 < k {
          assert ops[k] == rest[k - 1];
        }
      }
    }
  }

  /** Diffing a text against itself gives one unchanged operation per line,
      carrying that line. */
  lemma Identical(s: string)
    ensures |Diff(Split(s), Split(s))| == |Split(s)|
    ensures forall k :: 0 <= k < |Split(s)| ==> Diff(Split(s), Split(s))[k] == DiffOp(Unchanged, Split(s)[k])
  {
    SelfFrom(Split(s), 0);
  }

  /** In a script made only of unchanged operations both sides are the same. */
  lemma {:induction false} UnchangedSidesAgree<L>(ops: seq<DiffOp<L>>)
    requires forall k :: 0 <= k < |ops| ==> ops[k].kind == Unchanged
    ensures OldSide(ops) == NewSide(ops)
  {
    if ops != [] {
      UnchangedSidesAgree(ops[1..]);
    }
  }

  /** Every operation of the script is unchanged exactly when the two texts
      are equal. */
  lemma AllUnchangedIff(oldStr: string, newStr: string)
    ensures (forall k :: 0 <= k < |Diff(Split(oldStr), Split(newStr))| ==>
               Diff(Split(oldStr), Split(newStr))[k].kind == Unchanged)
        <==> oldStr == newStr
  {
    var ops := Diff(Split(oldStr), Split(newStr));
    if oldStr == newStr {
      Identical(oldStr);
      assert forall k :: 0 <= k < |ops| ==> ops[k] == DiffOp(Unchanged, Split(oldStr)[k]);
    } else if forall k :: 0 <= k < |ops| ==> ops[k].kind == Unchanged {
      UnchangedSidesAgree(ops);
      Coverage(Split(oldStr), Split(newStr));
      assert Split(oldStr) == OldSide(ops) == NewSide(ops) == Split(newStr);
      JoinSplit(oldStr);
      JoinSplit(newStr);
      assert false;
    } else {
      var k :| 0 <= k < |ops| && ops[k].kind != Unchanged;
      assert Diff(Split(oldStr), Split(newStr))[k].kind != Unchanged;
    }
  }

  /** A prefix of a script reaching past its first part keeps, on each side,
      the lines of that whole part and then those of the prefix of the rest. */
  lemma PrefixSide<L>(ops: seq<DiffOp<L>>, e: seq<DiffOp<L>>, rest: seq<DiffOp<L>>, k: nat, omit: Kind)
    requires ops == e + rest && |e| <= k <= |ops|
    ensures |Keep(ops[..k], omit)| == |Keep(e, omit)| + |Keep(rest[..k - |e|], omit)|
  {
    assert ops[..k] == e + rest[..k - |e|];
    KeepAppend(e, rest[..k - |e|], omit);
  }

  /** An added operation whose line does occur among the old lines was
      emitted either after every old line had been consumed, or as the second
      half of a substitution: right after the removal of a different old line
      that itself occurs among the new lines. */
  lemma {:induction false} AddedFrom<L>(a: seq<L>, b: seq<L>, i: nat, j: nat, k: nat)
    requires i <= |a| && j <= |b|
    requires k < |DiffFrom(a, b, i, j)|
    requires DiffFrom(a, b, i, j)[k].kind == Added && DiffFrom(a, b, i, j)[k].text in a
    ensures || |OldSide(DiffFrom(a, b, i, j)[..k])| == |a| - i
            || (0 < k && DiffFrom(a, b, i, j)[k - 1].kind == Removed
                && DiffFrom(a, b, i, j)[k - 1].text in b
                && DiffFrom(a, b, i, j)[k - 1].text != DiffFrom(a, b, i, j)[k].text)
    decreases |a| - i + |b| - j
  {
    var ops := DiffFrom(a, b, i, j);
    var (i', j') := Cursors(a, b, i, j);
    var e, rest := Emitted(a, b, i, j), DiffFrom(a, b, i', j');
    assert ops == e + rest;
    if k < |e| {
      match Choose(a, b, i, j)
      case TakeNew =>
        assert ops[..k] == [];
      case Substitute =>
        assert k == 1 && ops[0] == DiffOp(Removed, a[i]);
    } else {
      var k' := k - |e|;
      assert rest[k'] == ops[k];
      AddedFrom(a, b, i', j', k');
      EmittedSides(a, b, i, j);
      PrefixSide(ops, e, rest, k, Added);
      if 0 < k' {
        assert ops[k - 1] == rest[k' - 1];
      }
    }
  }

  /** Whole-list membership on the new side: an added line that does occur
      among the old lines is added only once the old lines are exhausted or
      as half of a substitution pair. */
  lemma AddedOccurringInOld<L>(a: seq<L>, b: seq<L>, k: nat)
    requires k < |Diff(a, b)|
    requires Diff(a, b)[k].kind == Added && Diff(a, b)[k].text in a
    ensures || |OldSide(Diff(a, b)[..k])| == |a|
            || (0 < k && Diff(a, b)[k - 1].kind == Removed
                && Diff(a, b)[k - 1].text in b
                && Diff(a, b)[k - 1].text != Diff(a, b)[k].text)
  {
    AddedFrom(a, b, 0, 0, k);
  }

  /** A removed operation whose line does occur among the new lines was
      emitted either after every new line had been consumed, or as the first
      half of a substitution: right before the addition of a different new
      line that itself occurs among the old lines. */
  lemma {:induction false} RemovedFrom<L>(a: seq<L>, b: seq<L>, i: nat, j: nat, k: nat)
    requires i <= |a| && j <= |b|
    requires k < |DiffFrom(a, b, i, j)|
    requires DiffFrom(a, b, i, j)[k].kind == Removed && DiffFrom(a, b, i, j)[k].text in b
    ensures || |NewSide(DiffFrom(a, b, i, j)[..k])| == |b| - j
            || (k + 1 < |DiffFrom(a, b, i, j)| && DiffFrom(a, b, i, j)[k + 1].kind == Added
                && DiffFrom(a, b, i, j)[k + 1].text in a
                && DiffFrom(a, b, i, j)[k + 1].text != DiffFrom(a, b, i, j)[k].text)
    decreases |a| - i + |b| - j
  {
    var ops := DiffFrom(a, b, i, j);
    var (i', j') := Cursors(a, b, i, j);
    var e, rest := Emitted(a, b, i, j), DiffFrom(a, b, i', j');
    assert ops == e + rest;
    if k < |e| {
      match Choose(a, b, i, j)
      case TakeOld =>
        assert ops[..k] == [];
      case Substitute =>
        assert k == 0 && ops[1] == DiffOp(Added, b[j]);
    } else {
      var k' := k - |e|;
      assert rest[k'] == ops[k];
      RemovedFrom(a, b, i', j', k');
      EmittedSides(a, b, i, j);
      PrefixSide(ops, e, rest, k, Removed);
      if k' + 1 < |rest| {
        assert ops[k + 1] == rest[k' + 1];
      }
    }
  }

  /** Whole-list membership on the old side: a removed line that does occur
      among the new lines is removed only once the new lines are exhausted
      or as half of a substitution pair. */
  lemma RemovedOccurringInNew<L>(a: seq<L>, b: seq<L>, k: nat)
    requires k < |Diff(a, b)|
    requires Diff(a, b)[k].kind == Removed && Diff(a, b)[k].text in b
    ensures || |NewSide(Diff(a, b)[..k])| == |b|
            || (k + 1 < |Diff(a, b)| && Diff(a, b)[k + 1].kind == Added
                && Diff(a, b)[k + 1].text in a
                && Diff(a, b)[k + 1].text != Diff(a, b)[k].text)
  {
    RemovedFrom(a, b, 0, 0, k);
  }

  /** Two empty texts: one empty line each, reported as one unchanged empty
      line. */
  lemma EmptyTexts()
    ensures Diff(Split(""), Split("")) == [DiffOp(Unchanged, "")]
  {
    assert Split("") == [""];
  }

  /** Worked case on line lists: the second lines differ and neither occurs
      in the other list. The test for an added line comes first, so the new
      line is added and then, with the new lines exhausted, the old line is
      removed; the substitution fallback is not reached, since it needs both
      lines to occur in the other list. */
  lemma ReplacedLast<L>(x: L, y: L, z: L)
    requires y != x && z != x && y != z
    ensures Diff([x, y], [x, z]) == [DiffOp(Unchanged, x), DiffOp(Added, z), DiffOp(Removed, y)]
  {
    var a, b := [x, y], [x, z];
    assert DiffFrom(a, b, 2, 2) == [];
    assert DiffFrom(a, b, 1, 2) == [DiffOp(Removed, y)];
    assert Choose(a, b, 1, 1) == TakeNew by {
      assert z !in a;
    }
    assert DiffFrom(a, b, 1, 1) == [DiffOp(Added, z), DiffOp(Removed, y)];
    assert Choose(a, b, 0, 0) == Same;
  }

  /** The same case on texts: replacing the last line "b" of "a\nb" by "c". */
  lemma ReplacedLastLine()
    ensures Diff(Split("a\nb"), Split("a\nc"))
         == [DiffOp(Unchanged, "a"), DiffOp(Added, "c"), DiffOp(Removed, "b")]
  {
    assert Split("a\nb") == ["a", "b"] by { SplitJoin(["a", "b"]); }
    assert Split("a\nc") == ["a", "c"] by { SplitJoin(["a", "c"]); }
    ReplacedLast("a", "b", "c");
  }

  /** Swapped lines: every line occurs somewhere in the other list, so both
      iterations take the substitution fallback, even though at the second
      one the new line no longer occurs in what is left of the old list. */
  lemma Swapped<L>(x: L, y: L)
    requires x != y
    ensures Diff([x, y], [y, x])
         == [DiffOp(Removed, x), DiffOp(Added, y), DiffOp(Removed, y), DiffOp(Added, x)]
  {
    var a, b := [x, y], [y, x];
    assert DiffFrom(a, b, 2, 2) == [];
    assert Choose(a, b, 1, 1) == Substitute by {
      assert a[1] == b[0] && b[1] == a[0];
    }
    assert DiffFrom(a, b, 1, 1) == [DiffOp(Removed, y), DiffOp(Added, x)];
    assert Choose(a, b, 0, 0) == Substitute by {
      assert a[0] == b[1] && b[0] == a[1];
    }
  }

  /** The same case on texts: "x\ny" against "y\nx". */
  lemma SwappedLines()
    ensures Diff(Split("x\ny"), Split("y\nx"))
         == [DiffOp(Removed, "x"), DiffOp(Added, "y"), DiffOp(Removed, "y"), DiffOp(Added, "x")]
  {
    assert Split("x\ny") == ["x", "y"] by { SplitJoin(["x", "y"]); }
    assert Split("y\nx") == ["y", "x"] by { SplitJoin(["y", "x"]); }
    Swapped("x", "y");
  }
}
