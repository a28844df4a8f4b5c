/**
 * `applyChanges` of route-utils.ts: drop the missing changes, order the
 * rest from the bottom of the file to the top (descending offset, stable
 * for equal offsets) and apply them one after another, stopping at the
 * first one whose file cannot be read.
 */
module ApplyChanges {
  import opened Util
  import opened Sorting
  import opened Changes

  /** `.filter(change => !!change)`: every change object is truthy, only the missing ones go. */
  function Present(changes: seq<Option<Change>>): (r: seq<Change>)
    ensures |r| <= |changes|
    ensures forall c :: c in r <==> Some(c) in changes
    ensures forall c :: multiset(r)[c] == multiset(changes)[Some(c)]
  {
    if changes == [] then []
    else
      var init := Present(changes[..|changes| - 1]);
      assert changes == changes[..|changes| - 1] + [changes[|changes| - 1]];
      match changes[|changes| - 1]
      case None => init
      case Some(c) => init + [c]
  }

  /** The filter keeps the list order: it distributes over concatenation. */
  lemma {:induction false} PresentAppend(a: seq<Option<Change>>, b: seq<Option<Change>>)
    ensures Present(a + b) == Present(a) + Present(b)
    decreases |b|
  {
    if b == [] {
      assert a + b == a;
    } else {
      var n := |b| - 1;
      assert (a + b)[..|a + b| - 1] == a + b[..n];
      assert b[..n] + [b[n]] == b;
      PresentAppend(a, b[..n]);
    }
  }

  /** The comparator `next.pos - curr.pos`: ascending in minus the offset. */
  function BottomUp(c: Change): int
  {
    -c.pos
  }

  /** The order in which the changes are applied. */
  function Ordered(changes: seq<Option<Change>>): seq<Change>
  {
    SortBy(Present(changes), BottomUp)
  }

  /**
   * The promise chain: each change is applied to the files the previous
   * ones left; the first failure ends the chain and the later changes are
   * never applied.
   */
  function ApplyAll(files: map<string, string>, cs: seq<Change>): (r: (map<string, string>, Result<()>))
    ensures r.0.Keys == files.Keys
  {
    if cs == [] then (files, Success(()))
    else
      var next := ApplyTo(files, cs[0]);
      if next.Failure? then (files, Failure(next.error))
      else ApplyAll(next.value, cs[1..])
  }

  /** `applyChanges`. */
  method ApplyChanges(store: FileStore, changes: seq<Option<Change>>) returns (outcome: Result<()>)
    modifies store
    ensures (store.files, outcome) == ApplyAll(old(store.files), Ordered(changes))
  {
    var present := Present(changes);
    var a := new Change[|present|](i requires 0 <= i < |present| => present[i]);
    assert a[..] == present;
    SortInPlace(a, BottomUp);
    var i := 0;
    while i < a.Length
      invariant 0 <= i <= a.Length
      invariant a[..] == Ordered(changes)
      invariant ApplyAll(old(store.files), a[..]) == ApplyAll(store.files, a[i..])
    {
      ghost var before := store.files;
      ghost var rest := a[i..];
      assert rest[0] == a[i] && rest[1..] == a[i + 1..];
      var applied := Apply(a[i], store);
      if applied.Failure? {
        assert ApplyAll(before, rest) == (before, applied);
        return applied;
      }
      assert ApplyAll(before, rest) == ApplyAll(store.files, a[i + 1..]);
      i := i + 1;
    }
    return Success(());
  }

  // ---------------------------------------------------------------------
  // What `applyChanges` promises
  // ---------------------------------------------------------------------

  /** The changes are applied bottom-up: a permutation of the present ones, by descending offset. */
  lemma OrderedIsBottomUp(changes: seq<Option<Change>>)
    ensures multiset(Ordered(changes)) == multiset(Present(changes))
    ensures forall i, j :: 0 <= i < j < |Ordered(changes)| ==> Ordered(changes)[j].pos <= Ordered(changes)[i].pos
    ensures forall c :: c in Ordered(changes) <==> Some(c) in changes
    ensures forall c :: multiset(Ordered(changes))[c] == multiset(changes)[Some(c)]
  {
    SortByCorrect(Present(changes), BottomUp);
    var o := Ordered(changes);
    forall c ensures c in o <==> c in Present(changes) {
      assert c in o <==> c in multiset(o);
    }
    forall i, j | 0 <= i < j < |o| ensures o[j].pos <= o[i].pos {
      assert BottomUp(o[i]) <= BottomUp(o[j]);
    }
  }

  /** The chain fails exactly when one of its changes names a file that is not in the store. */
  lemma {:induction false} ApplyAllFailsOnMissingFile(files: map<string, string>, cs: seq<Change>)
    ensures ApplyAll(files, cs).1.Success? <==> forall k :: 0 <= k < |cs| ==> cs[k].path in files
    ensures ApplyAll(files, cs).1.Failure? ==> exists k :: 0 <= k < |cs| && ApplyAll(files, cs).1.error == IOError(cs[k].path)
  {
    if cs != [] {
      var next := ApplyTo(files, cs[0]);
      if next.Success? {
        ApplyAllFailsOnMissingFile(next.value, cs[1..]);
        if ApplyAll(files, cs).1.Failure? {
          var k :| 0 <= k < |cs[1..]| && ApplyAll(next.value, cs[1..]).1.error == IOError(cs[1..][k].path);
          assert ApplyAll(files, cs).1.error == IOError(cs[k + 1].path);
        }
        forall k | 0 < k < |cs| ensures cs[k].path in files <==> cs[1..][k - 1].path in next.value {
        }
      }
    }
  }

  /**
   * Insertions into one text, in descending offset order and all within
   * the text: each is placed at its offset in the ORIGINAL text.
   */
  ghost predicate Fits(cs: seq<Change>, from: int, n: int)
  {
    && (forall k :: 0 <= k < |cs| ==> cs[k].InsertChange? && from <= cs[k].pos <= n)
    && (forall i, j :: 0 <= i < j < |cs| ==> cs[j].pos <= cs[i].pos)
  }

  /**
   * The reference: read the original text from `from` left to right and
   * emit each insertion's text when its offset is reached (the last of the
   * descending list comes first).
   */
  function Weave(s: string, from: int, cs: seq<Change>): string
    requires 0 <= from <= |s| && Fits(cs, from, |s|)
    decreases |cs|
  {
    if cs == [] then s[from..]
    else
      var c := cs[|cs| - 1];
      s[from..c.pos] + c.toAdd + Weave(s, c.pos, cs[..|cs| - 1])
  }

  /** Weaving into `A + B` with every offset inside `A` leaves `B` as it is. */
  lemma {:induction false} WeaveAppend(a: string, b: string, from: int, cs: seq<Change>)
    requires 0 <= from <= |a| && Fits(cs, from, |a|)
    ensures Fits(cs, from, |a + b|)
    ensures Weave(a + b, from, cs) == Weave(a, from, cs) + b
    decreases |cs|
  {
    FitsWiden(cs, from, |a|, |a + b|);
    if cs == [] {
      assert (a + b)[from..] == a[from..] + b;
    } else {
      var c := cs[|cs| - 1];
      var init := cs[..|cs| - 1];
      FitsInit(cs, from, |a|);
      WeaveAppend(a, b, c.pos, init);
      assert Weave(a + b, from, cs) == (a + b)[from..c.pos] + c.toAdd + Weave(a + b, c.pos, init);
      assert Weave(a, from, cs) == a[from..c.pos] + c.toAdd + Weave(a, c.pos, init);
      assert (a + b)[from..c.pos] == a[from..c.pos];
    }
  }

  /** A longer text fits every list the shorter one does. */
  lemma FitsWiden(cs: seq<Change>, from: int, n: int, m: int)
    requires Fits(cs, from, n) && n <= m
    ensures Fits(cs, from, m)
  {
  }

  /** Dropping the last (smallest) offset: the rest fits from that offset on. */
  lemma FitsInit(cs: seq<Change>, from: int, n: int)
    requires Fits(cs, from, n) && cs != []
    ensures Fits(cs[..|cs| - 1], cs[|cs| - 1].pos, n)
  {
  }

  /** Dropping the first (largest) offset: the rest fits below it. */
  lemma FitsTail(cs: seq<Change>, from: int, n: int)
    requires Fits(cs, from, n) && cs != []
    ensures Fits(cs[1..], from, cs[0].pos)
  {
  }

  /** The first (largest) offset splits the text: everything after it is untouched by the rest. */
  lemma {:induction false} WeaveSplitsAtFirst(s: string, from: int, cs: seq<Change>)
    requires 0 <= from <= |s| && Fits(cs, from, |s|) && cs != []
    ensures Fits(cs[1..], from, cs[0].pos)
    ensures Weave(s, from, cs) == Weave(s[..cs[0].pos], from, cs[1..]) + cs[0].toAdd + s[cs[0].pos..]
    decreases |cs|
  {
    FitsTail(cs, from, |s|);
    var q := cs[0].pos;
    if |cs| == 1 {
      WeaveSingle(s, from, cs);
    } else {
      var c := cs[|cs| - 1];
      var init := cs[..|cs| - 1];
      var tail := cs[1..];
      assert tail[|tail| - 1] == c && init[0] == cs[0];
      assert tail[..|tail| - 1] == init[1..];
      WeaveUnfold(s, from, cs);
      WeaveUnfold(s[..q], from, tail);
      WeaveSplitsAtFirst(s, c.pos, init);
      SpliceAround(s, from, c.pos, q, c.toAdd, cs[0].toAdd,
        Weave(s, from, cs), Weave(s, c.pos, init), Weave(s[..q], from, tail), Weave(s[..q], c.pos, init[1..]));
    }
  }

  lemma WeaveSingle(s: string, from: int, cs: seq<Change>)
    requires 0 <= from <= |s| && Fits(cs, from, |s|) && |cs| == 1
    ensures Fits(cs[1..], from, cs[0].pos)
    ensures Weave(s, from, cs) == Weave(s[..cs[0].pos], from, cs[1..]) + cs[0].toAdd + s[cs[0].pos..]
  {
    var q := cs[0].pos;
    assert cs[..0] == [] && cs[1..] == [];
    assert Weave(s, from, cs) == s[from..q] + cs[0].toAdd + s[q..];
    assert s[..q][from..] == s[from..q];
  }

  /** The string identity behind the step of the split. */
  lemma SpliceAround(s: string, from: int, p: int, q: int, t: string, u: string, whole: string, rest: string, front: string, inner: string)
    requires 0 <= from <= p <= q <= |s|
    requires whole == s[from..p] + t + rest
    requires rest == inner + u + s[q..]
    requires front == s[..q][from..p] + t + inner
    ensures whole == front + u + s[q..]
  {
    assert s[..q][from..p] == s[from..p];
  }

  /** One step of the reference: the smallest offset's text comes first. */
  lemma WeaveUnfold(s: string, from: int, cs: seq<Change>)
    requires 0 <= from <= |s| && Fits(cs, from, |s|) && cs != []
    ensures Fits(cs[..|cs| - 1], cs[|cs| - 1].pos, |s|)
    ensures Weave(s, from, cs)
         == s[from..cs[|cs| - 1].pos] + cs[|cs| - 1].toAdd + Weave(s, cs[|cs| - 1].pos, cs[..|cs| - 1])
  {
    FitsInit(cs, from, |s|);
  }

  /** The first insertion of the list, applied to the text, leaves the reference unchanged. */
  lemma InsertFirstKeepsWeave(s: string, cs: seq<Change>)
    requires Fits(cs, 0, |s|) && cs != []
    ensures Fits(cs[1..], 0, |InsertText(s, cs[0].pos, cs[0].toAdd)|)
    ensures Weave(InsertText(s, cs[0].pos, cs[0].toAdd), 0, cs[1..]) == Weave(s, 0, cs)
  {
    var q := cs[0].pos;
    var t := cs[0].toAdd;
    var inserted := InsertText(s, q, t);
    assert inserted == s[..q] + (t + s[q..]);
    WeaveSplitsAtFirst(s, 0, cs);
    WeaveAppend(s[..q], t + s[q..], 0, cs[1..]);
  }

  /**
   * Applying insertions into one file bottom-up equals the reference: no
   * insertion shifts the offset of one still to be applied.
   */
  lemma {:induction false} BottomUpKeepsOffsets(files: map<string, string>, p: string, cs: seq<Change>)
    requires p in files
    requires forall k :: 0 <= k < |cs| ==> cs[k].path == p
    requires Fits(cs, 0, |files[p]|)
    ensures ApplyAll(files, cs) == (files[p := Weave(files[p], 0, cs)], Success(()))
  {
    var s := files[p];
    if cs == [] {
      assert s[0..] == s;
      assert files[p := s] == files;
    } else {
      var inserted := InsertText(s, cs[0].pos, cs[0].toAdd);
      var files' := files[p := inserted];
      assert ApplyTo(files, cs[0]) == Success(files');
      assert ApplyAll(files, cs) == ApplyAll(files', cs[1..]);
      InsertFirstKeepsWeave(s, cs);
      assert files'[p] == inserted;
      assert forall k :: 0 <= k < |cs[1..]| ==> cs[1..][k].path == cs[k + 1].path;
      BottomUpKeepsOffsets(files', p, cs[1..]);
      OverwriteEntry(files, p, inserted, Weave(s, 0, cs));
    }
  }

  /** Writing the same entry twice keeps only the second write. */
  lemma OverwriteEntry(m: map<string, string>, p: string, first: string, second: string)
    ensures m[p := first][p := second] == m[p := second]
  {
  }

  /**
   * `applyChanges` on insertions into one file, all within its current
   * text: every text lands at the offset it was planned for.
   */
  lemma ApplyChangesKeepsPlannedOffsets(files: map<string, string>, p: string, changes: seq<Option<Change>>)
    requires p in files
    requires forall c :: Some(c) in changes ==> c.InsertChange? && c.path == p && 0 <= c.pos <= |files[p]|
    ensures Fits(Ordered(changes), 0, |files[p]|)
    ensures ApplyAll(files, Ordered(changes)) == (files[p := Weave(files[p], 0, Ordered(changes))], Success(()))
  {
    OrderedIsBottomUp(changes);
    var o := Ordered(changes);
    assert forall k :: 0 <= k < |o| ==> Some(o[k]) in changes;
    BottomUpKeepsOffsets(files, p, o);
  }

  /** One step of the chain on a store holding a single file. */
  lemma ApplyOneFile(p: string, content: string, c: Change, rest: seq<Change>)
    requires c.path == p
    ensures ApplyAll(map[p := content], [c] + rest) == ApplyAll(map[p := Splice(c, content)], rest)
  {
    assert ([c] + rest)[1..] == rest;
    assert map[p := content][p := Splice(c, content)] == map[p := Splice(c, content)];
  }

  /**
   * Why the order matters: applied top-down, the first insertion shifts the
   * text under the second. With "ab", X at 0 and Y at 1, bottom-up gives
   * "XaYb" while top-down gives "XYab".
   */
  lemma TopDownShiftsOffsets(p: string, x: char, y: char, a: char, b: char)
    ensures var files := map[p := [a, b]];
            var atZero := InsertChange(p, 0, [x], 1, "");
            var atOne := InsertChange(p, 1, [y], 1, "");
            && ApplyAll(files, Ordered([Some(atZero), Some(atOne)])) == (map[p := [x, a, y, b]], Success(()))
            && ApplyAll(files, [atZero, atOne]) == (map[p := [x, y, a, b]], Success(()))
  {
    ExampleOrder(p, x, y);
    ExampleBottomUp(p, x, y, a, b);
    ExampleTopDown(p, x, y, a, b);
  }

  lemma ExampleOrder(p: string, x: char, y: char)
    ensures Ordered([Some(InsertChange(p, 0, [x], 1, "")), Some(InsertChange(p, 1, [y], 1, ""))])
         == [InsertChange(p, 1, [y], 1, ""), InsertChange(p, 0, [x], 1, "")]
  {
    var atZero := InsertChange(p, 0, [x], 1, "");
    var atOne := InsertChange(p, 1, [y], 1, "");
    PresentOfTwo(atZero, atOne);
    SortTwoBottomUp(atZero, atOne);
  }

  /** Two changes, the second further down the file, are swapped. */
  lemma SortTwoBottomUp(c: Change, d: Change)
    requires c.pos < d.pos
    ensures SortBy([c, d], BottomUp) == [d, c]
  {
    assert [c, d][..1] == [c] && [c][..0] == [];
    assert SortBy([c], BottomUp) == [c];
    assert InsertBy([c], d, BottomUp) == [d, c];
  }

  lemma PresentOfTwo(c: Change, d: Change)
    ensures Present([Some(c), Some(d)]) == [c, d]
  {
    assert [Some(c), Some(d)][..1] == [Some(c)] && [Some(c)][..0] == [];
  }

  lemma ExampleBottomUp(p: string, x: char, y: char, a: char, b: char)
    ensures ApplyAll(map[p := [a, b]], [InsertChange(p, 1, [y], 1, ""), InsertChange(p, 0, [x], 1, "")])
         == (map[p := [x, a, y, b]], Success(()))
  {
    var atZero := InsertChange(p, 0, [x], 1, "");
    var atOne := InsertChange(p, 1, [y], 1, "");
    assert [atOne, atZero] == [atOne] + [atZero];
    assert InsertText([a, b], 1, [y]) == [a, y, b];
    assert InsertText([a, y, b], 0, [x]) == [x, a, y, b];
    ApplyOneFile(p, [a, b], atOne, [atZero]);
    ApplyOneFile(p, [a, y, b], atZero, []);
  }

  lemma ExampleTopDown(p: string, x: char, y: char, a: char, b: char)
    ensures ApplyAll(map[p := [a, b]], [InsertChange(p, 0, [x], 1, ""), InsertChange(p, 1, [y], 1, "")])
         == (map[p := [x, y, a, b]], Success(()))
  {
    var atZero := InsertChange(p, 0, [x], 1, "");
    var atOne := InsertChange(p, 1, [y], 1, "");
    assert [atZero, atOne] == [atZero] + [atOne];
    assert InsertText([a, b], 0, [x]) == [x, a, b];
    assert InsertText([x, a, b], 1, [y]) == [x, y, a, b];
    ApplyOneFile(p, [a, b], atZero, [atOne]);
    ApplyOneFile(p, [x, a, b], atOne, []);
  }
}
