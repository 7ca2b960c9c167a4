/**
 * Optimisation as a value: `Optimize` pairs every top-level part of the merged
 * tree with the single same-named part of the full tree, and `OptimizePart`
 * does the same for children, children first, then drops a part's children
 * when it has as many as its full counterpart.
 */
module OptimizeValues {
  import opened Wrappers
  import opened SelectorValues

  // ---------------------------------------------------------------------------
  // `Single(n => n.PartName == name)`

  /** How often `n` occurs in `names`. */
  function CountOf(names: seq<string>, n: string): nat
  {
    if names == [] then 0
    else CountOf(names[..|names| - 1], n) + (if names[|names| - 1] == n then 1 else 0)
  }

  lemma {:induction false} CountOfPositive(names: seq<string>, n: string)
    ensures CountOf(names, n) > 0 <==> n in names
    decreases |names|
  {
    if names != [] {
      var front := names[..|names| - 1];
      CountOfPositive(front, n);
      assert names == front + [names[|names| - 1]];
    }
  }

  /** The first position of `n` in `names`. */
  function IndexOf(names: seq<string>, n: string): (i: nat)
    requires n in names
    ensures i < |names| && names[i] == n
  {
    if names[0] == n then 0 else 1 + IndexOf(names[1..], n)
  }

  /**
   * `Single`: the position of the only entry equal to `n`; no entry or more
   * than one throws `InvalidOperationException`.
   */
  function SingleIndex(names: seq<string>, n: string): (r: Result<nat>)
    ensures r.Success? <==> CountOf(names, n) == 1
    ensures r.Failure? ==> r.error == InvalidOperation
    ensures r.Success? ==> r.value < |names| && names[r.value] == n
  {
    CountOfPositive(names, n);
    if CountOf(names, n) == 1 then Success(IndexOf(names, n)) else Failure(InvalidOperation)
  }

  /** The position `Single` finds is the only position holding `n`. */
  lemma {:induction false} SingleIndexUnique(names: seq<string>, n: string, j: nat)
    requires SingleIndex(names, n).Success? && j < |names| && names[j] == n
    ensures j == SingleIndex(names, n).value
  {
    var i := SingleIndex(names, n).value;
    if i != j {
      CountOfTwo(names, n, i, j);
    }
  }

  /** Two positions holding `n` count twice. */
  lemma {:induction false} CountOfTwo(names: seq<string>, n: string, i: nat, j: nat)
    requires i < |names| && j < |names| && i != j && names[i] == n && names[j] == n
    ensures CountOf(names, n) >= 2
    decreases |names|
  {
    var m := |names| - 1;
    var front := names[..m];
    if i == m || j == m {
      var k := if i == m then j else i;
      assert front[k] == n;
      CountOfPositive(front, n);
    } else {
      assert front[i] == n && front[j] == n;
      CountOfTwo(front, n, i, j);
    }
  }

  // ---------------------------------------------------------------------------
  // The optimisation

  /**
   * The `foreach` of `Optimize` and of `OptimizePart`: each selected part,
   * in order, optimised against the single same-named full part.
   */
  function OptimizeEach(sels: seq<Part>, fulls: seq<Part>): Result<seq<Part>>
    decreases ForestSize(sels), 1
  {
    if sels == [] then Success([])
    else
      var n := |sels| - 1;
      var front :- OptimizeEach(sels[..n], fulls);
      var k :- SingleIndex(Names(fulls), sels[n].name);
      var last :- OptimizePartValue(sels[n], fulls[k]);
      Success(front + [last])
  }

  /**
   * `OptimizePart`: the children first; then, when the selected part has as
   * many children as its full counterpart, no children at all.
   */
  function OptimizePartValue(sel: Part, full: Part): Result<Part>
    decreases ForestSize(sel.children) + 1, 0
  {
    var children :- OptimizeEach(sel.children, full.children);
    if |sel.children| == |full.children| then Success(Part(sel.name, [])) else Success(Part(sel.name, children))
  }

  // ---------------------------------------------------------------------------
  // What optimisation may change

  /** `r` is `sel` with the children of some parts dropped: nothing added, renamed or reordered. */
  ghost predicate Pruned(r: Part, sel: Part)
    decreases sel
  {
    && r.name == sel.name
    && (r.children == []
        || (|r.children| == |sel.children|
            && forall i :: 0 <= i < |sel.children| ==> Pruned(r.children[i], sel.children[i])))
  }

  /** Two levels pair up part by part under `Pruned`. */
  ghost predicate PrunedEach(rs: seq<Part>, sels: seq<Part>)
  {
    |rs| == |sels| && forall i :: 0 <= i < |sels| ==> Pruned(rs[i], sels[i])
  }

  /** The result of one optimisation step, taken apart. */
  lemma OptimizePartValueAt(sel: Part, full: Part)
    ensures OptimizePartValue(sel, full).Success? <==> OptimizeEach(sel.children, full.children).Success?
    ensures OptimizePartValue(sel, full).Success? && |sel.children| == |full.children|
            ==> OptimizePartValue(sel, full).value == Part(sel.name, [])
    ensures OptimizePartValue(sel, full).Success? && |sel.children| != |full.children|
            ==> OptimizePartValue(sel, full).value == Part(sel.name, OptimizeEach(sel.children, full.children).value)
  {
  }

  /** One more selected part: the front succeeds and the last part pairs and succeeds. */
  lemma OptimizeEachSnoc(sels: seq<Part>, fulls: seq<Part>)
    requires sels != []
    ensures var n := |sels| - 1;
            OptimizeEach(sels, fulls).Success?
            <==> (&& OptimizeEach(sels[..n], fulls).Success?
                  && SingleIndex(Names(fulls), sels[n].name).Success?
                  && OptimizePartValue(sels[n], fulls[SingleIndex(Names(fulls), sels[n].name).value]).Success?)
    ensures var n := |sels| - 1;
            OptimizeEach(sels, fulls).Success?
            ==> OptimizeEach(sels, fulls).value
                == OptimizeEach(sels[..n], fulls).value
                   + [OptimizePartValue(sels[n], fulls[SingleIndex(Names(fulls), sels[n].name).value]).value]
  {
  }

  /**
   * Optimising a level keeps its parts, their names and their order, and only
   * ever drops children; a part whose children are dropped is one with as many
   * children as its full counterpart.
   */
  lemma {:induction false} OptimizeEachPrunes(sels: seq<Part>, fulls: seq<Part>)
    requires OptimizeEach(sels, fulls).Success?
    ensures PrunedEach(OptimizeEach(sels, fulls).value, sels)
    decreases ForestSize(sels), 1
  {
    if sels != [] {
      var n := |sels| - 1;
      OptimizeEachSnoc(sels, fulls);
      OptimizeEachPrunes(sels[..n], fulls);
      var k := SingleIndex(Names(fulls), sels[n].name).value;
      OptimizePartPrunes(sels[n], fulls[k]);
    }
  }

  lemma {:induction false} OptimizePartPrunes(sel: Part, full: Part)
    requires OptimizePartValue(sel, full).Success?
    ensures Pruned(OptimizePartValue(sel, full).value, sel)
    decreases ForestSize(sel.children) + 1, 0
  {
    OptimizePartValueAt(sel, full);
    if |sel.children| != |full.children| {
      OptimizeEachPrunes(sel.children, full.children);
    }
  }

  /** The children of a part are dropped exactly when it has as many as its full counterpart, or none. */
  lemma OptimizeClears(sel: Part, full: Part)
    requires OptimizePartValue(sel, full).Success?
    ensures OptimizePartValue(sel, full).value.children == []
            <==> |sel.children| == |full.children| || sel.children == []
  {
    OptimizePartValueAt(sel, full);
    if |sel.children| != |full.children| {
      OptimizeEachPrunes(sel.children, full.children);
    }
  }

  /** The top-level list is never collapsed: the optimised tree has the merged tree's top-level names, in order. */
  lemma OptimizeKeepsTopLevel(sels: seq<Part>, fulls: seq<Part>)
    requires OptimizeEach(sels, fulls).Success?
    ensures Names(OptimizeEach(sels, fulls).value) == Names(sels)
  {
    OptimizeEachPrunes(sels, fulls);
  }

  // ---------------------------------------------------------------------------
  // When optimisation fails

  /** Every selected child has exactly one same-named full child, and so on all the way down. */
  ghost predicate Matchable(sel: Part, full: Part)
    decreases sel
  {
    forall i :: 0 <= i < |sel.children| ==>
      && CountOf(Names(full.children), sel.children[i].name) == 1
      && Matchable(sel.children[i], full.children[SingleIndex(Names(full.children), sel.children[i].name).value])
  }

  /** Every selected part of a level has exactly one same-named full part, and matches it. */
  ghost predicate MatchableEach(sels: seq<Part>, fulls: seq<Part>)
  {
    forall i :: 0 <= i < |sels| ==>
      && CountOf(Names(fulls), sels[i].name) == 1
      && Matchable(sels[i], fulls[SingleIndex(Names(fulls), sels[i].name).value])
  }

  /** A level is matchable exactly when its front is and its last part is. */
  lemma MatchableEachSnoc(sels: seq<Part>, fulls: seq<Part>)
    requires sels != []
    ensures var n := |sels| - 1;
            MatchableEach(sels, fulls)
            <==> (&& MatchableEach(sels[..n], fulls)
                  && CountOf(Names(fulls), sels[n].name) == 1
                  && Matchable(sels[n], fulls[SingleIndex(Names(fulls), sels[n].name).value]))
  {
    var n := |sels| - 1;
    var front := sels[..n];
    if MatchableEach(sels, fulls) {
      forall i | 0 <= i < |front|
        ensures CountOf(Names(fulls), front[i].name) == 1
                && Matchable(front[i], fulls[SingleIndex(Names(fulls), front[i].name).value])
      {
        assert sels[i] == front[i];
      }
    }
  }

  /** Optimisation succeeds exactly when every selected part is matched by exactly one full part. */
  lemma {:induction false} OptimizeEachSucceeds(sels: seq<Part>, fulls: seq<Part>)
    ensures OptimizeEach(sels, fulls).Success? <==> MatchableEach(sels, fulls)
    ensures OptimizeEach(sels, fulls).Failure? ==> OptimizeEach(sels, fulls).error == InvalidOperation
    decreases ForestSize(sels), 1
  {
    if sels != [] {
      var n := |sels| - 1;
      var front := sels[..n];
      OptimizeEachSnoc(sels, fulls);
      OptimizeEachSucceeds(front, fulls);
      if SingleIndex(Names(fulls), sels[n].name).Success? {
        OptimizePartSucceeds(sels[n], fulls[SingleIndex(Names(fulls), sels[n].name).value]);
      }
      MatchableEachSnoc(sels, fulls);
      if OptimizeEach(sels, fulls).Failure? {
        if OptimizeEach(front, fulls).Success? && SingleIndex(Names(fulls), sels[n].name).Success? {
          OptimizePartFailsWith(sels[n], fulls[SingleIndex(Names(fulls), sels[n].name).value]);
        }
      }
    }
  }

  /** Once a prefix of the level fails, the whole level fails: `foreach` stops at the first exception. */
  lemma {:induction false} OptimizeEachPrefixFails(sels: seq<Part>, fulls: seq<Part>, j: nat)
    requires j <= |sels| && OptimizeEach(sels[..j], fulls).Failure?
    ensures OptimizeEach(sels, fulls).Failure?
    decreases |sels| - j
  {
    if j < |sels| {
      assert sels[..j + 1][..j] == sels[..j];
      OptimizeEachSnoc(sels[..j + 1], fulls);
      OptimizeEachPrefixFails(sels, fulls, j + 1);
    } else {
      assert sels[..j] == sels;
    }
  }

  /** Optimising one more part of a level whose prefix optimised to `done`. */
  lemma OptimizeEachStep(sels: seq<Part>, fulls: seq<Part>, i: nat, done: seq<Part>)
    requires i < |sels| && OptimizeEach(sels[..i], fulls) == Success(done)
    requires SingleIndex(Names(fulls), sels[i].name).Success?
    requires OptimizePartValue(sels[i], fulls[SingleIndex(Names(fulls), sels[i].name).value]).Success?
    ensures OptimizeEach(sels[..i + 1], fulls)
            == Success(done + [OptimizePartValue(sels[i], fulls[SingleIndex(Names(fulls), sels[i].name).value]).value])
  {
    assert sels[..i + 1][..i] == sels[..i];
    OptimizeEachSnoc(sels[..i + 1], fulls);
  }

  /** A part of a level that cannot be paired or optimised makes the whole level fail. */
  lemma OptimizeEachStepFails(sels: seq<Part>, fulls: seq<Part>, i: nat)
    requires i < |sels| && OptimizeEach(sels[..i], fulls).Success?
    requires || SingleIndex(Names(fulls), sels[i].name).Failure?
             || OptimizePartValue(sels[i], fulls[SingleIndex(Names(fulls), sels[i].name).value]).Failure?
    ensures OptimizeEach(sels, fulls).Failure?
  {
    assert sels[..i + 1][..i] == sels[..i];
    OptimizeEachSnoc(sels[..i + 1], fulls);
    OptimizeEachPrefixFails(sels, fulls, i + 1);
  }

  lemma {:induction false} OptimizePartSucceeds(sel: Part, full: Part)
    ensures OptimizePartValue(sel, full).Success? <==> Matchable(sel, full)
    decreases ForestSize(sel.children) + 1, 0
  {
    OptimizePartValueAt(sel, full);
    OptimizeEachSucceeds(sel.children, full.children);
  }

  lemma {:induction false} OptimizePartFailsWith(sel: Part, full: Part)
    ensures OptimizePartValue(sel, full).Failure? ==> OptimizePartValue(sel, full).error == InvalidOperation
    decreases ForestSize(sel.children) + 1, 0
  {
    OptimizeEachSucceeds(sel.children, full.children);
  }

  // ---------------------------------------------------------------------------
  // Idempotence and coverage

  /** Optimising an optimised level again changes nothing. */
  lemma {:induction false} OptimizeEachIdempotent(sels: seq<Part>, fulls: seq<Part>)
    requires OptimizeEach(sels, fulls).Success?
    ensures OptimizeEach(OptimizeEach(sels, fulls).value, fulls) == OptimizeEach(sels, fulls)
    decreases ForestSize(sels), 1
  {
    if sels != [] {
      var n := |sels| - 1;
      var rs := OptimizeEach(sels, fulls).value;
      OptimizeEachSnoc(sels, fulls);
      OptimizeEachPrunes(sels, fulls);
      OptimizeEachIdempotent(sels[..n], fulls);
      var k := SingleIndex(Names(fulls), sels[n].name).value;
      OptimizePartIdempotent(sels[n], fulls[k]);
      assert rs[..n] == OptimizeEach(sels[..n], fulls).value;
      assert rs[n].name == sels[n].name;
      OptimizeEachSnoc(rs, fulls);
    }
  }

  lemma {:induction false} OptimizePartIdempotent(sel: Part, full: Part)
    requires OptimizePartValue(sel, full).Success?
    ensures OptimizePartValue(OptimizePartValue(sel, full).value, full) == OptimizePartValue(sel, full)
    decreases ForestSize(sel.children) + 1, 0
  {
    var r := OptimizePartValue(sel, full).value;
    OptimizePartValueAt(sel, full);
    OptimizePartValueAt(r, full);
    if |sel.children| != |full.children| {
      OptimizeEachPrunes(sel.children, full.children);
      OptimizeEachIdempotent(sel.children, full.children);
    }
  }

  /**
   * The response includes the field at `path`: some part on the way is
   * selected without children (the server then returns all of it), or the
   * path ends at a selected childless part.
   */
  ghost predicate Covers(ps: seq<Part>, path: seq<string>)
    decreases |path|
  {
    && |path| > 0
    && exists i :: 0 <= i < |ps| && ps[i].name == path[0]
                   && (ps[i].children == [] || Covers(ps[i].children, path[1..]))
  }

  /** Dropping children never narrows what a tree covers. */
  lemma {:induction false} PrunedEachCovers(rs: seq<Part>, sels: seq<Part>, path: seq<string>)
    requires PrunedEach(rs, sels) && Covers(sels, path)
    ensures Covers(rs, path)
    decreases |path|
  {
    var i :| 0 <= i < |sels| && sels[i].name == path[0]
             && (sels[i].children == [] || Covers(sels[i].children, path[1..]));
    if rs[i].children != [] {
      assert PrunedEach(rs[i].children, sels[i].children);
      PrunedEachCovers(rs[i].children, sels[i].children, path[1..]);
    }
  }

  /** Dropping children never adds a path. */
  lemma {:induction false} PrunedEachPaths(rs: seq<Part>, sels: seq<Part>, path: seq<string>)
    requires PrunedEach(rs, sels) && IsPath(rs, path)
    ensures IsPath(sels, path)
    decreases |path|
  {
    var i :| 0 <= i < |rs| && rs[i].name == path[0] && (|path| == 1 || IsPath(rs[i].children, path[1..]));
    if |path| > 1 {
      assert PrunedEach(rs[i].children, sels[i].children);
      PrunedEachPaths(rs[i].children, sels[i].children, path[1..]);
    }
  }

  /** Optimisation never deselects a field and never introduces a part that was not selected. */
  lemma OptimizeNeverNarrows(sels: seq<Part>, fulls: seq<Part>, path: seq<string>)
    requires OptimizeEach(sels, fulls).Success?
    ensures Covers(sels, path) ==> Covers(OptimizeEach(sels, fulls).value, path)
    ensures IsPath(OptimizeEach(sels, fulls).value, path) ==> IsPath(sels, path)
  {
    OptimizeEachPrunes(sels, fulls);
    if Covers(sels, path) {
      PrunedEachCovers(OptimizeEach(sels, fulls).value, sels, path);
    }
    if IsPath(OptimizeEach(sels, fulls).value, path) {
      PrunedEachPaths(OptimizeEach(sels, fulls).value, sels, path);
    }
  }

  /** `Single` over two distinct names. */
  lemma SingleIndexOfTwo(a: string, b: string)
    requires a != b
    ensures SingleIndex([a, b], a) == Success(0) && SingleIndex([a, b], b) == Success(1)
  {
    assert [a, b][..1] == [a] && [a][..0] == [] && [a, b][1..] == [b];
    assert CountOf([a], a) == 1 && CountOf([a], b) == 0;
    assert CountOf([a, b], a) == 1 && CountOf([a, b], b) == 1;
    assert IndexOf([a, b], b) == 1 + IndexOf([b], b);
  }

  /** The `x` level of `OptimizeMayWiden`: `x.p` stays, as `x` declares two children. */
  lemma WidenLevelX(x: string, p: string, q: string)
    requires p != q
    ensures OptimizePartValue(Part(x, [Part(p, [])]), Part(x, [Part(p, []), Part(q, [])])) == Success(Part(x, [Part(p, [])]))
  {
    var pp, qq := Part(p, []), Part(q, []);
    SingleIndexOfTwo(p, q);
    assert Names([pp, qq]) == [p, q];
    assert OptimizeEach([], [pp, qq]) == Success([]);
    assert OptimizePartValue(pp, pp) == Success(pp);
    OptimizeEachSnoc([pp], [pp, qq]);
    assert [pp][..0] == [] && [pp][0] == pp && [pp, qq][0] == pp;
    assert OptimizeEach([pp], [pp, qq]).value == [] + [pp] == [pp];
  }

  /** The children of `a` in `OptimizeMayWiden`: `x` and `y` both optimise, unchanged. */
  lemma WidenChildrenOfA(x: string, y: string, p: string, q: string)
    requires x != y && p != q
    ensures var sx, fx, yy := Part(x, [Part(p, [])]), Part(x, [Part(p, []), Part(q, [])]), Part(y, []);
            OptimizeEach([sx, yy], [fx, yy]) == Success([sx, yy])
  {
    var sx, fx, yy := Part(x, [Part(p, [])]), Part(x, [Part(p, []), Part(q, [])]), Part(y, []);
    WidenLevelX(x, p, q);
    SingleIndexOfTwo(x, y);
    assert Names([fx, yy]) == [x, y];
    assert OptimizeEach([], [fx, yy]) == Success([]);
    assert OptimizePartValue(yy, yy) == Success(yy);
    OptimizeEachSnoc([sx], [fx, yy]);
    assert [sx][..0] == [];
    assert [sx][0] == sx && [fx, yy][0] == fx;
    assert OptimizeEach([sx], [fx, yy]).value == [] + [sx] == [sx];
    OptimizeEachSnoc([sx, yy], [fx, yy]);
    assert [sx, yy][..1] == [sx] && [sx, yy][1] == yy && [fx, yy][1] == yy;
    assert [sx] + [yy] == [sx, yy];
  }

  /**
   * The count rule looks only at the immediate children: with `x` declaring
   * `p` and `q`, selecting `a.x.p` and `a.y` collapses `a`, so the response
   * also includes `a.x.q`, which was not selected.
   */
  lemma OptimizeMayWiden(a: string, x: string, y: string, p: string, q: string)
    requires x != y && p != q
    ensures var sels := [Part(a, [Part(x, [Part(p, [])]), Part(y, [])])];
            var fulls := [Part(a, [Part(x, [Part(p, []), Part(q, [])]), Part(y, [])])];
            && OptimizeEach(sels, fulls) == Success([Part(a, [])])
            && Covers(OptimizeEach(sels, fulls).value, [a, x, q])
            && !Covers(sels, [a, x, q])
  {
    var pp, yy := Part(p, []), Part(y, []);
    var sx := Part(x, [pp]);
    var sa, fa := Part(a, [sx, yy]), Part(a, [Part(x, [pp, Part(q, [])]), yy]);
    var path: seq<string> := [a, x, q];
    WidenChildrenOfA(x, y, p, q);
    assert sa.children == [sx, yy] && |fa.children| == 2;
    assert OptimizePartValue(sa, fa) == Success(Part(a, []));
    assert Names([fa]) == [a];
    assert SingleIndex([a], a) == Success(0) by {
      assert [a][..0] == [] && [a][0] == a;
      assert CountOf([a], a) == 1;
    }
    assert OptimizeEach([], [fa]) == Success([]);
    OptimizeEachSnoc([sa], [fa]);
    assert [sa][..0] == [];
    assert OptimizeEach([sa], [fa]).value == [] + [Part(a, [])] == [Part(a, [])];
    // Coverage before and after.
    assert [Part(a, [])][0].name == path[0] && [Part(a, [])][0].children == [];
    assert path[1..] == [x, q] && path[1..][1..] == [q];
    assert !Covers([pp], [q]);
    assert !Covers([sx, yy], [x, q]);
  }
}
