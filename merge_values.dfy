/**
 * Merging as a value: `MergeRootParts` and `MergeChildPart` group the parts of
 * one level by name (`GroupBy`, keys in order of first occurrence) and merge
 * the children of each group recursively.
 */
module MergeValues {
  import opened SelectorValues

  /** The keys of `GroupBy(m => m.PartName)`: each name once, at its first occurrence. */
  function DistinctNames(ps: seq<Part>): seq<string>
  {
    if ps == [] then []
    else
      var front := DistinctNames(ps[..|ps| - 1]);
      if ps[|ps| - 1].name in front then front else front + [ps[|ps| - 1].name]
  }

  /** `group.SelectMany(m => m.ChildParts)`: the children of every part named `n`, in order. */
  function ChildrenNamed(ps: seq<Part>, n: string): seq<Part>
  {
    if ps == [] then []
    else ChildrenNamed(ps[..|ps| - 1], n) + (if ps[|ps| - 1].name == n then ps[|ps| - 1].children else [])
  }

  /** One merged part per distinct name, in first-occurrence order. */
  function MergeLevel(ps: seq<Part>): seq<Part>
    decreases ForestSize(ps), 1
  {
    var names := DistinctNames(ps);
    seq(|names|, k requires 0 <= k < |names| => MergeGroup(ps, names[k]))
  }

  /** The merged part of one group: the name, and the merge of the group's children. */
  function MergeGroup(ps: seq<Part>, n: string): Part
    decreases ForestSize(ps), 0
  {
    if ps == [] then Part(n, [])
    else
      ChildrenNamedSmaller(ps, n);
      Part(n, MergeLevel(ChildrenNamed(ps, n)))
  }

  // ---------------------------------------------------------------------------
  // Sizes

  /** The children of one group are a strictly smaller forest than the level they come from. */
  lemma {:induction false} ChildrenNamedSmaller(ps: seq<Part>, n: string)
    ensures ForestSize(ChildrenNamed(ps, n)) <= ForestSize(ps)
    ensures ps != [] ==> ForestSize(ChildrenNamed(ps, n)) < ForestSize(ps)
    decreases |ps|
  {
    if ps != [] {
      var front, last := ps[..|ps| - 1], ps[|ps| - 1];
      ChildrenNamedSmaller(front, n);
      ForestSizeConcat(ChildrenNamed(front, n), if last.name == n then last.children else []);
    }
  }

  // ---------------------------------------------------------------------------
  // Group keys

  /** `n` is a key of the grouping exactly when some part of the level is named `n`. */
  lemma {:induction false} DistinctNamesMembers(ps: seq<Part>, n: string)
    ensures n in DistinctNames(ps) <==> exists k :: 0 <= k < |ps| && ps[k].name == n
    decreases |ps|
  {
    if ps != [] {
      var front := ps[..|ps| - 1];
      DistinctNamesMembers(front, n);
      if exists k :: 0 <= k < |front| && front[k].name == n {
        var k :| 0 <= k < |front| && front[k].name == n;
        assert ps[k].name == n;
      }
      if exists k :: 0 <= k < |ps| && ps[k].name == n {
        var k :| 0 <= k < |ps| && ps[k].name == n;
        if k < |front| {
          assert front[k].name == n;
        }
      }
    }
  }

  /** No name is listed twice. */
  predicate Distinct(ns: seq<string>)
  {
    forall i, j :: 0 <= i < j < |ns| ==> ns[i] != ns[j]
  }

  /** The group keys are pairwise distinct. */
  lemma {:induction false} DistinctNamesAreDistinct(ps: seq<Part>)
    ensures Distinct(DistinctNames(ps))
    decreases |ps|
  {
    if ps != [] {
      DistinctNamesAreDistinct(ps[..|ps| - 1]);
    }
  }

  /**
   * The group keys come in order of first occurrence: a key listed before
   * another occurs in the level before every occurrence of the other.
   */
  lemma {:induction false} DistinctNamesFirstOccurrence(ps: seq<Part>, i: nat, j: nat)
    requires i < j < |DistinctNames(ps)|
    ensures exists a :: 0 <= a < |ps| && ps[a].name == DistinctNames(ps)[i]
                        && forall b :: 0 <= b < |ps| && ps[b].name == DistinctNames(ps)[j] ==> a < b
    decreases |ps|
  {
    var d := DistinctNames(ps);
    var n := |ps| - 1;
    var front := ps[..n];
    var df := DistinctNames(front);
    if j < |df| {
      DistinctNamesFirstOccurrence(front, i, j);
      var a :| 0 <= a < |front| && front[a].name == df[i]
               && forall b :: 0 <= b < |front| && front[b].name == df[j] ==> a < b;
      assert ps[a].name == d[i];
      forall b | 0 <= b < |ps| && ps[b].name == d[j]
        ensures a < b
      {
        if b < n {
          assert front[b].name == df[j];
        }
      }
    } else {
      // d[j] is the last part's name, which occurs nowhere before it.
      assert d == df + [ps[n].name] && j == |df|;
      DistinctNamesMembers(front, d[i]);
      var a :| 0 <= a < |front| && front[a].name == d[i];
      assert ps[a].name == d[i];
      forall b | 0 <= b < |ps| && ps[b].name == d[j]
        ensures a < b
      {
        if b < n {
          assert front[b].name == d[j];
          DistinctNamesMembers(front, d[j]);
        }
      }
    }
  }

  /** On a level whose names are already distinct the keys are the names themselves. */
  lemma {:induction false} DistinctNamesOfDistinct(ps: seq<Part>)
    requires Distinct(Names(ps))
    ensures DistinctNames(ps) == Names(ps)
    decreases |ps|
  {
    if ps != [] {
      var n := |ps| - 1;
      var front := ps[..n];
      assert Names(ps) == Names(front) + [ps[n].name];
      DistinctNamesOfDistinct(front);
      forall k | 0 <= k < |front| ensures front[k].name != ps[n].name {
        assert Names(ps)[k] != Names(ps)[n];
      }
      DistinctNamesMembers(front, ps[n].name);
    }
  }

  /** Appending parts whose names are already keys adds no key. */
  lemma {:induction false} DistinctNamesKnownSuffix(a: seq<Part>, b: seq<Part>)
    requires forall k :: 0 <= k < |b| ==> b[k].name in DistinctNames(a)
    ensures DistinctNames(a + b) == DistinctNames(a)
    decreases |b|
  {
    if b == [] {
      assert a + b == a;
    } else {
      var m := |b| - 1;
      assert (a + b)[..|a + b| - 1] == a + b[..m];
      assert (a + b)[|a + b| - 1] == b[m];
      DistinctNamesKnownSuffix(a, b[..m]);
    }
  }

  // ---------------------------------------------------------------------------
  // Group children

  lemma {:induction false} ChildrenNamedConcat(a: seq<Part>, b: seq<Part>, n: string)
    ensures ChildrenNamed(a + b, n) == ChildrenNamed(a, n) + ChildrenNamed(b, n)
    decreases |b|
  {
    if b == [] {
      assert a + b == a;
    } else {
      var m := |b| - 1;
      assert (a + b)[..|a + b| - 1] == a + b[..m];
      assert (a + b)[|a + b| - 1] == b[m];
      ChildrenNamedConcat(a, b[..m], n);
    }
  }

  /** A name no part carries has no group children. */
  lemma {:induction false} ChildrenNamedAbsent(ps: seq<Part>, n: string)
    requires forall k :: 0 <= k < |ps| ==> ps[k].name != n
    ensures ChildrenNamed(ps, n) == []
    decreases |ps|
  {
    if ps != [] {
      ChildrenNamedAbsent(ps[..|ps| - 1], n);
    }
  }

  /** With distinct names, the group of `ps[k]` holds exactly its children. */
  lemma {:induction false} ChildrenNamedUnique(ps: seq<Part>, k: nat)
    requires k < |ps| && Distinct(Names(ps))
    ensures ChildrenNamed(ps, ps[k].name) == ps[k].children
    decreases |ps|
  {
    var n := |ps| - 1;
    var front := ps[..n];
    assert Distinct(Names(front)) by {
      forall i, j | 0 <= i < j < |front| ensures Names(front)[i] != Names(front)[j] {
        assert Names(ps)[i] != Names(ps)[j];
      }
    }
    if k == n {
      forall i | 0 <= i < |front| ensures front[i].name != ps[k].name {
        assert Names(ps)[i] != Names(ps)[n];
      }
      ChildrenNamedAbsent(front, ps[k].name);
    } else {
      assert Names(ps)[k] != Names(ps)[n];
      ChildrenNamedUnique(front, k);
    }
  }

  /** The parts of one level are named well exactly when their group children are, for every name. */
  lemma {:induction false} ChildrenNamedAllNamed(ps: seq<Part>, n: string)
    requires AllNamed(ps)
    ensures AllNamed(ChildrenNamed(ps, n))
    decreases |ps|
  {
    if ps != [] {
      var m := |ps| - 1;
      AllNamedPrefix(ps, m);
      assert ps[..m + 1] == ps;
      ChildrenNamedAllNamed(ps[..m], n);
      AllNamedSingle(ps[m]);
      AllNamedConcat(ChildrenNamed(ps[..m], n), if ps[m].name == n then ps[m].children else []);
    }
  }

  // ---------------------------------------------------------------------------
  // Paths

  lemma IsPathConcat(a: seq<Part>, b: seq<Part>, path: seq<string>)
    ensures IsPath(a + b, path) <==> IsPath(a, path) || IsPath(b, path)
  {
    if IsPath(a + b, path) {
      var i :| 0 <= i < |a + b| && (a + b)[i].name == path[0]
               && (|path| == 1 || IsPath((a + b)[i].children, path[1..]));
      if i < |a| {
        assert (a + b)[i] == a[i];
      } else {
        assert (a + b)[i] == b[i - |a|];
      }
    }
    if IsPath(a, path) {
      var i :| 0 <= i < |a| && a[i].name == path[0] && (|path| == 1 || IsPath(a[i].children, path[1..]));
      assert (a + b)[i] == a[i];
    }
    if IsPath(b, path) {
      var i :| 0 <= i < |b| && b[i].name == path[0] && (|path| == 1 || IsPath(b[i].children, path[1..]));
      assert (a + b)[|a| + i] == b[i];
    }
  }

  /** A path continues below the group named `n` exactly when it continues below some part named `n`. */
  lemma {:induction false} IsPathChildrenNamed(ps: seq<Part>, n: string, rest: seq<string>)
    ensures IsPath(ChildrenNamed(ps, n), rest)
            <==> exists k :: 0 <= k < |ps| && ps[k].name == n && IsPath(ps[k].children, rest)
    decreases |ps|
  {
    if ps != [] {
      var m := |ps| - 1;
      var front := ps[..m];
      IsPathChildrenNamed(front, n, rest);
      IsPathConcat(ChildrenNamed(front, n), if ps[m].name == n then ps[m].children else [], rest);
      if exists k :: 0 <= k < |front| && front[k].name == n && IsPath(front[k].children, rest) {
        var k :| 0 <= k < |front| && front[k].name == n && IsPath(front[k].children, rest);
        assert ps[k] == front[k];
      }
      if exists k :: 0 <= k < |ps| && ps[k].name == n && IsPath(ps[k].children, rest) {
        var k :| 0 <= k < |ps| && ps[k].name == n && IsPath(ps[k].children, rest);
        if k < m {
          assert ps[k] == front[k];
        }
      }
    }
  }

  // ---------------------------------------------------------------------------
  // What merging guarantees

  /** Sibling names are pairwise distinct at every level. */
  ghost predicate Merged(ps: seq<Part>)
  {
    && Distinct(Names(ps))
    && forall i :: 0 <= i < |ps| ==> Merged(ps[i].children)
  }

  /** The merged part for the `i`-th key: that name over the merge of the group's children. */
  lemma MergeLevelAt(ps: seq<Part>, i: nat)
    requires i < |DistinctNames(ps)|
    ensures |MergeLevel(ps)| == |DistinctNames(ps)|
    ensures MergeLevel(ps)[i] == Part(DistinctNames(ps)[i], MergeLevel(ChildrenNamed(ps, DistinctNames(ps)[i])))
  {
    assert ps != [];
  }

  /** One merged part per group key, in first-occurrence order. */
  lemma MergeNames(ps: seq<Part>)
    ensures Names(MergeLevel(ps)) == DistinctNames(ps)
  {
    forall i | 0 <= i < |DistinctNames(ps)|
      ensures MergeLevel(ps)[i].name == DistinctNames(ps)[i]
    {
      MergeLevelAt(ps, i);
    }
  }

  /** After merging, sibling names are distinct at every level. */
  lemma {:induction false} MergeIsMerged(ps: seq<Part>)
    ensures Merged(MergeLevel(ps))
    decreases ForestSize(ps)
  {
    var ms, d := MergeLevel(ps), DistinctNames(ps);
    MergeNames(ps);
    DistinctNamesAreDistinct(ps);
    forall i | 0 <= i < |ms|
      ensures Merged(ms[i].children)
    {
      MergeLevelAt(ps, i);
      ChildrenNamedSmaller(ps, d[i]);
      MergeIsMerged(ChildrenNamed(ps, d[i]));
    }
  }

  /** Merging is a union of paths: a path leads somewhere in the merge exactly when it does in the input. */
  lemma {:induction false} MergePaths(ps: seq<Part>, path: seq<string>)
    ensures IsPath(MergeLevel(ps), path) <==> IsPath(ps, path)
    decreases ForestSize(ps)
  {
    if |path| > 0 && ps != [] {
      var ms, d, n := MergeLevel(ps), DistinctNames(ps), path[0];
      var rest := path[1..];
      var cs := ChildrenNamed(ps, n);
      ChildrenNamedSmaller(ps, n);
      MergePaths(cs, rest);
      IsPathChildrenNamed(ps, n, rest);
      DistinctNamesMembers(ps, n);
      if IsPath(ms, path) {
        var i :| 0 <= i < |ms| && ms[i].name == n && (|path| == 1 || IsPath(ms[i].children, rest));
        MergeLevelAt(ps, i);
        if |path| == 1 {
          var k :| 0 <= k < |ps| && ps[k].name == n;
        } else {
          var k :| 0 <= k < |ps| && ps[k].name == n && IsPath(ps[k].children, rest);
        }
      }
      if IsPath(ps, path) {
        var k :| 0 <= k < |ps| && ps[k].name == n && (|path| == 1 || IsPath(ps[k].children, rest));
        assert n in d;
        var i :| 0 <= i < |d| && d[i] == n;
        MergeLevelAt(ps, i);
      }
    }
  }

  /** A forest that is already merged is left as it is. */
  lemma {:induction false} MergeFixpoint(ps: seq<Part>)
    requires Merged(ps)
    ensures MergeLevel(ps) == ps
    decreases ForestSize(ps)
  {
    DistinctNamesOfDistinct(ps);
    var ms := MergeLevel(ps);
    forall k | 0 <= k < |ps|
      ensures ms[k] == ps[k]
    {
      MergeLevelAt(ps, k);
      ChildrenNamedUnique(ps, k);
      ChildrenNamedSmaller(ps, ps[k].name);
      MergeFixpoint(ps[k].children);
    }
  }

  /** Merging twice is merging once. */
  lemma MergeIdempotent(ps: seq<Part>)
    ensures MergeLevel(MergeLevel(ps)) == MergeLevel(ps)
  {
    MergeIsMerged(ps);
    MergeFixpoint(MergeLevel(ps));
  }

  /** Repeating every selection changes nothing. */
  lemma {:induction false} MergeRepeated(ps: seq<Part>)
    ensures MergeLevel(ps + ps) == MergeLevel(ps)
    decreases ForestSize(ps)
  {
    forall k | 0 <= k < |ps|
      ensures ps[k].name in DistinctNames(ps)
    {
      DistinctNamesMembers(ps, ps[k].name);
    }
    DistinctNamesKnownSuffix(ps, ps);
    var d := DistinctNames(ps);
    forall i | 0 <= i < |d|
      ensures MergeLevel(ps + ps)[i] == MergeLevel(ps)[i]
    {
      MergeLevelAt(ps, i);
      MergeLevelAt(ps + ps, i);
      ChildrenNamedConcat(ps, ps, d[i]);
      ChildrenNamedSmaller(ps, d[i]);
      MergeRepeated(ChildrenNamed(ps, d[i]));
    }
  }

  /** A chain is merged: it has at most one part on every level. */
  lemma {:induction false} ChainIsMerged(names: seq<string>)
    ensures Merged(Chain(names))
    decreases |names|
  {
    if names != [] {
      ChainIsMerged(names[1..]);
    }
  }

  /** Selecting the same path twice gives the tree of selecting it once. */
  lemma SameSelectionTwice(names: seq<string>)
    ensures MergeLevel(Chain(names) + Chain(names)) == Chain(names)
  {
    MergeRepeated(Chain(names));
    ChainIsMerged(names);
    MergeFixpoint(Chain(names));
  }

  /** A path merged with a longer path through it gives just the longer chain. */
  lemma {:induction false} MergePrefixChain(p: seq<string>, q: seq<string>)
    requires p != [] && q != []
    ensures MergeLevel(Chain(p) + Chain(p + q)) == Chain(p + q)
    decreases |p|
  {
    var ps := Chain(p) + Chain(p + q);
    assert (p + q)[0] == p[0] && (p + q)[1..] == p[1..] + q;
    assert ps == [Part(p[0], Chain(p[1..])), Part(p[0], Chain(p[1..] + q))];
    var first := ps[..1];
    assert first[..0] == [] && ps[..|ps| - 1] == first;
    assert DistinctNames(first) == [p[0]];
    assert DistinctNames(ps) == [p[0]];
    assert ChildrenNamed(first, p[0]) == [] + Chain(p[1..]);
    assert ChildrenNamed(ps, p[0]) == Chain(p[1..]) + Chain(p[1..] + q);
    MergeLevelAt(ps, 0);
    if |p| == 1 {
      assert p[1..] == [] && p[1..] + q == q;
      ChainIsMerged(q);
      MergeFixpoint(Chain(q));
    } else {
      MergePrefixChain(p[1..], q);
    }
  }

  /** Selecting `a` and then `a.b` serialises as `a/b`. */
  lemma PrefixSelectionExample()
    ensures TreeBuild(MergeLevel(Chain(["a"]) + Chain(["a", "b"]))) == "a/b"
  {
    MergePrefixChain(["a"], ["b"]);
    assert ["a"] + ["b"] == ["a", "b"];
    ChainBuildsToSlashPath(["a", "b"]);
  }
}
