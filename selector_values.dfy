/**
 * The value of a selector tree: named parts with ordered children, the depth
 * measure (`GetDeep`) and the serialiser (`Build`) of `FieldSelectorPart` and
 * `FieldSelectorTree`, and the linear chain one member-access path compiles to.
 */
module SelectorValues {

  /** A `FieldSelectorPart` as a value: its `PartName` and its `ChildParts` in order. */
  datatype Part = Part(name: string, children: seq<Part>)

  /** The part names of one level, in order. */
  function Names(ps: seq<Part>): (ns: seq<string>)
    ensures |ns| == |ps|
    ensures forall i :: 0 <= i < |ps| ==> ns[i] == ps[i].name
  {
    seq(|ps|, i requires 0 <= i < |ps| => ps[i].name)
  }

  /** Every part of the forest has a non-empty name (what `new FieldSelectorPart(name)` enforces). */
  ghost predicate AllNamed(ps: seq<Part>)
  {
    forall i :: 0 <= i < |ps| ==> ps[i].name != "" && AllNamed(ps[i].children)
  }

  /** A forest is well named exactly when both of its halves are. */
  lemma AllNamedConcat(a: seq<Part>, b: seq<Part>)
    ensures AllNamed(a + b) <==> AllNamed(a) && AllNamed(b)
  {
    if AllNamed(a) && AllNamed(b) {
      forall i | 0 <= i < |a + b|
        ensures (a + b)[i].name != "" && AllNamed((a + b)[i].children)
      {
        if i >= |a| {
          assert (a + b)[i] == b[i - |a|];
        }
      }
    }
    if AllNamed(a + b) {
      forall i | 0 <= i < |a|
        ensures a[i].name != "" && AllNamed(a[i].children)
      {
        assert (a + b)[i] == a[i];
      }
      forall i | 0 <= i < |b|
        ensures b[i].name != "" && AllNamed(b[i].children)
      {
        assert (a + b)[|a| + i] == b[i];
      }
    }
  }

  /** A single part is well named exactly when its name and its children are. */
  lemma AllNamedSingle(p: Part)
    ensures AllNamed([p]) <==> p.name != "" && AllNamed(p.children)
  {
    assert [p][0] == p;
  }

  /** A prefix one element longer is the shorter prefix and that element. */
  lemma PrefixStep<T>(s: seq<T>, i: nat)
    requires i < |s|
    ensures s[..i + 1] == s[..i] + [s[i]]
  {
  }

  /** Growing a prefix of a forest by one part keeps it well named exactly when that part is. */
  lemma AllNamedPrefix(ps: seq<Part>, i: nat)
    requires i < |ps|
    ensures AllNamed(ps[..i + 1]) <==> AllNamed(ps[..i]) && AllNamed([ps[i]])
    ensures AllNamed(ps) ==> AllNamed([ps[i]])
  {
    assert ps[..i + 1] == ps[..i] + [ps[i]];
    AllNamedConcat(ps[..i], [ps[i]]);
    assert ps == ps[..i + 1] + ps[i + 1..];
    AllNamedConcat(ps[..i + 1], ps[i + 1..]);
  }

  /** The number of parts in a forest: the measure merging and optimisation recurse on. */
  function ForestSize(ps: seq<Part>): nat
  {
    if ps == [] then 0 else ForestSize(ps[..|ps| - 1]) + 1 + ForestSize(ps[|ps| - 1].children)
  }

  lemma {:induction false} ForestSizeConcat(a: seq<Part>, b: seq<Part>)
    ensures ForestSize(a + b) == ForestSize(a) + ForestSize(b)
    decreases |b|
  {
    if b == [] {
      assert a + b == a;
    } else {
      var n := |b| - 1;
      assert (a + b)[..|a + b| - 1] == a + b[..n];
      assert (a + b)[|a + b| - 1] == b[n];
      ForestSizeConcat(a, b[..n]);
    }
  }

  // ---------------------------------------------------------------------------
  // GetDeep

  /** `FieldSelectorPart.GetDeep`: 0 for a leaf, else one more than the deepest child. */
  function Deep(p: Part): (d: nat)
    ensures d == 0 <==> p.children == []
    decreases p
  {
    if |p.children| == 0 then 0 else 1 + MaxDeep(p.children)
  }

  /** `ChildParts.Max(m => m.GetDeep())`, taken as 0 for no children. */
  function MaxDeep(cs: seq<Part>): (m: nat)
    ensures cs == [] ==> m == 0
    decreases cs
  {
    if cs == [] then 0
    else
      var front, last := MaxDeep(cs[..|cs| - 1]), Deep(cs[|cs| - 1]);
      if front < last then last else front
  }

  /** The maximum of a list grows by its new last element. */
  lemma MaxDeepSnoc(cs: seq<Part>, c: Part)
    ensures MaxDeep(cs + [c]) == if MaxDeep(cs) < Deep(c) then Deep(c) else MaxDeep(cs)
  {
    assert (cs + [c])[..|cs|] == cs;
  }

  /** `MaxDeep` is an upper bound of the depths in the list, and one of them attains it. */
  lemma {:induction false} MaxDeepIsMaximum(cs: seq<Part>)
    ensures forall i :: 0 <= i < |cs| ==> Deep(cs[i]) <= MaxDeep(cs)
    ensures cs != [] ==> exists i :: 0 <= i < |cs| && Deep(cs[i]) == MaxDeep(cs)
    decreases |cs|
  {
    if cs != [] {
      var n := |cs| - 1;
      var front, m := cs[..n], MaxDeep(cs);
      MaxDeepIsMaximum(front);
      assert m == if MaxDeep(front) < Deep(cs[n]) then Deep(cs[n]) else MaxDeep(front);
      forall i | 0 <= i < |cs| ensures Deep(cs[i]) <= m {
        if i < n {
          assert cs[i] == front[i];
        }
      }
      if MaxDeep(front) < Deep(cs[n]) || n == 0 {
        assert Deep(cs[n]) == m;
      } else {
        var k :| 0 <= k < n && Deep(front[k]) == MaxDeep(front);
        assert cs[k] == front[k];
      }
    }
  }

  /** Each child is shallower than its parent, and the deepest child is exactly one level shallower. */
  lemma DeepOfChildren(p: Part)
    ensures forall i :: 0 <= i < |p.children| ==> Deep(p.children[i]) < Deep(p)
    ensures p.children != [] ==> exists i :: 0 <= i < |p.children| && Deep(p.children[i]) + 1 == Deep(p)
  {
    MaxDeepIsMaximum(p.children);
  }

  /** `FieldSelectorTree.GetDeep`: 0 for no parts, else one more than the deepest top-level part. */
  function TreeDeep(ps: seq<Part>): (d: nat)
    ensures d == 0 <==> ps == []
  {
    if ps == [] then 0 else 1 + MaxDeep(ps)
  }

  /** Every top-level part is shallower than the tree, and the deepest is exactly one level shallower. */
  lemma TreeDeepOfParts(ps: seq<Part>)
    ensures forall i :: 0 <= i < |ps| ==> Deep(ps[i]) < TreeDeep(ps)
    ensures ps != [] ==> exists i :: 0 <= i < |ps| && Deep(ps[i]) + 1 == TreeDeep(ps)
  {
    MaxDeepIsMaximum(ps);
  }

  // ---------------------------------------------------------------------------
  // Build

  /**
   * `FieldSelectorPart.Build`: the name alone for a leaf, `name/child` for one
   * child and `name(c1,c2,...)` for several.
   */
  function Build(p: Part): (s: string)
    ensures p.name <= s
    ensures s == p.name <==> p.children == []
    decreases p
  {
    if |p.children| == 0 then p.name
    else
      var evaluatedChildren := JoinBuilds(p.children);
      if |p.children| > 1 then p.name + "(" + evaluatedChildren + ")"
      else p.name + "/" + evaluatedChildren
  }

  /** `String.Join(",", parts.Select(m => m.Build()))`. */
  function JoinBuilds(cs: seq<Part>): string
    decreases cs
  {
    if |cs| == 0 then ""
    else if |cs| == 1 then Build(cs[0])
    else JoinBuilds(cs[..|cs| - 1]) + "," + Build(cs[|cs| - 1])
  }

  /** `FieldSelectorTree.Build`: the top-level parts' serialisations joined by commas. */
  function TreeBuild(ps: seq<Part>): (s: string)
    ensures ps == [] ==> s == ""
    ensures |ps| == 1 ==> s == Build(ps[0])
  {
    JoinBuilds(ps)
  }

  /** The three forms of a part's serialisation. */
  lemma BuildForms(p: Part)
    ensures p.children == [] ==> Build(p) == p.name
    ensures |p.children| == 1 ==> Build(p) == p.name + "/" + Build(p.children[0])
    ensures |p.children| > 1 ==> Build(p) == p.name + "(" + JoinBuilds(p.children) + ")"
  {
  }

  /** A tree of two or more top-level parts is the comma-joined list, not wrapped in a name. */
  lemma TreeBuildJoins(ps: seq<Part>)
    requires |ps| >= 2
    ensures TreeBuild(ps) == TreeBuild(ps[..|ps| - 1]) + "," + Build(ps[|ps| - 1])
  {
  }

  // ---------------------------------------------------------------------------
  // Paths and chains

  /** `path` (a non-empty list of names) leads from the top level of `ps` to some part. */
  ghost predicate IsPath(ps: seq<Part>, path: seq<string>)
    decreases |path|
  {
    && |path| > 0
    && exists i :: 0 <= i < |ps| && ps[i].name == path[0] && (|path| == 1 || IsPath(ps[i].children, path[1..]))
  }

  /** Every part has at most one child and there is at most one top-level part. */
  ghost predicate Linear(ps: seq<Part>)
  {
    |ps| <= 1 && forall i :: 0 <= i < |ps| ==> Linear(ps[i].children)
  }

  /**
   * The tree one member-access chain compiles to: one part per access, the
   * access on the lambda parameter at the top, each further access the only
   * child of the previous one.
   */
  function Chain(names: seq<string>): (ps: seq<Part>)
    ensures |ps| == if names == [] then 0 else 1
    ensures Linear(ps)
  {
    if names == [] then [] else [Part(names[0], Chain(names[1..]))]
  }

  /** A chain is as deep as its path is long. */
  lemma {:induction false} ChainDeep(names: seq<string>)
    ensures TreeDeep(Chain(names)) == |names|
    ensures names != [] ==> Deep(Chain(names)[0]) == |names| - 1
  {
    if names != [] {
      ChainDeep(names[1..]);
      var p := Chain(names)[0];
      assert p.children == Chain(names[1..]);
      if |names| > 1 {
        assert Deep(p) == 1 + MaxDeep(p.children);
        assert MaxDeep(p.children) == Deep(p.children[0]);
      }
    }
  }

  /** The paths of a chain are exactly the non-empty prefixes of its names. */
  lemma {:induction false} ChainPaths(names: seq<string>, path: seq<string>)
    ensures IsPath(Chain(names), path) <==> 0 < |path| <= |names| && path == names[..|path|]
  {
    if names != [] && |path| > 0 {
      var c := Chain(names);
      assert c == [Part(names[0], Chain(names[1..]))];
      assert IsPath(c, path) <==> path[0] == names[0] && (|path| == 1 || IsPath(Chain(names[1..]), path[1..])) by {
        if path[0] == names[0] && (|path| == 1 || IsPath(Chain(names[1..]), path[1..])) {
          assert c[0].name == path[0];
        }
      }
      if |path| > 1 {
        ChainPaths(names[1..], path[1..]);
        assert path == [path[0]] + path[1..];
        if |path| <= |names| {
          assert names[..|path|] == [names[0]] + names[1..][..|path| - 1];
        }
      }
    }
  }

  /** A chain built from non-empty names has only non-empty names. */
  lemma {:induction false} ChainAllNamed(names: seq<string>)
    requires forall i :: 0 <= i < |names| ==> names[i] != ""
    ensures AllNamed(Chain(names))
  {
    if names != [] {
      ChainAllNamed(names[1..]);
    }
  }

  /** A chain with a single name serialises to that name; a longer chain to `first/rest`. */
  lemma ChainBuild(names: seq<string>)
    requires |names| > 0
    ensures |names| == 1 ==> TreeBuild(Chain(names)) == names[0]
    ensures |names| > 1 ==> TreeBuild(Chain(names)) == names[0] + "/" + TreeBuild(Chain(names[1..]))
  {
  }

  /** The linear chain serialises to its names joined by `/`. */
  function JoinSlash(names: seq<string>): string
  {
    if |names| == 0 then "" else if |names| == 1 then names[0] else names[0] + "/" + JoinSlash(names[1..])
  }

  lemma {:induction false} ChainBuildsToSlashPath(names: seq<string>)
    ensures TreeBuild(Chain(names)) == JoinSlash(names)
  {
    if |names| > 1 {
      ChainBuildsToSlashPath(names[1..]);
      ChainBuild(names);
    }
  }

  /** The part `leaf` below a line of single-child parts with the given names. */
  function Nest(names: seq<string>, leaf: Part): (p: Part)
    ensures names == [] ==> p == leaf
    ensures names != [] ==> p.name == names[0]
  {
    if names == [] then leaf else Part(names[0], [Nest(names[1..], leaf)])
  }

  /** A line of parts above the head of a chain is the chain of the joined names. */
  lemma {:induction false} NestChain(names: seq<string>, rest: seq<string>)
    requires rest != []
    ensures Nest(names, Chain(rest)[0]) == Chain(names + rest)[0]
  {
    if names != [] {
      NestChain(names[1..], rest);
      assert (names + rest)[1..] == names[1..] + rest;
    } else {
      assert names + rest == rest;
    }
  }

  /**
   * Attaching a second chain under the unique leaf of a first chain, as the
   * collection overload of `SelectProperty` does with its item selector.
   */
  function GraftAtLeaf(p: Part, q: Part): Part
    decreases p
  {
    if |p.children| == 0 then Part(p.name, [q])
    else Part(p.name, [GraftAtLeaf(p.children[0], q)] + p.children[1..])
  }

  /** Grafting the item chain under the collection chain gives the chain of the joined path. */
  lemma {:induction false} GraftChains(a: seq<string>, b: seq<string>)
    requires a != [] && b != []
    ensures [GraftAtLeaf(Chain(a)[0], Chain(b)[0])] == Chain(a + b)
  {
    var q := Chain(b)[0];
    assert (a + b)[0] == a[0];
    if |a| > 1 {
      GraftChains(a[1..], b);
      assert (a + b)[1..] == a[1..] + b;
      calc {
        GraftAtLeaf(Chain(a)[0], q);
        Part(a[0], [GraftAtLeaf(Chain(a[1..])[0], q)]);
        Part(a[0], Chain(a[1..] + b));
      }
    } else {
      assert (a + b)[1..] == b;
      assert GraftAtLeaf(Chain(a)[0], q) == Part(a[0], [q]);
    }
  }
}
