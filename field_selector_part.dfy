/**
 * `FieldSelectorPart`: a named node that owns an ordered list of child parts,
 * updated in place by `AddPart` and `RemoveAllParts`.
 */
module FieldSelectorParts {
  import opened Wrappers
  import opened SelectorValues

  class FieldSelectorPart {
    const PartName: string
    var childParts: seq<FieldSelectorPart>

    /** The value of the subtree rooted here. */
    ghost var Model: Part
    /** The part itself and every part below it. */
    ghost var Repr: set<object>

    /** The children are owned, pairwise separate, and each is a valid subtree. */
    ghost predicate ChildrenValid()
      reads this, Repr
      decreases Repr, 0
    {
      && this in Repr
      && (forall i :: 0 <= i < |childParts| ==>
            childParts[i] in Repr && childParts[i].Repr <= Repr && this !in childParts[i].Repr)
      && (forall i, j :: 0 <= i < j < |childParts| ==> childParts[i].Repr !! childParts[j].Repr)
      && (forall i :: 0 <= i < |childParts| ==> childParts[i].Valid())
    }

    ghost predicate Valid()
      reads this, Repr
      ensures Valid() ==> this in Repr
      decreases Repr, 1
    {
      && ChildrenValid()
      && PartName != ""
      && Model.name == PartName
      && ModelsAre(childParts, Model.children)
    }

    /** Creates a childless part; the name must not be empty. */
    constructor (partName: string)
      requires partName != ""
      ensures Valid() && fresh(Repr) && Repr == {this}
      ensures PartName == partName && childParts == []
      ensures Model == Part(partName, [])
    {
      PartName := partName;
      childParts := [];
      Model := Part(partName, []);
      Repr := {this};
    }

    /** `new FieldSelectorPart(partName)`: an empty name throws `ArgumentNullException`. */
    static method New(partName: string) returns (r: Result<FieldSelectorPart>)
      ensures r.Failure? <==> partName == ""
      ensures r.Failure? ==> r.error == ArgumentNull
      ensures r.Success? ==> fresh(r.value) && fresh(r.value.Repr) && r.value.Valid()
      ensures r.Success? ==> r.value.Repr == {r.value} && r.value.Model == Part(partName, [])
      ensures r.Success? ==> r.value.PartName == partName && r.value.childParts == []
    {
      if partName == "" {
        return Failure(ArgumentNull);
      }
      var part := new FieldSelectorPart(partName);
      return Success(part);
    }

    /**
     * Appends one child at the end; the existing children and their order are
     * unchanged. A missing child is an `ArgumentNullException` and adds nothing.
     */
    method AddPart(childPart: FieldSelectorPart?) returns (o: Outcome)
      requires Valid() && (childPart != null ==> childPart.Valid() && Repr !! childPart.Repr)
      modifies this
      ensures Valid()
      ensures o.Fail? <==> childPart == null
      ensures o.Fail? ==> o.error == ArgumentNull && childParts == old(childParts) && Model == old(Model) && Repr == old(Repr)
      ensures o.Pass? ==> childParts == old(childParts) + [childPart]
      ensures o.Pass? ==> Model == Part(PartName, old(Model.children) + [childPart.Model])
      ensures o.Pass? ==> Repr == old(Repr) + childPart.Repr
    {
      if childPart == null {
        return Fail(ArgumentNull);
      }
      childParts := childParts + [childPart];
      Model := Part(PartName, Model.children + [childPart.Model]);
      Repr := Repr + childPart.Repr;
      return Pass;
    }

    /** Leaves the part without children; its name is unchanged. */
    method RemoveAllParts()
      requires Valid()
      modifies this
      ensures Valid()
      ensures childParts == [] && Model == Part(PartName, []) && Repr == old(Repr)
    {
      childParts := [];
      Model := Part(PartName, []);
    }

    /** Re-reads the children's values after they were changed in place. */
    ghost method RefreshModel()
      requires ChildrenValid() && PartName != ""
      modifies this
      ensures Valid()
      ensures Model == Part(PartName, ModelsOf(childParts))
      ensures childParts == old(childParts) && Repr == old(Repr)
    {
      Model := Part(PartName, ModelsOf(childParts));
    }

    /** `GetDeep`: the depth of the subtree's value. */
    function GetDeep(): (d: nat)
      reads this, Repr
      requires Valid()
      ensures d == Deep(Model)
      decreases Repr, 1
    {
      assert ChildrenValid();
      if |childParts| == 0 then 0
      else
        assert Model.children[..|childParts|] == Model.children;
        1 + MaxChildDeep(|childParts|)
    }

    /** `ChildParts.Max(m => m.GetDeep())` over the first `k` children. */
    function MaxChildDeep(k: nat): (m: nat)
      reads this, Repr
      requires Valid() && k <= |childParts|
      ensures m == MaxDeep(Model.children[..k])
      decreases Repr, 0, k
    {
      assert ChildrenValid();
      if k == 0 then 0
      else
        var front := MaxChildDeep(k - 1);
        var last := childParts[k - 1].GetDeep();
        assert Model.children[..k] == Model.children[..k - 1] + [childParts[k - 1].Model];
        MaxDeepSnoc(Model.children[..k - 1], childParts[k - 1].Model);
        if front < last then last else front
    }

    /** `Build`: the serialisation of the subtree's value. */
    function Build(): (s: string)
      reads this, Repr
      requires Valid()
      ensures s == SelectorValues.Build(Model)
      decreases Repr, 1
    {
      assert ChildrenValid();
      if |childParts| == 0 then PartName
      else
        var evaluatedChildren := JoinChildBuilds(|childParts|);
        assert Model.children[..|childParts|] == Model.children;
        if |childParts| > 1 then PartName + "(" + evaluatedChildren + ")"
        else PartName + "/" + evaluatedChildren
    }

    /** `String.Join(",", ...)` of the first `k` children's serialisations. */
    function JoinChildBuilds(k: nat): (s: string)
      reads this, Repr
      requires Valid() && k <= |childParts|
      ensures s == JoinBuilds(Model.children[..k])
      decreases Repr, 0, k
    {
      assert ChildrenValid();
      if k == 0 then ""
      else if k == 1 then childParts[0].Build()
      else
        assert Model.children[..k][..k - 1] == Model.children[..k - 1];
        JoinChildBuilds(k - 1) + "," + childParts[k - 1].Build()
    }

    /** A snapshot of the subtree as a value, read from the parts themselves. */
    function Value(): (p: Part)
      reads this, Repr
      requires Valid()
      ensures p == Model
      decreases Repr, 1
    {
      Part(PartName, ChildValues(|childParts|))
    }

    function ChildValues(k: nat): (cs: seq<Part>)
      reads this, Repr
      requires Valid() && k <= |childParts|
      ensures cs == Model.children[..k]
      decreases Repr, 0, k
    {
      assert ChildrenValid();
      if k == 0 then [] else ChildValues(k - 1) + [childParts[k - 1].Value()]
    }

    /** Every part of a valid subtree has a non-empty name. */
    lemma ValidIsNamed()
      requires Valid()
      ensures AllNamed([Model])
      decreases Repr
    {
      assert ChildrenValid();
      forall i | 0 <= i < |Model.children|
        ensures Model.children[i].name != "" && AllNamed(Model.children[i].children)
      {
        childParts[i].ValidIsNamed();
        assert AllNamed([childParts[i].Model]);
        assert [childParts[i].Model][0] == Model.children[i];
      }
      assert AllNamed(Model.children);
    }
  }

  /** `ms` are the values of the parts `cs`, in order. */
  ghost predicate ModelsAre(cs: seq<FieldSelectorPart>, ms: seq<Part>)
    reads cs
  {
    |cs| == |ms| && forall i :: 0 <= i < |cs| ==> cs[i].Model == ms[i]
  }

  /** The values of a list of parts, in order. */
  ghost function ModelsOf(cs: seq<FieldSelectorPart>): (ms: seq<Part>)
    reads cs
    ensures ModelsAre(cs, ms)
  {
    if cs == [] then [] else [cs[0].Model] + ModelsOf(cs[1..])
  }

  /** The objects of a list of parts and of everything below them. */
  ghost function ReprOf(cs: seq<FieldSelectorPart>): (r: set<object>)
    reads cs
    ensures forall i :: 0 <= i < |cs| ==> cs[i].Repr <= r
  {
    if cs == [] then {} else ReprOf(cs[..|cs| - 1]) + cs[|cs| - 1].Repr
  }

  /** A part that has no children yet and owns only itself. */
  ghost predicate IsLeaf(p: FieldSelectorPart)
    reads p
  {
    p.childParts == [] && p.Repr == {p} && p.Model == Part(p.PartName, []) && p.PartName != ""
  }

  lemma LeafIsValid(p: FieldSelectorPart)
    requires IsLeaf(p)
    ensures p.Valid()
  {
  }

  /** Valid parts whose footprints are pairwise separate: a list of subtrees that can all be attached. */
  ghost predicate ValidForest(cs: seq<FieldSelectorPart>)
    reads set k, o | 0 <= k < |cs| && o in cs[k].Repr :: o
    reads cs
  {
    && (forall i :: 0 <= i < |cs| ==> cs[i].Valid())
    && (forall i, j :: 0 <= i < j < |cs| ==> cs[i].Repr !! cs[j].Repr)
  }

  /** The names of a list of parts, in order. */
  function PartNamesOf(nodes: seq<FieldSelectorPart>): (ns: seq<string>)
    ensures |ns| == |nodes|
    ensures forall i :: 0 <= i < |nodes| ==> ns[i] == nodes[i].PartName
  {
    seq(|nodes|, i requires 0 <= i < |nodes| => nodes[i].PartName)
  }

  /** Each part is the only child of the previous one. */
  ghost predicate Linked(nodes: seq<FieldSelectorPart>)
    reads nodes
  {
    forall j :: 0 <= j < |nodes| - 1 ==> nodes[j].childParts == [nodes[j + 1]]
  }

  /** Re-establishes the ghost state of a part whose only child is `next`. */
  ghost method SealLink(node: FieldSelectorPart, next: FieldSelectorPart)
    requires node.childParts == [next] && node.PartName != ""
    requires next.Valid() && node !in next.Repr
    modifies node
    ensures node.Valid() && node.childParts == [next]
    ensures node.Model == Part(node.PartName, [next.Model]) && node.Repr == {node} + next.Repr
  {
    node.Model := Part(node.PartName, [next.Model]);
    node.Repr := {node} + next.Repr;
    assert node.ChildrenValid();
  }

  /**
   * Re-establishes the ghost state of a chain of parts linked top-down (a part
   * was given its child after it had itself been attached), from the last part,
   * whose subtree is valid, up to the first.
   */
  ghost method SealChain(nodes: seq<FieldSelectorPart>)
    requires |nodes| > 0 && Linked(nodes)
    requires nodes[|nodes| - 1].Valid()
    requires forall j :: 0 <= j < |nodes| - 1 ==> nodes[j].PartName != ""
    requires forall j :: 0 <= j < |nodes| - 1 ==> nodes[j] !in nodes[|nodes| - 1].Repr
    requires forall i, j :: 0 <= i < j < |nodes| ==> nodes[i] != nodes[j]
    modifies set j | 0 <= j < |nodes| - 1 :: nodes[j]
    ensures Linked(nodes) && nodes[0].Valid()
    ensures nodes[0].Model == Nest(PartNamesOf(nodes[..|nodes| - 1]), old(nodes[|nodes| - 1].Model))
    ensures nodes[0].Repr == (set j | 0 <= j < |nodes| - 1 :: nodes[j]) + old(nodes[|nodes| - 1].Repr)
    decreases |nodes|
  {
    if |nodes| > 1 {
      var rest := nodes[1..];
      assert rest[|rest| - 1] == nodes[|nodes| - 1];
      SealChain(rest);
      assert (set j | 0 <= j < |rest| - 1 :: rest[j]) == (set j | 1 <= j < |nodes| - 1 :: nodes[j]);
      assert nodes[0] !in nodes[1].Repr;
      SealLink(nodes[0], nodes[1]);
      assert PartNamesOf(nodes[..|nodes| - 1]) == [nodes[0].PartName] + PartNamesOf(rest[..|rest| - 1]);
    }
  }

  /** `foreach (var childPart in parts) part.AddPart(childPart)`. */
  method AddEachToPart(part: FieldSelectorPart, parts: seq<FieldSelectorPart>, ghost models: seq<Part>)
    requires part.Valid() && ModelsAre(parts, models)
    requires forall k :: 0 <= k < |parts| ==> parts[k].Valid() && part.Repr !! parts[k].Repr
    requires forall a, b :: 0 <= a < b < |parts| ==> parts[a].Repr !! parts[b].Repr
    modifies part
    ensures part.Valid()
    ensures part.Model == Part(part.PartName, old(part.Model.children) + models)
    ensures part.Repr <= old(part.Repr + ReprOf(parts))
  {
    ghost var added := ReprOf(parts);
    for i := 0 to |parts|
      invariant part.Valid() && part.Repr <= old(part.Repr) + added
      invariant part.Model == Part(part.PartName, old(part.Model.children) + models[..i])
      invariant forall k :: i <= k < |parts| ==>
                  parts[k].Valid() && part.Repr !! parts[k].Repr && parts[k].Model == models[k] && parts[k].Repr <= added
    {
      var added := part.AddPart(parts[i]);
      PrefixStep(models, i);
    }
    assert models[..|parts|] == models;
  }

  /** Appending a new valid part to a forest of older parts keeps it a forest of new parts. */
  lemma AppendFreshPart(parts: seq<FieldSelectorPart>, c: FieldSelectorPart, models: seq<Part>)
    requires ValidForest(parts) && c.Valid()
    requires forall k :: 0 <= k < |parts| ==> parts[k].Repr !! c.Repr
    requires ModelsAre(parts, models)
    ensures ValidForest(parts + [c]) && ReprOf(parts + [c]) == ReprOf(parts) + c.Repr
    ensures ModelsAre(parts + [c], models + [c.Model])
  {
    assert (parts + [c])[..|parts|] == parts;
  }

  /** Parts whose footprints lie in `s` have their joint footprint in `s`. */
  lemma {:induction false} ReprOfWithin(cs: seq<FieldSelectorPart>, s: set<object>)
    requires forall k :: 0 <= k < |cs| ==> cs[k].Repr <= s
    ensures ReprOf(cs) <= s
  {
    if cs != [] {
      ReprOfWithin(cs[..|cs| - 1], s);
    }
  }
}
