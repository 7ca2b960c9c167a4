/**
 * `FieldSelectorTree`: the unnamed root that owns the top-level parts of a
 * selection, updated in place by `AddPart`.
 */
module FieldSelectorTrees {
  import opened Wrappers
  import opened SelectorValues
  import opened FieldSelectorParts

  class FieldSelectorTree {
    var childParts: seq<FieldSelectorPart>

    /** The top-level parts as values, in order. */
    ghost var Model: seq<Part>
    /** The tree object and every part below it. */
    ghost var Repr: set<object>

    /** The top-level parts are owned, pairwise separate, and each is a valid subtree. */
    ghost predicate ChildrenValid()
      reads this, Repr
    {
      && this in Repr
      && (forall i :: 0 <= i < |childParts| ==>
            childParts[i] in Repr && childParts[i].Repr <= Repr && this !in childParts[i].Repr)
      && (forall i, j :: 0 <= i < j < |childParts| ==> childParts[i].Repr !! childParts[j].Repr)
      && (forall i :: 0 <= i < |childParts| ==> childParts[i].Valid())
    }

    ghost predicate Valid()
      reads this, Repr
      ensures Valid() ==> this in Repr
    {
      ChildrenValid() && ModelsAre(childParts, Model)
    }

    /** An empty tree. */
    constructor ()
      ensures Valid() && fresh(Repr) && Repr == {this}
      ensures childParts == [] && Model == []
    {
      childParts := [];
      Model := [];
      Repr := {this};
    }

    /**
     * Appends one top-level part at the end; the existing parts and their order
     * are unchanged. A missing part is an `ArgumentNullException` and adds nothing.
     */
    method AddPart(childPart: FieldSelectorPart?) returns (o: Outcome)
      requires Valid() && (childPart != null ==> childPart.Valid() && Repr !! childPart.Repr)
      modifies this
      ensures Valid()
      ensures o.Fail? <==> childPart == null
      ensures o.Fail? ==> o.error == ArgumentNull && childParts == old(childParts) && Model == old(Model) && Repr == old(Repr)
      ensures o.Pass? ==> childParts == old(childParts) + [childPart]
      ensures o.Pass? ==> Model == old(Model) + [childPart.Model]
      ensures o.Pass? ==> Repr == old(Repr) + childPart.Repr
    {
      if childPart == null {
        return Fail(ArgumentNull);
      }
      childParts := childParts + [childPart];
      Model := Model + [childPart.Model];
      Repr := Repr + childPart.Repr;
      return Pass;
    }

    /** Re-reads the top-level parts' values after they were changed in place. */
    ghost method RefreshModel()
      requires ChildrenValid()
      modifies this
      ensures Valid()
      ensures childParts == old(childParts) && Repr == old(Repr)
    {
      Model := ModelsOf(childParts);
    }

    /** Re-reads value and footprint of a one-part tree after parts below the top level gained children in place. */
    ghost method Reseal()
      requires |childParts| == 1 && childParts[0].Valid() && this !in childParts[0].Repr
      modifies this
      ensures Valid()
      ensures childParts == old(childParts) && Repr == {this} + childParts[0].Repr
      ensures Model == [childParts[0].Model]
    {
      Repr := {this} + childParts[0].Repr;
      Model := [childParts[0].Model];
    }

    /** `GetDeep`: the depth of the tree's value. */
    function GetDeep(): (d: nat)
      reads this, Repr
      requires Valid()
      ensures d == TreeDeep(Model)
    {
      if |childParts| == 0 then 0
      else
        assert Model[..|childParts|] == Model;
        1 + MaxPartDeep(|childParts|)
    }

    /** `ChildParts.Max(m => m.GetDeep())` over the first `k` top-level parts. */
    function MaxPartDeep(k: nat): (m: nat)
      reads this, Repr
      requires Valid() && k <= |childParts|
      ensures m == MaxDeep(Model[..k])
    {
      if k == 0 then 0
      else
        var front := MaxPartDeep(k - 1);
        var last := childParts[k - 1].GetDeep();
        assert Model[..k] == Model[..k - 1] + [childParts[k - 1].Model];
        MaxDeepSnoc(Model[..k - 1], childParts[k - 1].Model);
        if front < last then last else front
    }

    /** `Build`: the top-level parts' serialisations joined by commas. */
    function Build(): (s: string)
      reads this, Repr
      requires Valid()
      ensures s == TreeBuild(Model)
    {
      assert Model[..|childParts|] == Model;
      JoinPartBuilds(|childParts|)
    }

    function JoinPartBuilds(k: nat): (s: string)
      reads this, Repr
      requires Valid() && k <= |childParts|
      ensures s == JoinBuilds(Model[..k])
    {
      if k == 0 then ""
      else if k == 1 then childParts[0].Build()
      else
        assert Model[..k][..k - 1] == Model[..k - 1];
        JoinPartBuilds(k - 1) + "," + childParts[k - 1].Build()
    }

    /** A snapshot of the tree as a value, read from the parts themselves. */
    function Value(): (ps: seq<Part>)
      reads this, Repr
      requires Valid()
      ensures ps == Model
    {
      assert Model[..|childParts|] == Model;
      PartValues(|childParts|)
    }

    function PartValues(k: nat): (ps: seq<Part>)
      reads this, Repr
      requires Valid() && k <= |childParts|
      ensures ps == Model[..k]
    {
      if k == 0 then [] else PartValues(k - 1) + [childParts[k - 1].Value()]
    }

    /** Every part of a valid tree has a non-empty name. */
    lemma ValidIsNamed()
      requires Valid()
      ensures AllNamed(Model)
    {
      forall i | 0 <= i < |Model|
        ensures Model[i].name != "" && AllNamed(Model[i].children)
      {
        childParts[i].ValidIsNamed();
        assert [childParts[i].Model][0] == Model[i];
      }
    }
  }

  /** `foreach (var childPart in parts) tree.AddPart(childPart)`. */
  method AddEachToTree(tree: FieldSelectorTree, parts: seq<FieldSelectorPart>, ghost models: seq<Part>)
    requires tree.Valid() && ModelsAre(parts, models)
    requires forall k :: 0 <= k < |parts| ==> parts[k].Valid() && tree.Repr !! parts[k].Repr
    requires forall a, b :: 0 <= a < b < |parts| ==> parts[a].Repr !! parts[b].Repr
    modifies tree
    ensures tree.Valid()
    ensures tree.Model == old(tree.Model) + models
    ensures tree.Repr <= old(tree.Repr + ReprOf(parts))
  {
    ghost var added := ReprOf(parts);
    for i := 0 to |parts|
      invariant tree.Valid() && tree.Repr <= old(tree.Repr) + added
      invariant tree.Model == old(tree.Model) + models[..i]
      invariant forall k :: i <= k < |parts| ==>
                  parts[k].Valid() && tree.Repr !! parts[k].Repr && parts[k].Model == models[k] && parts[k].Repr <= added
    {
      var added := tree.AddPart(parts[i]);
      PrefixStep(models, i);
    }
    assert models[..|parts|] == models;
  }
}
