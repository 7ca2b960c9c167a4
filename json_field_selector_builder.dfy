/**
 * `JsonFieldSelectorBuilder`: collects one tree per selected property path,
 * and on `BuildSelectorExpression` merges them, builds the full tree of the
 * root type as deep as the merged tree, optimises the merged tree against it
 * in place, and serialises the result.
 */
module JsonFieldSelectorBuilders {
  import opened Wrappers
  import opened PartNames
  import opened SelectorValues
  import opened MergeValues
  import opened OptimizeValues
  import opened FieldSelectorParts
  import opened FieldSelectorTrees
  import opened FieldSelectorTreeCreators
  import opened OptimizableFieldSelectorParts

  // ---------------------------------------------------------------------------
  // Reading the selected trees

  /** `rootParts.SelectMany(m => m.ChildParts)` as values: every top-level part of every tree, in order. */
  ghost function ConcatModels(trees: seq<FieldSelectorTree>): seq<Part>
    reads trees
  {
    if trees == [] then [] else ConcatModels(trees[..|trees| - 1]) + trees[|trees| - 1].Model
  }

  /** The top-level parts of all trees, in order, as a list of values. */
  function Flatten(selections: seq<seq<Part>>): seq<Part>
  {
    if selections == [] then [] else Flatten(selections[..|selections| - 1]) + selections[|selections| - 1]
  }

  /** Valid trees, each a separate object structure. */
  ghost predicate ValidTrees(trees: seq<FieldSelectorTree>)
    reads set k, o | 0 <= k < |trees| && o in trees[k].Repr :: o
    reads trees
  {
    forall k :: 0 <= k < |trees| ==> trees[k].Valid()
  }

  /** A snapshot of `rootParts.SelectMany(m => m.ChildParts)`, read from the trees themselves. */
  function SelectedParts(trees: seq<FieldSelectorTree>): (ps: seq<Part>)
    reads set k, o | 0 <= k < |trees| && o in trees[k].Repr :: o
    reads trees
    requires ValidTrees(trees)
    ensures ps == ConcatModels(trees)
    ensures AllNamed(ps)
  {
    if trees == [] then []
    else
      var front := SelectedParts(trees[..|trees| - 1]);
      var last := trees[|trees| - 1];
      last.ValidIsNamed();
      AllNamedConcat(front, last.Model);
      front + last.Value()
  }

  /** The trees' values listed one by one give the concatenation of their top-level parts. */
  lemma {:induction false} ConcatModelsFlatten(trees: seq<FieldSelectorTree>, selections: seq<seq<Part>>)
    requires |trees| == |selections|
    requires forall k :: 0 <= k < |trees| ==> trees[k].Model == selections[k]
    ensures ConcatModels(trees) == Flatten(selections)
    decreases |trees|
  {
    if trees != [] {
      var n := |trees| - 1;
      ConcatModelsFlatten(trees[..n], selections[..n]);
    }
  }

  /** The names of valid parts are the names of their values. */
  lemma NamesOfValid(cs: seq<FieldSelectorPart>, ms: seq<Part>)
    requires ModelsAre(cs, ms)
    requires forall k :: 0 <= k < |cs| ==> cs[k].Valid()
    ensures PartNamesOf(cs) == Names(ms)
  {
    forall k | 0 <= k < |cs|
      ensures PartNamesOf(cs)[k] == Names(ms)[k]
    {
      assert cs[k].Valid();
    }
  }

  // ---------------------------------------------------------------------------
  // Merging

  /**
   * The body of the `foreach` in `MergeRootParts` and in `MergeChildPart`:
   * a new part named after the group key, given the merged children of every
   * part of the group.
   */
  method MergeGroupPart(ps: seq<Part>, n: string) returns (part: FieldSelectorPart)
    requires AllNamed(ps) && n in DistinctNames(ps)
    ensures part.Valid() && fresh(part.Repr)
    ensures part.Model == MergeGroup(ps, n)
    decreases ForestSize(ps), 0
  {
    DistinctNamesMembers(ps, n);
    var k :| 0 <= k < |ps| && ps[k].name == n;
    assert AllNamed([ps[k]]) by { AllNamedPrefix(ps, k); }
    AllNamedSingle(ps[k]);
    var mergedChildPart := new FieldSelectorPart(n);
    var group := ChildrenNamed(ps, n);
    ChildrenNamedSmaller(ps, n);
    ChildrenNamedAllNamed(ps, n);
    var children := MergeChildPart(group);
    AddEachToPart(mergedChildPart, children, MergeLevel(group));
    part := mergedChildPart;
  }

  /**
   * `MergeChildPart`: one new part per group of same-named parts of a level,
   * in order of first occurrence, each with the merge of the group's children.
   */
  method MergeChildPart(ps: seq<Part>) returns (parts: seq<FieldSelectorPart>)
    requires AllNamed(ps)
    ensures ValidForest(parts) && fresh(ReprOf(parts))
    ensures ModelsAre(parts, MergeLevel(ps))
    decreases ForestSize(ps), 1
  {
    var names := DistinctNames(ps);
    ghost var merged := MergeLevel(ps);
    ghost var created: set<object> := {};
    parts := [];
    for i := 0 to |names|
      invariant |parts| == i
      invariant ValidForest(parts) && fresh(created)
      invariant forall k :: 0 <= k < i ==> parts[k].Repr <= created
      invariant ModelsAre(parts, merged[..i])
    {
      MergeLevelAt(ps, i);
      var part := MergeGroupPart(ps, names[i]);
      AppendFreshPart(parts, part, merged[..i]);
      parts := parts + [part];
      created := created + part.Repr;
      PrefixStep(merged, i);
    }
    assert merged[..|names|] == merged;
    ReprOfWithin(parts, created);
  }

  /**
   * `MergeRootParts`: a new tree holding one part per distinct top-level name
   * over all selected trees, each the merge of every same-named part.
   */
  method MergeRootParts(rootParts: seq<FieldSelectorTree>) returns (result: FieldSelectorTree)
    requires ValidTrees(rootParts)
    ensures fresh(result) && fresh(result.Repr) && result.Valid()
    ensures result.Model == MergeLevel(ConcatModels(rootParts))
  {
    var ps := SelectedParts(rootParts);
    result := MergedTree(ps);
  }

  /** The `GroupBy` loop of `MergeRootParts`: one new top-level part per distinct name, in order of first occurrence. */
  method MergedTree(ps: seq<Part>) returns (result: FieldSelectorTree)
    requires AllNamed(ps)
    ensures fresh(result) && fresh(result.Repr) && result.Valid()
    ensures result.Model == MergeLevel(ps)
  {
    result := new FieldSelectorTree();
    var names := DistinctNames(ps);
    ghost var merged := MergeLevel(ps);
    assert |merged| == |names| by { MergeNames(ps); }
    for i := 0 to |names|
      invariant result.Valid() && fresh(result.Repr)
      invariant result.Model == merged[..i]
    {
      AddMergedGroup(result, ps, names, i);
      PrefixStep(merged, i);
    }
    assert merged[..|names|] == merged;
  }

  /** One step of the `GroupBy` loop: the merged part of the `i`-th group appended to `result`. */
  method AddMergedGroup(result: FieldSelectorTree, ps: seq<Part>, names: seq<string>, i: nat)
    requires result.Valid() && AllNamed(ps) && names == DistinctNames(ps) && i < |names|
    modifies result
    ensures result.Valid() && fresh(result.Repr - old(result.Repr))
    ensures result.Model == old(result.Model) + [MergeLevel(ps)[i]]
  {
    MergeLevelAt(ps, i);
    var childgroup := MergeGroupPart(ps, names[i]);
    var added := result.AddPart(childgroup);
  }

  // ---------------------------------------------------------------------------
  // Optimising in place

  /**
   * `Optimize`: each top-level part of the merged tree, in order, paired with
   * the single same-named top-level part of the full tree and optimised. The
   * top-level list itself is never collapsed. A part with no or several
   * same-named full parts throws `InvalidOperationException` (`Single`).
   */
  method Optimize(unoptimizedPart: FieldSelectorTree, optimizeWith: FieldSelectorTree) returns (o: Outcome)
    requires unoptimizedPart.Valid() && optimizeWith.Valid() && unoptimizedPart.Repr !! optimizeWith.Repr
    modifies unoptimizedPart.Repr
    ensures unoptimizedPart.Valid() && unoptimizedPart.Repr == old(unoptimizedPart.Repr)
    ensures o.Pass? <==> OptimizeEach(old(unoptimizedPart.Model), optimizeWith.Model).Success?
    ensures o.Fail? ==> o.error == InvalidOperation
    ensures o.Pass? ==> unoptimizedPart.Model == OptimizeEach(old(unoptimizedPart.Model), optimizeWith.Model).value
  {
    o := OptimizeTopLevel(unoptimizedPart, optimizeWith);
    unoptimizedPart.RefreshModel();
  }

  /** The `foreach` of `Optimize`, leaving the tree's own value to be re-read. */
  method OptimizeTopLevel(tree: FieldSelectorTree, full: FieldSelectorTree) returns (o: Outcome)
    requires tree.Valid() && full.Valid() && tree.Repr !! full.Repr
    modifies tree.Repr
    ensures tree.ChildrenValid()
    ensures tree.childParts == old(tree.childParts) && tree.Repr == old(tree.Repr)
    ensures o.Pass? <==> OptimizeEach(old(tree.Model), full.Model).Success?
    ensures o.Fail? ==> o.error == InvalidOperation
    ensures o.Pass? ==> ModelsAre(tree.childParts, OptimizeEach(old(tree.Model), full.Model).value)
  {
    ghost var sels, fulls := tree.Model, full.Model;
    var fullNames := PartNamesOf(full.childParts);
    NamesOfValid(full.childParts, fulls);
    ghost var done: seq<Part> := [];
    var i := 0;
    while i < |tree.childParts|
      invariant 0 <= i <= |tree.childParts| == |sels|
      invariant tree.ChildrenValid() && full.Valid() && full.Model == fulls
      invariant tree.childParts == old(tree.childParts) && tree.Repr == old(tree.Repr)
      invariant forall k :: i <= k < |sels| ==> tree.childParts[k].Model == sels[k]
      invariant OptimizeEach(sels[..i], fulls) == Success(done) && |done| == i
      invariant forall k :: 0 <= k < i ==> tree.childParts[k].Model == done[k]
    {
      var found := SingleIndex(fullNames, tree.childParts[i].PartName);
      if found.Failure? {
        OptimizeEachStepFails(sels, fulls, i);
        return Fail(found.error);
      }
      var partOutcome := OptimizeTopLevelAt(tree, full, i, found.value);
      if partOutcome.Fail? {
        OptimizeEachStepFails(sels, fulls, i);
        return partOutcome;
      }
      OptimizeEachStep(sels, fulls, i, done);
      done := done + [tree.childParts[i].Model];
      i := i + 1;
    }
    assert sels[..i] == sels;
    return Pass;
  }

  /**
   * One iteration of the `foreach` in `Optimize`: the `i`-th top-level part
   * paired with the `k`-th full part and optimised; every other part is left
   * alone.
   */
  method OptimizeTopLevelAt(tree: FieldSelectorTree, full: FieldSelectorTree, i: nat, k: nat) returns (o: Outcome)
    requires tree.ChildrenValid() && full.Valid() && tree.Repr !! full.Repr
    requires i < |tree.childParts| && k < |full.childParts|
    modifies tree.childParts[i].Repr
    ensures tree.ChildrenValid()
    ensures forall j :: 0 <= j < |tree.childParts| && j != i ==> tree.childParts[j].Model == old(tree.childParts[j].Model)
    ensures o.Pass? <==> OptimizePartValue(old(tree.childParts[i].Model), full.childParts[k].Model).Success?
    ensures o.Fail? ==> o.error == InvalidOperation
    ensures o.Pass? ==> tree.childParts[i].Model == OptimizePartValue(old(tree.childParts[i].Model), full.childParts[k].Model).value
  {
    var combinedPart := new OptimizableFieldSelectorPart(tree.childParts[i], full.childParts[k]);
    o := OptimizePart(combinedPart);
  }

  /**
   * `OptimizePart`: optimises every child of the selected part against the
   * single same-named child of the full part, in order, then drops all
   * children when the selected part has as many as the full part. A child
   * with no or several same-named full children throws
   * `InvalidOperationException` (`Single`).
   */
  method OptimizePart(selectedPart: OptimizableFieldSelectorPart) returns (o: Outcome)
    requires selectedPart.OptimizablePart.Valid() && selectedPart.FullPart.Valid()
    requires selectedPart.OptimizablePart.Repr !! selectedPart.FullPart.Repr
    modifies selectedPart.OptimizablePart.Repr
    ensures selectedPart.OptimizablePart.Valid()
    ensures selectedPart.OptimizablePart.Repr == old(selectedPart.OptimizablePart.Repr)
    ensures o.Pass? <==> OptimizePartValue(old(selectedPart.OptimizablePart.Model), selectedPart.FullPart.Model).Success?
    ensures o.Fail? ==> o.error == InvalidOperation
    ensures o.Pass? ==> selectedPart.OptimizablePart.Model
                        == OptimizePartValue(old(selectedPart.OptimizablePart.Model), selectedPart.FullPart.Model).value
    decreases selectedPart.OptimizablePart.Repr, 2
  {
    var sel, full := selectedPart.OptimizablePart, selectedPart.FullPart;
    ghost var model := sel.Model;
    OptimizePartValueAt(model, full.Model);
    o := OptimizeChildren(sel, full);
    sel.RefreshModel();
    if o.Fail? {
      return;
    }
    assert ModelsOf(sel.childParts) == OptimizeEach(model.children, full.Model.children).value;
    if |sel.childParts| == |full.childParts| {
      sel.RemoveAllParts();
    }
  }

  /**
   * The `foreach` of `OptimizePart`: each child of `sel`, in order, paired
   * with the single same-named child of `full` and optimised; the first child
   * without such a partner, or whose own optimisation fails, stops it.
   */
  method OptimizeChildren(sel: FieldSelectorPart, full: FieldSelectorPart) returns (o: Outcome)
    requires sel.Valid() && full.Valid() && sel.Repr !! full.Repr
    modifies sel.Repr
    ensures sel.ChildrenValid() && sel.PartName != ""
    ensures sel.childParts == old(sel.childParts) && sel.Repr == old(sel.Repr)
    ensures o.Pass? <==> OptimizeEach(old(sel.Model.children), full.Model.children).Success?
    ensures o.Fail? ==> o.error == InvalidOperation
    ensures o.Pass? ==> ModelsAre(sel.childParts, OptimizeEach(old(sel.Model.children), full.Model.children).value)
    decreases sel.Repr, 1
  {
    ghost var sels, fulls := sel.Model.children, full.Model.children;
    var fullNames := PartNamesOf(full.childParts);
    NamesOfValid(full.childParts, fulls);
    ghost var done: seq<Part> := [];
    var i := 0;
    while i < |sel.childParts|
      invariant 0 <= i <= |sel.childParts| == |sels|
      invariant sel.ChildrenValid() && full.Valid() && full.Model.children == fulls
      invariant sel.childParts == old(sel.childParts) && sel.Repr == old(sel.Repr)
      invariant forall k :: i <= k < |sels| ==> sel.childParts[k].Model == sels[k]
      invariant OptimizeEach(sels[..i], fulls) == Success(done) && |done| == i
      invariant forall k :: 0 <= k < i ==> sel.childParts[k].Model == done[k]
    {
      var found := SingleIndex(fullNames, sel.childParts[i].PartName);
      if found.Failure? {
        OptimizeEachStepFails(sels, fulls, i);
        return Fail(found.error);
      }
      var childOutcome := OptimizeChildAt(sel, full, i, found.value);
      if childOutcome.Fail? {
        OptimizeEachStepFails(sels, fulls, i);
        return childOutcome;
      }
      OptimizeEachStep(sels, fulls, i, done);
      done := done + [sel.childParts[i].Model];
      i := i + 1;
    }
    assert sels[..i] == sels;
    return Pass;
  }

  /**
   * One iteration of the `foreach` in `OptimizePart`: the `i`-th selected
   * child paired with the `k`-th full child and optimised; every other child
   * is left alone.
   */
  method OptimizeChildAt(sel: FieldSelectorPart, full: FieldSelectorPart, i: nat, k: nat) returns (o: Outcome)
    requires sel.ChildrenValid() && full.Valid() && sel.Repr !! full.Repr
    requires i < |sel.childParts| && k < |full.childParts|
    modifies sel.childParts[i].Repr
    ensures sel.ChildrenValid()
    ensures forall j :: 0 <= j < |sel.childParts| && j != i ==> sel.childParts[j].Model == old(sel.childParts[j].Model)
    ensures o.Pass? <==> OptimizePartValue(old(sel.childParts[i].Model), full.childParts[k].Model).Success?
    ensures o.Fail? ==> o.error == InvalidOperation
    ensures o.Pass? ==> sel.childParts[i].Model == OptimizePartValue(old(sel.childParts[i].Model), full.childParts[k].Model).value
    decreases sel.Repr, 0
  {
    var pair := new OptimizableFieldSelectorPart(sel.childParts[i], full.childParts[k]);
    o := OptimizePart(pair);
  }

  // ---------------------------------------------------------------------------
  // The collection overload's graft

  /**
   * `collectionTree.ChildParts.WhereRecursive(..., part has no children).Single()`
   * on the tree of one member-access chain: the chain's only childless part,
   * found by walking down the line of single children. `line` is that line,
   * top part first.
   */
  method LastChild(tree: FieldSelectorTree, ghost names: seq<string>)
    returns (lastChild: FieldSelectorPart, ghost line: seq<FieldSelectorPart>)
    requires tree.Valid() && tree.Model == Chain(names) && names != []
    ensures |line| == |names| && line[0] == tree.childParts[0] && lastChild == line[|line| - 1]
    ensures Linked(line) && PartNamesOf(line) == names
    ensures lastChild.Valid() && lastChild.childParts == [] && lastChild.Model == Part(names[|names| - 1], [])
    ensures forall j :: 0 <= j < |line| ==> line[j] in tree.Repr && tree !in line[j].Repr && line[j].Repr <= tree.Repr
    ensures forall j, i :: 0 <= j < i < |line| ==> line[j] !in line[i].Repr
    ensures forall j :: 0 <= j < |line| ==> line[j].PartName != ""
    ensures forall j, i :: 0 <= j < i < |line| ==> line[j] != line[i]
  {
    lastChild := tree.childParts[0];
    line := [lastChild];
    while lastChild.childParts != []
      invariant 0 < |line| <= |names| && lastChild == line[|line| - 1] && line[0] == tree.childParts[0]
      invariant lastChild.Valid() && lastChild.Model == Chain(names[|line| - 1..])[0]
      invariant Linked(line) && PartNamesOf(line) == names[..|line|]
      invariant forall j :: 0 <= j < |line| ==> line[j] in tree.Repr && tree !in line[j].Repr && line[j].Repr <= tree.Repr
      invariant forall j, i :: 0 <= j < i < |line| ==> line[j] !in line[i].Repr
      invariant forall j :: 0 <= j < |line| ==> line[j].PartName != "" && line[j] in line[j].Repr
      decreases lastChild.Repr
    {
      var k := |line| - 1;
      assert lastChild.ChildrenValid();
      assert |names[k..]| > 1;
      var next := lastChild.childParts[0];
      assert names[k..][1..] == names[k + 1..];
      assert names[..k + 2] == names[..k + 1] + [names[k + 1]];
      line := line + [next];
      lastChild := next;
    }
    assert |names[|line| - 1..]| == 1;
    assert names[..|line|] == names;
  }

  /**
   * `lastChild.AddPart(subTree.ChildParts.First())`: the item selector's
   * chain hung below the last part of the collection selector's chain, which
   * makes the two one chain.
   */
  method AddToLastChild(collectionTree: FieldSelectorTree, ghost collectionNames: seq<string>,
                        subTree: FieldSelectorTree, ghost itemNames: seq<string>)
    requires collectionTree.Valid() && collectionTree.Model == Chain(collectionNames) && collectionNames != []
    requires subTree.Valid() && subTree.Model == Chain(itemNames) && itemNames != []
    requires collectionTree.Repr !! subTree.Repr
    modifies collectionTree.Repr
    ensures collectionTree.Valid() && collectionTree.Model == Chain(collectionNames + itemNames)
    ensures collectionTree.Repr <= old(collectionTree.Repr) + subTree.Repr
  {
    var lastChild, line := LastChild(collectionTree, collectionNames);
    var first := subTree.childParts[0];
    var added := lastChild.AddPart(first);
    assert lastChild.Model == Part(collectionNames[|line| - 1], Chain(itemNames));
    SealGraft(collectionTree, line, collectionNames, itemNames);
  }

  /**
   * Re-establishes the ghost state of the collection tree after its last
   * part, itself valid, gained the item chain: every part above it, then the
   * tree.
   */
  ghost method SealGraft(tree: FieldSelectorTree, line: seq<FieldSelectorPart>,
                         names: seq<string>, itemNames: seq<string>)
    requires |line| == |names| > 0 && tree.childParts == [line[0]]
    requires Linked(line) && PartNamesOf(line) == names
    requires line[|line| - 1].Valid() && line[|line| - 1].Model == Part(names[|names| - 1], Chain(itemNames))
    requires forall j :: 0 <= j < |line| - 1 ==> line[j].PartName != "" && line[j] !in line[|line| - 1].Repr
    requires forall j, i :: 0 <= j < i < |line| ==> line[j] != line[i]
    requires tree !in line[|line| - 1].Repr
    modifies tree, set j | 0 <= j < |line| - 1 :: line[j]
    ensures tree.Valid() && tree.Model == Chain(names + itemNames)
    ensures tree.Repr == {tree} + (set j | 0 <= j < |line| - 1 :: line[j]) + old(line[|line| - 1].Repr)
  {
    var n := |line|;
    var last := names[n - 1];
    var leaf := line[n - 1].Model;
    SealChain(line);
    assert PartNamesOf(line[..n - 1]) == names[..n - 1];
    assert Chain([last] + itemNames)[0] == leaf by {
      assert ([last] + itemNames)[1..] == itemNames;
    }
    NestChain(names[..n - 1], [last] + itemNames);
    assert names[..n - 1] + ([last] + itemNames) == names + itemNames;
    assert line[0].Model == Chain(names + itemNames)[0];
    tree.Reseal();
  }

  // ---------------------------------------------------------------------------
  // The builder

  /**
   * A selector takes part in the response when the property it selects (the
   * outermost member access, last in the path) carries a JSON property
   * annotation.
   */
  predicate ParticipatesInResponse(path: seq<PropertyInfo>)
  {
    path != [] && path[|path| - 1].jsonProperty.Some?
  }

  /**
   * `ThrowIfPropertyDontParticipateInResponse`: a missing selector throws
   * `ArgumentNullException`, one whose property has no JSON annotation
   * throws `InvalidOperationException`.
   */
  function ThrowIfPropertyDontParticipateInResponse(selector: Option<seq<PropertyInfo>>): (o: Outcome)
    ensures o.Pass? <==> selector.Some? && ParticipatesInResponse(selector.value)
    ensures selector.None? ==> o == Fail(ArgumentNull)
    ensures selector.Some? && o.Fail? ==> o.error == InvalidOperation
  {
    if selector.None? then Fail(ArgumentNull)
    else if selector.value == [] || selector.value[|selector.value| - 1].jsonProperty.None? then Fail(InvalidOperation)
    else Pass
  }

  /** A merged selection optimised against the full tree of the root type, as deep as the merge. */
  ghost function OptimizedMerge(e: PartNameExtractor, schema: Schema, rootType: TypeId, merged: seq<Part>): Result<seq<Part>>
  {
    var full := FullTree(e, schema, rootType, TreeDeep(merged));
    if !AllNamed(full) then Failure(ArgumentNull)
    else OptimizeEach(merged, full)
  }

  /** The optimised merge of all selections. */
  ghost function OptimizedSelection(e: PartNameExtractor, schema: Schema, rootType: TypeId,
                                    selections: seq<seq<Part>>): Result<seq<Part>>
  {
    OptimizedMerge(e, schema, rootType, MergeLevel(Flatten(selections)))
  }

  /**
   * The middle of `BuildSelectorExpression`: the full tree as deep as the merged
   * tree is generated and the merged tree is optimised against it in place.
   */
  method OptimizeAgainstFullTree(merged: FieldSelectorTree, e: PartNameExtractor, schema: Schema, rootType: TypeId)
    returns (o: Outcome)
    requires merged.Valid()
    modifies merged.Repr
    ensures merged.Valid()
    ensures o.Fail? ==> OptimizedMerge(e, schema, rootType, old(merged.Model)) == Failure(o.error)
    ensures o.Pass? ==> OptimizedMerge(e, schema, rootType, old(merged.Model)) == Success(merged.Model)
  {
    ghost var model := merged.Model;
    var maximumDeep := merged.GetDeep();
    var creator := new FieldSelectorTreeCreator(e, schema, rootType);
    var fullFieldSelectorTree := creator.GenerateFullFieldSelectorTree(maximumDeep);
    if fullFieldSelectorTree.Failure? {
      return Fail(fullFieldSelectorTree.error);
    }
    o := Optimize(merged, fullFieldSelectorTree.value);
    if o.Fail? {
      OptimizeEachSucceeds(model, fullFieldSelectorTree.value.Model);
    }
  }

  /** What `BuildSelectorExpression` returns, or the exception it throws. */
  ghost function SelectorExpression(e: PartNameExtractor, schema: Schema, rootType: TypeId,
                                    selections: seq<seq<Part>>): Result<string>
  {
    var optimized :- OptimizedSelection(e, schema, rootType, selections);
    Success(TreeBuild(optimized))
  }

  /** With nothing selected the expression is the empty string. */
  lemma NothingSelected(e: PartNameExtractor, schema: Schema, rootType: TypeId)
    ensures SelectorExpression(e, schema, rootType, []) == Success("")
  {
    FullTreeAtZero(e, schema, rootType);
  }

  /**
   * The expression can be built exactly when the full tree is well named and
   * every merged part finds exactly one same-named full part at its level;
   * otherwise it fails with the exception the failing step throws.
   */
  lemma SelectorExpressionSucceeds(e: PartNameExtractor, schema: Schema, rootType: TypeId, selections: seq<seq<Part>>)
    ensures var merged := MergeLevel(Flatten(selections));
            var full := FullTree(e, schema, rootType, TreeDeep(merged));
            && (SelectorExpression(e, schema, rootType, selections).Success? <==> AllNamed(full) && MatchableEach(merged, full))
            && (!AllNamed(full) ==> SelectorExpression(e, schema, rootType, selections) == Failure(ArgumentNull))
            && (AllNamed(full) && !MatchableEach(merged, full)
                ==> SelectorExpression(e, schema, rootType, selections) == Failure(InvalidOperation))
  {
    var merged := MergeLevel(Flatten(selections));
    OptimizeEachSucceeds(merged, FullTree(e, schema, rootType, TreeDeep(merged)));
  }

  /** Dropping children keeps sibling names distinct. */
  lemma {:induction false} PrunedEachMerged(rs: seq<Part>, sels: seq<Part>)
    requires PrunedEach(rs, sels) && Merged(sels)
    ensures Merged(rs)
    decreases sels
  {
    assert Names(rs) == Names(sels);
    forall i | 0 <= i < |rs|
      ensures Merged(rs[i].children)
    {
      if rs[i].children != [] {
        PrunedEachMerged(rs[i].children, sels[i].children);
      }
    }
  }

  /**
   * What the built expression serialises: one top-level part per distinct
   * selected top-level name, in order of first selection (the root list is
   * never collapsed); distinct sibling names at every level; only selected
   * paths; and everything the merged selection covers.
   */
  lemma SelectorExpressionShape(e: PartNameExtractor, schema: Schema, rootType: TypeId,
                                selections: seq<seq<Part>>, path: seq<string>)
    requires OptimizedSelection(e, schema, rootType, selections).Success?
    ensures var optimized := OptimizedSelection(e, schema, rootType, selections).value;
            && SelectorExpression(e, schema, rootType, selections) == Success(TreeBuild(optimized))
            && Names(optimized) == DistinctNames(Flatten(selections))
            && Merged(optimized)
            && (IsPath(optimized, path) ==> IsPath(Flatten(selections), path))
            && (Covers(MergeLevel(Flatten(selections)), path) ==> Covers(optimized, path))
  {
    var merged := MergeLevel(Flatten(selections));
    var full := FullTree(e, schema, rootType, TreeDeep(merged));
    var optimized := OptimizeEach(merged, full).value;
    OptimizeKeepsTopLevel(merged, full);
    MergeNames(Flatten(selections));
    OptimizeEachPrunes(merged, full);
    MergeIsMerged(Flatten(selections));
    PrunedEachMerged(optimized, merged);
    OptimizeNeverNarrows(merged, full, path);
    MergePaths(Flatten(selections), path);
  }

  class JsonFieldSelectorBuilder {
    const partNameExtractor: PartNameExtractor
    /** The reflected types (`Type.GetProperties()` for every type reachable from the root). */
    const schema: Schema
    /** `TRoot`. */
    const rootType: TypeId
    var rootFieldSelectorParts: seq<FieldSelectorTree>

    /** The value of each selected tree, in the order the selections were made. */
    ghost var Selections: seq<seq<Part>>
    ghost var Repr: set<object>

    ghost predicate Valid()
      reads this, Repr
    {
      && this in Repr
      && |Selections| == |rootFieldSelectorParts|
      && (forall k :: 0 <= k < |rootFieldSelectorParts| ==>
            && rootFieldSelectorParts[k] in Repr
            && rootFieldSelectorParts[k].Repr <= Repr
            && this !in rootFieldSelectorParts[k].Repr
            && rootFieldSelectorParts[k].Valid()
            && rootFieldSelectorParts[k].Model == Selections[k])
    }

    /** A builder with nothing selected. */
    constructor (partNameExtractor: PartNameExtractor, schema: Schema, rootType: TypeId)
      ensures Valid() && fresh(Repr) && Selections == []
      ensures this.partNameExtractor == partNameExtractor && this.schema == schema && this.rootType == rootType
    {
      this.partNameExtractor := partNameExtractor;
      this.schema := schema;
      this.rootType := rootType;
      rootFieldSelectorParts := [];
      Selections := [];
      Repr := {this};
    }

    /**
     * `SelectProperty(selector)`: checks that the selected property takes part
     * in the response, compiles the member-access chain into a tree with a new
     * creator, and records it. A failure records nothing.
     */
    method SelectProperty(selector: Option<seq<PropertyInfo>>) returns (o: Outcome)
      requires Valid()
      modifies this
      ensures Valid() && fresh(Repr - old(Repr))
      ensures o.Pass? <==> && selector.Some? && ParticipatesInResponse(selector.value)
                           && NoEmptyName(SelectorNames(partNameExtractor, selector.value))
      ensures o.Fail? ==> o.error == (if selector.Some? && ParticipatesInResponse(selector.value)
                                      then ArgumentNull
                                      else ThrowIfPropertyDontParticipateInResponse(selector).error)
      ensures o.Pass? ==> Selections == old(Selections) + [Chain(SelectorNames(partNameExtractor, selector.value))]
      ensures o.Fail? ==> Selections == old(Selections)
    {
      o := ThrowIfPropertyDontParticipateInResponse(selector);
      if o.Fail? {
        return;
      }
      var creator := new FieldSelectorTreeCreator(partNameExtractor, schema, rootType);
      var selectedTree := creator.GenerateFromLambdaExpression(selector);
      if selectedTree.Failure? {
        return Fail(selectedTree.error);
      }
      Record(selectedTree.value);
    }

    /**
     * `SelectProperty(selector, subSelector)`: selects a collection property
     * of the root type and, through `subSelector` on the item type, a path
     * inside its items; records the one chain that runs through both.
     */
    method SelectCollectionProperty(selector: Option<seq<PropertyInfo>>, itemType: TypeId,
                                    subSelector: Option<seq<PropertyInfo>>) returns (o: Outcome)
      requires Valid()
      modifies this
      ensures Valid() && fresh(Repr - old(Repr))
      ensures o.Pass? <==> && selector.Some? && ParticipatesInResponse(selector.value)
                           && subSelector.Some? && ParticipatesInResponse(subSelector.value)
                           && NoEmptyName(SelectorNames(partNameExtractor, selector.value))
                           && NoEmptyName(SelectorNames(partNameExtractor, subSelector.value))
      ensures o.Fail? ==> o.error == (if !(selector.Some? && ParticipatesInResponse(selector.value))
                                      then ThrowIfPropertyDontParticipateInResponse(selector).error
                                      else if !(subSelector.Some? && ParticipatesInResponse(subSelector.value))
                                      then ThrowIfPropertyDontParticipateInResponse(subSelector).error
                                      else ArgumentNull)
      ensures o.Pass? ==> Selections == old(Selections) + [Chain(SelectorNames(partNameExtractor, selector.value)
                                                                 + SelectorNames(partNameExtractor, subSelector.value))]
      ensures o.Fail? ==> Selections == old(Selections)
    {
      o := ThrowIfPropertyDontParticipateInResponse(selector);
      if o.Fail? {
        return;
      }
      o := ThrowIfPropertyDontParticipateInResponse(subSelector);
      if o.Fail? {
        return;
      }
      var collectionTree := GenerateCollectionTree(selector.value, itemType, subSelector.value);
      if collectionTree.Failure? {
        return Fail(collectionTree.error);
      }
      Record(collectionTree.value);
    }

    /**
     * The trees of both selectors, each from a new creator (the item selector's
     * for the item type), with the item chain hung below the last part of the
     * collection chain.
     */
    method GenerateCollectionTree(selector: seq<PropertyInfo>, itemType: TypeId, subSelector: seq<PropertyInfo>)
      returns (r: Result<FieldSelectorTree>)
      requires selector != [] && subSelector != []
      ensures r.Success? <==> && NoEmptyName(SelectorNames(partNameExtractor, selector))
                              && NoEmptyName(SelectorNames(partNameExtractor, subSelector))
      ensures r.Failure? ==> r.error == ArgumentNull
      ensures r.Success? ==> fresh(r.value) && fresh(r.value.Repr) && r.value.Valid()
      ensures r.Success? ==> r.value.Model == Chain(SelectorNames(partNameExtractor, selector)
                                                    + SelectorNames(partNameExtractor, subSelector))
    {
      var collectionCreator := new FieldSelectorTreeCreator(partNameExtractor, schema, rootType);
      var collectionTree := collectionCreator.GenerateFromLambdaExpression(Some(selector));
      if collectionTree.Failure? {
        return Failure(collectionTree.error);
      }
      var itemCreator := new FieldSelectorTreeCreator(partNameExtractor, schema, itemType);
      var subTree := itemCreator.GenerateFromLambdaExpression(Some(subSelector));
      if subTree.Failure? {
        return Failure(subTree.error);
      }
      AddToLastChild(collectionTree.value, SelectorNames(partNameExtractor, selector),
                     subTree.value, SelectorNames(partNameExtractor, subSelector));
      return collectionTree;
    }

    /** `rootFieldSelectorParts.Add(tree)`. */
    method Record(tree: FieldSelectorTree)
      requires Valid() && tree.Valid() && this !in tree.Repr
      modifies this
      ensures Valid() && Repr == old(Repr) + {tree} + tree.Repr
      ensures rootFieldSelectorParts == old(rootFieldSelectorParts) + [tree]
      ensures Selections == old(Selections) + [tree.Model]
    {
      rootFieldSelectorParts := rootFieldSelectorParts + [tree];
      Selections := Selections + [tree.Model];
      Repr := Repr + {tree} + tree.Repr;
    }

    /**
     * `BuildSelectorExpression`: merges the selected trees, generates the full
     * tree of the root type as deep as the merged tree, optimises the merged
     * tree against it and serialises it. The selections are left as they are.
     */
    method BuildSelectorExpression() returns (r: Result<string>)
      requires Valid()
      ensures r == SelectorExpression(partNameExtractor, schema, rootType, Selections)
    {
      var mergedFieldSelectorPart := MergeAndOptimize();
      if mergedFieldSelectorPart.Failure? {
        return Failure(mergedFieldSelectorPart.error);
      }
      return Success(mergedFieldSelectorPart.value.Build());
    }

    /** The steps of `BuildSelectorExpression` before `Build`: a new tree holding the optimised merge. */
    method MergeAndOptimize() returns (r: Result<FieldSelectorTree>)
      requires Valid()
      ensures r.Failure? ==> OptimizedSelection(partNameExtractor, schema, rootType, Selections) == Failure(r.error)
      ensures r.Success? ==> && r.value.Valid()
                             && OptimizedSelection(partNameExtractor, schema, rootType, Selections) == Success(r.value.Model)
    {
      ConcatModelsFlatten(rootFieldSelectorParts, Selections);
      var mergedFieldSelectorPart := MergeRootParts(rootFieldSelectorParts);
      var optimized := OptimizeAgainstFullTree(mergedFieldSelectorPart, partNameExtractor, schema, rootType);
      if optimized.Fail? {
        return Failure(optimized.error);
      }
      return Success(mergedFieldSelectorPart);
    }
  }
}
