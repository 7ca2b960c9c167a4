/**
 * `FieldSelectorTreeCreator`: compiles one member-access selector into a
 * linear tree, and reflects the full tree of a type's properties down to a
 * maximum depth.
 */
module FieldSelectorTreeCreators {
  import opened Wrappers
  import opened PartNames
  import opened SelectorValues
  import opened FieldSelectorParts
  import opened FieldSelectorTrees

  // ---------------------------------------------------------------------------
  // The full tree as a value

  /**
   * The parts `GenerateChildTreeFromProperties` yields for `props` at depth
   * `currentDeep`: none at the maximum depth, otherwise one per property.
   */
  function FullParts(e: PartNameExtractor, schema: Schema, props: seq<PropertyInfo>,
                     currentDeep: nat, maximumDeep: nat): (ps: seq<Part>)
    requires currentDeep <= maximumDeep
    ensures currentDeep == maximumDeep ==> ps == []
    ensures currentDeep < maximumDeep ==> |ps| == |props|
    decreases maximumDeep - currentDeep, 1
  {
    if currentDeep == maximumDeep then []
    else seq(|props|, k requires 0 <= k < |props| => FullPart(e, schema, props[k], currentDeep, maximumDeep))
  }

  /**
   * The part for one property: named by the extractor, with the full parts of
   * the property's type (or of its element type, for a collection) one level
   * deeper, and no children for a primitive.
   */
  function FullPart(e: PartNameExtractor, schema: Schema, p: PropertyInfo,
                    currentDeep: nat, maximumDeep: nat): (q: Part)
    requires currentDeep < maximumDeep
    decreases maximumDeep - currentDeep, 0
  {
    Part(ExtractPartName(e, p),
         if IsPrimitive(p.kind) then []
         else FullParts(e, schema, GetProperties(schema, NextType(p.kind)), currentDeep + 1, maximumDeep))
  }

  /** `GenerateFullFieldSelectorTree(maximumDeep)` for the root type, as a value. */
  function FullTree(e: PartNameExtractor, schema: Schema, root: TypeId, maximumDeep: nat): seq<Part>
  {
    FullParts(e, schema, GetProperties(schema, root), 0, maximumDeep)
  }

  /**
   * `path` names a chain of properties starting in `props`: each step picks a
   * property of the current type by its extracted name and, unless it is the
   * last step, continues in the property's non-primitive type.
   */
  ghost predicate IsSchemaPath(e: PartNameExtractor, schema: Schema, props: seq<PropertyInfo>, path: seq<string>)
    decreases |path|
  {
    && |path| > 0
    && exists k :: 0 <= k < |props| && ExtractPartName(e, props[k]) == path[0]
                   && (|path| == 1 || (!IsPrimitive(props[k].kind)
                         && IsSchemaPath(e, schema, GetProperties(schema, NextType(props[k].kind)), path[1..])))
  }

  /** A part is exactly as deep as the tree of its children. */
  lemma DeepIsTreeDeep(p: Part)
    ensures Deep(p) == TreeDeep(p.children)
  {
  }

  /** The full tree never exceeds the depth budget it was generated with. */
  lemma {:induction false} FullPartsDepth(e: PartNameExtractor, schema: Schema, props: seq<PropertyInfo>,
                                          currentDeep: nat, maximumDeep: nat)
    requires currentDeep <= maximumDeep
    ensures TreeDeep(FullParts(e, schema, props, currentDeep, maximumDeep)) <= maximumDeep - currentDeep
    decreases maximumDeep - currentDeep
  {
    var ps := FullParts(e, schema, props, currentDeep, maximumDeep);
    if ps != [] {
      MaxDeepIsMaximum(ps);
      var i :| 0 <= i < |ps| && Deep(ps[i]) == MaxDeep(ps);
      var p := props[i];
      assert ps[i] == FullPart(e, schema, p, currentDeep, maximumDeep);
      DeepIsTreeDeep(ps[i]);
      if !IsPrimitive(p.kind) {
        FullPartsDepth(e, schema, GetProperties(schema, NextType(p.kind)), currentDeep + 1, maximumDeep);
      }
    }
  }

  /** The full tree of depth 0 is empty, whatever the schema. */
  lemma FullTreeAtZero(e: PartNameExtractor, schema: Schema, root: TypeId)
    ensures FullTree(e, schema, root, 0) == []
  {
  }

  /**
   * The paths of the full tree are exactly the schema paths no longer than the
   * depth budget.
   */
  lemma {:induction false} FullPartsPaths(e: PartNameExtractor, schema: Schema, props: seq<PropertyInfo>,
                                          currentDeep: nat, maximumDeep: nat, path: seq<string>)
    requires currentDeep <= maximumDeep
    ensures IsPath(FullParts(e, schema, props, currentDeep, maximumDeep), path)
            <==> |path| <= maximumDeep - currentDeep && IsSchemaPath(e, schema, props, path)
    decreases |path|
  {
    var ps := FullParts(e, schema, props, currentDeep, maximumDeep);
    if |path| > 0 && currentDeep < maximumDeep {
      // One step: the part at index k matches the property at index k.
      forall k | 0 <= k < |props|
        ensures (ps[k].name == path[0] && (|path| == 1 || IsPath(ps[k].children, path[1..])))
                <==> (ExtractPartName(e, props[k]) == path[0]
                      && (|path| == 1 || (!IsPrimitive(props[k].kind)
                            && IsSchemaPath(e, schema, GetProperties(schema, NextType(props[k].kind)), path[1..])))
                      && |path| <= maximumDeep - currentDeep)
      {
        assert ps[k] == FullPart(e, schema, props[k], currentDeep, maximumDeep);
        if |path| > 1 && !IsPrimitive(props[k].kind) {
          FullPartsPaths(e, schema, GetProperties(schema, NextType(props[k].kind)),
                         currentDeep + 1, maximumDeep, path[1..]);
        }
      }
      if IsPath(ps, path) {
        var k :| 0 <= k < |ps| && ps[k].name == path[0] && (|path| == 1 || IsPath(ps[k].children, path[1..]));
        assert IsSchemaPath(e, schema, props, path);
      }
      if |path| <= maximumDeep - currentDeep && IsSchemaPath(e, schema, props, path) {
        var k :| 0 <= k < |props| && ExtractPartName(e, props[k]) == path[0]
                 && (|path| == 1 || (!IsPrimitive(props[k].kind)
                       && IsSchemaPath(e, schema, GetProperties(schema, NextType(props[k].kind)), path[1..])));
        assert IsPath(ps, path);
      }
    }
  }

  /** The names one member-access path compiles to, in access order from the root. */
  function SelectorNames(e: PartNameExtractor, path: seq<PropertyInfo>): (names: seq<string>)
    ensures |names| == |path|
    ensures forall k :: 0 <= k < |path| ==> names[k] == ExtractPartName(e, path[k])
  {
    seq(|path|, k requires 0 <= k < |path| => ExtractPartName(e, path[k]))
  }

  /** The last access of a path contributes the last name. */
  lemma SelectorNamesLast(e: PartNameExtractor, path: seq<PropertyInfo>)
    requires |path| > 0
    ensures SelectorNames(e, path) == SelectorNames(e, path[..|path| - 1]) + [ExtractPartName(e, path[|path| - 1])]
  {
  }

  predicate NoEmptyName(names: seq<string>)
  {
    forall k :: 0 <= k < |names| ==> names[k] != ""
  }

  lemma NoEmptyNameAppend(names: seq<string>, name: string)
    ensures NoEmptyName(names + [name]) <==> NoEmptyName(names) && name != ""
  {
    var all := names + [name];
    assert all[|names|] == name;
    assert forall k :: 0 <= k < |names| ==> all[k] == names[k];
  }

  /**
   * The stack after visiting the rest of a path on top of one pushed part: the
   * rest's parts, then the pushed part, then the stack as it was.
   */
  lemma StackAfterVisit(after: seq<FieldSelectorPart>, pushed: seq<FieldSelectorPart>,
                        before: seq<FieldSelectorPart>, restNames: seq<string>)
    requires |pushed| == |before| + 1 && pushed[1..] == before
    requires |after| == |restNames| + |pushed| && after[|restNames|..] == pushed
    requires PartNamesOf(after) == restNames + PartNamesOf(pushed)
    ensures PartNamesOf(after) == (restNames + [pushed[0].PartName]) + PartNamesOf(before)
    ensures after[|restNames| + 1..] == before
  {
    assert PartNamesOf(pushed) == [pushed[0].PartName] + PartNamesOf(before);
    assert after[|restNames| + 1..] == pushed[1..];
  }

  // ---------------------------------------------------------------------------
  // The creator

  /**
   * The `foreach` over the visited parts in `GenerateFromLambdaExpression`:
   * the first part is added to the empty tree, every later one to the part
   * added before it.
   */
  method LinkChain(tree: FieldSelectorTree, parts: seq<FieldSelectorPart>)
    requires tree.Valid() && tree.childParts == [] && tree.Repr == {tree}
    requires forall k :: 0 <= k < |parts| ==> IsLeaf(parts[k])
    requires forall i, j :: 0 <= i < j < |parts| ==> parts[i] != parts[j]
    modifies tree, set k | 0 <= k < |parts| :: parts[k]
    ensures |parts| == 0 ==> tree.childParts == [] && tree.Valid() && tree.Model == [] && tree.Repr == {tree}
    ensures |parts| > 0 ==> tree.childParts == [parts[0]] && Linked(parts) && IsLeaf(parts[|parts| - 1])
  {
    var addCurrentToMe: FieldSelectorPart? := null;
    for i := 0 to |parts|
      invariant i == 0 ==> tree.childParts == [] && addCurrentToMe == null && tree.Valid() && tree.Model == [] && tree.Repr == {tree}
      invariant i > 0 ==> tree.childParts == [parts[0]] && addCurrentToMe == parts[i - 1]
      invariant forall j :: 0 <= j < i - 1 ==> parts[j].childParts == [parts[j + 1]]
      invariant forall k :: i - 1 <= k < |parts| && 0 <= k ==> IsLeaf(parts[k])
    {
      var childPart := parts[i];
      if |tree.childParts| == 0 {
        addCurrentToMe := childPart;
        LeafIsValid(childPart);
        var added := tree.AddPart(childPart);
      } else if addCurrentToMe != null {
        LeafIsValid(addCurrentToMe);
        LeafIsValid(childPart);
        var added := addCurrentToMe.AddPart(childPart);
        addCurrentToMe := childPart;
      }
    }
  }

  /**
   * Re-establishes the ghost state of a tree linked by `LinkChain`: its value
   * is the chain of the parts' names and it owns exactly the parts.
   */
  ghost method SealSelectorTree(tree: FieldSelectorTree, parts: seq<FieldSelectorPart>)
    requires |parts| > 0 && tree.childParts == [parts[0]] && Linked(parts) && IsLeaf(parts[|parts| - 1])
    requires forall k :: 0 <= k < |parts| ==> parts[k].PartName != ""
    requires forall i, j :: 0 <= i < j < |parts| ==> parts[i] != parts[j]
    modifies tree, set k | 0 <= k < |parts| - 1 :: parts[k]
    ensures tree.Valid() && tree.Repr == {tree} + (set k | 0 <= k < |parts| :: parts[k])
    ensures tree.Model == Chain(PartNamesOf(parts))
  {
    var n := |parts|;
    ghost var names := PartNamesOf(parts);
    LeafIsValid(parts[n - 1]);
    SealChain(parts);
    tree.Reseal();
    assert (set k | 0 <= k < n :: parts[k]) == (set j | 0 <= j < n - 1 :: parts[j]) + {parts[n - 1]};
    assert PartNamesOf(parts[..n - 1]) == names[..n - 1];
    NestChain(names[..n - 1], [names[n - 1]]);
    assert names[..n - 1] + [names[n - 1]] == names;
  }

  /** Links the visited parts below the empty tree and seals it: the tree is the chain of their names. */
  method ChainTree(tree: FieldSelectorTree, parts: seq<FieldSelectorPart>)
    requires tree.Valid() && tree.childParts == [] && tree.Repr == {tree}
    requires forall k :: 0 <= k < |parts| ==> IsLeaf(parts[k])
    requires forall i, j :: 0 <= i < j < |parts| ==> parts[i] != parts[j]
    modifies tree, set k | 0 <= k < |parts| :: parts[k]
    ensures tree.Valid() && tree.Repr == {tree} + (set k | 0 <= k < |parts| :: parts[k])
    ensures tree.Model == Chain(PartNamesOf(parts))
  {
    LinkChain(tree, parts);
    if |parts| > 0 {
      SealSelectorTree(tree, parts);
    }
  }

  class FieldSelectorTreeCreator {
    const partNameExtractor: PartNameExtractor
    /** The reflected types (`Type.GetProperties()` for every type reachable from the root). */
    const schema: Schema
    /** `TRoot`. */
    const rootType: TypeId

    var rootPart: FieldSelectorTree?
    /** The stack of visited parts, its top at index 0 (so the list is in enumeration order). */
    var fieldSelectorParts: seq<FieldSelectorPart>

    /** Every stacked part is a distinct, still childless part. */
    ghost predicate Valid()
      reads this, fieldSelectorParts
    {
      && (forall k :: 0 <= k < |fieldSelectorParts| ==> IsLeaf(fieldSelectorParts[k]))
      && (forall i, j :: 0 <= i < j < |fieldSelectorParts| ==> fieldSelectorParts[i] != fieldSelectorParts[j])
    }

    constructor (partNameExtractor: PartNameExtractor, schema: Schema, rootType: TypeId)
      ensures Valid()
      ensures this.partNameExtractor == partNameExtractor && this.schema == schema && this.rootType == rootType
      ensures rootPart == null && fieldSelectorParts == []
    {
      this.partNameExtractor := partNameExtractor;
      this.schema := schema;
      this.rootType := rootType;
      rootPart := null;
      fieldSelectorParts := [];
    }

    /**
     * `GenerateFullFieldSelectorTree`: the full tree of the root type down to
     * `maximumDeep` levels; an empty extracted name anywhere in it throws.
     */
    method GenerateFullFieldSelectorTree(maximumDeep: nat) returns (r: Result<FieldSelectorTree>)
      ensures r.Success? <==> AllNamed(FullTree(partNameExtractor, schema, rootType, maximumDeep))
      ensures r.Failure? ==> r.error == ArgumentNull
      ensures r.Success? ==> fresh(r.value) && fresh(r.value.Repr) && r.value.Valid()
      ensures r.Success? ==> r.value.Model == FullTree(partNameExtractor, schema, rootType, maximumDeep)
    {
      var result := new FieldSelectorTree();
      var generated := GenerateChildTreeFromProperties(GetProperties(schema, rootType), 0, maximumDeep);
      if generated.Failure? {
        return Failure(generated.error);
      }
      AddEachToTree(result, generated.value, FullTree(partNameExtractor, schema, rootType, maximumDeep));
      return Success(result);
    }

    /**
     * `GenerateChildTreeFromProperties`: one new part per property, each
     * holding the parts of its type one level deeper; nothing at the maximum
     * depth.
     */
    method GenerateChildTreeFromProperties(propertyInfos: seq<PropertyInfo>, currentDeep: nat, maximumDeep: nat)
      returns (r: Result<seq<FieldSelectorPart>>)
      requires currentDeep <= maximumDeep
      ensures r.Success? <==> AllNamed(FullParts(partNameExtractor, schema, propertyInfos, currentDeep, maximumDeep))
      ensures r.Failure? ==> r.error == ArgumentNull
      ensures r.Success? ==> ValidForest(r.value) && fresh(ReprOf(r.value))
      ensures r.Success? ==> ModelsAre(r.value, FullParts(partNameExtractor, schema, propertyInfos, currentDeep, maximumDeep))
      decreases maximumDeep - currentDeep, 1
    {
      if currentDeep == maximumDeep {
        return Success([]);
      }
      ghost var full := FullParts(partNameExtractor, schema, propertyInfos, currentDeep, maximumDeep);
      var parts: seq<FieldSelectorPart> := [];
      for i := 0 to |propertyInfos|
        invariant |parts| == i
        invariant ValidForest(parts) && fresh(ReprOf(parts))
        invariant ModelsAre(parts, full[..i]) && AllNamed(full[..i])
      {
        var generated := GenerateChildPart(propertyInfos[i], currentDeep, maximumDeep);
        assert full[i] == FullPart(partNameExtractor, schema, propertyInfos[i], currentDeep, maximumDeep);
        AllNamedPrefix(full, i);
        if generated.Failure? {
          return Failure(generated.error);
        }
        var childPart := generated.value;
        AppendFreshPart(parts, childPart, full[..i]);
        parts := parts + [childPart];
        PrefixStep(full, i);
      }
      assert full[..|propertyInfos|] == full;
      return Success(parts);
    }

    /**
     * One iteration of `GenerateChildTreeFromProperties`: the new part for
     * `propertyInfo`, holding the parts of its type one level deeper unless it
     * is primitive.
     */
    method GenerateChildPart(propertyInfo: PropertyInfo, currentDeep: nat, maximumDeep: nat)
      returns (r: Result<FieldSelectorPart>)
      requires currentDeep < maximumDeep
      ensures r.Success? <==> AllNamed([FullPart(partNameExtractor, schema, propertyInfo, currentDeep, maximumDeep)])
      ensures r.Failure? ==> r.error == ArgumentNull
      ensures r.Success? ==> r.value.Valid() && fresh(r.value.Repr)
      ensures r.Success? ==> r.value.Model == FullPart(partNameExtractor, schema, propertyInfo, currentDeep, maximumDeep)
      decreases maximumDeep - currentDeep, 0
    {
      ghost var full := FullPart(partNameExtractor, schema, propertyInfo, currentDeep, maximumDeep);
      AllNamedSingle(full);
      var partName := ExtractPartName(partNameExtractor, propertyInfo);
      var created := FieldSelectorPart.New(partName);
      if created.Failure? {
        return Failure(created.error);
      }
      var childPart := created.value;
      if !IsPrimitive(propertyInfo.kind) {
        var nextType := NextType(propertyInfo.kind);
        var generated := GenerateChildTreeFromProperties(GetProperties(schema, nextType), currentDeep + 1, maximumDeep);
        if generated.Failure? {
          return Failure(generated.error);
        }
        AddEachToPart(childPart, generated.value, full.children);
      }
      childPart.ValidIsNamed();
      return Success(childPart);
    }

    /**
     * `GenerateFromLambdaExpression` on a fresh creator: the selector's
     * accesses as a chain, the first access at the top.
     */
    method GenerateFromLambdaExpression(selector: Option<seq<PropertyInfo>>) returns (r: Result<FieldSelectorTree>)
      requires Valid() && fieldSelectorParts == []
      modifies this
      ensures r.Failure? <==> selector.None? || !NoEmptyName(SelectorNames(partNameExtractor, selector.value))
      ensures r.Failure? ==> r.error == ArgumentNull
      ensures r.Success? ==> fresh(r.value) && fresh(r.value.Repr) && r.value.Valid()
      ensures r.Success? ==> r.value.Model == Chain(SelectorNames(partNameExtractor, selector.value))
      ensures r.Success? ==> rootPart == null
    {
      if selector.None? {
        return Failure(ArgumentNull);
      }
      var tree := new FieldSelectorTree();
      rootPart := tree;
      var visited := Visit(selector.value);
      if visited.Fail? {
        return Failure(visited.error);
      }
      var parts := fieldSelectorParts;
      assert PartNamesOf(parts) == SelectorNames(partNameExtractor, selector.value);
      ChainTree(tree, parts);
      rootPart := null;
      return Success(tree);
    }

    /**
     * `Visit` of the selector's body: a member access is visited by
     * `VisitMember`; the lambda parameter (an empty path) adds nothing.
     */
    method Visit(path: seq<PropertyInfo>) returns (o: Outcome)
      requires Valid()
      modifies this
      ensures Valid() && rootPart == old(rootPart)
      ensures o.Pass? <==> NoEmptyName(SelectorNames(partNameExtractor, path))
      ensures o.Fail? ==> o.error == ArgumentNull
      ensures o.Pass? ==> PartNamesOf(fieldSelectorParts) == SelectorNames(partNameExtractor, path) + PartNamesOf(old(fieldSelectorParts))
      ensures o.Pass? ==> fieldSelectorParts[|path|..] == old(fieldSelectorParts)
      ensures o.Pass? ==> forall k :: 0 <= k < |path| ==> fresh(fieldSelectorParts[k])
      decreases |path|, 1
    {
      if path == [] {
        return Pass;
      }
      o := VisitMember(path);
    }

    /**
     * `new FieldSelectorPart(partName)` pushed onto the stack of visited
     * parts; an empty name throws before anything is pushed.
     */
    method PushNew(partName: string) returns (o: Outcome)
      requires Valid()
      modifies this
      ensures Valid() && rootPart == old(rootPart)
      ensures o.Fail? <==> partName == ""
      ensures o.Fail? ==> o.error == ArgumentNull && fieldSelectorParts == old(fieldSelectorParts)
      ensures o.Pass? ==> |fieldSelectorParts| == |old(fieldSelectorParts)| + 1
      ensures o.Pass? ==> fieldSelectorParts[1..] == old(fieldSelectorParts) && fresh(fieldSelectorParts[0])
      ensures o.Pass? ==> fieldSelectorParts[0].PartName == partName
    {
      var created := FieldSelectorPart.New(partName);
      if created.Failure? {
        return Fail(created.error);
      }
      fieldSelectorParts := [created.value] + fieldSelectorParts;
      return Pass;
    }

    /**
     * `VisitMember` of the access to the last property of `path`: pushes a new
     * part for it, then visits the expression it is accessed on (the rest of
     * the path).
     */
    method VisitMember(path: seq<PropertyInfo>) returns (o: Outcome)
      requires Valid() && |path| > 0
      modifies this
      ensures Valid() && rootPart == old(rootPart)
      ensures o.Pass? <==> NoEmptyName(SelectorNames(partNameExtractor, path))
      ensures o.Fail? ==> o.error == ArgumentNull
      ensures o.Pass? ==> PartNamesOf(fieldSelectorParts) == SelectorNames(partNameExtractor, path) + PartNamesOf(old(fieldSelectorParts))
      ensures o.Pass? ==> fieldSelectorParts[|path|..] == old(fieldSelectorParts)
      ensures o.Pass? ==> forall k :: 0 <= k < |path| ==> fresh(fieldSelectorParts[k])
      decreases |path|, 0
    {
      var last := |path| - 1;
      var partName := ExtractPartName(partNameExtractor, path[last]);
      o := PushNew(partName);
      if o.Fail? {
        NoEmptyNameAppend(SelectorNames(partNameExtractor, path[..last]), partName);
        SelectorNamesLast(partNameExtractor, path);
        return;
      }
      ghost var pushed := fieldSelectorParts;
      o := Visit(path[..last]);
      SelectorNamesLast(partNameExtractor, path);
      NoEmptyNameAppend(SelectorNames(partNameExtractor, path[..last]), partName);
      if o.Pass? {
        StackAfterVisit(fieldSelectorParts, pushed, old(fieldSelectorParts), SelectorNames(partNameExtractor, path[..last]));
        forall k | 0 <= k < |path|
          ensures fresh(fieldSelectorParts[k])
        {
          if k == last {
            assert fieldSelectorParts[k] == pushed[0];
          }
        }
      }
    }
  }
}
