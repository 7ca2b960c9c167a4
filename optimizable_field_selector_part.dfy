/**
 * `OptimizableFieldSelectorPart`: a selected part paired with the same-named
 * part of the full tree, the unit `OptimizePart` works on.
 */
module OptimizableFieldSelectorParts {
  import opened Wrappers
  import opened FieldSelectorParts

  class OptimizableFieldSelectorPart {
    /** The part to be optimised (changed in place). */
    const OptimizablePart: FieldSelectorPart
    /** The full part that decides whether the selected part can drop its children. */
    const FullPart: FieldSelectorPart

    constructor (optimizablePart: FieldSelectorPart, fullPart: FieldSelectorPart)
      ensures OptimizablePart == optimizablePart && FullPart == fullPart
    {
      OptimizablePart := optimizablePart;
      FullPart := fullPart;
    }

    /**
     * `new OptimizableFieldSelectorPart(optimizablePart, fullPart)`: a missing
     * part throws `ArgumentNullException`, the selected part checked first.
     */
    static method New(optimizablePart: FieldSelectorPart?, fullPart: FieldSelectorPart?)
      returns (r: Result<OptimizableFieldSelectorPart>)
      ensures r.Failure? <==> optimizablePart == null || fullPart == null
      ensures r.Failure? ==> r.error == ArgumentNull
      ensures r.Success? ==> fresh(r.value)
      ensures r.Success? ==> r.value.OptimizablePart == optimizablePart && r.value.FullPart == fullPart
    {
      if optimizablePart == null {
        return Failure(ArgumentNull);
      }
      if fullPart == null {
        return Failure(ArgumentNull);
      }
      var pair := new OptimizableFieldSelectorPart(optimizablePart, fullPart);
      return Success(pair);
    }
  }
}
