/** The pipeline of `consolidate_variable` (plugins/modules/consolidate_variable.py, `main`):
    role and inventory variables merged into one variable space, the target list gathered from
    the inventory files, and the list rendered against the merged variables. */
module Consolidate {
  import opened Wrappers
  import opened Variables
  import opened Render

  /** The `max_iterations` default of `render_variables`. */
  const MaxIterations: int := 10

  /** `roleFiles` and `inventoryFiles` are the loaded files in the order the module reads them;
      `renderWith(vars)` renders one template string against `vars`. */
  method ConsolidateVariable(roleFiles: seq<Vars>, inventoryFiles: seq<Vars>, target: string,
                             renderWith: Vars -> string -> Option<string>) returns (result: Value)
    ensures result.List?
    ensures |result.items| == |ConsolidateTargetVar(inventoryFiles, target)|
    ensures forall i :: 0 <= i < |result.items| ==> SameShape(ConsolidateTargetVar(inventoryFiles, target)[i], result.items[i])
  {
    var merged := MergeVariables(RoleVars(roleFiles), InventoryVars(inventoryFiles));
    var raw := ConsolidateTargetVar(inventoryFiles, target);
    var steps;
    result, steps := RenderVariables(List(raw), renderWith(merged), MaxIterations);
  }
}
