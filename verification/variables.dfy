/** The variable space of `consolidate_variable` (plugins/modules/consolidate_variable.py) over
    YAML files that are already loaded: the merge rule for role variables, the flat override of
    inventory variables, and the concatenation of the target list variable. Each file is the
    mapping it holds at top level (a file that is missing, unreadable or not a mapping loads as
    an empty one). */
module Variables {

  /** A loaded YAML value. */
  datatype Value =
    | Str(s: string)
    | List(items: seq<Value>)
    | Dict(entries: map<string, Value>)
    | Num(n: int)
    | Bool(b: bool)
    | Null

  type Vars = map<string, Value>

  /** Whether the value for a key is merged into rather than replaced: both the existing and
      the incoming value are mappings. */
  predicate MergesInto(base: Vars, top: Vars, k: string)
  {
    k in base && k in top && base[k].Dict? && top[k].Dict?
  }

  /** Each key of `top` is laid over `base`: when both values are mappings the incoming entries
      update the existing mapping, otherwise the incoming value replaces it. This is the rule of
      `merge_variables` and of each file in `load_role_vars`. */
  function Overlay(base: Vars, top: Vars): (r: Vars)
    ensures r.Keys == base.Keys + top.Keys
    ensures forall k :: k in base && k !in top ==> r[k] == base[k]
    ensures forall k :: k in top && !MergesInto(base, top, k) ==> r[k] == top[k]
    ensures forall k :: MergesInto(base, top, k) ==>
              && r[k].Dict?
              && r[k].entries.Keys == base[k].entries.Keys + top[k].entries.Keys
              && (forall j :: j in top[k].entries ==> r[k].entries[j] == top[k].entries[j])
              && (forall j :: j in base[k].entries && j !in top[k].entries ==> r[k].entries[j] == base[k].entries[j])
  {
    map k | k in base.Keys + top.Keys ::
      if MergesInto(base, top, k) then Dict(base[k].entries + top[k].entries)
      else if k in top then top[k]
      else base[k]
  }

  /** `merge_variables(role_vars, inv_vars)`: a copy of the role variables, then the inventory
      variables laid over it key by key, as the source's loop does. */
  method MergeVariables(role: Vars, inv: Vars) returns (merged: Vars)
    ensures merged.Keys == role.Keys + inv.Keys
    ensures forall k :: k in role && k !in inv ==> merged[k] == role[k]
    ensures forall k :: k in inv && !MergesInto(role, inv, k) ==> merged[k] == inv[k]
    ensures forall k :: MergesInto(role, inv, k) ==> merged[k] == Dict(role[k].entries + inv[k].entries)
    ensures merged == Overlay(role, inv)
  {
    merged := role;
    var todo := inv.Keys;
    while todo != {}
      invariant todo <= inv.Keys
      invariant MergedUpTo(role, inv, inv.Keys - todo, merged)
      decreases todo
    {
      var k :| k in todo;
      MergeStep(role, inv, inv.Keys - todo, merged, k);
      if k in merged && merged[k].Dict? && inv[k].Dict? {
        merged := merged[k := Dict(merged[k].entries + inv[k].entries)];
      } else {
        merged := merged[k := inv[k]];
      }
      assert inv.Keys - (todo - {k}) == (inv.Keys - todo) + {k};
      todo := todo - {k};
    }
    assert inv.Keys - todo == inv.Keys;
    MergedAll(role, inv, merged);
  }

  /** `m` holds the role variables with the inventory keys in `done` laid over them. */
  ghost predicate MergedUpTo(role: Vars, inv: Vars, done: set<string>, m: Vars)
  {
    && done <= inv.Keys
    && m.Keys == role.Keys + done
    && (forall k :: k in role && k !in done ==> m[k] == role[k])
    && (forall k :: k in done && !MergesInto(role, inv, k) ==> m[k] == inv[k])
    && (forall k :: k in done && MergesInto(role, inv, k) ==> m[k] == Dict(role[k].entries + inv[k].entries))
  }

  /** Laying one more inventory key over a partial merge. */
  lemma MergeStep(role: Vars, inv: Vars, done: set<string>, m: Vars, k: string)
    requires done <= inv.Keys && k in inv && k !in done
    requires MergedUpTo(role, inv, done, m)
    ensures MergedUpTo(role, inv, done + {k},
              m[k := if k in m && m[k].Dict? && inv[k].Dict? then Dict(m[k].entries + inv[k].entries) else inv[k]])
  {
    assert (k in m && m[k].Dict? && inv[k].Dict?) == MergesInto(role, inv, k);
  }

  /** Once every inventory key is laid over, the partial merge is the overlay. */
  lemma MergedAll(role: Vars, inv: Vars, m: Vars)
    requires MergedUpTo(role, inv, inv.Keys, m)
    ensures m == Overlay(role, inv)
  {
    var o := Overlay(role, inv);
    assert m.Keys == o.Keys;
    forall k | k in m ensures m[k] == o[k] {
    }
  }


  /** Laying a mapping over itself changes nothing. */
  lemma OverlaySelf(m: Vars)
    ensures Overlay(m, m) == m
  {
    forall k | k in m ensures Overlay(m, m)[k] == m[k] {
      if m[k].Dict? {
        assert m[k].entries + m[k].entries == m[k].entries;
      }
    }
  }

  /** The empty mapping is neutral on both sides. */
  lemma OverlayEmpty(m: Vars)
    ensures Overlay(map[], m) == m && Overlay(m, map[]) == m
  {
  }

  /** The merge is shallow: it is not associative. A mapping laid over a scalar replaces it and
      is then merged with the next mapping, while merging the last two files first merges the
      mappings with the first file's mapping instead. */
  lemma OverlayNotAssociative()
    ensures var a := map["k" := Dict(map["x" := Num(1)])];
            var b := map["k" := Num(2)];
            var c := map["k" := Dict(map["y" := Num(3)])];
            Overlay(Overlay(a, b), c) != Overlay(a, Overlay(b, c))
  {
    var a := map["k" := Dict(map["x" := Num(1)])];
    var b := map["k" := Num(2)];
    var c := map["k" := Dict(map["y" := Num(3)])];
    assert Overlay(Overlay(a, b), c)["k"] == Dict(map["y" := Num(3)]);
    assert "x" in Overlay(a, Overlay(b, c))["k"].entries;
  }

  /** `load_role_vars`: the files of all roles, in the order they are read, each laid over the
      variables read so far. */
  function RoleVars(files: seq<Vars>): (r: Vars)
    ensures forall k :: k in r <==> exists i :: 0 <= i < |files| && k in files[i]
    decreases |files|
  {
    if files == [] then map[]
    else
      var init := files[..|files| - 1];
      var r := Overlay(RoleVars(init), files[|files| - 1]);
      assert forall i :: 0 <= i < |init| ==> init[i] == files[i];
      r
  }

  /** The files that define `k`, in order: only their values for `k` matter. */
  function Defining(files: seq<Vars>, k: string): (vs: seq<Value>)
    ensures |vs| <= |files|
    ensures vs == [] <==> forall i :: 0 <= i < |files| ==> k !in files[i]
    decreases |files|
  {
    if files == [] then []
    else
      var init := files[..|files| - 1];
      assert forall i :: 0 <= i < |init| ==> init[i] == files[i];
      Defining(init, k) + (if k in files[|files| - 1] then [files[|files| - 1][k]] else [])
  }

  /** The role variable `k` computed from its definitions alone: a non-mapping definition
      replaces what came before, and a mapping is merged into a mapping before it. */
  function MergeDefinitions(vs: seq<Value>): Value
    requires vs != []
    decreases |vs|
  {
    var last := vs[|vs| - 1];
    if |vs| == 1 then last
    else
      var prev := MergeDefinitions(vs[..|vs| - 1]);
      if prev.Dict? && last.Dict? then Dict(prev.entries + last.entries) else last
  }

  /** Each role variable is determined by the files that define it, in order. */
  lemma {:induction false} RoleVarsByKey(files: seq<Vars>, k: string)
    requires k in RoleVars(files)
    ensures Defining(files, k) != [] && RoleVars(files)[k] == MergeDefinitions(Defining(files, k))
    decreases |files|
  {
    var init := files[..|files| - 1];
    var last := files[|files| - 1];
    var before := RoleVars(init);
    var vs := Defining(files, k);
    if k in before {
      RoleVarsByKey(init, k);
      if k in last {
        assert vs[..|vs| - 1] == Defining(init, k);
        assert vs[|vs| - 1] == last[k];
      } else {
        assert vs == Defining(init, k);
      }
    } else {
      assert Defining(init, k) == [];
      assert vs == [last[k]];
    }
  }

  /** When the last file that defines a role variable gives it a value that is not a mapping,
      that value is the result, whatever came before. */
  lemma {:induction false} RoleVarsLastScalar(files: seq<Vars>, k: string, i: nat)
    requires i < |files| && k in files[i] && !files[i][k].Dict?
    requires forall j :: i < j < |files| ==> k !in files[j]
    ensures k in RoleVars(files) && RoleVars(files)[k] == files[i][k]
    decreases |files|
  {
    if i < |files| - 1 {
      var init := files[..|files| - 1];
      assert init[i] == files[i];
      RoleVarsLastScalar(init, k, i);
    }
  }

  /** `load_inventory_vars`: `merged.update(data)` for each file in order, a flat override with
      no nested merge. */
  function InventoryVars(files: seq<Vars>): (r: Vars)
    ensures forall k :: k in r <==> exists i :: 0 <= i < |files| && k in files[i]
    decreases |files|
  {
    if files == [] then map[]
    else
      var init := files[..|files| - 1];
      assert forall i :: 0 <= i < |init| ==> init[i] == files[i];
      InventoryVars(init) + files[|files| - 1]
  }

  /** An inventory variable is the value the last file that defines it gives it, mappings
      included: an earlier mapping is replaced, not merged. */
  lemma {:induction false} InventoryLastFileWins(files: seq<Vars>, k: string, i: nat)
    requires i < |files| && k in files[i]
    requires forall j :: i < j < |files| ==> k !in files[j]
    ensures k in InventoryVars(files) && InventoryVars(files)[k] == files[i][k]
    decreases |files|
  {
    if i < |files| - 1 {
      var init := files[..|files| - 1];
      assert init[i] == files[i];
      InventoryLastFileWins(init, k, i);
    }
  }

  /** The target variable of one file when it is a list, nothing otherwise. */
  function ListOf(file: Vars, target: string): seq<Value>
  {
    if target in file && file[target].List? then file[target].items else []
  }

  /** `consolidate_target_var`: the items of every list the files give the target variable,
      in file order; a value that is not a list is ignored. */
  function ConsolidateTargetVar(files: seq<Vars>, target: string): (r: seq<Value>)
    ensures forall x :: x in r ==> exists i :: 0 <= i < |files| && x in ListOf(files[i], target)
    decreases |files|
  {
    if files == [] then []
    else ListOf(files[0], target) + ConsolidateTargetVar(files[1..], target)
  }

  /** Consolidating two runs of files one after the other concatenates their lists. */
  lemma {:induction false} ConsolidateAppend(a: seq<Vars>, b: seq<Vars>, target: string)
    ensures ConsolidateTargetVar(a + b, target) == ConsolidateTargetVar(a, target) + ConsolidateTargetVar(b, target)
    decreases |a|
  {
    if a == [] {
      assert a + b == b;
    } else {
      assert (a + b)[1..] == a[1..] + b;
      ConsolidateAppend(a[1..], b, target);
    }
  }

  /** Every item of every list given to the target variable is in the result. */
  lemma {:induction false} ConsolidateComplete(files: seq<Vars>, target: string, i: nat, x: Value)
    requires i < |files| && x in ListOf(files[i], target)
    ensures x in ConsolidateTargetVar(files, target)
    decreases |files|
  {
    if i > 0 {
      ConsolidateComplete(files[1..], target, i - 1, x);
    }
  }

  /** Files whose target variable is missing or not a list contribute nothing. */
  lemma {:induction false} ConsolidateIgnoresNonLists(files: seq<Vars>, target: string)
    requires forall i :: 0 <= i < |files| ==> target !in files[i] || !files[i][target].List?
    ensures ConsolidateTargetVar(files, target) == []
    decreases |files|
  {
    if files != [] {
      ConsolidateIgnoresNonLists(files[1..], target);
    }
  }
}
