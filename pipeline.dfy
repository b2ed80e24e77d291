/** The part of marisco's `Transformer` that the handler callbacks see: the
    shared, mutable dictionary `dfs` of group tables and the log. */
module Pipeline {
  import opened Values
  import opened Tables

  class Transformer {
    var dfs: map<string, Table>
    var logs: seq<string>

    ghost predicate Valid()
      reads this
    {
      forall g :: g in dfs ==> Tables.Valid(dfs[g])
    }

    constructor (dfs: map<string, Table>)
      ensures this.dfs == dfs && logs == []
    {
      this.dfs := dfs;
      logs := [];
    }
  }

  /** Every group's table, rewritten by `f` (which may look at the group name). */
  function MapGroupsSpec(dfs: map<string, Table>, f: (string, Table) --> Table): (r: map<string, Table>)
    requires forall g :: g in dfs ==> f.requires(g, dfs[g])
    ensures r.Keys == dfs.Keys
  {
    map g | g in dfs :: f(g, dfs[g])
  }

  /** `for grp in tfm.dfs.keys(): tfm.dfs[grp] = f(grp, tfm.dfs[grp])`, the loop
      each callback runs. */
  method MapGroups(tfm: Transformer, f: (string, Table) --> Table)
    requires forall g :: g in tfm.dfs ==> f.requires(g, tfm.dfs[g])
    modifies tfm`dfs
    ensures tfm.dfs == MapGroupsSpec(old(tfm.dfs), f)
  {
    ghost var d0 := tfm.dfs;
    var todo := tfm.dfs.Keys;
    while todo != {}
      invariant todo <= d0.Keys == tfm.dfs.Keys
      invariant forall g :: g in d0 && g !in todo ==> tfm.dfs[g] == f(g, d0[g])
      invariant forall g :: g in todo ==> tfm.dfs[g] == d0[g]
      decreases todo
    {
      var g :| g in todo;
      tfm.dfs := tfm.dfs[g := f(g, tfm.dfs[g])];
      todo := todo - {g};
    }
  }
}
