/** Inheritance between event configurations (opsiclientd/Events/Utilities/Configs.py). */
module EventConfigs {
  import opened Common

  datatype Value = Text(text: string) | Items(items: seq<string>)

  type Args = map<string, Value>

  datatype RawConfig = RawConfig(active: bool, args: Args, super: Option<string>, precondition: Option<string>)
  {
    predicate HasSuper() {
      super.Some? && super.value != ""
    }
  }

  type RawConfigs = map<string, RawConfig>

  const GROUP_IDS := {"include_product_group_ids", "exclude_product_group_ids"}

  predicate Blank(key: string, value: Value) {
    key in GROUP_IDS && (value == Text("") || value == Items([]))
  }

  /** What a configuration with a super configuration gives: blank group ids behave like no value. */
  function Cleaned(args: Args): Args {
    map k | k in args && !Blank(k, args[k]) :: args[k]
  }

  // ----- what inheritance means -----

  /** The chain of super configurations from id ends after at most n steps. */
  predicate Rooted(raw: RawConfigs, id: string, n: nat)
    decreases n
  {
    id in raw && (raw[id].HasSuper() ==> n > 0 && Rooted(raw, raw[id].super.value, n - 1))
  }

  ghost predicate ReachesRoot(raw: RawConfigs, id: string) {
    exists n: nat :: Rooted(raw, id, n)
  }

  function Inherited(raw: RawConfigs, id: string, n: nat): Args
    requires Rooted(raw, id, n)
    decreases n
  {
    if raw[id].HasSuper() then Inherited(raw, raw[id].super.value, n - 1) + Cleaned(raw[id].args) else raw[id].args
  }

  lemma {:induction false} InheritedSame(raw: RawConfigs, id: string, n: nat, m: nat)
    requires Rooted(raw, id, n) && Rooted(raw, id, m)
    ensures Inherited(raw, id, n) == Inherited(raw, id, m)
    decreases n
  {
    if raw[id].HasSuper() {
      InheritedSame(raw, raw[id].super.value, n - 1, m - 1);
    }
  }

  ghost function Resolved(raw: RawConfigs, id: string): RawConfig
    requires ReachesRoot(raw, id)
  {
    var n: nat :| Rooted(raw, id, n);
    raw[id].(args := Inherited(raw, id, n))
  }

  lemma ResolvedRoot(raw: RawConfigs, id: string)
    requires id in raw && !raw[id].HasSuper()
    ensures ReachesRoot(raw, id) && Resolved(raw, id) == raw[id]
  {
    assert Rooted(raw, id, 0);
    var n: nat :| Rooted(raw, id, n) && Resolved(raw, id) == raw[id].(args := Inherited(raw, id, n));
  }

  lemma ResolvedSuper(raw: RawConfigs, id: string)
    requires id in raw && raw[id].HasSuper() && ReachesRoot(raw, raw[id].super.value)
    ensures ReachesRoot(raw, id)
    ensures Resolved(raw, id).args == Resolved(raw, raw[id].super.value).args + Cleaned(raw[id].args)
    ensures Resolved(raw, id) == raw[id].(args := Resolved(raw, id).args)
  {
    var n: nat :| Rooted(raw, raw[id].super.value, n);
    assert Rooted(raw, id, n + 1);
    var m := ResolvedBy(raw, id);
    assert m > 0 && Rooted(raw, raw[id].super.value, m - 1);
    var l := ResolvedBy(raw, raw[id].super.value);
    InheritedSame(raw, raw[id].super.value, m - 1, l);
  }

  lemma ResolvedBy(raw: RawConfigs, id: string) returns (n: nat)
    requires ReachesRoot(raw, id)
    ensures Rooted(raw, id, n) && Resolved(raw, id) == raw[id].(args := Inherited(raw, id, n))
  {
    n :| Rooted(raw, id, n) && Resolved(raw, id) == raw[id].(args := Inherited(raw, id, n));
  }

  /** The value that a configuration with a super configuration gives itself; blank group ids are none. */
  function OwnValue(c: RawConfig, key: string): Option<Value> {
    if key !in c.args then None
    else if (key == "include_product_group_ids" || key == "exclude_product_group_ids") &&
            (c.args[key] == Text("") || c.args[key] == Items([])) then None
    else Some(c.args[key])
  }

  function ValueOf(args: Args, key: string): Option<Value> {
    if key in args then Some(args[key]) else None
  }

  /** What becomes of one configuration: without a super name it is kept as it is; with one it is kept exactly if
      that super configuration is there and is kept, and each argument is its own or else that of the super one.
      Nothing but the arguments changes. */
  lemma InheritedFromSuper(raw: RawConfigs, id: string)
    requires id in raw
    ensures raw[id].super.None? || raw[id].super.value == "" ==> ReachesRoot(raw, id) && Resolved(raw, id) == raw[id]
    ensures raw[id].super.Some? && raw[id].super.value != "" ==>
              (ReachesRoot(raw, id) <==> raw[id].super.value in raw && ReachesRoot(raw, raw[id].super.value))
    ensures raw[id].super.Some? && raw[id].super.value != "" && ReachesRoot(raw, id) ==>
              && Resolved(raw, id) == raw[id].(args := Resolved(raw, id).args)
              && forall key :: ValueOf(Resolved(raw, id).args, key) ==
                               if OwnValue(raw[id], key).Some? then OwnValue(raw[id], key)
                               else ValueOf(Resolved(raw, raw[id].super.value).args, key)
  {
    if !raw[id].HasSuper() {
      ResolvedRoot(raw, id);
    } else {
      var up := raw[id].super.value;
      if ReachesRoot(raw, id) {
        var n: nat :| Rooted(raw, id, n);
        assert Rooted(raw, up, n - 1);
      }
      if ReachesRoot(raw, up) {
        ResolvedSuper(raw, id);
      }
    }
  }

  /** Configurations that only have supers among themselves reach no root. */
  lemma {:induction false} ClosedNeverRooted(raw: RawConfigs, ids: set<string>, id: string, n: nat)
    requires forall i :: i in ids && i in raw ==> raw[i].HasSuper() && raw[i].super.value in ids
    requires id in ids
    ensures !Rooted(raw, id, n)
    decreases n
  {
    if n > 0 && id in raw {
      ClosedNeverRooted(raw, ids, raw[id].super.value, n - 1);
    }
  }

  // ----- each argument comes from the nearest configuration that gives it -----

  function Ancestor(raw: RawConfigs, id: string, i: nat): Option<string>
    decreases i
  {
    if id !in raw then None
    else if i == 0 then Some(id)
    else if raw[id].HasSuper() then Ancestor(raw, raw[id].super.value, i - 1)
    else None
  }

  predicate Gives(raw: RawConfigs, id: string, key: string) {
    && id in raw && key in raw[id].args
    && (raw[id].HasSuper() && (key == "include_product_group_ids" || key == "exclude_product_group_ids") ==>
          raw[id].args[key] != Text("") && raw[id].args[key] != Items([]))
  }

  ghost predicate NearestGiver(raw: RawConfigs, id: string, i: nat, key: string) {
    && Ancestor(raw, id, i).Some? && Gives(raw, Ancestor(raw, id, i).value, key)
    && forall j: nat :: j < i && Ancestor(raw, id, j).Some? ==> !Gives(raw, Ancestor(raw, id, j).value, key)
  }

  lemma {:induction false} NearestWins(raw: RawConfigs, id: string, n: nat, i: nat, key: string)
    requires Rooted(raw, id, n) && NearestGiver(raw, id, i, key)
    ensures key in Inherited(raw, id, n)
    ensures Inherited(raw, id, n)[key] == raw[Ancestor(raw, id, i).value].args[key]
    decreases n
  {
    if i == 0 {
      assert Ancestor(raw, id, 0) == Some(id);
    } else {
      assert !Gives(raw, Ancestor(raw, id, 0).value, key);
      var up := raw[id].super.value;
      forall j: nat | j < i - 1 && Ancestor(raw, up, j).Some?
        ensures !Gives(raw, Ancestor(raw, up, j).value, key)
      {
        assert Ancestor(raw, id, j + 1) == Ancestor(raw, up, j);
      }
      NearestWins(raw, up, n - 1, i - 1, key);
    }
  }

  /** Arguments that no configuration in the chain gives are absent. */
  lemma {:induction false} OnlyGiven(raw: RawConfigs, id: string, n: nat, key: string) returns (i: nat)
    requires Rooted(raw, id, n) && key in Inherited(raw, id, n)
    ensures NearestGiver(raw, id, i, key)
    decreases n
  {
    if Gives(raw, id, key) {
      i := 0;
      assert Ancestor(raw, id, 0) == Some(id);
    } else {
      var up := raw[id].super.value;
      var k := OnlyGiven(raw, up, n - 1, key);
      i := k + 1;
      forall j: nat | j < i && Ancestor(raw, id, j).Some?
        ensures !Gives(raw, Ancestor(raw, id, j).value, key)
      {
        if j > 0 {
          assert Ancestor(raw, id, j) == Ancestor(raw, up, j - 1);
        }
      }
    }
  }

  // ----- the loop -----

  /** The state of the worklist: what is done is resolved, and what was thrown away reaches no root. */
  ghost predicate Progress(all: RawConfigs, raw: RawConfigs, done: RawConfigs) {
    && (forall id :: id in raw ==> id in all && raw[id] == all[id] && id !in done)
    && (forall id :: id in done ==> ReachesRoot(all, id) && done[id] == Resolved(all, id))
    && (forall id :: id in all && id !in raw && id !in done ==> !ReachesRoot(all, id))
  }

  /** The super configuration of id still waits, too. */
  predicate Waits(all: RawConfigs, raw: RawConfigs, id: string) {
    id in all && all[id].HasSuper() && all[id].super.value in raw
  }

  method KeysOf(raw: RawConfigs) returns (keys: seq<string>)
    ensures forall id :: id in keys <==> id in raw
    ensures forall i, j :: 0 <= i < j < |keys| ==> keys[i] != keys[j]
  {
    keys := [];
    var rest := raw.Keys;
    while rest != {}
      invariant forall id :: id in raw <==> id in rest || id in keys
      invariant forall id :: id in keys ==> id !in rest
      invariant forall i, j :: 0 <= i < j < |keys| ==> keys[i] != keys[j]
    {
      var id :| id in rest;
      keys := keys + [id];
      rest := rest - {id};
    }
  }

  /** The event configurations with inheritance applied. The order in which a pass visits the configurations
      does not matter. */
  method Inherit(all: RawConfigs) returns (configs: RawConfigs)
    ensures forall id :: id in configs <==> ReachesRoot(all, id)
    ensures forall id :: id in configs ==> configs[id] == Resolved(all, id)
  {
    var raw := all;
    configs := map[];
    while |raw| > 0
      invariant Progress(all, raw, configs)
      decreases |raw|
    {
      var numConfigs := |raw|;
      raw, configs := Pass(all, raw, configs);
      if numConfigs == |raw| {
        // Failed to process event inheritance
        NoneRooted(all, raw);
        break;
      }
    }
  }

  lemma NoneRooted(all: RawConfigs, raw: RawConfigs)
    requires forall id :: id in raw ==> Waits(all, raw, id)
    ensures forall id :: id in raw ==> !ReachesRoot(all, id)
  {
    forall id, n: nat | id in raw
      ensures !Rooted(all, id, n)
    {
      ClosedNeverRooted(all, raw.Keys, id, n);
    }
  }

  /** One pass over the configurations left. A pass that moves none has only configurations whose supers are
      left, too. */
  method Pass(ghost all: RawConfigs, raw: RawConfigs, done: RawConfigs) returns (raw': RawConfigs, done': RawConfigs)
    requires Progress(all, raw, done)
    ensures Progress(all, raw', done') && |raw'| <= |raw|
    ensures |raw'| == |raw| ==> forall id :: id in raw' ==> Waits(all, raw', id)
  {
    hide Progress, Waits;
    raw', done' := raw, done;
    var keys := KeysOf(raw);
    ghost var moved := false;
    for k := 0 to |keys|
      invariant Progress(all, raw', done')
      invariant forall i :: k <= i < |keys| ==> keys[i] in raw'
      invariant moved ==> |raw'| < |raw|
      invariant !moved ==> raw' == raw
      invariant !moved ==> forall i :: 0 <= i < k ==> Waits(all, raw, keys[i])
    {
      ghost var left := |raw'|;
      raw', done' := Visit(all, raw', done', keys[k]);
      moved := moved || |raw'| < left;
    }
  }

  /** One configuration: moved to the result, thrown away or left for a later pass. */
  method Visit(ghost all: RawConfigs, raw: RawConfigs, done: RawConfigs, id: string)
      returns (raw': RawConfigs, done': RawConfigs)
    requires Progress(all, raw, done) && id in raw
    ensures Progress(all, raw', done')
    ensures |raw'| <= |raw|
    ensures |raw'| == |raw| ==> raw' == raw && Waits(all, raw, id)
    ensures forall i :: i in raw && i != id ==> i in raw'
  {
    raw', done' := raw, done;
    assert |raw - {id}| < |raw| by {
      assert raw == (raw - {id})[id := raw[id]];
    }
    var config := raw[id];
    if config.HasSuper() {
      if config.super.value in done {
        var args := done[config.super.value].args + Cleaned(config.args);
        ResolvedSuper(all, id);
        done' := done[id := config.(args := args)];
        raw' := raw - {id};
      } else if config.super.value !in raw {
        // Super event not found
        NoSuper(all, id);
        raw' := raw - {id};
      }
    } else {
      ResolvedRoot(all, id);
      done' := done[id := config];
      raw' := raw - {id};
    }
  }

  lemma NoSuper(all: RawConfigs, id: string)
    requires id in all && all[id].HasSuper() && !ReachesRoot(all, all[id].super.value)
    ensures !ReachesRoot(all, id)
  {
    forall n: nat
      ensures !Rooted(all, id, n)
    {
      if n > 0 {
        assert !Rooted(all, all[id].super.value, n - 1);
      }
    }
  }
}
