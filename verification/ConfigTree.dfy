/** Setting module config in place against merging overrides (crates/api/src/config.rs). */
module ConfigTree {
  import opened Wrappers

  /** A JSON value other than an object. */
  datatype Value = Null | Scalar(text: string)

  type Path = seq<string>

  /** A config tree: maps, and entries that may have an update callback. */
  datatype Tree =
    | Node(children: map<string, Tree>)
    | Leaf(value: Value, callback: Option<nat>)

  const EMPTY: Tree := Node(map[])

  /** `or_default`: a missing child is an empty map. */
  function Child(t: Tree, key: string): Tree
    requires t.Node?
  {
    if key in t.children then t.children[key] else EMPTY
  }

  /** The tree at a path, if there is one. */
  function At(t: Tree, path: Path): Option<Tree>
    decreases path
  {
    if path == [] then Some(t)
    else if t.Node? && path[0] in t.children then At(t.children[path[0]], path[1..])
    else None
  }

  function ValueAt(t: Tree, path: Path): Option<Value> {
    match At(t, path)
    case Some(Leaf(v, _)) => Some(v)
    case _ => None
  }

  function CallbackAt(t: Tree, path: Path): Option<nat> {
    match At(t, path)
    case Some(Leaf(_, cb)) => cb
    case _ => None
  }

  /** The values of a tree without its callbacks. */
  function Values(t: Tree): Tree {
    match t
    case Leaf(v, _) => Leaf(v, None)
    case Node(c) => Node(map k | k in c :: Values(c[k]))
  }

  /** Config that was just deserialized has no callbacks. */
  predicate Plain(t: Tree) {
    match t
    case Leaf(_, cb) => cb.None?
    case Node(c) => forall k :: k in c ==> Plain(c[k])
  }

  /** `merge_overrides`: new values are added, existing ones overwritten. */
  function Merge(t: Tree, over: Tree): Tree
    decreases over
  {
    if t.Node? && over.Node? then
      Node(map k | k in t.children.Keys + over.children.Keys ::
             if k !in over.children then t.children[k]
             else if k in t.children then Merge(t.children[k], over.children[k])
             else over.children[k])
    else over
  }

  /** No path puts a map over an entry or an entry over a non-empty map. */
  ghost predicate Compatible(t: Tree, new': Tree) {
    forall p: Path :: At(t, p).Some? && At(new', p).Some? ==> Fits(At(t, p).value, At(new', p).value)
  }

  predicate Fits(t: Tree, new': Tree) {
    if new'.Node? then t.Node? else t.Leaf? || t.children == map[]
  }

  // ---------------------------------------------------------------- setting in place

  /** The outcome of setting values: entries keep their callbacks. */
  function Overlay(t: Tree, new': Tree): Tree
    decreases new'
  {
    match new'
    case Leaf(v, cb) => if t.Leaf? then Leaf(v, t.callback) else new'
    case Node(c) =>
      if t.Node? then
        Node(map k | k in t.children.Keys + c.Keys :: if k in c then Overlay(Child(t, k), c[k]) else t.children[k])
      else new'
  }

  /** A callback to invoke, with the path of its entry and the new value. */
  datatype Update = Update(path: Path, callback: nat, value: Value)

  /** An update is due: the path leads to an entry with that callback, and to a new value. */
  predicate Due(t: Tree, new': Tree, u: Update) {
    CallbackAt(t, u.path) == Some(u.callback) && ValueAt(new', u.path) == Some(u.value)
  }

  predicate DistinctPaths(updates: seq<Update>) {
    forall i, j :: 0 <= i < j < |updates| ==> updates[i].path != updates[j].path
  }

  /** Exactly the due updates below the given keys, each once. */
  ghost predicate Collected(updates: seq<Update>, t: Tree, new': Tree, keys: set<string>) {
    && DistinctPaths(updates)
    && forall u: Update :: u in updates <==> (u.path != [] && u.path[0] in keys && Due(t, new', u))
  }

  function Under(key: string, updates: seq<Update>): seq<Update> {
    seq(|updates|, i requires 0 <= i < |updates| => updates[i].(path := [key] + updates[i].path))
  }

  lemma AtChild(t: Tree, key: string, path: Path)
    requires t.Node? && key in t.children
    ensures At(t, [key] + path) == At(t.children[key], path)
  {
    assert ([key] + path)[1..] == path;
  }

  /** The root and the children decide whether two trees are compatible. */
  lemma CompatibleByChild(t: Tree, new': Tree)
    ensures Compatible(t, new') <==>
            && Fits(t, new')
            && (t.Node? && new'.Node? ==>
                  forall k :: k in t.children && k in new'.children ==> Compatible(t.children[k], new'.children[k]))
  {
    if Compatible(t, new') {
      assert At(t, []).Some? && At(new', []).Some?;
      if t.Node? && new'.Node? {
        forall k, p: Path | k in t.children && k in new'.children &&
                            At(t.children[k], p).Some? && At(new'.children[k], p).Some?
          ensures Fits(At(t.children[k], p).value, At(new'.children[k], p).value)
        {
          AtChild(t, k, p);
          AtChild(new', k, p);
          assert At(t, [k] + p).Some? && At(new', [k] + p).Some?;
        }
      }
    }
    if Fits(t, new') &&
       (t.Node? && new'.Node? ==>
          forall k :: k in t.children && k in new'.children ==> Compatible(t.children[k], new'.children[k]))
    {
      forall p: Path | At(t, p).Some? && At(new', p).Some?
        ensures Fits(At(t, p).value, At(new', p).value)
      {
        if p != [] {
          assert Compatible(t.children[p[0]], new'.children[p[0]]);
        }
      }
    }
  }

  /** At some path a map meets an entry, or an entry meets a map that has something in it. */
  ghost predicate ClashAt(t: Tree, new': Tree, p: Path) {
    && At(t, p).Some? && At(new', p).Some?
    && var old', new'' := At(t, p).value, At(new', p).value;
    (old'.Leaf? && new''.Node?) || (old'.Node? && old'.children != map[] && new''.Leaf?)
  }

  /** Trees are compatible exactly when that happens nowhere. */
  lemma CompatibleIff(t: Tree, new': Tree)
    ensures Compatible(t, new') <==> forall p: Path :: !ClashAt(t, new', p)
  {
    forall p: Path
      ensures ClashAt(t, new', p) <==>
              At(t, p).Some? && At(new', p).Some? && !Fits(At(t, p).value, At(new', p).value)
    {
    }
    if Compatible(t, new') {
      forall p: Path
        ensures !ClashAt(t, new', p)
      {
        assert At(t, p).Some? && At(new', p).Some? ==> Fits(At(t, p).value, At(new', p).value);
      }
    } else {
      var p: Path :| At(t, p).Some? && At(new', p).Some? && !Fits(At(t, p).value, At(new', p).value);
      assert ClashAt(t, new', p);
    }
  }

  lemma EmptyIsCompatible(new': Tree)
    ensures Compatible(EMPTY, new')
  {
    forall p: Path | At(EMPTY, p).Some? && At(new', p).Some?
      ensures Fits(At(EMPTY, p).value, At(new', p).value)
    {
      assert p == [];
    }
  }

  /** `apply_map`, with the keys in whatever order. On failure the tree may be changed in part. */
  method ApplyMap(t: Tree, new': Tree) returns (ok: bool, t': Tree, updates: seq<Update>)
    ensures ok <==> Compatible(t, new')
    ensures ok ==> t' == Overlay(t, new')
    ensures ok ==> DistinctPaths(updates) && forall u: Update :: u in updates <==> Due(t, new', u)
    decreases new'
  {
    CompatibleByChild(t, new');
    t', updates := t, [];
    match new' {
      case Leaf(v, cb) =>
        if t.Node? {
          if t.children != map[] {
            return false, t', updates;
          }
          t' := new';
          NothingDueInEmpty(new');
          return true, t', updates;
        }
        t' := Leaf(v, t.callback);
        if t.callback.Some? {
          updates := [Update([], t.callback.value, v)];
        }
        LeafDue(t, new');
        return true, t', updates;
      case Node(c) =>
        if t.Leaf? {
          return false, t', updates;
        }
        forall k | k in c
          ensures k !in t.children ==> Compatible(Child(t, k), c[k])
        {
          EmptyIsCompatible(c[k]);
        }
        ok, t', updates := ApplyChildren(t, new');
        if ok {
          AllSet(t'.children, t, new');
          NodeDue(t, new');
        }
    }
  }

  /** The children of a map, with those at the given keys already set. */
  ghost predicate PartlySet(children: map<string, Tree>, t: Tree, new': Tree, done: set<string>)
    requires t.Node? && new'.Node?
  {
    && done <= new'.children.Keys
    && children.Keys == t.children.Keys + done
    && forall k :: k in children ==>
         children[k] == if k in done then Overlay(Child(t, k), new'.children[k]) else t.children[k]
  }

  lemma SetOneMore(children: map<string, Tree>, t: Tree, new': Tree, done: set<string>, key: string)
    requires t.Node? && new'.Node? && PartlySet(children, t, new', done) && key in new'.children
    ensures PartlySet(children[key := Overlay(Child(t, key), new'.children[key])], t, new', done + {key})
  {
  }

  lemma AllSet(children: map<string, Tree>, t: Tree, new': Tree)
    requires t.Node? && new'.Node? && PartlySet(children, t, new', new'.children.Keys)
    ensures Node(children) == Overlay(t, new')
  {
    var set' := Overlay(t, new').children;
    forall k
      ensures k in children <==> k in set'
      ensures k in children ==> children[k] == set'[k]
    {
    }
    assert children == set';
  }

  /** The loop of `apply_map` over the children. */
  method ApplyChildren(t: Tree, new': Tree) returns (ok: bool, t': Tree, updates: seq<Update>)
    requires t.Node? && new'.Node?
    ensures ok <==> forall k :: k in new'.children ==> Compatible(Child(t, k), new'.children[k])
    ensures ok ==> t'.Node? && PartlySet(t'.children, t, new', new'.children.Keys)
    ensures ok ==> Collected(updates, t, new', new'.children.Keys)
    decreases new', 0
  {
    var children := t.children;
    updates := [];
    ghost var all := new'.children.Keys;
    var rest := new'.children.Keys;
    while rest != {}
      invariant rest <= all
      invariant Progress(children, updates, t, new', all - rest)
      decreases |rest|
    {
      ghost var done := all - rest;
      var key :| key in rest;
      var child := if key in children then children[key] else EMPTY;
      ChildUntouched(children, t, new', done, key);
      var childOk, child', below := ApplyMap(child, new'.children[key]);
      if !childOk {
        return false, Node(children[key := child']), updates;
      }
      ProgressStep(children, updates, t, new', done, key, below);
      children := children[key := child'];
      updates := updates + Under(key, below);
      assert all - (rest - {key}) == done + {key};
      rest := rest - {key};
    }
    assert all - {} == all;
    return true, Node(children), updates;
  }

  /** What has been done when the children at the given keys are set. */
  ghost predicate Progress(children: map<string, Tree>, updates: seq<Update>, t: Tree, new': Tree, done: set<string>)
    requires t.Node? && new'.Node?
  {
    && PartlySet(children, t, new', done)
    && (forall k :: k in done ==> Compatible(Child(t, k), new'.children[k]))
    && Collected(updates, t, new', done)
  }

  lemma ChildUntouched(children: map<string, Tree>, t: Tree, new': Tree, done: set<string>, key: string)
    requires t.Node? && new'.Node? && PartlySet(children, t, new', done) && key !in done
    ensures (if key in children then children[key] else EMPTY) == Child(t, key)
  {
  }

  lemma ProgressStep(children: map<string, Tree>, updates: seq<Update>, t: Tree, new': Tree, done: set<string>,
                     key: string, below: seq<Update>)
    requires t.Node? && new'.Node? && key in new'.children && key !in done
    requires Progress(children, updates, t, new', done) && Compatible(Child(t, key), new'.children[key])
    requires DistinctPaths(below) && forall u: Update :: u in below <==> Due(Child(t, key), new'.children[key], u)
    ensures Progress(children[key := Overlay(Child(t, key), new'.children[key])], updates + Under(key, below),
                     t, new', done + {key})
  {
    SetOneMore(children, t, new', done, key);
    CollectChild(t, new', updates, done, key, below);
  }

  lemma CollectChild(t: Tree, new': Tree, updates: seq<Update>, done: set<string>, key: string, below: seq<Update>)
    requires t.Node? && new'.Node? && key in new'.children && key !in done
    requires Collected(updates, t, new', done)
    requires DistinctPaths(below) && forall u: Update :: u in below <==> Due(Child(t, key), new'.children[key], u)
    ensures Collected(updates + Under(key, below), t, new', done + {key})
  {
    var under := Under(key, below);
    forall u: Update
      ensures u in under <==> u.path != [] && u.path[0] == key && Due(t, new', u)
    {
      if u.path != [] && u.path[0] == key {
        var v := u.(path := u.path[1..]);
        assert u.path == [key] + v.path;
        DueChild(t, new', key, v);
        if v in below {
          var i :| 0 <= i < |below| && below[i] == v;
          assert under[i] == u;
        }
        if u in under {
          var i :| 0 <= i < |under| && under[i] == u;
          assert below[i].path == v.path by { assert ([key] + below[i].path)[1..] == below[i].path; }
          assert below[i] == v;
        }
      }
    }
    forall i, j | 0 <= i < j < |under|
      ensures under[i].path != under[j].path
    {
      assert under[i].path[1..] == below[i].path && under[j].path[1..] == below[j].path;
    }
    var all := updates + under;
    forall i, j | 0 <= i < j < |all|
      ensures all[i].path != all[j].path
    {
      if i < |updates| <= j {
        assert all[i] in updates && all[j] in under;
      } else if |updates| <= i {
        assert all[i] == under[i - |updates|] && all[j] == under[j - |updates|];
      }
    }
  }

  lemma DueChild(t: Tree, new': Tree, key: string, v: Update)
    requires t.Node? && new'.Node? && key in new'.children
    ensures Due(t, new', v.(path := [key] + v.path)) <==> Due(Child(t, key), new'.children[key], v)
  {
    AtChild(new', key, v.path);
    if key in t.children {
      AtChild(t, key, v.path);
    }
  }

  lemma NothingDueInEmpty(new': Tree)
    ensures forall u: Update :: !Due(EMPTY, new', u)
  {
  }

  lemma LeafDue(t: Tree, new': Tree)
    requires t.Leaf? && new'.Leaf?
    ensures forall u: Update ::
              Due(t, new', u) <==> u.path == [] && t.callback == Some(u.callback) && u.value == new'.value
  {
  }

  lemma NodeDue(t: Tree, new': Tree)
    requires t.Node? && new'.Node?
    ensures forall u: Update :: Due(t, new', u) ==> u.path != [] && u.path[0] in new'.children
  {
  }

  // ---------------------------------------------------------------- what setting in place amounts to

  lemma {:induction false} OverlayOnEmpty(new': Tree)
    ensures Overlay(EMPTY, new') == new'
  {
    if new'.Node? {
      forall k | k in new'.children
        ensures Overlay(EMPTY, new'.children[k]) == new'.children[k]
      {
        OverlayOnEmpty(new'.children[k]);
      }
    }
  }

  /** Setting config in place gives the values that merging it as overrides would give. */
  lemma {:induction false} SetIsMerge(t: Tree, new': Tree)
    requires Compatible(t, new')
    ensures Values(Overlay(t, new')) == Values(Merge(t, new'))
    decreases new'
  {
    CompatibleByChild(t, new');
    if new'.Node? {
      var x, y := Overlay(t, new'), Merge(t, new');
      assert x.Node? && y.Node? && x.children.Keys == y.children.Keys;
      forall k | k in x.children
        ensures Values(x.children[k]) == Values(y.children[k])
      {
        if k in new'.children && k in t.children {
          SetIsMerge(t.children[k], new'.children[k]);
        } else if k in new'.children {
          OverlayOnEmpty(new'.children[k]);
        }
      }
    }
  }

  /** Setting plain config changes exactly the values it names, and no callback anywhere. */
  lemma {:induction false} SetAt(t: Tree, new': Tree, path: Path)
    requires Compatible(t, new') && Plain(new')
    ensures CallbackAt(Overlay(t, new'), path) == CallbackAt(t, path)
    ensures ValueAt(Overlay(t, new'), path) ==
            if ValueAt(new', path).Some? then ValueAt(new', path) else ValueAt(t, path)
    decreases path
  {
    CompatibleByChild(t, new');
    if path != [] && new'.Node? && path[0] in new'.children {
      EmptyIsCompatible(new'.children[path[0]]);
      SetAt(Child(t, path[0]), new'.children[path[0]], path[1..]);
    }
  }

  class Config {
    var map': Tree

    constructor ()
      ensures map' == EMPTY
    {
      map' := EMPTY;
    }

    /** Sets module config. It succeeds exactly when the config is compatible; then its values are those
        of the deep merge, every callback is kept, and the callbacks returned for invocation are exactly
        those of the entries that were set, each with its new value. */
    method SetModuleConfig(config: Tree) returns (r: Result<seq<Update>>)
      requires Plain(config)
      modifies this`map'
      ensures r.Ok? <==> Compatible(old(map'), config)
      ensures r.Ok? ==> Values(map') == Values(Merge(old(map'), config))
      ensures r.Ok? ==> forall p: Path :: CallbackAt(map', p) == CallbackAt(old(map'), p)
      ensures r.Ok? ==> DistinctPaths(r.value) && forall u: Update :: u in r.value <==> Due(old(map'), config, u)
    {
      var ok, changed, updates := ApplyMap(map', config);
      if !ok {
        map' := changed;
        return Err;
      }
      SetIsMerge(map', config);
      forall p: Path
        ensures CallbackAt(changed, p) == CallbackAt(map', p)
      {
        SetAt(map', config, p);
      }
      map' := changed;
      return Ok(updates);
    }

    /** Merges overrides; unlike setting, this never fails and may drop callbacks. */
    method MergeConfigOverrides(overrides: Tree)
      modifies this`map'
      ensures map' == Merge(old(map'), overrides)
    {
      map' := MergeOverrides(map', overrides);
    }
  }

  /** `merge_overrides` as a loop over the overrides. */
  method MergeOverrides(t: Tree, over: Tree) returns (t': Tree)
    ensures t' == Merge(t, over)
    decreases over
  {
    if t.Leaf? || over.Leaf? {
      return over;
    }
    var children := t.children;
    var rest := over.children.Keys;
    while rest != {}
      invariant rest <= over.children.Keys
      invariant PartlyMerged(children, t, over, rest)
      decreases |rest|
    {
      var key :| key in rest;
      var child := over.children[key];
      if key in children {
        child := MergeOverrides(children[key], over.children[key]);
      }
      MergeOneMore(children, t, over, rest, key, child);
      children := children[key := child];
      rest := rest - {key};
    }
    AllMerged(children, t, over);
    t' := Node(children);
  }

  /** The children of a map, with all overrides but the remaining ones merged in. */
  ghost predicate PartlyMerged(children: map<string, Tree>, t: Tree, over: Tree, rest: set<string>)
    requires t.Node? && over.Node?
  {
    && (forall k :: k in children <==> k in t.children || (k in over.children && k !in rest))
    && (forall k :: k in children && (k !in over.children || k in rest) ==> children[k] == t.children[k])
    && (forall k :: k in over.children && k !in rest ==>
          children[k] == if k in t.children then Merge(t.children[k], over.children[k]) else over.children[k])
  }

  lemma MergeOneMore(children: map<string, Tree>, t: Tree, over: Tree, rest: set<string>, key: string, child: Tree)
    requires t.Node? && over.Node? && PartlyMerged(children, t, over, rest) && key in rest && key in over.children
    requires child == if key in t.children then Merge(t.children[key], over.children[key]) else over.children[key]
    ensures PartlyMerged(children[key := child], t, over, rest - {key})
  {
  }

  lemma AllMerged(children: map<string, Tree>, t: Tree, over: Tree)
    requires t.Node? && over.Node? && PartlyMerged(children, t, over, {})
    ensures Node(children) == Merge(t, over)
  {
    var merged := Merge(t, over).children;
    forall k
      ensures k in children <==> k in merged
      ensures k in children ==> children[k] == merged[k]
    {
    }
    assert children == merged;
  }

  // ---------------------------------------------------------------- what merging amounts to

  /** An entry stands on the way to a path. */
  predicate Shadowed(t: Tree, path: Path)
    decreases path
  {
    path != [] && (t.Leaf? || (path[0] in t.children && Shadowed(t.children[path[0]], path[1..])))
  }

  /** Merging, path by path and for any two trees, compatible or not: where the overrides have anything they
      decide, callback and all; where one of their entries stands on the way nothing is left; elsewhere the
      tree is as it was. */
  lemma {:induction false} MergeAt(t: Tree, over: Tree, path: Path)
    ensures At(over, path).Some? ==>
              && ValueAt(Merge(t, over), path) == ValueAt(over, path)
              && CallbackAt(Merge(t, over), path) == CallbackAt(over, path)
    ensures At(over, path).None? ==> At(Merge(t, over), path) == if Shadowed(over, path) then None else At(t, path)
    decreases path
  {
    if path != [] && t.Node? && over.Node? && path[0] in t.children && path[0] in over.children {
      MergeAt(t.children[path[0]], over.children[path[0]], path[1..]);
    }
  }

  lemma {:induction false} PlainAt(t: Tree, path: Path)
    requires Plain(t)
    ensures CallbackAt(t, path) == None
    decreases path
  {
    if path != [] && t.Node? && path[0] in t.children {
      PlainAt(t.children[path[0]], path[1..]);
    }
  }

  /** Unlike setting, merging plain overrides keeps the callback at a path if and only if the overrides have
      nothing there and no entry on the way. */
  lemma MergeKeepsCallbackIff(t: Tree, over: Tree, path: Path)
    requires Plain(over) && CallbackAt(t, path).Some?
    ensures CallbackAt(Merge(t, over), path) == CallbackAt(t, path) <==> At(over, path).None? && !Shadowed(over, path)
  {
    MergeAt(t, over, path);
    PlainAt(over, path);
  }
}
