/** Resolving the imports of a schema: a depth-first walk over files that merges every file reachable from
    the root, imported files first. Files are a finite map from canonical paths. */
module SchemaImports {
  import opened Prelude
  import opened SchemaLayouts

  type Path = string

  datatype Import = To(path: Path) | Unresolvable

  datatype File =
    | Unreadable
    | Malformed
    | Schema(name: string, imports: seq<Import>, content: Definition)

  type Files = map<Path, File>

  datatype LoadError = ImportCycle(at: Path) | NotReadable(at: Path) | NotParsed(at: Path) | NotResolved(at: Path) | NoRootName | NoRootMessages

  // ----- The import graph -----

  predicate IsSchema(files: Files, path: Path) {
    path in files && files[path].Schema?
  }

  predicate Imports(files: Files, a: Path, b: Path) {
    IsSchema(files, a) && To(b) in files[a].imports
  }

  predicate ImportsNext(files: Files, chain: seq<Path>, k: nat)
    requires k < |chain| - 1
  {
    Imports(files, chain[k], chain[k + 1])
  }

  predicate IsChain(files: Files, chain: seq<Path>) {
    forall k | 0 <= k < |chain| - 1 :: ImportsNext(files, chain, k)
  }

  ghost predicate Links(files: Files, chain: seq<Path>, a: Path, b: Path) {
    chain != [] && IsChain(files, chain) && chain[0] == a && chain[|chain| - 1] == b
  }

  ghost predicate Reachable(files: Files, a: Path, b: Path) {
    exists chain :: Links(files, chain, a, b)
  }

  /** Some file reachable from the root imports itself through others. */
  ghost predicate CyclicFrom(files: Files, root: Path) {
    exists path, chain :: |chain| >= 2 && Links(files, chain, path, path) && Reachable(files, root, path)
  }

  /** The file is a schema whose imports all have paths. */
  predicate Sound(files: Files, path: Path) {
    IsSchema(files, path) && forall i | i in files[path].imports :: i.To?
  }

  /** Nothing reachable from the root is in the way of loading. */
  ghost predicate Loadable(files: Files, root: Path) {
    !CyclicFrom(files, root) && forall path | Reachable(files, root, path) :: Sound(files, path)
  }

  lemma ChainGrows(files: Files, chain: seq<Path>, path: Path)
    requires IsChain(files, chain) && (chain != [] ==> Imports(files, chain[|chain| - 1], path))
    ensures IsChain(files, chain + [path])
  {
    var longer := chain + [path];
    forall k | 0 <= k < |longer| - 1
      ensures ImportsNext(files, longer, k)
    {
      assert k + 1 < |chain| ==> ImportsNext(files, chain, k);
    }
  }

  lemma ChainPart(files: Files, chain: seq<Path>, from: nat, to: nat)
    requires IsChain(files, chain) && from <= to <= |chain|
    ensures IsChain(files, chain[from..to])
  {
    var part := chain[from..to];
    forall k | 0 <= k < |part| - 1
      ensures ImportsNext(files, part, k)
    {
      assert ImportsNext(files, chain, from + k);
    }
  }

  /** Everything on a chain is reachable from its start. */
  lemma OnChain(files: Files, chain: seq<Path>, k: nat)
    requires IsChain(files, chain) && k < |chain|
    ensures Reachable(files, chain[0], chain[k])
  {
    ChainPart(files, chain, 0, k + 1);
    assert Links(files, chain[..k + 1], chain[0], chain[k]);
  }

  /** What is imported by the end of a chain is reachable from its start. */
  lemma OneFurther(files: Files, chain: seq<Path>, path: Path)
    requires IsChain(files, chain) && chain != [] && Imports(files, chain[|chain| - 1], path)
    ensures Reachable(files, chain[0], path)
  {
    ChainGrows(files, chain, path);
    assert Links(files, chain + [path], chain[0], path);
  }

  /** A chain that meets a file it has passed closes a cycle. */
  lemma ChainCloses(files: Files, chain: seq<Path>, path: Path)
    requires IsChain(files, chain) && path in chain && Imports(files, chain[|chain| - 1], path)
    ensures CyclicFrom(files, chain[0])
  {
    var k :| 0 <= k < |chain| && chain[k] == path;
    OnChain(files, chain, k);
    ChainPart(files, chain, k, |chain|);
    var cycle := chain[k..|chain|] + [path];
    ChainGrows(files, chain[k..|chain|], path);
    assert |cycle| >= 2 && Links(files, cycle, path, path);
  }

  // ----- Orders -----

  /** File `k` of an order is a schema that imports only files before it. */
  predicate ImportsBefore(files: Files, order: seq<Path>, k: nat)
    requires k < |order|
  {
    Sound(files, order[k]) && forall i | i in files[order[k]].imports :: i.path in order[..k]
  }

  /** Each file once, and what it imports before it. */
  predicate IsOrder(files: Files, order: seq<Path>) {
    && (forall i, j | 0 <= i < j < |order| :: order[i] != order[j])
    && (forall k | 0 <= k < |order| :: ImportsBefore(files, order, k))
  }

  lemma OrderGrows(files: Files, order: seq<Path>, path: Path)
    requires IsOrder(files, order) && path !in order && Sound(files, path)
    requires forall i | i in files[path].imports :: i.path in order
    ensures IsOrder(files, order + [path])
  {
    var longer := order + [path];
    forall k | 0 <= k < |longer|
      ensures ImportsBefore(files, longer, k)
    {
      assert longer[..k] == order[..k];
      assert k < |order| ==> ImportsBefore(files, order, k);
      assert order[..|order|] == order;
    }
  }

  lemma ImportDescends(files: Files, order: seq<Path>, a: nat, b: Path) returns (j: nat)
    requires IsOrder(files, order) && a < |order| && Imports(files, order[a], b)
    ensures j < a && order[j] == b
  {
    assert ImportsBefore(files, order, a) && To(b) in files[order[a]].imports;
    j :| 0 <= j < a && order[..a][j] == b;
  }

  /** Along a chain the positions in an order go down. */
  lemma {:induction false} ChainDescends(files: Files, order: seq<Path>, chain: seq<Path>, k: nat, a: nat) returns (j: nat)
    requires IsOrder(files, order) && IsChain(files, chain) && k < |chain| && a < |order| && order[a] == chain[0]
    ensures j <= a && order[j] == chain[k] && (k > 0 ==> j < a)
    decreases k
  {
    if k == 0 {
      j := a;
    } else {
      var before := ChainDescends(files, order, chain, k - 1, a);
      assert ImportsNext(files, chain, k - 1);
      j := ImportDescends(files, order, before, chain[k]);
    }
  }

  /** An order that holds the root holds everything reachable from it. */
  lemma OrderHoldsReachable(files: Files, order: seq<Path>, root: Path, path: Path)
    requires IsOrder(files, order) && root in order && Reachable(files, root, path)
    ensures path in order && Sound(files, path)
  {
    var a :| 0 <= a < |order| && order[a] == root;
    var chain :| Links(files, chain, root, path);
    var j := ChainDescends(files, order, chain, |chain| - 1, a);
    assert ImportsBefore(files, order, j);
  }

  /** There is an order only if nothing reachable from the root imports itself. */
  lemma OrderIsAcyclic(files: Files, order: seq<Path>, root: Path)
    requires IsOrder(files, order) && root in order
    ensures Loadable(files, root)
  {
    forall path, chain | |chain| >= 2 && Links(files, chain, path, path) && Reachable(files, root, path)
      ensures false
    {
      OrderHoldsReachable(files, order, root, path);
      var a :| 0 <= a < |order| && order[a] == path;
      var j := ChainDescends(files, order, chain, |chain| - 1, a);
      assert false;
    }
    forall path | Reachable(files, root, path)
      ensures Sound(files, path)
    {
      OrderHoldsReachable(files, order, root, path);
    }
  }

  // ----- Merging -----

  function Joined(a: Definition, b: Definition): Definition {
    Definition(a.enums + b.enums, a.structs + b.structs, a.messages + b.messages)
  }

  /** The contents of the files in the given order. */
  function Merged(files: Files, order: seq<Path>): Definition {
    if order == [] then Definition([], [], [])
    else
      var before := Merged(files, order[..|order| - 1]);
      var last := order[|order| - 1];
      if IsSchema(files, last) then Joined(before, files[last].content) else before
  }

  // ----- The resolver -----

  datatype VisitState = Visiting | Done

  /** The path of every definition, under its index. */
  ghost predicate Filed(files: Files, definitions: seq<Definition>, paths: seq<Path>, indices: map<Path, nat>) {
    && |definitions| == |paths|
    && (forall k | 0 <= k < |paths| :: IsSchema(files, paths[k]) && definitions[k] == files[paths[k]].content)
    && (forall p | p in indices :: indices[p] < |paths| && paths[indices[p]] == p)
  }

  /** The files finished so far in their order, and the files on the way. */
  ghost predicate Walked(files: Files, root: Path, states: map<Path, VisitState>, order: seq<Path>, stack: seq<Path>) {
    && IsOrder(files, order) && IsChain(files, stack) && (stack != [] ==> stack[0] == root)
    && (forall p :: p in states && states[p].Done? <==> p in order)
    && (forall p :: p in states && states[p].Visiting? <==> p in stack)
    && (forall p | p in order :: Reachable(files, root, p))
  }

  ghost predicate Listed(paths: seq<Path>, postorder: seq<nat>, order: seq<Path>) {
    |postorder| == |order| && forall k | 0 <= k < |order| :: postorder[k] < |paths| && paths[postorder[k]] == order[k]
  }

  /** What an error says is in the way. */
  ghost predicate Explained(files: Files, root: Path, e: LoadError) {
    match e
    case ImportCycle(_) => CyclicFrom(files, root)
    case NotReadable(p) => Reachable(files, root, p) && (p !in files || files[p].Unreadable?)
    case NotParsed(p) => Reachable(files, root, p) && p in files && files[p].Malformed?
    case NotResolved(p) => Reachable(files, root, p) && IsSchema(files, p) && Unresolvable in files[p].imports
    case _ => false
  }

  lemma ExplainedIsNotLoadable(files: Files, root: Path, e: LoadError)
    requires Explained(files, root, e)
    ensures !Loadable(files, root)
  {
    if e.NotResolved? {
      assert Unresolvable in files[e.at].imports;
    }
  }

  /** The first `n` imports are in the order. */
  predicate LoadedSoFar(imports: seq<Import>, n: nat, order: seq<Path>) {
    n <= |imports| && forall j | 0 <= j < n :: imports[j].To? && imports[j].path in order
  }

  lemma StaysLoaded(imports: seq<Import>, n: nat, order: seq<Path>, longer: seq<Path>)
    requires LoadedSoFar(imports, n, order) && order <= longer
    ensures LoadedSoFar(imports, n, longer)
  {
    forall j | 0 <= j < n
      ensures imports[j].To? && imports[j].path in longer
    {
      assert imports[j].path in order && order == longer[..|order|];
    }
  }

  lemma PrefixOfPrefix(a: seq<Path>, b: seq<Path>, c: seq<Path>)
    requires a <= b <= c
    ensures a <= c
  {}

  lemma VisitOne(files: Files, root: Path, states: map<Path, VisitState>, order: seq<Path>, stack: seq<Path>, path: Path)
    requires Walked(files, root, states, order, stack) && path !in states
    requires if stack == [] then path == root else Imports(files, stack[|stack| - 1], path)
    ensures Walked(files, root, states[path := Visiting], order, stack + [path])
  {
    ChainGrows(files, stack, path);
  }

  lemma FinishOne(files: Files, root: Path, states: map<Path, VisitState>, order: seq<Path>, stack: seq<Path>, path: Path)
    requires Walked(files, root, states, order, stack + [path]) && path !in stack && Sound(files, path)
    requires forall i | i in files[path].imports :: i.path in order
    ensures Walked(files, root, states[path := Done], order + [path], stack)
  {
    var longer := stack + [path];
    assert path in longer && states[path].Visiting?;
    OrderGrows(files, order, path);
    OnChain(files, longer, |stack|);
    ChainPart(files, longer, 0, |stack|);
    assert longer[0..|stack|] == stack;
  }

  class SchemaImportResolver {
    const files: Files
    ghost const root: Path
    var definitions: seq<Definition>
    var paths: seq<Path>
    var postorder: seq<nat>
    var states: map<Path, VisitState>
    var indices: map<Path, nat>
    ghost var order: seq<Path>
    ghost var stack: seq<Path>

    ghost predicate Valid()
      reads this
    {
      && Filed(files, definitions, paths, indices)
      && Walked(files, root, states, order, stack)
      && Listed(paths, postorder, order)
      && states.Keys == indices.Keys && states.Keys <= files.Keys
    }

    constructor (files: Files, root: Path)
      ensures Valid() && this.files == files && this.root == root && stack == [] && order == []
    {
      this.files, this.root := files, root;
      definitions, paths, postorder, states, indices := [], [], [], map[], map[];
      order, stack := [], [];
    }

    /** The file may be visited next: it is the root, or the file on the way imports it. */
    ghost predicate ComesNext(path: Path)
      reads this
    {
      if stack == [] then path == root else Imports(files, stack[|stack| - 1], path)
    }

    /** The readable files not visited yet. */
    ghost function Unvisited(): set<Path>
      reads this
    {
      files.Keys - states.Keys
    }

    /** Files finished and filed before are still so, and the way here is as it was. */
    ghost predicate Kept(done: seq<Path>, filed: seq<Path>, way: seq<Path>, unvisited: set<Path>)
      reads this
    {
      done <= order && filed <= paths && stack == way && Unvisited() <= unvisited
    }

    lemma NextIsReachable(path: Path)
      requires Valid() && ComesNext(path)
      ensures Reachable(files, root, path)
    {
      if stack == [] {
        assert Links(files, [root], root, root);
      } else {
        OneFurther(files, stack, path);
      }
    }

    /** Loads a file after the files it imports. */
    method LoadRecursive(path: Path) returns (r: Result<nat, LoadError>)
      requires Valid() && ComesNext(path)
      modifies this
      ensures r.Ok? ==> Valid() && path in order && r.value < |paths| && paths[r.value] == path
      ensures r.Ok? ==> Kept(old(order), old(paths), old(stack), old(Unvisited()))
      ensures r.Err? ==> Explained(files, root, r.error)
      decreases Unvisited(), 1
    {
      NextIsReachable(path);
      if path in states {
        if states[path].Visiting? {
          ChainCloses(files, stack, path);
          return Err(ImportCycle(path));
        }
        return Ok(indices[path]);
      }
      if path !in files || files[path].Unreadable? {
        return Err(NotReadable(path));
      }
      if files[path].Malformed? {
        return Err(NotParsed(path));
      }
      ghost var done, filed, way, unvisited := order, paths, stack, Unvisited();
      var index := Enter(path);
      var problem := LoadImports(path);
      if problem.Some? {
        return Err(problem.value);
      }
      Leave(path, index, done, filed, way, unvisited);
      return Ok(index);
    }

    /** Files the definition and marks the file as being visited. */
    method Enter(path: Path) returns (index: nat)
      requires Valid() && ComesNext(path) && path !in states && IsSchema(files, path)
      modifies this
      ensures Valid() && stack == old(stack) + [path] && path !in old(stack) && order == old(order)
      ensures paths == old(paths) + [path] && index == |old(paths)| && Unvisited() < old(Unvisited())
    {
      index := |definitions|;
      VisitOne(files, root, states, order, stack, path);
      indices := indices[path := |definitions|];
      definitions := definitions + [files[path].content];
      paths := paths + [path];
      states := states[path := Visiting];
      stack := stack + [path];
    }

    /** Loads the imports of the file on the way, in turn. */
    method LoadImports(path: Path) returns (problem: Option<LoadError>)
      requires Valid() && stack != [] && stack[|stack| - 1] == path && IsSchema(files, path)
      modifies this
      ensures problem.None? ==> Valid() && Kept(old(order), old(paths), old(stack), old(Unvisited())) && Sound(files, path)
      ensures problem.None? ==> forall i | i in files[path].imports :: i.path in order
      ensures problem.Some? ==> Explained(files, root, problem.value)
      decreases Unvisited(), 4
    {
      var imports := files[path].imports;
      ghost var done, filed, way, unvisited := order, paths, stack, Unvisited();
      for k := 0 to |imports|
        invariant Loading(path, k, done, filed, way, unvisited)
      {
        problem := LoadNext(path, k, done, filed, way, unvisited);
        if problem.Some? {
          return;
        }
      }
      return None;
    }

    /** The first `n` imports of the file on the way are loaded. */
    ghost predicate Loading(path: Path, n: nat, done: seq<Path>, filed: seq<Path>, way: seq<Path>, unvisited: set<Path>)
      reads this
    {
      && Valid() && stack != [] && stack[|stack| - 1] == path && IsSchema(files, path)
      && LoadedSoFar(files[path].imports, n, order) && Kept(done, filed, way, unvisited)
    }

    /** Loads the next import; what was known before still is. */
    method LoadNext(path: Path, k: nat, ghost done: seq<Path>, ghost filed: seq<Path>, ghost way: seq<Path>, ghost unvisited: set<Path>)
      returns (problem: Option<LoadError>)
      requires Loading(path, k, done, filed, way, unvisited) && k < |files[path].imports|
      modifies this
      ensures problem.None? ==> Loading(path, k + 1, done, filed, way, unvisited)
      ensures problem.Some? ==> Explained(files, root, problem.value)
      decreases Unvisited(), 3
    {
      ghost var order0, paths0, unvisited0 := order, paths, Unvisited();
      var i := files[path].imports[k];
      problem := LoadImport(path, i);
      if problem.None? {
        StaysLoaded(files[path].imports, k, order0, order);
        PrefixOfPrefix(done, order0, order);
        PrefixOfPrefix(filed, paths0, paths);
      }
    }

    /** Loads one import of the file on the way. */
    method LoadImport(path: Path, i: Import) returns (problem: Option<LoadError>)
      requires Valid() && stack != [] && stack[|stack| - 1] == path && IsSchema(files, path) && i in files[path].imports
      modifies this
      ensures problem.None? ==> Valid() && Kept(old(order), old(paths), old(stack), old(Unvisited())) && i.To? && i.path in order
      ensures problem.Some? ==> Explained(files, root, problem.value)
      decreases Unvisited(), 2
    {
      if i.Unresolvable? {
        OnChain(files, stack, |stack| - 1);
        return Some(NotResolved(path));
      }
      var loaded := LoadRecursive(i.path);
      if loaded.Err? {
        return Some(loaded.error);
      }
      return None;
    }

    /** Marks the file as done and puts it behind the files finished before. */
    method Leave(path: Path, index: nat, ghost done: seq<Path>, ghost filed: seq<Path>, ghost way: seq<Path>, ghost unvisited: set<Path>)
      requires Valid() && stack == way + [path] && path !in way && Sound(files, path) && index < |paths| && paths[index] == path
      requires forall i | i in files[path].imports :: i.path in order
      requires Kept(done, filed, way + [path], unvisited)
      modifies this
      ensures Valid() && path in order && Kept(done, filed, way, unvisited) && paths == old(paths)
    {
      assert path in stack;
      FinishOne(files, root, states, order, way, path);
      states := states[path := Done];
      postorder := postorder + [index];
      order := order + [path];
      stack := way;
    }

    /** Joins the contents of the files in the order in which they were finished. */
    method Merge() returns (merged: Definition)
      requires Valid()
      ensures merged == Merged(files, order)
    {
      merged := Definition([], [], []);
      for k := 0 to |postorder|
        invariant merged == Merged(files, order[..k])
      {
        assert order[..k + 1][..k] == order[..k] && postorder[k] < |paths| && paths[postorder[k]] == order[k];
        merged := Joined(merged, definitions[postorder[k]]);
      }
      assert order[..|postorder|] == order;
    }
  }

  /** Loads the root and merges everything reachable from it: `order` holds each reachable file once, what it
      imports before it. It fails exactly when something reachable is in the way or the root is incomplete. */
  method Resolve(files: Files, root: Path) returns (r: Result<(string, Definition), LoadError>, ghost order: seq<Path>)
    ensures r.Ok? ==> IsOrder(files, order) && forall path :: path in order <==> Reachable(files, root, path)
    ensures r.Ok? ==> r.value.1 == Merged(files, order) && IsSchema(files, root) && r.value.0 == files[root].name
    ensures r.Ok? <==> Loadable(files, root) && IsSchema(files, root) && files[root].name != "" && files[root].content.messages != []
  {
    var resolver := new SchemaImportResolver(files, root);
    var loaded := resolver.LoadRecursive(root);
    order := resolver.order;
    if loaded.Err? {
      ExplainedIsNotLoadable(files, root, loaded.error);
      return Err(loaded.error), order;
    }
    OrderIsAcyclic(files, order, root);
    forall path | Reachable(files, root, path)
      ensures path in order
    {
      OrderHoldsReachable(files, order, root, path);
    }
    if files[root].name == "" {
      return Err(NoRootName), order;
    }
    if files[root].content.messages == [] {
      return Err(NoRootMessages), order;
    }
    var merged := resolver.Merge();
    return Ok((files[root].name, merged)), order;
  }
}
