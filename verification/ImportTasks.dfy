/** Static imports: a task that imports a file is replaced by the tasks of that file, which
    inherit its variables and conditions. */
module ImportTasks {
  import opened Values

  const MAX_IMPORT_DEPTH := 50

  /** `body` stands for everything a task does that imports do not look at. */
  datatype Task = Task(name: string, body: nat, vars: Vars, when: seq<string>, file: Option<string>)

  /** The outside world: template rendering, path resolution and the task files. */
  datatype World = World(
    render: string -> Option<string>,
    resolve: (string, string) -> Option<string>,
    dirOf: string -> string,
    load: string -> Option<seq<Task>>)

  datatype ImportError =
    | TooDeep(chain: seq<string>)
    | FileRequired(task: string)
    | RenderFailed(file: string)
    | ResolveFailed(file: string)
    | Circular(chain: seq<string>, path: string)
    | LoadFailed(path: string)

  // ----- What an expansion means

  /** The files a task list stands for: each importing task with the trees of its file. */
  datatype Tree =
    | Leaf(task: Task)
    | Node(task: Task, path: string, children: seq<Tree>)

  /** The path an importing task refers to, if it can be worked out. */
  function Target(world: World, task: Task, baseDir: string): Option<string> {
    if task.file.None? || task.file.value == "" then None
    else
      match world.render(task.file.value)
      case None => None
      case Some(file) => world.resolve(baseDir, file)
  }

  /** The file an importing task names is rendered first, and is then a path that starts from the
      directory of the importing file. */
  lemma TargetMeans(world: World, task: Task, baseDir: string, path: string)
    ensures Target(world, task, baseDir) == Some(path) <==>
      && task.file.Some? && task.file.value != ""
      && exists file :: world.render(task.file.value) == Some(file) && world.resolve(baseDir, file) == Some(path)
  {
  }

  ghost predicate Grows(world: World, task: Task, baseDir: string, stack: seq<string>, tree: Tree)
    decreases tree, 0
  {
    && tree.task == task
    && (tree.Leaf? <==> task.file.None?)
    && (tree.Node? ==>
          && Target(world, task, baseDir) == Some(tree.path) && tree.path !in stack
          && world.load(tree.path).Some?
          && GrowsAll(world, world.load(tree.path).value, world.dirOf(tree.path), stack + [tree.path], tree.children))
  }

  /** The forest of a task list that is reached through the files `stack`. */
  ghost predicate GrowsAll(world: World, tasks: seq<Task>, baseDir: string, stack: seq<string>, forest: seq<Tree>)
    decreases forest, 1
  {
    && |stack| <= MAX_IMPORT_DEPTH && |forest| == |tasks|
    && forall i :: 0 <= i < |tasks| ==> Grows(world, tasks[i], baseDir, stack, forest[i])
  }

  /** Some task of the list imports the file `path`. */
  ghost predicate Imports(world: World, tasks: seq<Task>, baseDir: string, path: string) {
    exists t <- tasks :: Target(world, t, baseDir) == Some(path)
  }

  /** A task list and the directory its paths start from. */
  datatype Place = Place(tasks: seq<Task>, baseDir: string)

  /** Each file of the chain is imported by the one before it, the first by the task list itself,
      and can be loaded; the chain leads to `place`. */
  ghost predicate LeadsTo(world: World, tasks: seq<Task>, baseDir: string, chain: seq<string>, place: Place)
    decreases |chain|
  {
    if chain == [] then place == Place(tasks, baseDir)
    else
      && Imports(world, tasks, baseDir, chain[0]) && world.load(chain[0]).Some?
      && LeadsTo(world, world.load(chain[0]).value, world.dirOf(chain[0]), chain[1..], place)
  }

  ghost predicate Distinct(s: seq<string>) {
    forall i, j :: 0 <= i < j < |s| ==> s[i] != s[j]
  }

  /** What the error says is true at the end `place` of the chain `files`. */
  ghost predicate TrueAt(world: World, place: Place, files: seq<string>, error: ImportError) {
    match error
    case TooDeep(chain) => chain == files && |chain| == 51
    case FileRequired(name) => exists t <- place.tasks :: t.name == name && t.file == Some("")
    case RenderFailed(file) => (exists t <- place.tasks :: t.file == Some(file)) && world.render(file).None?
    case ResolveFailed(rendered) =>
      (exists t <- place.tasks :: t.file.Some? && world.render(t.file.value) == Some(rendered))
      && world.resolve(place.baseDir, rendered).None?
    case Circular(chain, path) =>
      chain == files && path in chain && Imports(world, place.tasks, place.baseDir, path)
    case LoadFailed(path) => Imports(world, place.tasks, place.baseDir, path) && world.load(path).None?
  }

  /** From a task list reached through the different files `stack`, imports lead on through
      different files to a place where the error is found. */
  ghost predicate TrueReport(world: World, tasks: seq<Task>, baseDir: string, stack: seq<string>, error: ImportError) {
    exists chain, place :: LeadsTo(world, tasks, baseDir, chain, place)
      && (Distinct(stack) ==> Distinct(stack + chain)) && TrueAt(world, place, stack + chain, error)
  }

  lemma ReportHere(world: World, tasks: seq<Task>, baseDir: string, stack: seq<string>, error: ImportError)
    requires TrueAt(world, Place(tasks, baseDir), stack, error)
    ensures TrueReport(world, tasks, baseDir, stack, error)
  {
    hide TrueAt;
    assert stack + [] == stack;
    assert LeadsTo(world, tasks, baseDir, [], Place(tasks, baseDir));
  }

  lemma ReportBelow(world: World, tasks: seq<Task>, baseDir: string, stack: seq<string>, path: string,
                    error: ImportError)
    requires Imports(world, tasks, baseDir, path) && world.load(path).Some? && path !in stack
    requires TrueReport(world, world.load(path).value, world.dirOf(path), stack + [path], error)
    ensures TrueReport(world, tasks, baseDir, stack, error)
  {
    hide TrueAt, Imports;
    var chain, place :| LeadsTo(world, world.load(path).value, world.dirOf(path), chain, place)
      && (Distinct(stack + [path]) ==> Distinct(stack + [path] + chain))
      && TrueAt(world, place, stack + [path] + chain, error);
    var longer := [path] + chain;
    assert longer[0] == path && longer[1..] == chain;
    assert stack + [path] + chain == stack + longer;
    assert LeadsTo(world, tasks, baseDir, longer, place);
  }

  /** A task with what it inherits: inner variables win, outer conditions come first. */
  function Inherit(task: Task, vars: Vars, when: seq<string>): Task {
    task.(vars := vars + task.vars, when := when + task.when)
  }

  function InheritAll(tasks: seq<Task>, vars: Vars, when: seq<string>): (r: seq<Task>)
    ensures |r| == |tasks| && forall i :: 0 <= i < |r| ==> r[i] == Inherit(tasks[i], vars, when)
  {
    seq(|tasks|, i requires 0 <= i < |tasks| => Inherit(tasks[i], vars, when))
  }

  /** The leaves of a tree from left to right, each with what it inherits along the way. */
  function Flatten(tree: Tree, vars: Vars, when: seq<string>): seq<Task>
    decreases tree, 0
  {
    match tree
    case Leaf(task) => [Inherit(task, vars, when)]
    case Node(task, _, children) => FlattenAll(children, vars + task.vars, when + task.when)
  }

  function FlattenAll(forest: seq<Tree>, vars: Vars, when: seq<string>): seq<Task>
    decreases forest, 1
  {
    if forest == [] then [] else Flatten(forest[0], vars, when) + FlattenAll(forest[1..], vars, when)
  }

  lemma {:induction false} FlattenSnoc(forest: seq<Tree>, tree: Tree, vars: Vars, when: seq<string>)
    ensures FlattenAll(forest + [tree], vars, when) == FlattenAll(forest, vars, when) + Flatten(tree, vars, when)
  {
    if forest == [] {
      assert [] + [tree] == [tree] && [tree][1..] == [];
    } else {
      FlattenSnoc(forest[1..], tree, vars, when);
      assert (forest + [tree])[0] == forest[0] && (forest + [tree])[1..] == forest[1..] + [tree];
      hide Flatten;
    }
  }

  lemma InheritTwice(tasks: seq<Task>, outer: Task, vars: Vars, when: seq<string>)
    ensures InheritAll(tasks, vars + outer.vars, when + outer.when) ==
      InheritAll(tasks, Inherit(outer, vars, when).vars, Inherit(outer, vars, when).when)
  {
  }

  // ----- The expansion as it is carried out

  function MergeWhen(parent: seq<string>, child: seq<string>): (merged: seq<string>)
    ensures merged == parent + child
  {
    if |parent| == 0 then child
    else if |child| == 0 then parent
    else parent + child
  }

  /** Hands the variables and conditions of the importing task down to the imported tasks. */
  method HandDown(task: Task, imported0: seq<Task>) returns (imported: seq<Task>)
    ensures imported == InheritAll(imported0, task.vars, task.when)
  {
    imported := imported0;
    if |task.vars| > 0 {
      for i := 0 to |imported|
        invariant |imported| == |imported0|
        invariant forall k :: 0 <= k < i ==> imported[k] == imported0[k].(vars := task.vars + imported0[k].vars)
        invariant forall k :: i <= k < |imported| ==> imported[k] == imported0[k]
      {
        imported := imported[i := imported[i].(vars := task.vars + imported[i].vars)];
      }
    }
    ghost var withVars := imported;
    if |task.when| > 0 {
      for i := 0 to |imported|
        invariant |imported| == |imported0|
        invariant forall k :: 0 <= k < i ==> imported[k] == withVars[k].(when := task.when + withVars[k].when)
        invariant forall k :: i <= k < |imported| ==> imported[k] == withVars[k]
      {
        imported := imported[i := imported[i].(when := MergeWhen(task.when, imported[i].when))];
      }
    }
    forall k | 0 <= k < |imported|
      ensures imported[k] == Inherit(imported0[k], task.vars, task.when)
    {
      assert |task.vars| == 0 ==> task.vars == map[] && map[] + imported0[k].vars == imported0[k].vars;
      assert [] + imported0[k].when == imported0[k].when;
    }
  }

  /** Expands `tasks`, which are the tasks `raw` with what they inherit from the files `stack`.
      It succeeds exactly when there is a forest of task files, and then yields its leaves. */
  method Expand(world: World, tasks: seq<Task>, baseDir: string, stack: seq<string>, depth: nat,
                ghost raw: seq<Task>, ghost vars: Vars, ghost when: seq<string>)
    returns (r: Result<seq<Task>, ImportError>, ghost forest: seq<Tree>)
    requires depth == |stack| <= MAX_IMPORT_DEPTH + 1
    requires tasks == InheritAll(raw, vars, when)
    ensures r.Ok? ==> GrowsAll(world, raw, baseDir, stack, forest) && r.value == FlattenAll(forest, vars, when)
    ensures r.Err? ==> forall f :: !GrowsAll(world, raw, baseDir, stack, f)
    ensures r.Err? ==> TrueReport(world, raw, baseDir, stack, r.error)
    decreases MAX_IMPORT_DEPTH + 1 - depth, 1
  {
    forest := [];
    hide TrueReport;
    if depth > MAX_IMPORT_DEPTH {
      ReportHere(world, raw, baseDir, stack, TooDeep(stack));
      return Err(TooDeep(stack)), forest;
    }
    var result: seq<Task> := [];
    for i := 0 to |tasks|
      invariant |forest| == i
      invariant forall k :: 0 <= k < i ==> Grows(world, raw[k], baseDir, stack, forest[k])
      invariant result == FlattenAll(forest, vars, when)
    {
      var expanded, tree := ExpandOne(world, tasks[i], baseDir, stack, depth, raw, i, vars, when);
      if expanded.Err? {
        return Err(expanded.error), forest;
      }
      FlattenSnoc(forest, tree, vars, when);
      result, forest := result + expanded.value, forest + [tree];
    }
    r := Ok(result);
  }

  /** Expands the task that is `tasks[i]` with what it inherits. */
  method ExpandOne(world: World, task: Task, baseDir: string, stack: seq<string>, depth: nat,
                   ghost tasks: seq<Task>, ghost i: nat, ghost vars: Vars, ghost when: seq<string>)
    returns (r: Result<seq<Task>, ImportError>, ghost tree: Tree)
    requires depth == |stack| <= MAX_IMPORT_DEPTH
    requires i < |tasks| && task == Inherit(tasks[i], vars, when)
    ensures r.Ok? ==> Grows(world, tasks[i], baseDir, stack, tree) && r.value == Flatten(tree, vars, when)
    ensures r.Err? ==> forall t :: !Grows(world, tasks[i], baseDir, stack, t)
    ensures r.Err? ==> TrueReport(world, tasks, baseDir, stack, r.error)
    decreases MAX_IMPORT_DEPTH + 1 - depth, 0
  {
    hide TrueReport;
    ghost var raw := tasks[i];
    assert raw in tasks;
    tree := Leaf(raw);
    if task.file.None? {
      return Ok([task]), tree;
    }
    var file := task.file.value;
    if file == "" {
      ReportHere(world, tasks, baseDir, stack, FileRequired(task.name));
      return Err(FileRequired(task.name)), tree;
    }
    match world.render(file)
    case None =>
      ReportHere(world, tasks, baseDir, stack, RenderFailed(file));
      return Err(RenderFailed(file)), tree;
    case Some(rendered) =>
      match world.resolve(baseDir, rendered)
      case None =>
        ReportHere(world, tasks, baseDir, stack, ResolveFailed(rendered));
        return Err(ResolveFailed(rendered)), tree;
      case Some(path) =>
        assert Target(world, raw, baseDir) == Some(path);
        assert Imports(world, tasks, baseDir, path);
        if path in stack {
          ReportHere(world, tasks, baseDir, stack, Circular(stack, path));
          return Err(Circular(stack, path)), tree;
        }
        match world.load(path)
        case None =>
          ReportHere(world, tasks, baseDir, stack, LoadFailed(path));
          return Err(LoadFailed(path)), tree;
        case Some(loaded) =>
          var imported := HandDown(task, loaded);
          InheritTwice(loaded, raw, vars, when);
          ghost var children;
          r, children := Expand(world, imported, world.dirOf(path), stack + [path], depth + 1,
                                loaded, vars + raw.vars, when + raw.when);
          tree := Node(raw, path, children);
          if r.Err? {
            ReportBelow(world, tasks, baseDir, stack, path, r.error);
          }
  }

  method ExpandImportTasks(world: World, tasks: seq<Task>, baseDir: string)
    returns (r: Result<seq<Task>, ImportError>, ghost forest: seq<Tree>)
    ensures r.Ok? ==> GrowsAll(world, tasks, baseDir, [], forest) && r.value == FlattenAll(forest, map[], [])
    ensures r.Err? ==> forall f :: !GrowsAll(world, tasks, baseDir, [], f)
    ensures r.Err? ==> TrueReport(world, tasks, baseDir, [], r.error)
  {
    assert tasks == InheritAll(tasks, map[], []) by {
      forall i | 0 <= i < |tasks|
        ensures Inherit(tasks[i], map[], []) == tasks[i]
      {
        assert map[] + tasks[i].vars == tasks[i].vars && [] + tasks[i].when == tasks[i].when;
      }
    }
    r, forest := Expand(world, tasks, baseDir, [], 0, tasks, map[], []);
  }

  // ----- What follows for the expanded list

  /** There is only one forest, so the outcome is determined by the files alone. */
  lemma {:induction false} ForestUnique(world: World, tasks: seq<Task>, baseDir: string, stack: seq<string>,
                                        a: seq<Tree>, b: seq<Tree>)
    requires GrowsAll(world, tasks, baseDir, stack, a) && GrowsAll(world, tasks, baseDir, stack, b)
    ensures a == b
    decreases a
  {
    forall i | 0 <= i < |tasks|
      ensures a[i] == b[i]
    {
      assert Grows(world, tasks[i], baseDir, stack, a[i]) && Grows(world, tasks[i], baseDir, stack, b[i]);
      if a[i].Node? {
        ForestUnique(world, world.load(a[i].path).value, world.dirOf(a[i].path), stack + [a[i].path],
                     a[i].children, b[i].children);
      }
    }
  }

  /** A task and the importing tasks it is reached through, outermost first. */
  datatype Placed = Placed(task: Task, chain: seq<Step>)
  datatype Step = Step(importer: Task, path: string)

  function ChainVars(chain: seq<Step>): Vars {
    if chain == [] then map[] else ChainVars(chain[..|chain| - 1]) + chain[|chain| - 1].importer.vars
  }

  ghost predicate SetLastBy(chain: seq<Step>, k: string, j: nat) {
    && j < |chain| && k in chain[j].importer.vars
    && forall m :: j < m < |chain| ==> k !in chain[m].importer.vars
  }

  lemma {:induction false} ChainSets(chain: seq<Step>, k: string)
    ensures k in ChainVars(chain) <==> exists j :: 0 <= j < |chain| && k in chain[j].importer.vars
  {
    if chain != [] {
      var outer := chain[..|chain| - 1];
      ChainSets(outer, k);
      assert forall j :: 0 <= j < |outer| ==> outer[j] == chain[j];
    }
  }

  /** Of the importing tasks of a chain that set a variable, the innermost decides. */
  lemma {:induction false} InnermostWins(chain: seq<Step>, k: string, j: nat)
    requires SetLastBy(chain, k, j)
    ensures k in ChainVars(chain) && ChainVars(chain)[k] == chain[j].importer.vars[k]
  {
    if j < |chain| - 1 {
      var outer := chain[..|chain| - 1];
      assert forall m :: 0 <= m < |outer| ==> outer[m] == chain[m];
      InnermostWins(outer, k, j);
      assert k !in chain[|chain| - 1].importer.vars;
    }
  }

  function ChainWhen(chain: seq<Step>): seq<string> {
    if chain == [] then [] else ChainWhen(chain[..|chain| - 1]) + chain[|chain| - 1].importer.when
  }

  function ChainPaths(chain: seq<Step>): (r: seq<string>)
    ensures |r| == |chain| && forall i :: 0 <= i < |r| ==> r[i] == chain[i].path
  {
    seq(|chain|, i requires 0 <= i < |chain| => chain[i].path)
  }

  /** The tasks of a forest in depth-first file order, with their chains. */
  function Leaves(forest: seq<Tree>, chain: seq<Step>): seq<Placed>
    decreases forest
  {
    if forest == [] then []
    else
      (match forest[0]
       case Leaf(task) => [Placed(task, chain)]
       case Node(task, path, children) => Leaves(children, chain + [Step(task, path)]))
      + Leaves(forest[1..], chain)
  }

  function Finish(p: Placed): Task {
    Inherit(p.task, ChainVars(p.chain), ChainWhen(p.chain))
  }

  function FinishAll(ps: seq<Placed>): (r: seq<Task>)
    ensures |r| == |ps| && forall i :: 0 <= i < |r| ==> r[i] == Finish(ps[i])
  {
    seq(|ps|, i requires 0 <= i < |ps| => Finish(ps[i]))
  }

  lemma FinishConcat(a: seq<Placed>, b: seq<Placed>)
    ensures FinishAll(a + b) == FinishAll(a) + FinishAll(b)
  {
  }

  /** Every expanded task carries the variables and conditions of its whole chain. */
  lemma {:induction false} LeavesInherit(forest: seq<Tree>, chain: seq<Step>)
    ensures FlattenAll(forest, ChainVars(chain), ChainWhen(chain)) == FinishAll(Leaves(forest, chain))
    decreases forest
  {
    if forest != [] {
      LeavesInherit(forest[1..], chain);
      var rest := Leaves(forest[1..], chain);
      match forest[0]
      case Leaf(task) =>
        FinishConcat([Placed(task, chain)], rest);
      case Node(task, path, children) =>
        var longer := chain + [Step(task, path)];
        assert longer[..|chain|] == chain;
        LeavesInherit(children, longer);
        FinishConcat(Leaves(children, longer), rest);
    }
  }

  /** No task remains that imports; no chain repeats a file or is longer than the limit; and
      each task stands in the file its chain ends in. */
  lemma {:induction false} LeavesSound(world: World, tasks: seq<Task>, baseDir: string, forest: seq<Tree>,
                                       chain: seq<Step>)
    requires GrowsAll(world, tasks, baseDir, ChainPaths(chain), forest) && Distinct(ChainPaths(chain))
    ensures forall p :: p in Leaves(forest, chain) ==>
      && p.task.file.None? && |p.chain| <= MAX_IMPORT_DEPTH && Distinct(ChainPaths(p.chain))
      && chain <= p.chain
      && (if |p.chain| == |chain| then p.task in tasks
          else world.load(p.chain[|p.chain| - 1].path).Some? && p.task in world.load(p.chain[|p.chain| - 1].path).value)
    decreases forest
  {
    if forest != [] {
      assert Grows(world, tasks[0], baseDir, ChainPaths(chain), forest[0]);
      forall i | 0 <= i < |tasks[1..]|
        ensures Grows(world, tasks[1..][i], baseDir, ChainPaths(chain), forest[1..][i])
      {
        assert Grows(world, tasks[i + 1], baseDir, ChainPaths(chain), forest[i + 1]);
      }
      LeavesSound(world, tasks[1..], baseDir, forest[1..], chain);
      match forest[0]
      case Leaf(task) =>
      case Node(task, path, children) =>
        var longer := chain + [Step(task, path)];
        assert ChainPaths(longer) == ChainPaths(chain) + [path];
        LeavesSound(world, world.load(path).value, world.dirOf(path), children, longer);
    }
  }

  /** The expansion, put together: what a caller gets back. */
  lemma ExpansionSound(world: World, tasks: seq<Task>, baseDir: string, forest: seq<Tree>, r: seq<Task>)
    requires GrowsAll(world, tasks, baseDir, [], forest) && r == FlattenAll(forest, map[], [])
    ensures |r| == |Leaves(forest, [])|
    ensures forall i :: 0 <= i < |r| ==>
      var p := Leaves(forest, [])[i];
      && r[i].file.None? && r[i].name == p.task.name && r[i].body == p.task.body
      && r[i].when == ChainWhen(p.chain) + p.task.when
      && r[i].vars == ChainVars(p.chain) + p.task.vars
      && |p.chain| <= MAX_IMPORT_DEPTH && Distinct(ChainPaths(p.chain))
  {
    LeavesInherit(forest, []);
    assert ChainPaths([]) == [];
    LeavesSound(world, tasks, baseDir, forest, []);
    forall i | 0 <= i < |r|
      ensures Leaves(forest, [])[i] in Leaves(forest, [])
    {
    }
  }
}
