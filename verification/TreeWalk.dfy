/**
 Turning a directory tree into an object cache. The walk visits the tree depth first; it
 starts a task for every regular file, deletes what is neither file nor directory, and
 notes every directory for removal after its contents. File tasks run concurrently with
 the walk and with each other; the first one to claim an inode number converts its file,
 the others only delete theirs.
 */
module TreeWalk {
  type Path = seq<string>

  type Content = seq<char>

  datatype Node = Dir(entries: Entries) | File(ino: nat, content: Content) | Other

  datatype Entries = Nil | Cons(name: string, node: Node, rest: Entries)

  /** What the walk does, in order. */
  datatype Action = Push(path: Path) | Spawn(path: Path, ino: nat, content: Content) | Discard(path: Path)

  function Names(es: Entries): set<string> {
    match es
    case Nil => {}
    case Cons(n, _, rest) => {n} + Names(rest)
  }

  /** No directory lists a name twice. */
  predicate Proper(es: Entries) {
    match es
    case Nil => true
    case Cons(n, node, rest) => n !in Names(rest) && Proper(rest) && (node.Dir? ==> Proper(node.entries))
  }

  /** Every path in the tree. */
  function Paths(es: Entries, p: Path): set<Path> {
    match es
    case Nil => {}
    case Cons(n, node, rest) =>
      {p + [n]} + (if node.Dir? then Paths(node.entries, p + [n]) else {}) + Paths(rest, p)
  }

  /** The actions of the walk in a directory. */
  function Actions(es: Entries, p: Path): seq<Action> {
    match es
    case Nil => []
    case Cons(n, node, rest) => ActionsAt(node, p + [n]) + Actions(rest, p)
  }

  function ActionsAt(node: Node, q: Path): seq<Action> {
    match node
    case Dir(sub) => Actions(sub, q) + [Push(q)]
    case File(ino, content) => [Spawn(q, ino, content)]
    case Other => [Discard(q)]
  }

  /** The top directory is walked without the cache's own subdirectory. */
  function WithoutSubd(es: Entries): Entries {
    match es
    case Nil => Nil
    case Cons(n, node, rest) => if n == ".subd" then WithoutSubd(rest) else Cons(n, node, WithoutSubd(rest))
  }

  function Kept(es: Entries, top: bool): Entries {
    if top then WithoutSubd(es) else es
  }

  /** How many nodes there are. */
  function Size(es: Entries): nat {
    match es
    case Nil => 0
    case Cons(_, node, rest) => 1 + NodeSize(node) + Size(rest)
  }

  function NodeSize(node: Node): nat {
    if node.Dir? then Size(node.entries) else 0
  }

  // ---------------------------------------------------------------- The walk

  class WalkState {
    var processedInodes: set<nat>
    var directoriesToRemove: seq<Path>
    ghost var trace: seq<Action>

    constructor ()
      ensures processedInodes == {} && directoriesToRemove == [] && trace == []
    {
      processedInodes, directoriesToRemove, trace := {}, [], [];
    }

    /** Visits the entries of a directory; started tasks and deletions are in the trace. */
    method Walk(es: Entries, p: Path, top: bool)
      modifies this`directoriesToRemove, this`trace
      ensures trace == old(trace) + Actions(Kept(es, top), p)
      ensures directoriesToRemove == old(directoriesToRemove) + Pushed(Actions(Kept(es, top), p))
      decreases Size(es), 0
    {
      var rest := es;
      while rest.Cons?
        invariant Size(rest) <= Size(es)
        invariant trace + Actions(Kept(rest, top), p) == old(trace) + Actions(Kept(es, top), p)
        invariant directoriesToRemove + Pushed(Actions(Kept(rest, top), p)) ==
          old(directoriesToRemove) + Pushed(Actions(Kept(es, top), p))
        decreases rest
      {
        if !(top && rest.name == ".subd") {
          ghost var first, more := ActionsAt(rest.node, p + [rest.name]), Actions(Kept(rest.rest, top), p);
          PushedAppend(first, more);
          AppendTwice(trace, first, more);
          AppendTwice(directoriesToRemove, Pushed(first), Pushed(more));
          Visit(rest.node, p + [rest.name]);
        }
        rest := rest.rest;
      }
    }

    method Visit(node: Node, q: Path)
      modifies this`directoriesToRemove, this`trace
      ensures trace == old(trace) + ActionsAt(node, q)
      ensures directoriesToRemove == old(directoriesToRemove) + Pushed(ActionsAt(node, q))
      decreases NodeSize(node), 1
    {
      PushedAt(node, q);
      match node {
        case Dir(sub) =>
          Walk(sub, q, false);
          directoriesToRemove := directoriesToRemove + [q];
          trace := trace + [Push(q)];
          AppendTwice(old(trace), Actions(sub, q), [Push(q)]);
          AppendTwice(old(directoriesToRemove), Pushed(Actions(sub, q)), [q]);
        case File(ino, content) =>
          trace := trace + [Spawn(q, ino, content)];
        case Other =>
          trace := trace + [Discard(q)];
      }
    }

    /** A task's step under the lock: true if the file is to be converted, false if deleted. */
    method Claim(ino: nat) returns (convert: bool)
      modifies this`processedInodes
      ensures convert == (ino !in old(processedInodes))
      ensures processedInodes == old(processedInodes) + {ino}
    {
      if ino in processedInodes {
        return false;
      }
      processedInodes := processedInodes + {ino};
      return true;
    }
  }

  lemma AppendTwice<T>(a: seq<T>, b: seq<T>, c: seq<T>)
    ensures (a + b) + c == a + (b + c)
  {
  }

  /** The directories noted for removal by a sequence of actions. */
  function Pushed(actions: seq<Action>): seq<Path> {
    if actions == [] then [] else
    Pushed(actions[..|actions| - 1]) +
    (if actions[|actions| - 1].Push? then [actions[|actions| - 1].path] else [])
  }

  lemma {:induction false} PushedAppend(a: seq<Action>, b: seq<Action>)
    ensures Pushed(a + b) == Pushed(a) + Pushed(b)
  {
    if b == [] {
      assert a + b == a;
    } else {
      var n := |b| - 1;
      PushedAppend(a, b[..n]);
      assert (a + b)[..|a + b| - 1] == a + b[..n];
    }
  }

  lemma PushedAt(node: Node, q: Path)
    ensures Pushed(ActionsAt(node, q)) == if node.Dir? then Pushed(Actions(node.entries, q)) + [q] else []
  {
    if node.Dir? {
      PushedAppend(Actions(node.entries, q), [Push(q)]);
    }
  }

  // ---------------------------------------------------------------- The order of the walk

  /** No action's path is above, or the same as, the path of a later action. */
  ghost predicate BottomUp(actions: seq<Action>) {
    forall i, j :: 0 <= i < j < |actions| ==> !(actions[i].path <= actions[j].path)
  }

  /** All paths lie below p, through one of the given names. */
  ghost predicate Below(actions: seq<Action>, p: Path, names: set<string>) {
    forall i :: 0 <= i < |actions| ==>
      p < actions[i].path && actions[i].path[|p|] in names
  }

  lemma {:induction false} ActionsBelow(es: Entries, p: Path)
    ensures Below(Actions(es, p), p, Names(es))
  {
    match es
    case Nil =>
    case Cons(n, node, rest) =>
      ActionsBelow(rest, p);
      if node.Dir? {
        ActionsBelow(node.entries, p + [n]);
      }
      StepBelow(node, p, n);
  }

  lemma StepBelow(node: Node, p: Path, n: string)
    requires node.Dir? ==> Below(Actions(node.entries, p + [n]), p + [n], Names(node.entries))
    ensures Below(ActionsAt(node, p + [n]), p, {n})
    ensures forall i :: 0 <= i < |ActionsAt(node, p + [n])| ==> p + [n] <= ActionsAt(node, p + [n])[i].path
  {
    var l := ActionsAt(node, p + [n]);
    forall i | 0 <= i < |l|
      ensures p + [n] <= l[i].path && p < l[i].path && l[i].path[|p|] == n
    {
      assert p + [n] <= l[i].path;
      assert (p + [n])[|p|] == n;
    }
  }

  /** Everything in a directory comes before the directory, and nothing comes twice. */
  lemma {:induction false} WalkIsBottomUp(es: Entries, p: Path)
    requires Proper(es)
    ensures BottomUp(Actions(es, p))
  {
    match es
    case Nil =>
    case Cons(n, node, rest) =>
      var q := p + [n];
      if node.Dir? {
        WalkIsBottomUp(node.entries, q);
        ActionsBelow(node.entries, q);
      }
      NodeIsBottomUp(node, q);
      StepBelow(node, p, n);
      WalkIsBottomUp(rest, p);
      ActionsBelow(rest, p);
      SiblingsApart(ActionsAt(node, q), Actions(rest, p), p, n, Names(rest));
  }

  lemma NodeIsBottomUp(node: Node, q: Path)
    requires node.Dir? ==>
      BottomUp(Actions(node.entries, q)) && Below(Actions(node.entries, q), q, Names(node.entries))
    ensures BottomUp(ActionsAt(node, q))
  {
  }

  lemma SiblingsApart(a: seq<Action>, b: seq<Action>, p: Path, n: string, names: set<string>)
    requires BottomUp(a) && BottomUp(b) && Below(a, p, {n}) && Below(b, p, names) && n !in names
    ensures BottomUp(a + b)
  {
    var l := a + b;
    forall i, j | 0 <= i < j < |l|
      ensures !(l[i].path <= l[j].path)
    {
      if i < |a| <= j {
        assert l[i].path[|p|] == n && l[j].path[|p|] in names;
      }
    }
  }

  /** The walk acts once on every path of the tree and on nothing else. */
  lemma {:induction false} WalkCovers(es: Entries, p: Path, x: Path)
    ensures x in Paths(es, p) <==> ActsOn(Actions(es, p), x)
  {
    match es
    case Nil =>
    case Cons(n, node, rest) =>
      var q := p + [n];
      if node.Dir? {
        WalkCovers(node.entries, q, x);
      }
      WalkCovers(rest, p, x);
      NodeCovers(node, q, x);
      Somewhere(ActionsAt(node, q), Actions(rest, p), x);
  }

  /** Some action is on path x. */
  ghost predicate ActsOn(l: seq<Action>, x: Path) {
    exists i :: 0 <= i < |l| && l[i].path == x
  }

  lemma Somewhere(a: seq<Action>, b: seq<Action>, x: Path)
    ensures ActsOn(a + b, x) <==> ActsOn(a, x) || ActsOn(b, x)
  {
    if i :| 0 <= i < |a| && a[i].path == x {
      assert (a + b)[i].path == x;
    }
    if i :| 0 <= i < |b| && b[i].path == x {
      assert (a + b)[|a| + i].path == x;
    }
  }

  lemma NodeCovers(node: Node, q: Path, x: Path)
    requires node.Dir? ==> (x in Paths(node.entries, q) <==> ActsOn(Actions(node.entries, q), x))
    ensures ActsOn(ActionsAt(node, q), x) <==> x == q || (node.Dir? && x in Paths(node.entries, q))
  {
    var l := ActionsAt(node, q);
    assert l[|l| - 1].path == q;
    if node.Dir? {
      Somewhere(Actions(node.entries, q), [Push(q)], x);
    }
  }

  lemma {:induction false} NamesWithoutSubd(es: Entries)
    ensures Names(WithoutSubd(es)) == Names(es) - {".subd"}
  {
    if es.Cons? {
      NamesWithoutSubd(es.rest);
    }
  }

  lemma {:induction false} ProperWithoutSubd(es: Entries)
    requires Proper(es)
    ensures Proper(WithoutSubd(es))
  {
    if es.Cons? {
      ProperWithoutSubd(es.rest);
      NamesWithoutSubd(es.rest);
    }
  }

  /** The walk of the top directory never touches the object cache below it. */
  lemma CacheIsNeverTouched(es: Entries, p: Path, i: nat)
    requires i < |Actions(WithoutSubd(es), p)|
    ensures !(p + [".subd"] <= Actions(WithoutSubd(es), p)[i].path)
  {
    ActionsBelow(WithoutSubd(es), p);
    NamesWithoutSubd(es);
    assert (p + [".subd"])[|p|] == ".subd";
  }

  lemma {:induction false} PathsAreBelow(es: Entries, p: Path)
    ensures forall x :: x in Paths(es, p) ==> p < x
  {
    if es.Cons? {
      PathsAreBelow(es.rest, p);
      if es.node.Dir? {
        PathsAreBelow(es.node.entries, p + [es.name]);
      }
    }
  }

  lemma {:induction false} CacheIsTheRest(es: Entries, p: Path)
    ensures forall x :: x in Paths(WithoutSubd(es), p) ==> x in Paths(es, p)
    ensures forall x :: x in Paths(es, p) ==> x in Paths(WithoutSubd(es), p) || p + [".subd"] <= x
  {
    if es.Cons? {
      CacheIsTheRest(es.rest, p);
      if es.node.Dir? {
        PathsAreBelow(es.node.entries, p + [es.name]);
      }
    }
  }

  /** What the program does with the tree below its root, and all there is in the tree. */
  function Work(es: Entries): seq<Action> {
    Actions(WithoutSubd(es), [])
  }

  function Tree(es: Entries): set<Path> {
    Paths(es, [])
  }

  /** The object cache, which lies inside the tree. */
  predicate InCache(x: Path) {
    [".subd"] <= x
  }

  /** The work covers everything in the tree except the cache, and nothing in the cache. */
  lemma WorkSparesTheCache(es: Entries, x: Path)
    ensures ActsOn(Work(es), x) <==> x in Tree(es) && !InCache(x)
  {
    WalkCovers(WithoutSubd(es), [], x);
    CacheIsTheRest(es, []);
    assert [] + [".subd"] == [".subd"];
    if ActsOn(Work(es), x) {
      var i :| 0 <= i < |Work(es)| && Work(es)[i].path == x;
      CacheIsNeverTouched(es, [], i);
    }
  }

  lemma WorkIsBottomUp(es: Entries)
    requires Proper(es)
    ensures BottomUp(Work(es))
  {
    ProperWithoutSubd(es);
    WalkIsBottomUp(WithoutSubd(es), []);
  }

  // ---------------------------------------------------------------- Walk and tasks together

  datatype Phase = Ready | Converting | Removing | Converted | Removed

  datatype State = State(
    pc: nat,                    // how far the walk is
    phases: seq<Phase>,         // of the file task started by each Spawn
    processed: set<nat>,
    present: set<Path>,         // the paths still in the file system
    objects: set<Content>,      // what is in the object cache
    dirs: seq<Path>,            // the directories to remove
    removed: nat)               // how many of them are

  datatype Label = WalkOn | TaskClaims(i: nat) | TaskActs(i: nat) | RemoveDir

  function Start(actions: seq<Action>, all: set<Path>): State {
    State(0, seq(|actions|, _ => Ready), {}, all, {}, [], 0)
  }

  /** Action i starts a file task. */
  predicate IsTask(actions: seq<Action>, i: int) {
    0 <= i < |actions| && actions[i].Spawn?
  }

  /** The walk is over and every task has come to its end. */
  ghost predicate Reaped(actions: seq<Action>, s: State) {
    && s.pc == |actions| == |s.phases|
    && forall i :: IsTask(actions, i) ==> s.phases[i].Converted? || s.phases[i].Removed?
  }

  ghost predicate IsEmptyDir(s: State, d: Path) {
    forall x :: x in s.present ==> !(d < x)
  }

  ghost predicate Step(actions: seq<Action>, s: State, l: Label, s': State)
    requires |s.phases| == |actions|
  {
    match l
    case WalkOn =>
      && s.pc < |actions|
      && s' == (match actions[s.pc] {
                  case Push(d) => s.(pc := s.pc + 1, dirs := s.dirs + [d])
                  case Spawn(_, _, _) => s.(pc := s.pc + 1)
                  case Discard(x) => s.(pc := s.pc + 1, present := s.present - {x})
                })
    case TaskClaims(i) =>
      && i < s.pc && IsTask(actions, i) && s.phases[i].Ready?
      && s' == s.(phases := s.phases[i := if actions[i].ino in s.processed then Removing else Converting],
                  processed := s.processed + {actions[i].ino})
    case TaskActs(i) =>
      && i < s.pc && IsTask(actions, i)
      && (s.phases[i].Converting? || s.phases[i].Removing?)
      && s' == s.(phases := s.phases[i := if s.phases[i].Converting? then Converted else Removed],
                  present := s.present - {actions[i].path},
                  objects := if s.phases[i].Converting? then s.objects + {actions[i].content} else s.objects)
    case RemoveDir =>
      && Reaped(actions, s) && s.removed < |s.dirs| && IsEmptyDir(s, s.dirs[s.removed])
      && s' == s.(present := s.present - {s.dirs[s.removed]}, removed := s.removed + 1)
  }

  ghost predicate Run(actions: seq<Action>, all: set<Path>, states: seq<State>, labels: seq<Label>) {
    && |states| == |labels| + 1
    && states[0] == Start(actions, all)
    && (forall i :: 0 <= i < |states| ==> |states[i].phases| == |actions|)
    && forall i :: 0 <= i < |labels| ==> Step(actions, states[i], labels[i], states[i + 1])
  }

  // ---------------------------------------------------------------- Invariants

  /** Not yet removed as a directory. */
  ghost predicate Standing(s: State, x: Path) {
    forall k :: 0 <= k < s.removed && k < |s.dirs| ==> s.dirs[k] != x
  }

  predicate Owns(p: Phase) {
    p.Converting? || p.Converted?
  }

  /** Every claimed inode number has exactly one task that converts. */
  ghost predicate ClaimsOk(actions: seq<Action>, s: State)
    requires |s.phases| == |actions|
  {
    && (forall i :: 0 <= i < |actions| && !s.phases[i].Ready? ==> i < s.pc && actions[i].Spawn? && actions[i].ino in s.processed)
    && (forall ino :: ino in s.processed ==>
          exists i :: IsTask(actions, i) && actions[i].ino == ino && Owns(s.phases[i]))
    && (forall i, j :: IsTask(actions, i) && IsTask(actions, j) && i != j && Owns(s.phases[i]) && Owns(s.phases[j]) ==>
          actions[i].ino != actions[j].ino)
  }

  /** The object cache holds what was converted. */
  ghost predicate ObjectsOk(actions: seq<Action>, s: State)
    requires |s.phases| == |actions|
  {
    forall x :: x in s.objects <==> exists i :: IsTask(actions, i) && s.phases[i].Converted? && actions[i].content == x
  }

  /** An action that is done with its path. */
  predicate IsDone(actions: seq<Action>, s: State, i: int)
    requires |s.phases| == |actions| && 0 <= i < |actions|
  {
    i < s.pc && (actions[i].Discard? || (actions[i].Spawn? && (s.phases[i].Converted? || s.phases[i].Removed?)))
  }

  /** The walk has noted directory d before action n. */
  ghost predicate NotedBefore(actions: seq<Action>, n: nat, d: Path) {
    exists i :: 0 <= i < n && i < |actions| && actions[i] == Push(d)
  }

  ghost predicate DirsOk(actions: seq<Action>, s: State) {
    && s.pc <= |actions| && s.removed <= |s.dirs|
    && (forall k :: 0 <= k < |s.dirs| ==> NotedBefore(actions, s.pc, s.dirs[k]))
    && (forall i :: 0 <= i < s.pc && actions[i].Push? ==> actions[i].path in s.dirs)
    && (forall j, k :: 0 <= j < k < |s.dirs| ==> !(s.dirs[j] <= s.dirs[k]))
  }

  /** What is gone is exactly what a finished action or a removal took away. */
  ghost predicate PresentOk(actions: seq<Action>, all: set<Path>, s: State)
    requires |s.phases| == |actions|
  {
    && (forall x :: x in s.present ==> x in all)
    && (forall i :: 0 <= i < |actions| ==> (IsDone(actions, s, i) ==> actions[i].path !in s.present))
    && (forall x :: x in s.present ==> Standing(s, x))
    && (forall i :: 0 <= i < |actions| && !IsDone(actions, s, i) && actions[i].path in all && Standing(s, actions[i].path) ==>
          actions[i].path in s.present)
  }

  ghost predicate Inv(actions: seq<Action>, all: set<Path>, s: State) {
    && |s.phases| == |actions|
    && ClaimsOk(actions, s)
    && ObjectsOk(actions, s)
    && DirsOk(actions, s)
    && PresentOk(actions, all, s)
    && (s.removed > 0 ==> Reaped(actions, s))
  }

  lemma StartIsGood(actions: seq<Action>, all: set<Path>)
    ensures Inv(actions, all, Start(actions, all))
  {
  }

  lemma ClaimKeepsClaims(actions: seq<Action>, s: State, l: Label, s': State)
    requires |s.phases| == |actions| && ClaimsOk(actions, s) && l.TaskClaims? && Step(actions, s, l, s')
    ensures ClaimsOk(actions, s')
  {
    var i := l.i;
    assert s'.phases[i] == if actions[i].ino in s.processed then Removing else Converting;
    assert forall j :: 0 <= j < |actions| && j != i ==> s'.phases[j] == s.phases[j];
    forall ino | ino in s'.processed
      ensures exists j :: IsTask(actions, j) && actions[j].ino == ino && Owns(s'.phases[j])
    {
      if ino in s.processed {
        var j :| IsTask(actions, j) && actions[j].ino == ino && Owns(s.phases[j]);
        assert Owns(s'.phases[j]);
      } else {
        assert Owns(s'.phases[i]);
      }
    }
  }

  lemma ActKeepsClaims(actions: seq<Action>, s: State, l: Label, s': State)
    requires |s.phases| == |actions| && ClaimsOk(actions, s) && l.TaskActs? && Step(actions, s, l, s')
    ensures ClaimsOk(actions, s')
  {
    assert forall j :: 0 <= j < |actions| ==> Owns(s'.phases[j]) == Owns(s.phases[j]);
    forall ino | ino in s'.processed
      ensures exists j :: IsTask(actions, j) && actions[j].ino == ino && Owns(s'.phases[j])
    {
      var j :| IsTask(actions, j) && actions[j].ino == ino && Owns(s.phases[j]);
      assert Owns(s'.phases[j]);
    }
  }

  lemma StepKeepsObjects(actions: seq<Action>, s: State, l: Label, s': State)
    requires |s.phases| == |actions| && ObjectsOk(actions, s) && Step(actions, s, l, s')
    ensures |s'.phases| == |actions| && ObjectsOk(actions, s')
  {
    if l.TaskClaims? || l.TaskActs? {
      assert forall j :: 0 <= j < |actions| && j != l.i ==> s'.phases[j] == s.phases[j];
      forall x | x in s'.objects
        ensures exists j :: IsTask(actions, j) && s'.phases[j].Converted? && actions[j].content == x
      {
        if x in s.objects {
          var j :| IsTask(actions, j) && s.phases[j].Converted? && actions[j].content == x;
          assert s'.phases[j].Converted?;
        } else {
          assert s'.phases[l.i].Converted?;
        }
      }
    }
  }

  lemma StepKeepsClaims(actions: seq<Action>, s: State, l: Label, s': State)
    requires |s.phases| == |actions| && ClaimsOk(actions, s) && Step(actions, s, l, s')
    ensures |s'.phases| == |actions| && ClaimsOk(actions, s')
  {
    match l
    case WalkOn =>
    case TaskClaims(_) => ClaimKeepsClaims(actions, s, l, s');
    case TaskActs(_) => ActKeepsClaims(actions, s, l, s');
    case RemoveDir =>
  }

  lemma PushKeepsDirs(actions: seq<Action>, s: State, s': State)
    requires |s.phases| == |actions| && BottomUp(actions) && DirsOk(actions, s) && Step(actions, s, WalkOn, s')
    requires actions[s.pc].Push?
    ensures DirsOk(actions, s')
  {
    var d := actions[s.pc].path;
    assert s'.dirs == s.dirs + [d];
    assert actions[s.pc] == Push(d);
    forall k | 0 <= k < |s'.dirs|
      ensures NotedBefore(actions, s'.pc, s'.dirs[k])
    {
      if k < |s.dirs| {
        assert NotedBefore(actions, s.pc, s.dirs[k]);
      }
    }
    forall j | 0 <= j < |s.dirs|
      ensures !(s.dirs[j] <= d)
    {
      assert NotedBefore(actions, s.pc, s.dirs[j]);
      var i :| 0 <= i < s.pc && actions[i] == Push(s.dirs[j]);
      assert !(actions[i].path <= d);
    }
  }

  lemma StepKeepsDirs(actions: seq<Action>, s: State, l: Label, s': State)
    requires |s.phases| == |actions| && BottomUp(actions) && DirsOk(actions, s) && Step(actions, s, l, s')
    ensures DirsOk(actions, s')
  {
    if l.WalkOn? && actions[s.pc].Push? {
      PushKeepsDirs(actions, s, s');
    }
  }

  lemma PathsDiffer(actions: seq<Action>, i: nat, j: nat)
    requires BottomUp(actions) && i < |actions| && j < |actions| && i != j
    ensures actions[i].path != actions[j].path
  {
    assert i < j ==> !(actions[i].path <= actions[j].path);
    assert j < i ==> !(actions[j].path <= actions[i].path);
  }

  lemma PresentStays(actions: seq<Action>, all: set<Path>, s: State, l: Label, s': State, x: Path)
    requires Inv(actions, all, s) && Step(actions, s, l, s') && x in s'.present
    ensures x in all && Standing(s', x)
  {
    assert x in s.present && Standing(s, x);
    if l.WalkOn? {
      assert s.removed > 0 ==> s.pc == |actions|;
    }
  }

  lemma StepKeepsPresent(actions: seq<Action>, all: set<Path>, s: State, l: Label, s': State)
    requires Inv(actions, all, s) && BottomUp(actions) && Step(actions, s, l, s')
    ensures |s'.phases| == |actions| && PresentOk(actions, all, s')
  {
    assert |s'.phases| == |actions|;
    forall i | 0 <= i < |actions|
      ensures IsDone(actions, s', i) ==> actions[i].path !in s'.present
      ensures !IsDone(actions, s', i) && actions[i].path in all && Standing(s', actions[i].path) ==>
        actions[i].path in s'.present
    {
      PresentAt(actions, all, s, l, s', i);
    }
    forall x | x in s'.present
      ensures x in all && Standing(s', x)
    {
      PresentStays(actions, all, s, l, s', x);
    }
  }

  lemma PresentAt(actions: seq<Action>, all: set<Path>, s: State, l: Label, s': State, i: nat)
    requires Inv(actions, all, s) && BottomUp(actions) && Step(actions, s, l, s') && i < |actions|
    ensures |s'.phases| == |actions|
    ensures IsDone(actions, s', i) ==> actions[i].path !in s'.present
    ensures !IsDone(actions, s', i) && actions[i].path in all && Standing(s', actions[i].path) ==>
      actions[i].path in s'.present
  {
    match l
    case WalkOn =>
      if i != s.pc {
        PathsDiffer(actions, i, s.pc);
      }
    case TaskClaims(_) =>
    case TaskActs(j) =>
      if i != j {
        PathsDiffer(actions, i, j);
      }
    case RemoveDir =>
      assert s'.dirs[s.removed] == s.dirs[s.removed];
  }

  lemma StepKeepsInv(actions: seq<Action>, all: set<Path>, s: State, l: Label, s': State)
    requires Inv(actions, all, s) && BottomUp(actions) && Step(actions, s, l, s')
    ensures Inv(actions, all, s')
  {
    StepKeepsClaims(actions, s, l, s');
    StepKeepsObjects(actions, s, l, s');
    StepKeepsDirs(actions, s, l, s');
    StepKeepsPresent(actions, all, s, l, s');
  }

  lemma {:induction false} RunsKeepInv(
    actions: seq<Action>, all: set<Path>, states: seq<State>, labels: seq<Label>, i: nat)
    requires Run(actions, all, states, labels) && BottomUp(actions) && i < |states|
    ensures Inv(actions, all, states[i])
  {
    if i == 0 {
      StartIsGood(actions, all);
    } else {
      RunsKeepInv(actions, all, states, labels, i - 1);
      StepKeepsInv(actions, all, states[i - 1], labels[i - 1], states[i]);
    }
  }

  // ---------------------------------------------------------------- The theorems

  /** Once all tasks are reaped, of what is acted on only directories still to be removed are left. */
  lemma OnlyDirsRemain(actions: seq<Action>, all: set<Path>, s: State, x: Path)
    requires Inv(actions, all, s) && Reaped(actions, s) && x in s.present && ActsOn(actions, x)
    ensures exists k :: s.removed <= k < |s.dirs| && s.dirs[k] == x
  {
    var i :| 0 <= i < |actions| && actions[i].path == x;
    assert !IsDone(actions, s, i);
    assert x in s.dirs;
  }

  lemma NextDirIsThere(actions: seq<Action>, all: set<Path>, s: State)
    requires Inv(actions, all, s) && s.removed < |s.dirs|
    requires forall y :: ActsOn(actions, y) ==> y in all
    ensures s.dirs[s.removed] in s.present && ActsOn(actions, s.dirs[s.removed])
  {
    var d := s.dirs[s.removed];
    assert NotedBefore(actions, s.pc, d);
    var j :| 0 <= j < s.pc && actions[j] == Push(d);
    assert actions[j].path == d && !IsDone(actions, s, j);
  }

  lemma NextDirIsEmpty(es: Entries, s: State)
    requires Inv(Work(es), Tree(es), s) && Reaped(Work(es), s) && s.removed < |s.dirs|
    ensures IsEmptyDir(s, s.dirs[s.removed])
  {
    forall x
      ensures ActsOn(Work(es), x) <==> x in Tree(es) && !InCache(x)
    {
      WorkSparesTheCache(es, x);
    }
    NextDirIsThere(Work(es), Tree(es), s);
    PathsAreBelow(es, []);
    forall x | x in s.present
      ensures !(s.dirs[s.removed] < x)
    {
      if !InCache(x) {
        OnlyDirsRemain(Work(es), Tree(es), s, x);
      }
    }
  }

  /**
   In every run on any tree, when all tasks are reaped each directory in turn is there and
   empty when it is to be removed: the removal never fails.
   */
  lemma RemovalNeverFails(es: Entries, states: seq<State>, labels: seq<Label>, i: nat)
    requires Proper(es) && Run(Work(es), Tree(es), states, labels) && i < |states|
    requires Reaped(Work(es), states[i]) && states[i].removed < |states[i].dirs|
    ensures states[i].dirs[states[i].removed] in states[i].present
    ensures IsEmptyDir(states[i], states[i].dirs[states[i].removed])
  {
    WorkIsBottomUp(es);
    RunsKeepInv(Work(es), Tree(es), states, labels, i);
    forall x | ActsOn(Work(es), x)
      ensures x in Tree(es)
    {
      WorkSparesTheCache(es, x);
    }
    NextDirIsThere(Work(es), Tree(es), states[i]);
    NextDirIsEmpty(es, states[i]);
  }

  lemma {:induction false} OthersStay(
    actions: seq<Action>, all: set<Path>, states: seq<State>, labels: seq<Label>, i: nat, x: Path)
    requires Run(actions, all, states, labels) && BottomUp(actions) && i < |states|
    requires x in all && !ActsOn(actions, x)
    ensures x in states[i].present
  {
    if i > 0 {
      OthersStay(actions, all, states, labels, i - 1, x);
      RunsKeepInv(actions, all, states, labels, i - 1);
      var s, l := states[i - 1], labels[i - 1];
      assert Step(actions, s, l, states[i]);
      assert forall j :: 0 <= j < |actions| ==> actions[j].path != x;
      if l.RemoveDir? {
        assert NotedBefore(actions, s.pc, s.dirs[s.removed]);
      }
    }
  }

  /** When all directories are removed too, of the paths of the tree those in the cache are left and no others. */
  lemma OnlyTheCacheRemains(es: Entries, states: seq<State>, labels: seq<Label>, i: nat, x: Path)
    requires Proper(es) && Run(Work(es), Tree(es), states, labels) && i < |states|
    requires Reaped(Work(es), states[i]) && states[i].removed == |states[i].dirs|
    ensures x in states[i].present <==> x in Tree(es) && InCache(x)
  {
    WorkIsBottomUp(es);
    RunsKeepInv(Work(es), Tree(es), states, labels, i);
    WorkSparesTheCache(es, x);
    if x in Tree(es) && InCache(x) {
      OthersStay(Work(es), Tree(es), states, labels, i, x);
    } else if x in states[i].present {
      OnlyDirsRemain(Work(es), Tree(es), states[i], x);
    }
  }

  /** In every run one task of each inode number converts, and the others remove. */
  lemma OneTaskConverts(es: Entries, states: seq<State>, labels: seq<Label>, i: nat, j: nat)
    returns (owner: nat)
    requires Proper(es) && Run(Work(es), Tree(es), states, labels) && i < |states|
    requires Reaped(Work(es), states[i]) && IsTask(Work(es), j)
    ensures var actions, phases := Work(es), states[i].phases;
      && IsTask(actions, owner) && actions[owner].ino == actions[j].ino
      && phases[owner].Converted?
      && forall k :: IsTask(actions, k) && actions[k].ino == actions[j].ino && k != owner ==>
           phases[k].Removed?
  {
    var actions, s := Work(es), states[i];
    WorkIsBottomUp(es);
    RunsKeepInv(actions, Tree(es), states, labels, i);
    assert !s.phases[j].Ready?;
    owner :| IsTask(actions, owner) && actions[owner].ino == actions[j].ino && Owns(s.phases[owner]);
  }

  /** In every run the directories noted are the ones the walk notes, in its order. */
  lemma {:induction false} DirsAreTheWalks(
    actions: seq<Action>, all: set<Path>, states: seq<State>, labels: seq<Label>, i: nat)
    requires Run(actions, all, states, labels) && i < |states|
    ensures states[i].pc <= |actions| && states[i].dirs == Pushed(actions[..states[i].pc])
  {
    if i > 0 {
      DirsAreTheWalks(actions, all, states, labels, i - 1);
      var pc := states[i - 1].pc;
      assert Step(actions, states[i - 1], labels[i - 1], states[i]);
      if labels[i - 1].WalkOn? {
        assert actions[..pc + 1][..pc] == actions[..pc];
      }
    }
  }

  // ---------------------------------------------------------------- Is all data kept?

  ghost predicate AllKept(actions: seq<Action>, s: State) {
    forall i :: IsTask(actions, i) ==> actions[i].content in s.objects
  }

  /** All files with this inode number have this content, as links of one file do. */
  ghost predicate OnlyContent(actions: seq<Action>, ino: nat, content: Content) {
    forall k :: IsTask(actions, k) && actions[k].ino == ino ==> actions[k].content == content
  }

  /** Some file has this content, and so have all files that share its inode number. */
  ghost predicate SafeContent(actions: seq<Action>, content: Content) {
    exists j :: IsTask(actions, j) && actions[j].content == content && OnlyContent(actions, actions[j].ino, content)
  }

  ghost predicate IsReachable(actions: seq<Action>, all: set<Path>, s: State) {
    exists states, labels :: Run(actions, all, states, labels) && states[|labels|] == s
  }

  lemma StartIsReachable(actions: seq<Action>, all: set<Path>)
    ensures IsReachable(actions, all, Start(actions, all))
  {
    var labels: seq<Label> := [];
    assert Run(actions, all, [Start(actions, all)], labels);
  }

  lemma StepIsReachable(actions: seq<Action>, all: set<Path>, s: State, l: Label, s': State)
    requires IsReachable(actions, all, s) && |s.phases| == |actions| && Step(actions, s, l, s')
    ensures IsReachable(actions, all, s')
  {
    var states, labels :| Run(actions, all, states, labels) && states[|labels|] == s;
    assert |s'.phases| == |actions|;
    var longer, more := states + [s'], labels + [l];
    assert forall i :: 0 <= i < |more| ==> Step(actions, longer[i], more[i], longer[i + 1]);
    assert Run(actions, all, longer, more) && longer[|more|] == s';
  }

  /** The walk can run to its end before any task does. */
  lemma WalkFirst(actions: seq<Action>, all: set<Path>) returns (s: State)
    ensures IsReachable(actions, all, s) && s.pc == |actions| == |s.phases| && s.objects == {}
    ensures forall i :: 0 <= i < |actions| ==> s.phases[i].Ready?
  {
    s := Start(actions, all);
    StartIsReachable(actions, all);
    while s.pc < |actions|
      invariant IsReachable(actions, all, s) && s.pc <= |actions| == |s.phases| && s.objects == {}
      invariant forall i :: 0 <= i < |actions| ==> s.phases[i].Ready?
      decreases |actions| - s.pc
    {
      var s' := match actions[s.pc] {
        case Push(d) => s.(pc := s.pc + 1, dirs := s.dirs + [d])
        case Spawn(_, _, _) => s.(pc := s.pc + 1)
        case Discard(x) => s.(pc := s.pc + 1, present := s.present - {x})
      };
      StepIsReachable(actions, all, s, WalkOn, s');
      s := s';
    }
  }

  predicate IsOver(p: Phase) {
    p.Converted? || p.Removed?
  }

  /** A task that is ready can run to its end. */
  lemma RunTask(actions: seq<Action>, all: set<Path>, s: State, i: nat) returns (s': State)
    requires IsReachable(actions, all, s) && s.pc == |actions| == |s.phases|
    requires IsTask(actions, i) && s.phases[i].Ready?
    ensures IsReachable(actions, all, s') && s'.pc == |actions| == |s'.phases|
    ensures IsOver(s'.phases[i]) && forall j :: 0 <= j < |actions| && j != i ==> s'.phases[j] == s.phases[j]
    ensures s'.processed == s.processed + {actions[i].ino}
    ensures s'.objects == if actions[i].ino in s.processed then s.objects else s.objects + {actions[i].content}
  {
    var claimed := s.(phases := s.phases[i := if actions[i].ino in s.processed then Removing else Converting],
    processed := s.processed + {actions[i].ino});
    StepIsReachable(actions, all, s, TaskClaims(i), claimed);
    s' := claimed.(phases := claimed.phases[i := if claimed.phases[i].Converting? then Converted else Removed],
    present := claimed.present - {actions[i].path},
    objects := if claimed.phases[i].Converting? then claimed.objects + {actions[i].content} else claimed.objects);
    StepIsReachable(actions, all, claimed, TaskActs(i), s');
  }

  /** The files without this content can all go first; then it is lost unless it is safe. */
  lemma OthersFirst(actions: seq<Action>, all: set<Path>, content: Content) returns (s: State)
    ensures IsReachable(actions, all, s) && s.pc == |actions| == |s.phases| && content !in s.objects
    ensures forall i :: IsTask(actions, i) && actions[i].content != content ==>
      IsOver(s.phases[i]) && actions[i].ino in s.processed
    ensures forall i :: IsTask(actions, i) && actions[i].content == content ==> s.phases[i].Ready?
  {
    s := WalkFirst(actions, all);
    for n := 0 to |actions|
      invariant IsReachable(actions, all, s) && s.pc == |actions| == |s.phases| && content !in s.objects
      invariant forall i :: IsTask(actions, i) && i < n && actions[i].content != content ==>
        IsOver(s.phases[i]) && actions[i].ino in s.processed
      invariant forall i :: IsTask(actions, i) && (i >= n || actions[i].content == content) ==> s.phases[i].Ready?
    {
      if IsTask(actions, n) && actions[n].content != content {
        s := RunTask(actions, all, s, n);
      }
    }
  }

  lemma UnsafeIsLost(actions: seq<Action>, all: set<Path>, content: Content) returns (s: State)
    requires !SafeContent(actions, content)
    ensures IsReachable(actions, all, s) && Reaped(actions, s) && content !in s.objects
  {
    s := OthersFirst(actions, all, content);
    forall i | IsTask(actions, i)
      ensures actions[i].ino in s.processed
    {
      if actions[i].content == content {
        assert !OnlyContent(actions, actions[i].ino, content);
      }
    }
    for n := 0 to |actions|
      invariant IsReachable(actions, all, s) && s.pc == |actions| == |s.phases| && content !in s.objects
      invariant forall i :: IsTask(actions, i) ==> actions[i].ino in s.processed
      invariant forall i :: IsTask(actions, i) && (i < n || actions[i].content != content) ==> IsOver(s.phases[i])
      invariant forall i :: IsTask(actions, i) && i >= n && actions[i].content == content ==> s.phases[i].Ready?
    {
      if IsTask(actions, n) && actions[n].content == content {
        s := RunTask(actions, all, s, n);
      }
    }
  }

  /** All tasks' data reaches the cache in every run exactly if each content is safe. */
  lemma TasksAreKeptIff(es: Entries)
    requires Proper(es)
    ensures (forall s :: IsReachable(Work(es), Tree(es), s) && Reaped(Work(es), s) ==> AllKept(Work(es), s)) <==>
      (forall i :: IsTask(Work(es), i) ==> SafeContent(Work(es), Work(es)[i].content))
  {
    var actions, all := Work(es), Tree(es);
    forall s, i | IsReachable(actions, all, s) && Reaped(actions, s) && IsTask(actions, i) && SafeContent(actions, actions[i].content)
      ensures actions[i].content in s.objects
    {
      SafeIsKept(es, s, actions[i].content);
    }
    forall i | IsTask(actions, i) && !SafeContent(actions, actions[i].content)
      ensures exists s :: IsReachable(actions, all, s) && Reaped(actions, s) && !AllKept(actions, s)
    {
      var s := UnsafeIsLost(actions, all, actions[i].content);
      assert !AllKept(actions, s);
    }
  }

  lemma SafeIsKept(es: Entries, s: State, content: Content)
    requires Proper(es) && IsReachable(Work(es), Tree(es), s) && Reaped(Work(es), s)
    requires SafeContent(Work(es), content)
    ensures content in s.objects
  {
    var actions, all := Work(es), Tree(es);
    var states, labels :| Run(actions, all, states, labels) && states[|labels|] == s;
    var j :| IsTask(actions, j) && actions[j].content == content && OnlyContent(actions, actions[j].ino, content);
    WorkIsBottomUp(es);
    RunsKeepInv(actions, all, states, labels, |labels|);
    var owner := OneTaskConverts(es, states, labels, |labels|, j);
  }
}
