/**
 What becomes of the files, directories and other things of a tree, found by descending through
 its names and not by following the walk.
 */
module TreeFiles {
  import opened Basics
  import opened TreeWalk

  function EntryOf(es: Entries, name: string): Option<Node> {
    match es
    case Nil => None
    case Cons(n, node, rest) => if n == name then Some(node) else EntryOf(rest, name)
  }

  /** What is at path x. */
  function NodeAt(es: Entries, x: Path): Option<Node>
    decreases |x|
  {
    if x == [] then None else
    match EntryOf(es, x[0])
    case None => None
    case Some(node) => if |x| == 1 then Some(node) else if node.Dir? then NodeAt(node.entries, x[1..]) else None
  }

  /** The action is the one for this node. */
  predicate Suits(a: Action, node: Node) {
    match a
    case Push(_) => node.Dir?
    case Spawn(_, ino, content) => node == File(ino, content)
    case Discard(_) => node.Other?
  }

  ghost predicate SuitsAt(es: Entries, a: Action, y: Path) {
    NodeAt(es, y).Some? && Suits(a, NodeAt(es, y).value)
  }

  lemma {:induction false} EntryHasName(es: Entries, name: string)
    ensures EntryOf(es, name).Some? <==> name in Names(es)
  {
    if es.Cons? {
      EntryHasName(es.rest, name);
    }
  }

  lemma NodeOfEntry(es: Entries, y: Path)
    requires es.Cons? && y != []
    ensures y[0] == es.name ==>
      NodeAt(es, y) == if |y| == 1 then Some(es.node) else if es.node.Dir? then NodeAt(es.node.entries, y[1..]) else None
    ensures y[0] != es.name ==> NodeAt(es, y) == NodeAt(es.rest, y)
  {
    assert EntryOf(es, y[0]) == if y[0] == es.name then Some(es.node) else EntryOf(es.rest, y[0]);
  }

  /** At its own path a node gets exactly the action that suits it. */
  lemma ActsOnItself(node: Node, q: Path, a: Action)
    requires a.path == q
    ensures a in ActionsAt(node, q) <==> Suits(a, node)
  {
    if node.Dir? {
      ActionsBelow(node.entries, q);
      assert ActionsAt(node, q)[|Actions(node.entries, q)|] == Push(q);
      assert forall b :: b in Actions(node.entries, q) ==> q < b.path;
    }
  }

  lemma ActsBelow(node: Node, q: Path, a: Action)
    requires q < a.path
    ensures a in ActionsAt(node, q) <==> node.Dir? && a in Actions(node.entries, q)
  {
  }

  /** The walk's actions are, for every node of the tree, the one that suits it at its path. */
  lemma {:induction false} WalkSuits(es: Entries, p: Path, a: Action)
    requires Proper(es) && p < a.path
    ensures a in Actions(es, p) <==> SuitsAt(es, a, a.path[|p|..])
    decreases es
  {
    var y := a.path[|p|..];
    assert a.path == p + y;
    if es.Cons? {
      var q := p + [es.name];
      NodeOfEntry(es, y);
      ActionsBelow(es.rest, p);
      if es.node.Dir? {
        ActionsBelow(es.node.entries, q);
      }
      StepBelow(es.node, p, es.name);
      if y[0] == es.name {
        EntryIsFirst(es, p, a);
        if |y| == 1 {
          assert a.path == q;
          ActsOnItself(es.node, q, a);
        } else {
          assert q < a.path && a.path[|q|..] == y[1..];
          ActsBelow(es.node, q, a);
          if es.node.Dir? {
            WalkSuits(es.node.entries, q, a);
          }
        }
      } else {
        EntryIsLater(es, p, a);
        WalkSuits(es.rest, p, a);
      }
    }
  }

  lemma EntryIsFirst(es: Entries, p: Path, a: Action)
    requires es.Cons? && Proper(es) && p < a.path && a.path[|p|] == es.name
    requires Below(Actions(es.rest, p), p, Names(es.rest))
    ensures a in Actions(es, p) <==> a in ActionsAt(es.node, p + [es.name])
  {
    assert forall b :: b in Actions(es.rest, p) ==> b.path[|p|] in Names(es.rest);
  }

  lemma EntryIsLater(es: Entries, p: Path, a: Action)
    requires es.Cons? && p < a.path && a.path[|p|] != es.name
    requires Below(ActionsAt(es.node, p + [es.name]), p, {es.name})
    ensures a in Actions(es, p) <==> a in Actions(es.rest, p)
  {
    assert forall b :: b in ActionsAt(es.node, p + [es.name]) ==> b.path[|p|] in {es.name};
  }

  lemma {:induction false} EntriesWithoutSubd(es: Entries, name: string)
    ensures EntryOf(WithoutSubd(es), name) == if name == ".subd" then None else EntryOf(es, name)
  {
    if es.Cons? {
      EntriesWithoutSubd(es.rest, name);
    }
  }

  lemma NodeWithoutSubd(es: Entries, x: Path)
    ensures NodeAt(WithoutSubd(es), x) == if InCache(x) then None else NodeAt(es, x)
  {
    if x != [] {
      EntriesWithoutSubd(es, x[0]);
      assert InCache(x) <==> x[0] == ".subd";
    }
  }

  lemma WorkSuits(es: Entries, a: Action)
    requires Proper(es)
    ensures a in Work(es) <==> !InCache(a.path) && SuitsAt(es, a, a.path)
  {
    ProperWithoutSubd(es);
    NodeWithoutSubd(es, a.path);
    ActionsBelow(WithoutSubd(es), []);
    if a.path != [] {
      WalkSuits(WithoutSubd(es), [], a);
      assert a.path[0..] == a.path;
    } else {
      assert forall b :: b in Work(es) ==> [] < b.path;
    }
  }

  /**
   Outside the object cache the program starts a task for exactly the files, notes exactly the
   directories for removal, and discards exactly what is neither; in the cache it does nothing.
   */
  lemma WorkIsExact(es: Entries, x: Path)
    requires Proper(es)
    ensures forall ino, content :: Spawn(x, ino, content) in Work(es) <==>
      !InCache(x) && NodeAt(es, x) == Some(File(ino, content))
    ensures Push(x) in Work(es) <==> !InCache(x) && NodeAt(es, x).Some? && NodeAt(es, x).value.Dir?
    ensures Discard(x) in Work(es) <==> !InCache(x) && NodeAt(es, x) == Some(Other)
  {
    forall ino, content
      ensures Spawn(x, ino, content) in Work(es) <==> !InCache(x) && NodeAt(es, x) == Some(File(ino, content))
    {
      WorkSuits(es, Spawn(x, ino, content));
    }
    WorkSuits(es, Push(x));
    WorkSuits(es, Discard(x));
  }

  lemma {:induction false} PathsAreNodes(es: Entries, p: Path, x: Path)
    requires Proper(es) && p < x
    ensures x in Paths(es, p) <==> NodeAt(es, x[|p|..]).Some?
  {
    WalkCovers(es, p, x);
    var y := x[|p|..];
    var a := if NodeAt(es, y).Some? then ActionFor(NodeAt(es, y).value, x) else Push(x);
    WalkSuits(es, p, a);
    if ActsOn(Actions(es, p), x) {
      var i :| 0 <= i < |Actions(es, p)| && Actions(es, p)[i].path == x;
      WalkSuits(es, p, Actions(es, p)[i]);
    }
    if NodeAt(es, y).Some? {
      var i :| 0 <= i < |Actions(es, p)| && Actions(es, p)[i] == a;
      assert ActsOn(Actions(es, p), x);
    }
  }

  function ActionFor(node: Node, x: Path): (a: Action)
    ensures Suits(a, node) && a.path == x
  {
    match node
    case Dir(_) => Push(x)
    case File(ino, content) => Spawn(x, ino, content)
    case Other => Discard(x)
  }

  /** The paths of the tree are those at which there is something. */
  lemma TreeIsNodes(es: Entries, x: Path)
    requires Proper(es)
    ensures x in Tree(es) <==> NodeAt(es, x).Some?
  {
    PathsAreBelow(es, []);
    if x != [] {
      PathsAreNodes(es, [], x);
      assert x[0..] == x;
    }
  }

  // ---------------------------------------------------------------- Files

  /** There is a regular file at x, outside the cache. */
  ghost predicate IsFile(es: Entries, x: Path, ino: nat, content: Content) {
    !InCache(x) && NodeAt(es, x) == Some(File(ino, content))
  }

  lemma FileIsTask(es: Entries, x: Path, ino: nat, content: Content) returns (i: nat)
    requires Proper(es) && IsFile(es, x, ino, content)
    ensures i < |Work(es)| && Work(es)[i] == Spawn(x, ino, content)
  {
    WorkIsExact(es, x);
    i :| 0 <= i < |Work(es)| && Work(es)[i] == Spawn(x, ino, content);
  }

  lemma TaskIsFile(es: Entries, i: nat)
    requires Proper(es) && IsTask(Work(es), i)
    ensures var a := Work(es)[i]; IsFile(es, a.path, a.ino, a.content)
  {
    var a := Work(es)[i];
    WorkIsExact(es, a.path);
    assert a == Spawn(a.path, a.ino, a.content) && a in Work(es);
  }

  /** How the task of the file at x ended. */
  ghost predicate Ended(es: Entries, s: State, x: Path, p: Phase) {
    exists i :: 0 <= i < |Work(es)| && i < |s.phases| && Work(es)[i].Spawn? && Work(es)[i].path == x && s.phases[i] == p
  }

  /** In every run exactly one file of each inode number is converted, and all others of it are removed. */
  lemma ConvertedExactlyOnce(
    es: Entries, states: seq<State>, labels: seq<Label>, i: nat, x: Path, ino: nat, content: Content)
    returns (owner: Path, kept: Content)
    requires Proper(es) && Run(Work(es), Tree(es), states, labels) && i < |states|
    requires Reaped(Work(es), states[i]) && IsFile(es, x, ino, content)
    ensures IsFile(es, owner, ino, kept) && Ended(es, states[i], owner, Converted) && kept in states[i].objects
    ensures forall y, c :: IsFile(es, y, ino, c) && y != owner ==> Ended(es, states[i], y, Removed)
  {
    var s, actions := states[i], Work(es);
    var j := FileIsTask(es, x, ino, content);
    var o := OneTaskConverts(es, states, labels, i, j);
    owner, kept := actions[o].path, actions[o].content;
    TaskIsFile(es, o);
    WorkIsBottomUp(es);
    RunsKeepInv(actions, Tree(es), states, labels, i);
    forall y, c | IsFile(es, y, ino, c) && y != owner
      ensures Ended(es, s, y, Removed)
    {
      var k := FileIsTask(es, y, ino, c);
      assert IsTask(actions, k) && s.phases[k].Removed?;
    }
  }

  /** Every file's content is in the cache. */
  ghost predicate AllFilesKept(es: Entries, s: State) {
    forall x, ino, content :: IsFile(es, x, ino, content) ==> content in s.objects
  }

  /** All files with this inode number have this content. */
  ghost predicate OnlyContentOf(es: Entries, ino: nat, content: Content) {
    forall y, c :: IsFile(es, y, ino, c) ==> c == content
  }

  /** Some file has this content, and so have all files that share its inode number. */
  ghost predicate IsSafe(es: Entries, content: Content) {
    exists y, ino :: IsFile(es, y, ino, content) && OnlyContentOf(es, ino, content)
  }

  lemma OnlyContentIff(es: Entries, ino: nat, content: Content)
    requires Proper(es)
    ensures OnlyContent(Work(es), ino, content) <==> OnlyContentOf(es, ino, content)
  {
    var actions := Work(es);
    if OnlyContent(actions, ino, content) {
      forall y, c | IsFile(es, y, ino, c)
        ensures c == content
      {
        var k := FileIsTask(es, y, ino, c);
        assert IsTask(actions, k);
      }
    }
    if OnlyContentOf(es, ino, content) {
      forall k | IsTask(actions, k) && actions[k].ino == ino
        ensures actions[k].content == content
      {
        TaskIsFile(es, k);
      }
    }
  }

  lemma SafeIff(es: Entries, content: Content)
    requires Proper(es)
    ensures SafeContent(Work(es), content) <==> IsSafe(es, content)
  {
    var actions := Work(es);
    if SafeContent(actions, content) {
      var j :| IsTask(actions, j) && actions[j].content == content && OnlyContent(actions, actions[j].ino, content);
      TaskIsFile(es, j);
      OnlyContentIff(es, actions[j].ino, content);
    }
    if IsSafe(es, content) {
      var y, ino :| IsFile(es, y, ino, content) && OnlyContentOf(es, ino, content);
      var j := FileIsTask(es, y, ino, content);
      OnlyContentIff(es, ino, content);
      assert IsTask(actions, j);
    }
  }

  lemma KeptIff(es: Entries, s: State)
    requires Proper(es)
    ensures AllKept(Work(es), s) <==> AllFilesKept(es, s)
  {
    var actions := Work(es);
    if AllKept(actions, s) {
      forall x, ino, content | IsFile(es, x, ino, content)
        ensures content in s.objects
      {
        var i := FileIsTask(es, x, ino, content);
        assert IsTask(actions, i);
      }
    }
    if AllFilesKept(es, s) {
      forall i | IsTask(actions, i)
        ensures actions[i].content in s.objects
      {
        TaskIsFile(es, i);
      }
    }
  }

  /**
   The program looks at the inode number only, not at the device. The content of every file of
   a tree reaches the cache in every run exactly if each content is held by a file that shares
   its inode number with no file of another content.
   */
  lemma DataIsKeptIff(es: Entries)
    requires Proper(es)
    ensures (forall s :: IsReachable(Work(es), Tree(es), s) && Reaped(Work(es), s) ==> AllFilesKept(es, s)) <==>
      (forall x, ino, content :: IsFile(es, x, ino, content) ==> IsSafe(es, content))
  {
    var actions := Work(es);
    TasksAreKeptIff(es);
    forall s
      ensures AllKept(actions, s) <==> AllFilesKept(es, s)
    {
      KeptIff(es, s);
    }
    forall content
      ensures SafeContent(actions, content) <==> IsSafe(es, content)
    {
      SafeIff(es, content);
    }
    if forall i :: IsTask(actions, i) ==> SafeContent(actions, actions[i].content) {
      forall x, ino, content | IsFile(es, x, ino, content)
        ensures IsSafe(es, content)
      {
        var i := FileIsTask(es, x, ino, content);
        assert IsTask(actions, i);
      }
    }
    if forall x, ino, content :: IsFile(es, x, ino, content) ==> IsSafe(es, content) {
      forall i | IsTask(actions, i)
        ensures SafeContent(actions, actions[i].content)
      {
        TaskIsFile(es, i);
      }
    }
  }

  /** Nothing is in the cache but contents of files. */
  lemma OnlyFilesAreKept(es: Entries, states: seq<State>, labels: seq<Label>, i: nat, content: Content)
    returns (x: Path, ino: nat)
    requires Proper(es) && Run(Work(es), Tree(es), states, labels) && i < |states| && content in states[i].objects
    ensures IsFile(es, x, ino, content)
  {
    WorkIsBottomUp(es);
    RunsKeepInv(Work(es), Tree(es), states, labels, i);
    var j :| IsTask(Work(es), j) && states[i].phases[j].Converted? && Work(es)[j].content == content;
    TaskIsFile(es, j);
    x, ino := Work(es)[j].path, Work(es)[j].ino;
  }

  /** It happens: of two files that share an inode number on different devices, one can be lost. */
  lemma SharedInodeNumberLosesData() returns (s: State)
    ensures var es := Cons("a", File(1, "x"), Cons("b", File(1, "y"), Nil));
      Proper(es) && IsReachable(Work(es), Tree(es), s) && Reaped(Work(es), s) && !AllFilesKept(es, s)
  {
    var es := Cons("a", File(1, "x"), Cons("b", File(1, "y"), Nil));
    var first, second := ["a"], ["b"];
    assert first[0] == "a" && second[0] == "b" && "a"[0] != "b"[0] && |".subd"| == 5;
    NodeOfEntry(es, first);
    NodeOfEntry(es, second);
    NodeOfEntry(es.rest, second);
    assert IsFile(es, first, 1, "x") && IsFile(es, second, 1, "y") && "x"[0] != "y"[0];
    forall y, ino | IsFile(es, y, ino, "x")
      ensures ino == 1
    {
      NodeOfEntry(es, y);
      NodeOfEntry(es.rest, y);
    }
    assert !OnlyContentOf(es, 1, "x");
    SafeIff(es, "x");
    s := UnsafeIsLost(Work(es), Tree(es), "x");
  }
}
