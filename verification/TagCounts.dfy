/** What the tag tree says: each path once, and counts that add up. */
module TagCounts {
  import opened Events
  import opened Text
  import opened TagPaths
  import opened TagTree

  // ---- The tree is determined ----

  function PathsOf(nodes: seq<TagNode>): (paths: seq<string>)
    ensures |paths| == |nodes|
  {
    seq(|nodes|, i requires 0 <= i < |nodes| => nodes[i].path)
  }

  lemma UnderIsOneMore(segs: seq<string>, longer: seq<string>)
    requires Under(segs, longer)
    ensures longer == segs + [longer[|segs|]]
  {}

  lemma LevelPaths(notes: seq<Note>, segs: seq<string>, a: seq<TagNode>, b: seq<TagNode>, p: string)
    requires Level(notes, segs, a) && Level(notes, segs, b) && p in PathsOf(a)
    ensures p in PathsOf(b)
  {
    hide Split, Join, Count, Clean;
    var i :| 0 <= i < |a| && a[i].path == p;
    var longer := Split(p);
    assert Node(notes, a[i]);
    UnderIsOneMore(segs, longer);
    var j :| 0 <= j < |b| && b[j].path == Join(segs + [longer[|segs|]]);
    assert PathsOf(b)[j] == p;
  }

  /** The notes leave no choice: whatever order the maps were walked in, it is
      the same tree. */
  lemma {:induction false} TreeIsDetermined(notes: seq<Note>, segs: seq<string>, a: seq<TagNode>, b: seq<TagNode>)
    requires Level(notes, segs, a) && Level(notes, segs, b)
    ensures a == b
    decreases a
  {
    hide Split, Join, Count, Clean;
    assert PathsOf(a) == PathsOf(b) by {
      forall p ensures p in PathsOf(a) <==> p in PathsOf(b) {
        if p in PathsOf(a) { LevelPaths(notes, segs, a, b, p); }
        if p in PathsOf(b) { LevelPaths(notes, segs, b, a, p); }
      }
      AscendingIsUnique(PathsOf(a), PathsOf(b));
    }
    forall i | 0 <= i < |a| ensures a[i] == b[i] {
      assert PathsOf(a)[i] == PathsOf(b)[i];
      assert Node(notes, a[i]) && Node(notes, b[i]);
      TreeIsDetermined(notes, Split(a[i].path), a[i].children, b[i].children);
    }
  }

  // ---- Each path once ----

  /** How often the path occurs as a node of the tree. */
  function Occurrences(nodes: seq<TagNode>, p: string): nat
    decreases nodes
  {
    if nodes == [] then 0
    else (if nodes[0].path == p then 1 else 0) + Occurrences(nodes[0].children, p) + Occurrences(nodes[1..], p)
  }

  /** A path that some live note's tag has as a prefix. */
  predicate Tagged(notes: seq<Note>, p: string) { IsPath(p) && Count(notes, Split(p)) > 0 }

  ghost predicate Covers(nodes: seq<TagNode>, p: string) {
    exists i :: 0 <= i < |nodes| && Split(nodes[i].path) <= Split(p)
  }

  /** Siblings, not necessarily all of them. */
  ghost predicate Siblings(notes: seq<Note>, segs: seq<string>, nodes: seq<TagNode>) {
    && (forall i, j :: 0 <= i < j < |nodes| ==> nodes[i].path != nodes[j].path)
    && (forall i :: 0 <= i < |nodes| ==> Under(segs, Split(nodes[i].path)) && Node(notes, nodes[i]))
  }

  lemma LevelIsSiblings(notes: seq<Note>, segs: seq<string>, nodes: seq<TagNode>)
    requires Level(notes, segs, nodes)
    ensures Siblings(notes, segs, nodes)
  {
    hide Split, Join, Count, Node;
    forall i, j | 0 <= i < j < |nodes| ensures nodes[i].path != nodes[j].path {
      Conflict.LessIsTotal(nodes[i].path, nodes[j].path);
    }
  }

  lemma {:induction false} CountShrinks(notes: seq<Note>, shorter: seq<string>, longer: seq<string>)
    requires shorter <= longer
    ensures Count(notes, shorter) >= Count(notes, longer)
    decreases |notes|
  {
    hide TagSet, Segments;
    if |notes| > 0 {
      var n := |notes| - 1;
      CountShrinks(notes[..n], shorter, longer);
      Fewer(TagsUnder(notes[n], longer), TagsUnder(notes[n], shorter));
    }
  }

  lemma {:induction false} Fewer<T>(a: set<T>, b: set<T>)
    requires a <= b
    ensures |a| <= |b|
    decreases a
  {
    if a != {} {
      var x :| x in a;
      Fewer(a - {x}, b - {x});
    }
  }

  /** A level has a node on the way to every tagged path below it. */
  lemma LevelCovers(notes: seq<Note>, segs: seq<string>, nodes: seq<TagNode>, p: string)
    requires Level(notes, segs, nodes) && Tagged(notes, p) && segs <= Split(p) && segs != Split(p)
    ensures Covers(nodes, p)
  {
    hide Split, Join, Count, Clean, Node;
    var longer := Split(p);
    var next := segs + [longer[|segs|]];
    assert next <= longer;
    CountShrinks(notes, next, longer);
    var i :| 0 <= i < |nodes| && nodes[i].path == Join(next);
    CountIsClean(notes, next);
    SplitJoin(next);
  }

  lemma NotBoth(notes: seq<Note>, segs: seq<string>, nodes: seq<TagNode>, i: nat, j: nat, longer: seq<string>)
    requires Siblings(notes, segs, nodes) && i < j < |nodes|
    ensures !(Split(nodes[i].path) <= longer && Split(nodes[j].path) <= longer)
  {
    hide Split, Join, Count, Clean, Level;
    assert nodes[i].path != nodes[j].path;
    assert Node(notes, nodes[i]) && Node(notes, nodes[j]);
    var a, b := Split(nodes[i].path), Split(nodes[j].path);
    if a <= longer && b <= longer { SamePrefix(a, b, longer); }
  }

  lemma SamePrefix(a: seq<string>, b: seq<string>, longer: seq<string>)
    requires |a| == |b| && a <= longer && b <= longer
    ensures a == b
  {
    assert a == longer[..|a|];
  }

  lemma CoveredByOne(notes: seq<Note>, segs: seq<string>, nodes: seq<TagNode>, p: string)
    requires Siblings(notes, segs, nodes) && nodes != [] && Split(nodes[0].path) <= Split(p)
    ensures !Covers(nodes[1..], p)
  {
    hide Split, Join, Count, Clean, Level;
    if Covers(nodes[1..], p) {
      var i :| 0 <= i < |nodes[1..]| && Split(nodes[1..][i].path) <= Split(p);
      NotBoth(notes, segs, nodes, 0, i + 1, Split(p));
    }
  }

  lemma CoversFirst(nodes: seq<TagNode>, p: string)
    requires nodes != []
    ensures Covers(nodes, p) <==> Split(nodes[0].path) <= Split(p) || Covers(nodes[1..], p)
  {
    hide Split;
    if Covers(nodes[1..], p) {
      var i :| 0 <= i < |nodes[1..]| && Split(nodes[1..][i].path) <= Split(p);
      assert nodes[i + 1] == nodes[1..][i];
    }
    if Covers(nodes, p) && !(Split(nodes[0].path) <= Split(p)) {
      var i :| 0 <= i < |nodes| && Split(nodes[i].path) <= Split(p);
      assert nodes[1..][i - 1] == nodes[i];
    }
  }

  lemma {:induction false} OccursOnce(notes: seq<Note>, segs: seq<string>, nodes: seq<TagNode>, p: string)
    requires Siblings(notes, segs, nodes)
    ensures Occurrences(nodes, p) == if Tagged(notes, p) && Covers(nodes, p) then 1 else 0
    decreases nodes
  {
    hide Split, Join, Count, Clean, Level, Covers, Tagged;
    if nodes == [] {
      NothingCovers(nodes, p);
    } else {
      var node := nodes[0];
      assert Node(notes, node) && Under(segs, Split(node.path));
      LevelIsSiblings(notes, Split(node.path), node.children);
      OccursOnce(notes, Split(node.path), node.children, p);
      OccursOnce(notes, segs, nodes[1..], p);
      CoversFirst(nodes, p);
      if Split(node.path) <= Split(p) { CoveredByOne(notes, segs, nodes, p); }
      OccursInNode(notes, node, p);
    }
  }

  lemma NothingCovers(nodes: seq<TagNode>, p: string)
    requires nodes == []
    ensures !Covers(nodes, p)
  {}

  lemma OccursInNode(notes: seq<Note>, node: TagNode, p: string)
    requires Node(notes, node)
    ensures node.path == p ==> Tagged(notes, p) && !Covers(node.children, p)
    ensures node.path != p && Tagged(notes, p) ==> (Covers(node.children, p) <==> Split(node.path) <= Split(p))
    ensures node.path == p ==> Split(node.path) <= Split(p)
  {
    hide Split, Join, Count, Clean;
    var segs := Split(node.path);
    if Covers(node.children, p) {
      var i :| 0 <= i < |node.children| && Split(node.children[i].path) <= Split(p);
      UnderIsOneMore(segs, Split(node.children[i].path));
    }
    if node.path != p && Tagged(notes, p) && segs <= Split(p) {
      LevelCovers(notes, segs, node.children, p);
    }
  }

  /** The nodes of the tree are exactly the paths that some live note's tag
      has as a prefix of its segments, each of them once. */
  lemma NodesAreTaggedPaths(notes: seq<Note>, tree: seq<TagNode>, p: string)
    requires Level(notes, [], tree)
    ensures Occurrences(tree, p) == if Tagged(notes, p) then 1 else 0
  {
    LevelIsSiblings(notes, [], tree);
    OccursOnce(notes, [], tree, p);
    hide Level, Siblings, Covers;
    if Tagged(notes, p) { LevelCovers(notes, [], tree, p); }
  }

  // ---- Counts add up ----

  function TagsAt(note: Note, segs: seq<string>): set<string> {
    set t | t in TagSet(note) && Segments(t) == segs
  }

  /** The pairs of a note and a tag that ends at this very path. */
  function Own(notes: seq<Note>, segs: seq<string>): nat
    decreases |notes|
  {
    if |notes| == 0 then 0 else Own(notes[..|notes| - 1], segs) + |TagsAt(notes[|notes| - 1], segs)|
  }

  function Sum(nodes: seq<TagNode>): nat
    decreases |nodes|
  {
    if |nodes| == 0 then 0 else Sum(nodes[..|nodes| - 1]) + nodes[|nodes| - 1].count
  }

  function SumCounts(notes: seq<Note>, nodes: seq<TagNode>): nat
    decreases |nodes|
  {
    if |nodes| == 0 then 0 else SumCounts(notes, nodes[..|nodes| - 1]) + Count(notes, Split(nodes[|nodes| - 1].path))
  }

  function SumUnder(note: Note, nodes: seq<TagNode>): nat
    decreases |nodes|
  {
    if |nodes| == 0 then 0 else SumUnder(note, nodes[..|nodes| - 1]) + |TagsUnder(note, Split(nodes[|nodes| - 1].path))|
  }

  ghost function UnderAny(note: Note, nodes: seq<TagNode>): set<string> {
    set t | t in TagSet(note) && exists i :: 0 <= i < |nodes| && Split(nodes[i].path) <= Segments(t)
  }

  lemma {:induction false} SumIsSumCounts(notes: seq<Note>, segs: seq<string>, nodes: seq<TagNode>)
    requires Siblings(notes, segs, nodes)
    ensures Sum(nodes) == SumCounts(notes, nodes)
    decreases |nodes|
  {
    hide Split, Join, Count, Level, Clean;
    if |nodes| > 0 {
      var n := |nodes| - 1;
      SumIsSumCounts(notes, segs, nodes[..n]);
      assert Node(notes, nodes[n]);
    }
  }

  lemma {:induction false} SumCountsOneMore(notes: seq<Note>, nodes: seq<TagNode>)
    requires |notes| > 0
    ensures SumCounts(notes, nodes) == SumCounts(notes[..|notes| - 1], nodes) + SumUnder(notes[|notes| - 1], nodes)
    decreases |nodes|
  {
    hide Split, TagsUnder;
    if |nodes| > 0 { SumCountsOneMore(notes, nodes[..|nodes| - 1]); }
  }

  lemma {:induction false} UnderAnyIsSum(notes: seq<Note>, segs: seq<string>, nodes: seq<TagNode>, note: Note)
    requires Siblings(notes, segs, nodes)
    ensures |UnderAny(note, nodes)| == SumUnder(note, nodes)
    decreases |nodes|
  {
    hide Split, Join, Count, Clean, Level, TagSet, Segments;
    if |nodes| == 0 {
      assert UnderAny(note, nodes) == {};
    } else {
      var n := |nodes| - 1;
      UnderAnyIsSum(notes, segs, nodes[..n], note);
      UnderAnySplits(notes, segs, nodes, note);
    }
  }

  lemma UnderAnySplits(notes: seq<Note>, segs: seq<string>, nodes: seq<TagNode>, note: Note)
    requires Siblings(notes, segs, nodes) && |nodes| > 0
    ensures var n := |nodes| - 1;
            |UnderAny(note, nodes)| == |UnderAny(note, nodes[..n])| + |TagsUnder(note, Split(nodes[n].path))|
  {
    hide Split, Join, Count, Clean, Level, TagSet, Segments;
    var n := |nodes| - 1;
    var a, b := UnderAny(note, nodes[..n]), TagsUnder(note, Split(nodes[n].path));
    forall t ensures t in UnderAny(note, nodes) <==> t in a || t in b {
      if t in UnderAny(note, nodes) {
        var i :| 0 <= i < |nodes| && Split(nodes[i].path) <= Segments(t);
        assert i < n ==> nodes[..n][i] == nodes[i];
      }
    }
    forall t | t in a ensures t !in b {
      var i :| 0 <= i < n && Split(nodes[..n][i].path) <= Segments(t);
      NotBoth(notes, segs, nodes, i, n, Segments(t));
    }
    assert UnderAny(note, nodes) == a + b;
    assert a !! b;
  }

  /** Every tag below `segs` ends there or lies below one of the nodes. */
  ghost predicate Complete(notes: seq<Note>, segs: seq<string>, nodes: seq<TagNode>) {
    forall note, t :: note in notes && t in TagsUnder(note, segs) ==> Segments(t) == segs || t in UnderAny(note, nodes)
  }

  lemma LevelIsComplete(notes: seq<Note>, segs: seq<string>, nodes: seq<TagNode>)
    requires Level(notes, segs, nodes)
    ensures Complete(notes, segs, nodes)
  {
    hide Split, Join, Clean, Count, TagSet, Segments, Node, UnderAny, Under;
    forall note, t | note in notes && t in TagsUnder(note, segs) && Segments(t) != segs
      ensures t in UnderAny(note, nodes)
    {
      var next := segs + [Segments(t)[|segs|]];
      assert next <= Segments(t);
      TaggedCounts(notes, note, t, next);
      var i :| 0 <= i < |nodes| && nodes[i].path == Join(next);
      CountIsClean(notes, next);
      SplitJoin(next);
      InUnderAny(note, nodes, t, i);
    }
  }

  lemma InUnderAny(note: Note, nodes: seq<TagNode>, t: string, i: nat)
    requires t in TagSet(note) && i < |nodes| && Split(nodes[i].path) <= Segments(t)
    ensures t in UnderAny(note, nodes)
  {
    hide Split, TagSet, Segments;
  }

  lemma {:induction false} TaggedCounts(notes: seq<Note>, note: Note, t: string, segs: seq<string>)
    requires note in notes && t in TagSet(note) && segs <= Segments(t)
    ensures Count(notes, segs) > 0
    decreases |notes|
  {
    hide TagSet, Segments;
    var n := |notes| - 1;
    if notes[n] == note {
      assert t in TagsUnder(notes[n], segs);
    } else {
      TaggedCounts(notes[..n], note, t, segs);
    }
  }

  lemma NoteAddsUp(notes: seq<Note>, all: seq<Note>, segs: seq<string>, nodes: seq<TagNode>, note: Note)
    requires Siblings(all, segs, nodes) && Complete(notes, segs, nodes) && note in notes
    ensures |TagsUnder(note, segs)| == |TagsAt(note, segs)| + SumUnder(note, nodes)
  {
    hide Siblings, Complete, TagsUnder, TagsAt, UnderAny, SumUnder;
    UnderAnyIsSum(all, segs, nodes, note);
    AtOrBelow(notes, all, segs, nodes, note);
  }

  lemma AtOrBelow(notes: seq<Note>, all: seq<Note>, segs: seq<string>, nodes: seq<TagNode>, note: Note)
    requires Siblings(all, segs, nodes) && Complete(notes, segs, nodes) && note in notes
    ensures TagsUnder(note, segs) == TagsAt(note, segs) + UnderAny(note, nodes)
    ensures TagsAt(note, segs) !! UnderAny(note, nodes)
  {
    hide Split, Node, TagSet, Segments;
    forall t | t in UnderAny(note, nodes) ensures t in TagsUnder(note, segs) && t !in TagsAt(note, segs) {
      var i :| 0 <= i < |nodes| && Split(nodes[i].path) <= Segments(t);
      UnderIsOneMore(segs, Split(nodes[i].path));
    }
  }

  lemma {:induction false} CountIsOwnAndSum(notes: seq<Note>, all: seq<Note>, segs: seq<string>, nodes: seq<TagNode>)
    requires Siblings(all, segs, nodes) && Complete(notes, segs, nodes)
    ensures Count(notes, segs) == Own(notes, segs) + SumCounts(notes, nodes)
    decreases |notes|
  {
    hide Siblings, TagsUnder, TagsAt, UnderAny, Split, Segments, SumUnder;
    if |notes| == 0 {
      NoNotesNoSum(notes, nodes);
    } else {
      var n := |notes| - 1;
      assert notes[n] in notes;
      NoteAddsUp(notes, all, segs, nodes, notes[n]);
      CountIsOwnAndSum(notes[..n], all, segs, nodes);
      SumCountsOneMore(notes, nodes);
    }
  }

  lemma {:induction false} NoNotesNoSum(notes: seq<Note>, nodes: seq<TagNode>)
    requires |notes| == 0
    ensures SumCounts(notes, nodes) == 0
    decreases |nodes|
  {
    hide Split;
    if |nodes| > 0 { NoNotesNoSum(notes, nodes[..|nodes| - 1]); }
  }

  /** The count of a node is what ends there plus the counts of its children, so
      it is at least their sum. */
  lemma CountsAddUp(notes: seq<Note>, node: TagNode)
    requires Node(notes, node)
    ensures node.count == Own(notes, Split(node.path)) + Sum(node.children)
  {
    var segs := Split(node.path);
    hide Level, Split, Count, Own, Join, Clean;
    LevelIsSiblings(notes, segs, node.children);
    LevelIsComplete(notes, segs, node.children);
    CountIsOwnAndSum(notes, notes, segs, node.children);
    SumIsSumCounts(notes, segs, node.children);
  }

  // ---- Pairs are not notes ----

  /** The notes that carry some tag at or below the path. */
  function NotesUnder(notes: seq<Note>, segs: seq<string>): nat
    decreases |notes|
  {
    if |notes| == 0 then 0
    else NotesUnder(notes[..|notes| - 1], segs) + if TagsUnder(notes[|notes| - 1], segs) != {} then 1 else 0
  }

  /** A count is the number of notes under the path if and only if no note has
      two different tags there; otherwise it is larger. */
  lemma {:induction false} CountIsNotesIff(notes: seq<Note>, segs: seq<string>)
    ensures Count(notes, segs) >= NotesUnder(notes, segs)
    ensures Count(notes, segs) == NotesUnder(notes, segs) <==>
            forall note :: note in notes ==> |TagsUnder(note, segs)| <= 1
    decreases |notes|
  {
    hide TagsUnder;
    if |notes| > 0 {
      var n := |notes| - 1;
      assert notes == notes[..n] + [notes[n]];
      CountIsNotesIff(notes[..n], segs);
      var under := TagsUnder(notes[n], segs);
      assert under != {} ==> |under| >= 1;
    }
  }

  /** One note tagged with a path and with a path below it counts twice. */
  lemma NestedTagsCountTwice()
    ensures var notes := [Note(false, Some(["a", "a/b"]))];
            Count(notes, ["a"]) == 2 && NotesUnder(notes, ["a"]) == 1
  {
    var note := Note(false, Some(["a", "a/b"]));
    var notes := [note];
    ExampleSegments();
    hide Segments, Trim;
    assert TagSet(note) == {"a", "a/b"};
    hide TagSet;
    assert TagsUnder(note, ["a"]) == {"a", "a/b"};
    assert notes[..0] == [];
    assert |{"a", "a/b"}| == 2;
  }

  lemma ExampleSegments()
    ensures Segments("a") == ["a"] && Segments("a/b") == ["a", "b"]
    ensures Trim("a") == "a" && Trim("a/b") == "a/b"
  {
    SplitPlain("a");
    SplitPlain("b");
    SplitFirst("a", "b");
    assert "a/b" == "a" + "/" + "b";
    hide Split;
    TrimPlain('a');
    TrimPlain('b');
    assert Named(["a"]) == ["a"] by { assert ["a"][..0] == []; }
    assert Named(["a", "b"]) == ["a", "b"] by { assert ["a", "b"][..1] == ["a"]; }
  }

  lemma TrimPlain(c: char)
    requires !IsSpace(c)
    ensures Trim([c]) == [c]
  {}
}
