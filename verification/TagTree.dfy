/** The tree of hierarchical tags, with a count at every node. */
module TagTree {
  import opened Events
  import opened Text
  import opened TagPaths

  /** A note's tags: none if the column is not a list of strings. */
  datatype Note = Note(deleted: bool, tags: Option<seq<string>>)

  datatype TagNode = TagNode(path: string, count: nat, children: seq<TagNode>)

  // ---- What the counts mean ----

  /** The different tags of a live note, trimmed; blank ones do not count. */
  function TagSet(note: Note): set<string> {
    if note.deleted || note.tags.None? then {} else set t | t in note.tags.value && Trim(t) != "" :: Trim(t)
  }

  function TagsUnder(note: Note, segs: seq<string>): set<string> {
    set t | t in TagSet(note) && segs <= Segments(t)
  }

  /** How many pairs of a note and one of its tags lie at or below a path. */
  function Count(notes: seq<Note>, segs: seq<string>): nat
    decreases |notes|
  {
    if |notes| == 0 then 0 else Count(notes[..|notes| - 1], segs) + |TagsUnder(notes[|notes| - 1], segs)|
  }

  /** How many notes carry the tag. */
  function Occurs(notes: seq<Note>, tag: string): nat
    decreases |notes|
  {
    if |notes| == 0 then 0
    else Occurs(notes[..|notes| - 1], tag) + if tag in TagSet(notes[|notes| - 1]) then 1 else 0
  }

  /** The nodes just below a path: each path that counts something, once, in order. */
  ghost predicate Level(notes: seq<Note>, segs: seq<string>, nodes: seq<TagNode>)
    decreases nodes
  {
    && (forall i, j :: 0 <= i < j < |nodes| ==> Conflict.Less(nodes[i].path, nodes[j].path))
    && (forall i :: 0 <= i < |nodes| ==> Under(segs, Split(nodes[i].path)) && Node(notes, nodes[i]))
    && (forall seg :: Count(notes, segs + [seg]) > 0 ==>
       exists i :: 0 <= i < |nodes| && nodes[i].path == Join(segs + [seg]))
  }

  predicate Under(segs: seq<string>, longer: seq<string>) {
    |longer| == |segs| + 1 && longer[..|segs|] == segs
  }

  ghost predicate Node(notes: seq<Note>, node: TagNode)
    decreases node
  {
    var segs := Split(node.path);
    && Clean(segs) && node.path == Join(segs) && node.count == Count(notes, segs) > 0
    && Level(notes, segs, node.children)
  }

  // ---- The loops ----

  /** A tag, or the part of one seen so far, with how often it occurs. */
  datatype Entry = Entry(segs: seq<string>, count: nat)

  function Weight(entries: seq<Entry>, segs: seq<string>): nat
    decreases |entries|
  {
    if |entries| == 0 then 0
    else
      var e := entries[|entries| - 1];
      Weight(entries[..|entries| - 1], segs) + if segs <= e.segs then e.count else 0
  }

  ghost predicate Reached(entries: seq<Entry>, segs: seq<string>) {
    exists i :: 0 <= i < |entries| && segs <= entries[i].segs
  }

  function Kids(children: map<string, seq<string>>, path: string): seq<string> {
    if path in children then children[path] else []
  }

  predicate IsPath(path: string) { Clean(Split(path)) && Join(Split(path)) == path }

  predicate IsChild(path: string, parent: string) {
    var segs := Split(path);
    |segs| > 1 && Join(segs[..|segs| - 1]) == parent
  }

  /** Each path is listed once, below its parent. */
  ghost predicate Linked(incl: map<string, nat>, children: map<string, seq<string>>) {
    && (forall p: string, c :: c in Kids(children, p) <==> c in incl && IsChild(c, p))
    && (forall p: string :: NoDuplicates(Kids(children, p)))
  }

  /** The two maps after the entries. */
  ghost predicate Tallied(entries: seq<Entry>, incl: map<string, nat>, children: map<string, seq<string>>) {
    && (forall p: string :: p in incl <==> IsPath(p) && Reached(entries, Split(p)))
    && (forall p :: p in incl ==> incl[p] == Weight(entries, Split(p)))
    && Linked(incl, children)
  }

  function Extended(entries: seq<Entry>, seg: string): seq<Entry>
    requires |entries| > 0
  {
    var n := |entries| - 1;
    entries[..n] + [Entry(entries[n].segs + [seg], entries[n].count)]
  }

  lemma PrefixOneMore(s: seq<string>, segs: seq<string>, seg: string)
    ensures s <= segs + [seg] <==> s <= segs || s == segs + [seg]
  {
    if s <= segs + [seg] && |s| <= |segs| { assert s == (segs + [seg])[..|s|] == segs[..|s|]; }
  }

  lemma ExtendedFacts(entries: seq<Entry>, seg: string, s: seq<string>)
    requires |entries| > 0
    ensures var e := entries[|entries| - 1];
            && (Reached(Extended(entries, seg), s) <==> Reached(entries, s) || s == e.segs + [seg])
            && Weight(Extended(entries, seg), s) == Weight(entries, s) + if s == e.segs + [seg] then e.count else 0
  {
    var n := |entries| - 1;
    var entries' := Extended(entries, seg);
    PrefixOneMore(s, entries[n].segs, seg);
    assert entries'[..n] == entries[..n];
    if Reached(entries, s) {
      var i :| 0 <= i < |entries| && s <= entries[i].segs;
      assert s <= entries'[i].segs;
    }
    if Reached(entries', s) {
      var i :| 0 <= i < |entries'| && s <= entries'[i].segs;
      assert i < n ==> s <= entries[i].segs;
    }
    if s == entries[n].segs + [seg] { assert s <= entries'[n].segs; }
  }

  lemma ReachedBefore(entries: seq<Entry>, n: nat, s: seq<string>)
    requires n <= |entries|
    ensures Reached(entries[..n], s) ==> Reached(entries, s)
  {
    if Reached(entries[..n], s) {
      var i :| 0 <= i < n && s <= entries[..n][i].segs;
      assert s <= entries[i].segs;
    }
  }

  lemma {:induction false} UnreachedWeighsNothing(entries: seq<Entry>, s: seq<string>)
    requires !Reached(entries, s)
    ensures Weight(entries, s) == 0
    decreases |entries|
  {
    if |entries| > 0 {
      var n := |entries| - 1;
      ReachedBefore(entries, n, s);
      UnreachedWeighsNothing(entries[..n], s);
      assert !(s <= entries[n].segs);
    }
  }

  function Raised(incl: map<string, nat>, path: string, count: nat): map<string, nat> {
    incl[path := (if path in incl then incl[path] else 0) + count]
  }

  function WithKid(children: map<string, seq<string>>, parent: string, path: string): map<string, seq<string>> {
    var kids := Kids(children, parent);
    children[parent := if path in kids then kids else kids + [path]]
  }

  /** One more segment of the tag at hand. */
  lemma TallyOneMore(entries: seq<Entry>, incl: map<string, nat>, children: map<string, seq<string>>, seg: string)
    requires Tallied(entries, incl, children) && |entries| > 0 && Clean(entries[|entries| - 1].segs + [seg])
    ensures var e := entries[|entries| - 1];
            var path := Join(e.segs + [seg]);
            Tallied(Extended(entries, seg), Raised(incl, path, e.count),
                    if e.segs == [] then children else WithKid(children, Join(e.segs), path))
  {
    var e := entries[|entries| - 1];
    var segs := e.segs + [seg];
    var path := Join(segs);
    SplitJoin(segs);
    hide Split, Join, Clean, Reached, Weight, Extended, Kids, IsChild, NoDuplicates, WithKid;
    forall p: string
      ensures p in Raised(incl, path, e.count) <==> IsPath(p) && Reached(Extended(entries, seg), Split(p))
      ensures p in Raised(incl, path, e.count) ==>
              Raised(incl, path, e.count)[p] == Weight(Extended(entries, seg), Split(p))
    {
      ExtendedFacts(entries, seg, Split(p));
      if p !in incl && IsPath(p) { UnreachedWeighsNothing(entries, Split(p)); }
    }
    assert Raised(incl, path, e.count).Keys == incl.Keys + {path};
    OnlyParent(e.segs, seg);
    KidsOneMore(incl, Raised(incl, path, e.count), children, Join(e.segs), path, e.segs != []);
  }

  lemma OnlyParent(segs: seq<string>, seg: string)
    requires Clean(segs + [seg])
    ensures var path := Join(segs + [seg]);
            forall p: string :: IsChild(path, p) <==> segs != [] && p == Join(segs)
  {
    SplitJoin(segs + [seg]);
    assert (segs + [seg])[..|segs|] == segs;
  }

  lemma KidsOneMore(incl: map<string, nat>, incl': map<string, nat>, children: map<string, seq<string>>,
                    parent: string, path: string, linked: bool)
    requires Linked(incl, children) && incl'.Keys == incl.Keys + {path}
    requires forall p: string :: IsChild(path, p) <==> linked && p == parent
    ensures Linked(incl', if linked then WithKid(children, parent, path) else children)
  {
    hide IsChild;
    var children' := if linked then WithKid(children, parent, path) else children;
    assert NoDuplicates(Kids(children, parent));
    forall p: string, c ensures c in Kids(children', p) <==> c in incl' && IsChild(c, p) {
      assert c in Kids(children, p) <==> c in incl && IsChild(c, p);
      if linked && p == parent { assert c in Kids(children', p) <==> c in Kids(children, p) || c == path; }
    }
    forall p: string ensures NoDuplicates(Kids(children', p)) {
      assert NoDuplicates(Kids(children, p));
    }
  }

  /** A tag begins: nothing of it has been seen. */
  lemma TallyNext(entries: seq<Entry>, incl: map<string, nat>, children: map<string, seq<string>>, count: nat)
    requires Tallied(entries, incl, children)
    ensures Tallied(entries + [Entry([], count)], incl, children)
  {
    var entries' := entries + [Entry([], count)];
    assert entries'[..|entries|] == entries;
    forall p: string
      ensures Reached(entries', Split(p)) <==> Reached(entries, Split(p))
      ensures Weight(entries', Split(p)) == Weight(entries, Split(p))
    {
      var s := Split(p);
      if Reached(entries, s) {
        var i :| 0 <= i < |entries| && s <= entries[i].segs;
        assert s <= entries'[i].segs;
      }
      if Reached(entries', s) {
        var i :| 0 <= i < |entries'| && s <= entries'[i].segs;
        assert s <= entries[i].segs;
      }
    }
  }

  function EntriesOf(tags: seq<string>, exact: map<string, nat>): (entries: seq<Entry>)
    requires forall t :: t in tags ==> t in exact
    ensures |entries| == |tags|
  {
    seq(|tags|, i requires 0 <= i < |tags| => Entry(Segments(tags[i]), exact[tags[i]]))
  }

  ghost predicate CountedTags(notes: seq<Note>, exact: map<string, nat>) {
    && (forall t: string :: t in exact <==> Occurs(notes, t) > 0)
    && (forall t :: t in exact ==> exact[t] == Occurs(notes, t))
  }

  ghost predicate Bumped(exact: map<string, nat>, tags: set<string>, exact': map<string, nat>) {
    && exact'.Keys == exact.Keys + tags
    && forall t :: t in exact' ==> exact'[t] == (if t in exact then exact[t] else 0) + if t in tags then 1 else 0
  }

  function Trimmed(tags: seq<string>): set<string> { set t | t in tags && Trim(t) != "" :: Trim(t) }

  method CountNote(exact: map<string, nat>, tags: seq<string>) returns (exact': map<string, nat>)
    ensures Bumped(exact, Trimmed(tags), exact')
  {
    exact' := exact;
    var seen: set<string> := {};
    for i := 0 to |tags|
      invariant seen == Trimmed(tags[..i])
      invariant Bumped(exact, seen, exact')
    {
      var tag := Trim(tags[i]);
      assert tags[..i + 1] == tags[..i] + [tags[i]];
      assert tag != "" ==> Trimmed(tags[..i + 1]) == seen + {tag};
      assert tag == "" ==> Trimmed(tags[..i + 1]) == seen;
      if tag == "" || tag in seen {
        continue;
      }
      seen := seen + {tag};
      exact' := exact'[tag := (if tag in exact' then exact'[tag] else 0) + 1];
    }
    assert tags[..|tags|] == tags;
  }

  /** How many live notes carry each tag. */
  method CountTags(notes: seq<Note>) returns (exact: map<string, nat>)
    ensures CountedTags(notes, exact)
  {
    exact := map[];
    for i := 0 to |notes|
      invariant CountedTags(notes[..i], exact)
    {
      assert notes[..i + 1][..i] == notes[..i];
      if !notes[i].deleted && notes[i].tags.Some? {
        exact := CountNote(exact, notes[i].tags.value);
      }
    }
    assert notes[..|notes|] == notes;
  }

  /** The keys of a map, in an order of the map's own. */
  method KeysOf(m: map<string, nat>) returns (keys: seq<string>)
    ensures NoDuplicates(keys) && forall k :: k in keys <==> k in m
  {
    keys := [];
    var rest := m.Keys;
    while rest != {}
      invariant rest <= m.Keys
      invariant NoDuplicates(keys) && forall k :: k in keys <==> k in m && k !in rest
      decreases |rest|
    {
      var k :| k in rest;
      rest := rest - {k};
      keys := keys + [k];
    }
  }

  /** Adds the count of one tag along its path, and notes who is below whom. */
  method TallyTag(tag: string, count: nat, incl: map<string, nat>, children: map<string, seq<string>>,
      ghost entries: seq<Entry>)
    returns (incl': map<string, nat>, children': map<string, seq<string>>)
    requires Tallied(entries, incl, children)
    ensures Tallied(entries + [Entry(Segments(tag), count)], incl', children')
  {
    hide Tallied, Split, Join, Clean, Named, Raised, WithKid, Trim;
    incl', children' := incl, children;
    var pieces := Split(tag);
    var path := "";
    NoPieces(pieces);
    TallyNext(entries, incl, children, count);
    for j := 0 to |pieces|
      invariant path == Join(Named(pieces[..j]))
      invariant Tallied(entries + [Entry(Named(pieces[..j]), count)], incl', children')
    {
      var seg := Trim(pieces[j]);
      NamedOneMore(pieces, j);
      if seg != "" {
        ghost var sofar := entries + [Entry(Named(pieces[..j]), count)];
        TallyOneMore(sofar, incl', children', seg);
        assert Extended(sofar, seg) == entries + [Entry(Named(pieces[..j + 1]), count)] by {
          assert sofar[..|entries|] == entries;
        }
        JoinOneMore(Named(pieces[..j]), seg);
        JoinIsEmptyIff(Named(pieces[..j]));
        var parent := if path == "" then None else Some(path);
        path := if path == "" then seg else path + "/" + seg;
        incl' := Raised(incl', path, count);
        if parent.Some? {
          children' := WithKid(children', parent.value, path);
        }
      }
    }
    assert pieces[..|pieces|] == pieces;
  }

  lemma NoPieces(pieces: seq<string>)
    ensures Named(pieces[..0]) == [] && Join([]) == ""
  {}

  lemma NothingTallied(tags: seq<string>, exact: map<string, nat>)
    requires forall t :: t in tags ==> t in exact
    ensures Tallied(EntriesOf(tags[..0], exact), map[], map[])
  {
    hide Segments;
  }

  lemma EntriesOneMore(tags: seq<string>, exact: map<string, nat>, i: nat)
    requires i < |tags| && forall t :: t in tags ==> t in exact
    ensures EntriesOf(tags[..i + 1], exact) == EntriesOf(tags[..i], exact) + [Entry(Segments(tags[i]), exact[tags[i]])]
  {
    hide Segments;
  }

  /** The inclusive count of every path, and the children of each. */
  method Tally(exact: map<string, nat>, tags: seq<string>)
    returns (incl: map<string, nat>, children: map<string, seq<string>>)
    requires forall t :: t in tags ==> t in exact
    ensures Tallied(EntriesOf(tags, exact), incl, children)
  {
    hide Tallied, Segments, EntriesOf;
    incl, children := map[], map[];
    NothingTallied(tags, exact);
    for i := 0 to |tags|
      invariant Tallied(EntriesOf(tags[..i], exact), incl, children)
    {
      EntriesOneMore(tags, exact, i);
      incl, children := TallyTag(tags[i], exact[tags[i]], incl, children, EntriesOf(tags[..i], exact));
    }
    assert tags[..|tags|] == tags;
  }

  lemma NamedOneMore(pieces: seq<string>, j: nat)
    requires j < |pieces| && forall p :: p in pieces ==> '/' !in p
    ensures Trim(pieces[j]) == "" ==> Named(pieces[..j + 1]) == Named(pieces[..j])
    ensures Trim(pieces[j]) != "" ==> Named(pieces[..j + 1]) == Named(pieces[..j]) + [Trim(pieces[j])]
    ensures Clean(Named(pieces[..j])) && Clean(Named(pieces[..j + 1]))
  {
    assert pieces[..j + 1][..j] == pieces[..j];
    NamedIsClean(pieces[..j]);
    NamedIsClean(pieces[..j + 1]);
  }

  // ---- Counting by tags is counting by notes ----

  function Hits(tags: seq<string>, note: Note, segs: seq<string>): set<string> {
    set t | t in tags && t in TagsUnder(note, segs)
  }

  function TagWeight(tags: seq<string>, notes: seq<Note>, segs: seq<string>): nat
    decreases |tags|
  {
    if |tags| == 0 then 0
    else
      var t := tags[|tags| - 1];
      TagWeight(tags[..|tags| - 1], notes, segs) + if segs <= Segments(t) then Occurs(notes, t) else 0
  }

  lemma {:induction false} WeightIsTagWeight(tags: seq<string>, notes: seq<Note>, exact: map<string, nat>,
      segs: seq<string>)
    requires CountedTags(notes, exact) && forall t :: t in tags ==> t in exact
    ensures Weight(EntriesOf(tags, exact), segs) == TagWeight(tags, notes, segs)
    decreases |tags|
  {
    hide Segments, Occurs;
    if |tags| > 0 {
      var n := |tags| - 1;
      assert EntriesOf(tags, exact)[..n] == EntriesOf(tags[..n], exact);
      assert tags[n] in tags;
      WeightIsTagWeight(tags[..n], notes, exact, segs);
    }
  }

  /** One note more adds one for each of its tags below the path. */
  lemma {:induction false} TagWeightOneMore(tags: seq<string>, notes: seq<Note>, segs: seq<string>)
    requires NoDuplicates(tags) && |notes| > 0
    ensures TagWeight(tags, notes, segs) ==
      TagWeight(tags, notes[..|notes| - 1], segs) + |Hits(tags, notes[|notes| - 1], segs)|
    decreases |tags|
  {
    hide Segments, TagSet;
    var note := notes[|notes| - 1];
    if |tags| == 0 {
      assert Hits(tags, note, segs) == {};
    } else {
      var n := |tags| - 1;
      TagWeightOneMore(tags[..n], notes, segs);
      HitsOneMore(tags, note, segs);
    }
  }

  lemma HitsOneMore(tags: seq<string>, note: Note, segs: seq<string>)
    requires NoDuplicates(tags) && |tags| > 0
    ensures var n := |tags| - 1;
            |Hits(tags, note, segs)| ==
              |Hits(tags[..n], note, segs)| + if tags[n] in TagsUnder(note, segs) then 1 else 0
  {
    hide TagsUnder;
    var n := |tags| - 1;
    assert tags == tags[..n] + [tags[n]];
    if tags[n] in TagsUnder(note, segs) {
      assert Hits(tags, note, segs) == Hits(tags[..n], note, segs) + {tags[n]};
      assert tags[n] !in tags[..n];
    } else {
      assert Hits(tags, note, segs) == Hits(tags[..n], note, segs);
    }
  }

  lemma {:induction false} TagWeightIsCount(tags: seq<string>, notes: seq<Note>, segs: seq<string>)
    requires NoDuplicates(tags) && forall note, t :: note in notes && t in TagSet(note) ==> t in tags
    ensures TagWeight(tags, notes, segs) == Count(notes, segs)
    decreases |notes|
  {
    hide TagSet, Segments, Hits;
    if |notes| == 0 {
      NoNotesWeighNothing(tags, notes, segs);
    } else {
      var note := notes[|notes| - 1];
      assert note in notes;
      TagWeightOneMore(tags, notes, segs);
      AllHit(tags, note, segs);
      TagWeightIsCount(tags, notes[..|notes| - 1], segs);
    }
  }

  lemma AllHit(tags: seq<string>, note: Note, segs: seq<string>)
    requires forall t :: t in TagSet(note) ==> t in tags
    ensures Hits(tags, note, segs) == TagsUnder(note, segs)
  {
    hide TagSet, Segments;
  }

  lemma {:induction false} NoNotesWeighNothing(tags: seq<string>, notes: seq<Note>, segs: seq<string>)
    requires |notes| == 0
    ensures TagWeight(tags, notes, segs) == 0
    decreases |tags|
  {
    hide Segments;
    if |tags| > 0 { NoNotesWeighNothing(tags[..|tags| - 1], notes, segs); }
  }

  lemma {:induction false} TagOccurs(notes: seq<Note>, i: nat, t: string)
    requires i < |notes| && t in TagSet(notes[i])
    ensures Occurs(notes, t) > 0
    decreases |notes|
  {
    hide TagSet;
    var n := |notes| - 1;
    if i < n { TagOccurs(notes[..n], i, t); }
  }

  lemma {:induction false} WeightIfReached(entries: seq<Entry>, segs: seq<string>)
    requires forall e :: e in entries ==> e.count > 0
    ensures Reached(entries, segs) <==> Weight(entries, segs) > 0
    decreases |entries|
  {
    if |entries| > 0 {
      var n := |entries| - 1;
      WeightIfReached(entries[..n], segs);
      ReachedBefore(entries, n, segs);
      assert entries[n] in entries;
      if Reached(entries, segs) {
        var i :| 0 <= i < |entries| && segs <= entries[i].segs;
        assert i < n ==> segs <= entries[..n][i].segs;
      }
    }
  }

  /** The inclusive counts, as pairs of notes and tags. */
  ghost predicate Exact(notes: seq<Note>, incl: map<string, nat>, children: map<string, seq<string>>) {
    && (forall p: string :: p in incl <==> IsPath(p) && Count(notes, Split(p)) > 0)
    && (forall p :: p in incl ==> incl[p] == Count(notes, Split(p)))
    && Linked(incl, children)
  }

  lemma TalliedIsExact(notes: seq<Note>, exact: map<string, nat>, tags: seq<string>, incl: map<string, nat>,
      children: map<string, seq<string>>)
    requires CountedTags(notes, exact) && NoDuplicates(tags) && forall t :: t in tags <==> t in exact
    requires Tallied(EntriesOf(tags, exact), incl, children)
    ensures Exact(notes, incl, children)
  {
    hide EntriesOf, Segments, TagSet, Occurs, Weight, Reached, Split, Linked, CountedTags, IsPath, Count, NoDuplicates;
    EveryTagListed(notes, exact, tags);
    EntriesCount(notes, exact, tags);
    var entries := EntriesOf(tags, exact);
    forall p: string
      ensures Weight(entries, Split(p)) == Count(notes, Split(p))
      ensures Reached(entries, Split(p)) <==> Count(notes, Split(p)) > 0
    {
      WeightIsTagWeight(tags, notes, exact, Split(p));
      TagWeightIsCount(tags, notes, Split(p));
      WeightIfReached(entries, Split(p));
    }
  }

  lemma EveryTagListed(notes: seq<Note>, exact: map<string, nat>, tags: seq<string>)
    requires CountedTags(notes, exact) && forall t :: t in tags <==> t in exact
    ensures forall note, t :: note in notes && t in TagSet(note) ==> t in tags
  {
    hide TagSet, Occurs;
    forall note, t | note in notes && t in TagSet(note) ensures t in tags {
      var i :| 0 <= i < |notes| && notes[i] == note;
      TagOccurs(notes, i, t);
    }
  }

  lemma EntriesCount(notes: seq<Note>, exact: map<string, nat>, tags: seq<string>)
    requires CountedTags(notes, exact) && forall t :: t in tags <==> t in exact
    ensures forall e :: e in EntriesOf(tags, exact) ==> e.count > 0
  {
    hide Occurs, Segments;
    var entries := EntriesOf(tags, exact);
    forall i | 0 <= i < |entries| ensures entries[i].count > 0 { assert tags[i] in tags; }
  }

  // ---- Building the tree ----

  /** Children are longer than their parents, so the recursion ends. */
  ghost predicate Grows(children: map<string, seq<string>>, bound: nat) {
    && (forall p: string, c :: c in Kids(children, p) ==> |p| < |c| <= bound)
    && (forall p: string :: NoDuplicates(Kids(children, p)))
  }

  function Build(path: string, incl: map<string, nat>, children: map<string, seq<string>>, ghost bound: nat): TagNode
    requires Grows(children, bound) && |path| <= bound
    decreases bound - |path|
  {
    SortedFacts(Kids(children, path));
    var sorted := SortedTexts(Kids(children, path));
    assert forall i :: 0 <= i < |sorted| ==> sorted[i] in sorted;
    TagNode(path, if path in incl then incl[path] else 0,
            seq(|sorted|, i requires 0 <= i < |sorted| => Build(sorted[i], incl, children, bound)))
  }

  function LongestOf(paths: seq<string>): nat {
    if paths == [] then 0 else if |paths[0]| > LongestOf(paths[1..]) then |paths[0]| else LongestOf(paths[1..])
  }

  lemma {:induction false} LongestFacts(paths: seq<string>)
    ensures forall p :: p in paths ==> |p| <= LongestOf(paths)
  {
    if paths != [] {
      LongestFacts(paths[1..]);
      assert paths == [paths[0]] + paths[1..];
    }
  }

  lemma ParentFacts(c: string, p: string)
    requires IsPath(c) && IsChild(c, p)
    ensures |p| < |c| && Split(p) == Split(c)[..|Split(c)| - 1]
  {
    hide Split, Join;
    var segs := Split(c);
    var n := |segs| - 1;
    assert segs == segs[..n] + [segs[n]];
    JoinOneMore(segs[..n], segs[n]);
    PrefixIsClean(segs[..n], segs);
    SplitJoin(segs[..n]);
  }

  lemma ChildIsLonger(notes: seq<Note>, incl: map<string, nat>, children: map<string, seq<string>>, p: string,
      c: string)
    requires Exact(notes, incl, children) && c in Kids(children, p)
    ensures c in incl && |p| < |c| && IsPath(c) && IsChild(c, p) && Split(p) == Split(c)[..|Split(c)| - 1]
  {
    hide Split, Join, IsPath, IsChild, Count, NoDuplicates;
    ParentFacts(c, p);
  }

  lemma ExactGrows(notes: seq<Note>, incl: map<string, nat>, children: map<string, seq<string>>, paths: seq<string>)
    requires Exact(notes, incl, children) && forall p :: p in paths <==> p in incl
    ensures Grows(children, LongestOf(paths))
  {
    LongestFacts(paths);
    forall p: string, c | c in Kids(children, p) ensures |p| < |c| <= LongestOf(paths) {
      ChildIsLonger(notes, incl, children, p, c);
    }
  }

  lemma {:induction false} CountIsClean(notes: seq<Note>, segs: seq<string>)
    requires Count(notes, segs) > 0
    ensures Clean(segs)
    decreases |notes|
  {
    hide Segments, Clean;
    var note := notes[|notes| - 1];
    if TagsUnder(note, segs) != {} {
      var t :| t in TagsUnder(note, segs);
      SegmentsAreClean(t);
      PrefixIsClean(segs, Segments(t));
    } else {
      CountIsClean(notes[..|notes| - 1], segs);
    }
  }

  lemma PrefixIsClean(segs: seq<string>, longer: seq<string>)
    requires segs <= longer && Clean(longer)
    ensures Clean(segs)
  {
    forall seg | seg in segs ensures CleanSegment(seg) { assert seg in longer; }
  }

  /** Every path that counts something is in the map. */
  lemma CountedIsIn(notes: seq<Note>, incl: map<string, nat>, children: map<string, seq<string>>, segs: seq<string>)
    requires Exact(notes, incl, children) && segs != [] && Count(notes, segs) > 0
    ensures Join(segs) in incl && Split(Join(segs)) == segs
  {
    CountIsClean(notes, segs);
    SplitJoin(segs);
  }

  lemma ChildrenAreLevel(notes: seq<Note>, incl: map<string, nat>, children: map<string, seq<string>>, path: string,
      nodes: seq<TagNode>)
    requires Exact(notes, incl, children) && NoDuplicates(Kids(children, path)) && IsPath(path)
    requires var sorted := SortedTexts(Kids(children, path));
             |nodes| == |sorted| && forall i :: 0 <= i < |nodes| ==> nodes[i].path == sorted[i] && Node(notes, nodes[i])
    ensures Level(notes, Split(path), nodes)
  {
    hide Split, Join, Count, Clean, SortedTexts, Exact, Kids, IsPath, Node;
    var sorted := SortedTexts(Kids(children, path));
    SortedKids(children, path);
    forall i | 0 <= i < |nodes| ensures Under(Split(path), Split(nodes[i].path)) {
      assert sorted[i] in sorted;
      ChildIsLonger(notes, incl, children, path, sorted[i]);
    }
    forall seg | Count(notes, Split(path) + [seg]) > 0
      ensures exists i :: 0 <= i < |nodes| && nodes[i].path == Join(Split(path) + [seg])
    {
      ChildIsListed(notes, incl, children, path, seg);
      var i :| 0 <= i < |sorted| && sorted[i] == Join(Split(path) + [seg]);
    }
  }

  lemma {:induction false} BuildIsNode(notes: seq<Note>, path: string, incl: map<string, nat>,
      children: map<string, seq<string>>, bound: nat)
    requires Exact(notes, incl, children) && Grows(children, bound) && |path| <= bound && path in incl
    ensures Node(notes, Build(path, incl, children, bound)) && Build(path, incl, children, bound).path == path
    decreases bound - |path|
  {
    hide Split, Join, Count, Clean, SortedTexts, LongestOf, Linked, Level, Kids, NoDuplicates;
    var sorted := SortedTexts(Kids(children, path));
    assert IsPath(path) && NoDuplicates(Kids(children, path));
    var node := Build(path, incl, children, bound);
    assert node.path == path && node.count == Count(notes, Split(path)) && |node.children| == |sorted|;
    hide Exact, IsPath, Node;
    SortedKids(children, path);
    forall i | 0 <= i < |sorted| ensures node.children[i].path == sorted[i] && Node(notes, node.children[i]) {
      assert sorted[i] in sorted;
      ChildIsLonger(notes, incl, children, path, sorted[i]);
      BuildIsNode(notes, sorted[i], incl, children, bound);
      assert node.children[i] == Build(sorted[i], incl, children, bound);
    }
    hide Build;
    ChildrenAreLevel(notes, incl, children, path, node.children);
    NodeOf(notes, incl, children, node);
  }

  lemma NodeOf(notes: seq<Note>, incl: map<string, nat>, children: map<string, seq<string>>, node: TagNode)
    requires Exact(notes, incl, children) && node.path in incl && node.count == Count(notes, Split(node.path))
    requires Level(notes, Split(node.path), node.children)
    ensures Node(notes, node)
  {
    hide Split, Join, Count, Clean, Linked, Level;
    assert IsPath(node.path);
  }

  lemma SortedKids(children: map<string, seq<string>>, path: string)
    requires NoDuplicates(Kids(children, path))
    ensures var sorted := SortedTexts(Kids(children, path));
            && (forall i, j :: 0 <= i < j < |sorted| ==> Conflict.Less(sorted[i], sorted[j]))
            && (forall c :: c in sorted <==> c in Kids(children, path))
  {
    SortedFacts(Kids(children, path));
    hide SortedTexts;
  }

  lemma ChildIsListed(notes: seq<Note>, incl: map<string, nat>, children: map<string, seq<string>>, path: string,
      seg: string)
    requires Exact(notes, incl, children) && IsPath(path) && Count(notes, Split(path) + [seg]) > 0
    ensures Join(Split(path) + [seg]) in Kids(children, path)
  {
    var segs := Split(path) + [seg];
    CountedIsIn(notes, incl, children, segs);
    assert segs[..|segs| - 1] == Split(path);
    hide Split, Join;
    assert IsChild(Join(segs), path);
  }

  /** The roots: paths of a single segment. */
  method RootsOf(paths: seq<string>) returns (roots: seq<string>)
    requires NoDuplicates(paths)
    ensures NoDuplicates(roots) && forall p :: p in roots <==> p in paths && '/' !in p
  {
    roots := [];
    for i := 0 to |paths|
      invariant NoDuplicates(roots) && forall p :: p in roots <==> p in paths[..i] && '/' !in p
    {
      if '/' !in paths[i] {
        roots := roots + [paths[i]];
      }
    }
  }

  lemma RootsAreLevel(notes: seq<Note>, incl: map<string, nat>, children: map<string, seq<string>>, roots: seq<string>,
      tree: seq<TagNode>)
    requires Exact(notes, incl, children) && Ascending(roots) && forall p :: p in roots <==> p in incl && '/' !in p
    requires |tree| == |roots| && forall i :: 0 <= i < |tree| ==> tree[i].path == roots[i] && Node(notes, tree[i])
    ensures Level(notes, [], tree)
  {
    hide Split, Join, Count, Clean, Node;
    forall i | 0 <= i < |tree| ensures Under([], Split(tree[i].path)) {
      assert roots[i] in roots;
      JoinIsEmptyIff(Split(roots[i]));
    }
    forall seg | Count(notes, [] + [seg]) > 0 ensures exists i :: 0 <= i < |tree| && tree[i].path == Join([] + [seg]) {
      CountedIsIn(notes, incl, children, [] + [seg]);
      CountIsClean(notes, [] + [seg]);
      JoinIsEmptyIff([] + [seg]);
      var i :| 0 <= i < |roots| && roots[i] == Join([] + [seg]);
    }
  }

  /** The tag tree of all live notes. */
  method GetTagTree(notes: seq<Note>) returns (tree: seq<TagNode>)
    ensures Level(notes, [], tree)
  {
    hide Tallied, EntriesOf, CountedTags, Exact, NoDuplicates, Node, Level, Grows, LongestOf;
    var exact := CountTags(notes);
    var tags := KeysOf(exact);
    var incl, children := Tally(exact, tags);
    TalliedIsExact(notes, exact, tags, incl, children);
    var paths := KeysOf(incl);
    ghost var bound := LongestOf(paths);
    ExactGrows(notes, incl, children, paths);
    LongestFacts(paths);
    var unsorted := RootsOf(paths);
    SortedFacts(unsorted);
    var roots := SortedTexts(unsorted);
    tree := [];
    for i := 0 to |roots|
      invariant |tree| == i && forall k :: 0 <= k < i ==> tree[k].path == roots[k] && Node(notes, tree[k])
    {
      assert roots[i] in roots;
      BuildIsNode(notes, roots[i], incl, children, bound);
      tree := tree + [Build(roots[i], incl, children, bound)];
    }
    RootsAreLevel(notes, incl, children, roots, tree);
  }
}
