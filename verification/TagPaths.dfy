/** Tags as paths: segments separated by slashes, blank ones skipped. */
module TagPaths {
  import opened Text
  import opened Conflict

  /** Split at every slash; a text without one is a single piece. */
  function Split(s: string): (pieces: seq<string>)
    ensures |pieces| > 0
    ensures forall p :: p in pieces ==> '/' !in p
  {
    if s == [] then [""]
    else
      var rest := Split(s[1..]);
      assert rest[0] in rest;
      if s[0] == '/' then [""] + rest else [[s[0]] + rest[0]] + rest[1..]
  }

  function Join(segs: seq<string>): string {
    if segs == [] then "" else if |segs| == 1 then segs[0] else segs[0] + "/" + Join(segs[1..])
  }

  /** The pieces with a name: trimmed, and not blank. */
  function Named(pieces: seq<string>): seq<string>
    decreases |pieces|
  {
    if |pieces| == 0 then []
    else
      var n := |pieces| - 1;
      Named(pieces[..n]) + if Trim(pieces[n]) == "" then [] else [Trim(pieces[n])]
  }

  function Segments(tag: string): seq<string> { Named(Split(tag)) }

  predicate CleanSegment(seg: string) { seg != "" && '/' !in seg }

  predicate Clean(segs: seq<string>) { forall seg :: seg in segs ==> CleanSegment(seg) }

  // ---- Texts and segments ----

  lemma {:induction false} TrimStartMembers(s: string)
    ensures forall c :: c in TrimStart(s) ==> c in s
  {
    if s != [] && IsSpace(s[0]) { TrimStartMembers(s[1..]); }
  }

  lemma {:induction false} TrimEndMembers(s: string)
    ensures forall c :: c in TrimEnd(s) ==> c in s
    decreases |s|
  {
    if s != [] && IsSpace(s[|s| - 1]) { TrimEndMembers(s[..|s| - 1]); }
  }

  lemma {:induction false} NamedIsClean(pieces: seq<string>)
    requires forall p :: p in pieces ==> '/' !in p
    ensures Clean(Named(pieces))
    decreases |pieces|
  {
    if |pieces| > 0 {
      var p := pieces[|pieces| - 1];
      NamedIsClean(pieces[..|pieces| - 1]);
      assert p in pieces;
      TrimStartMembers(p);
      TrimEndMembers(TrimStart(p));
    }
  }

  lemma SegmentsAreClean(tag: string)
    ensures Clean(Segments(tag))
  {
    NamedIsClean(Split(tag));
  }

  lemma {:induction false} SplitPlain(a: string)
    requires '/' !in a
    ensures Split(a) == [a]
  {
    if a != [] {
      SplitPlain(a[1..]);
      assert a == [a[0]] + a[1..];
    }
  }

  lemma {:induction false} SplitFirst(a: string, rest: string)
    requires '/' !in a
    ensures Split(a + "/" + rest) == [a] + Split(rest)
  {
    var s := a + "/" + rest;
    if a == [] {
      assert s[1..] == rest;
    } else {
      assert s[1..] == a[1..] + "/" + rest;
      SplitFirst(a[1..], rest);
      assert a == [a[0]] + a[1..];
      assert Split(s) == [[s[0]] + Split(s[1..])[0]] + Split(s[1..])[1..];
    }
  }

  /** Splitting undoes joining: a path names its segments. */
  lemma {:induction false} SplitJoin(segs: seq<string>)
    requires segs != [] && Clean(segs)
    ensures Split(Join(segs)) == segs
  {
    assert segs[0] in segs;
    if |segs| == 1 {
      SplitPlain(segs[0]);
    } else {
      SplitFirst(segs[0], Join(segs[1..]));
      assert Clean(segs[1..]);
      SplitJoin(segs[1..]);
    }
  }

  lemma {:induction false} JoinOneMore(segs: seq<string>, seg: string)
    ensures Join(segs + [seg]) == if segs == [] then seg else Join(segs) + "/" + seg
  {
    if segs != [] {
      assert (segs + [seg])[1..] == segs[1..] + [seg];
      JoinOneMore(segs[1..], seg);
      assert Join(segs + [seg]) == segs[0] + "/" + Join(segs[1..] + [seg]);
      assert |segs| == 1 ==> segs[1..] == [];
    }
  }

  lemma {:induction false} JoinIsEmptyIff(segs: seq<string>)
    requires Clean(segs)
    ensures Join(segs) == "" <==> segs == []
    ensures segs != [] ==> ('/' in Join(segs) <==> |segs| > 1)
  {
    if segs != [] { assert segs[0] in segs && CleanSegment(segs[0]); }
  }

  // ---- Sorting ----

  ghost predicate NoDuplicates<T>(s: seq<T>) { forall i, j :: 0 <= i < j < |s| ==> s[i] != s[j] }

  ghost predicate Ascending(s: seq<string>) { forall i, j :: 0 <= i < j < |s| ==> Less(s[i], s[j]) }

  function InsertText(x: string, s: seq<string>): seq<string> {
    if s == [] || !Less(s[0], x) then [x] + s else [s[0]] + InsertText(x, s[1..])
  }

  function SortedTexts(s: seq<string>): seq<string> {
    if s == [] then [] else InsertText(s[0], SortedTexts(s[1..]))
  }

  lemma {:induction false} InsertKeepsAscending(x: string, s: seq<string>)
    requires Ascending(s) && x !in s
    ensures Ascending(InsertText(x, s))
    ensures forall y :: y in InsertText(x, s) <==> y == x || y in s
  {
    if s != [] {
      assert s[0] in s;
      LessIsTotal(s[0], x);
      if Less(s[0], x) {
        InsertKeepsAscending(x, s[1..]);
        assert s == [s[0]] + s[1..];
        forall y | y in InsertText(x, s[1..]) ensures Less(s[0], y) {}
      } else {
        forall i | 0 <= i < |s| ensures Less(x, s[i]) {
          if i > 0 { LessIsTransitive(x, s[0], s[i]); }
        }
      }
    }
  }

  lemma {:induction false} SortedFacts(s: seq<string>)
    requires NoDuplicates(s)
    ensures Ascending(SortedTexts(s)) && forall y :: y in SortedTexts(s) <==> y in s
  {
    if s != [] {
      assert s == [s[0]] + s[1..];
      SortedFacts(s[1..]);
      InsertKeepsAscending(s[0], SortedTexts(s[1..]));
    }
  }

  lemma HasMember(s: seq<string>)
    requires s != []
    ensures exists x :: x in s
  {
    assert s[0] in s;
  }

  /** Only one order is ascending. */
  lemma {:induction false} AscendingIsUnique(a: seq<string>, b: seq<string>)
    requires Ascending(a) && Ascending(b) && forall x :: x in a <==> x in b
    ensures a == b
  {
    if a == [] {
      if b != [] { HasMember(b); }
    } else {
      assert a[0] in b;
      FirstIsLeast(a, b);
      forall x ensures x in a[1..] <==> x in b[1..] {
        NotFirst(a, x);
        NotFirst(b, x);
      }
      AscendingIsUnique(a[1..], b[1..]);
      assert a == [a[0]] + a[1..] && b == [b[0]] + b[1..];
    }
  }

  lemma NotFirst(a: seq<string>, x: string)
    requires Ascending(a) && a != []
    ensures x in a[1..] <==> x in a && x != a[0]
  {
    LessIsTotal(a[0], a[0]);
    if x in a[1..] {
      var i :| 0 <= i < |a[1..]| && a[1..][i] == x;
      assert Less(a[0], a[i + 1]);
    }
    if x in a && x != a[0] {
      var i :| 0 <= i < |a| && a[i] == x;
      assert a[1..][i - 1] == x;
    }
  }

  lemma FirstIsLeast(a: seq<string>, b: seq<string>)
    requires Ascending(a) && Ascending(b) && a != [] && b != [] && (forall x :: x in a <==> x in b)
    ensures a[0] == b[0]
  {
    assert a[0] in b && b[0] in a;
    if a[0] != b[0] {
      NotFirst(a, b[0]);
      NotFirst(b, a[0]);
      assert Less(a[0], b[0]);
      assert Less(b[0], a[0]);
      LessIsTotal(a[0], b[0]);
    }
  }
}
