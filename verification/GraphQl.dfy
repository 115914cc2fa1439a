/**
 The root-field limit of the GraphQL endpoint: counting through inline fragments and fragment spreads ends on every
 document, never counts less than an execution collects, and counts the fields of the fully inlined operation wherever
 that is finite.
 */
module GraphQl {
  import opened Basics

  datatype Selection = Field(alias_: string) | InlineFragment(selections: seq<Selection>) | Spread(name: string)

  type Fragments = map<string, seq<Selection>>

  lemma SeenMore(fs: Fragments, seen: set<string>, name: string)
    requires name in fs && name !in seen
    ensures |fs.Keys - (seen + {name})| < |fs.Keys - seen|
  {
    assert fs.Keys - (seen + {name}) == (fs.Keys - seen) - {name};
  }

  /** `count`: a spread counts as its fragment, except along a path that already went through it. */
  function Count(fs: Fragments, selections: seq<Selection>, seen: set<string>): nat
    decreases |fs.Keys - seen|, selections
  {
    if selections == [] then 0
    else
      Count(fs, selections[..|selections| - 1], seen) +
      match selections[|selections| - 1]
      case Field(_) => 1
      case InlineFragment(inner) => Count(fs, inner, seen)
      case Spread(name) =>
        if name !in fs || name in seen then 0
        else
          SeenMore(fs, seen, name);
          Count(fs, fs[name], seen + {name})
  }

  /** The rule's verdict on an operation. */
  predicate TooMany(fs: Fragments, operation: seq<Selection>, max: nat) {
    Count(fs, operation, {}) > max
  }

  // -- Which fragments reach which -------------------------------------------------------------------

  /** The spreads of a selection set, at any depth of inline fragments. */
  function Spreads(selections: seq<Selection>): set<string> {
    if selections == [] then {}
    else
      Spreads(selections[..|selections| - 1]) +
      match selections[|selections| - 1]
      case Field(_) => {}
      case InlineFragment(inner) => Spreads(inner)
      case Spread(name) => {name}
  }

  ghost predicate IsPath(fs: Fragments, p: seq<string>) {
    && |p| >= 2 && (forall i | 0 <= i < |p| :: p[i] in fs)
    && forall i | 0 < i < |p| :: p[i] in Spreads(fs[p[i - 1]])
  }

  ghost predicate Reaches(fs: Fragments, f: string, g: string) {
    exists p :: IsPath(fs, p) && p[0] == f && p[|p| - 1] == g
  }

  /** A fragment that these selections spread, directly or through others. */
  ghost predicate Within(fs: Fragments, selections: seq<Selection>, f: string) {
    f in fs && (f in Spreads(selections) || exists g :: g in fs && g in Spreads(selections) && Reaches(fs, g, f))
  }

  /** None of those fragments spreads itself, directly or through others. The rest of the document may. */
  ghost predicate Acyclic(fs: Fragments, selections: seq<Selection>) {
    forall f | Within(fs, selections, f) :: !Reaches(fs, f, f)
  }

  ghost function Reachable(fs: Fragments, f: string): set<string> {
    set g | g in fs && Reaches(fs, f, g)
  }

  lemma ReachesNext(fs: Fragments, f: string, g: string, h: string)
    requires f in fs && g in fs && g in Spreads(fs[f])
    ensures Reaches(fs, f, g)
    ensures Reaches(fs, g, h) ==> Reaches(fs, f, h)
  {
    assert IsPath(fs, [f, g]);
    if Reaches(fs, g, h) {
      var p :| IsPath(fs, p) && p[0] == g && p[|p| - 1] == h;
      var q := [f] + p;
      forall i | 0 < i < |q| ensures q[i] in Spreads(fs[q[i - 1]]) {
        if i > 1 {
          assert q[i] == p[i - 1] && q[i - 1] == p[i - 2];
        }
      }
      assert IsPath(fs, q);
    }
  }

  lemma PartIsAcyclic(fs: Fragments, selections: seq<Selection>, part: seq<Selection>)
    requires Acyclic(fs, selections) && Spreads(part) <= Spreads(selections)
    ensures Acyclic(fs, part)
  {
    hide Reaches, Spreads;
    forall f | Within(fs, part, f) ensures !Reaches(fs, f, f) {
      assert Within(fs, selections, f);
    }
  }

  lemma FragmentIsAcyclic(fs: Fragments, selections: seq<Selection>, name: string)
    requires Acyclic(fs, selections) && name in Spreads(selections) && name in fs
    ensures Acyclic(fs, fs[name])
  {
    hide Reaches, Spreads;
    forall f | Within(fs, fs[name], f) ensures !Reaches(fs, f, f) {
      if f in Spreads(fs[name]) {
        ReachesNext(fs, name, f, f);
      } else {
        var g :| g in fs && g in Spreads(fs[name]) && Reaches(fs, g, f);
        ReachesNext(fs, name, g, f);
      }
      assert Within(fs, selections, f);
    }
  }

  /** A fragment reaches more fragments than one it spreads that is not on a cycle. */
  lemma ReachesMore(fs: Fragments, f: string, g: string)
    requires !Reaches(fs, g, g) && f in fs && g in fs && g in Spreads(fs[f])
    ensures |Reachable(fs, g)| < |Reachable(fs, f)|
  {
    forall h | h in Reachable(fs, g) ensures h in Reachable(fs, f) {
      ReachesNext(fs, f, g, h);
    }
    ReachesNext(fs, f, g, g);
    assert g in Reachable(fs, f) && g !in Reachable(fs, g);
    SubsetSize(Reachable(fs, g), Reachable(fs, f) - {g});
  }

  // -- Full inlining ---------------------------------------------------------------------------------

  /** More than any defined spread of the selection set reaches. */
  ghost function Height(fs: Fragments, selections: seq<Selection>): nat {
    if selections == [] then 0
    else
      Max(Height(fs, selections[..|selections| - 1]),
          match selections[|selections| - 1]
          case Field(_) => 0
          case InlineFragment(inner) => Height(fs, inner)
          case Spread(name) => if name in fs then |Reachable(fs, name)| + 1 else 0)
  }

  lemma {:induction false} HeightBound(fs: Fragments, selections: seq<Selection>, bound: nat)
    requires forall g | g in Spreads(selections) && g in fs :: |Reachable(fs, g)| < bound
    ensures Height(fs, selections) <= bound
  {
    hide Reachable;
    if selections != [] {
      var last := selections[|selections| - 1];
      assert forall g | g in Spreads(selections[..|selections| - 1]) :: g in Spreads(selections);
      HeightBound(fs, selections[..|selections| - 1], bound);
      if last.InlineFragment? {
        assert forall g | g in Spreads(last.selections) :: g in Spreads(selections);
        HeightBound(fs, last.selections, bound);
      } else if last.Spread? {
        assert last.name in Spreads(selections);
      }
    }
  }

  lemma FragmentIsLower(fs: Fragments, name: string)
    requires name in fs && Acyclic(fs, fs[name])
    ensures Height(fs, fs[name]) <= |Reachable(fs, name)|
  {
    forall g | g in Spreads(fs[name]) && g in fs ensures |Reachable(fs, g)| < |Reachable(fs, name)| {
      assert Within(fs, fs[name], g);
      ReachesMore(fs, name, g);
    }
    HeightBound(fs, fs[name], |Reachable(fs, name)|);
  }

  /** The root fields once every fragment is written out in place; an undefined spread adds none. */
  ghost function Inlined(fs: Fragments, selections: seq<Selection>): seq<string>
    requires Acyclic(fs, selections)
    decreases Height(fs, selections), selections
  {
    if selections == [] then []
    else
      PartIsAcyclic(fs, selections, selections[..|selections| - 1]);
      Inlined(fs, selections[..|selections| - 1]) +
      match selections[|selections| - 1]
      case Field(alias_) => [alias_]
      case InlineFragment(inner) =>
        PartIsAcyclic(fs, selections, inner);
        Inlined(fs, inner)
      case Spread(name) =>
        if name !in fs then []
        else
          FragmentIsAcyclic(fs, selections, name);
          FragmentIsLower(fs, name);
          Inlined(fs, fs[name])
  }

  /** No fragment on the path to these selections is within reach of them. */
  ghost predicate PathIsAbove(fs: Fragments, selections: seq<Selection>, seen: set<string>) {
    forall g, h | g in Spreads(selections) && g in fs && h in seen :: g != h && !Reaches(fs, g, h)
  }

  lemma SpreadKeepsAbove(fs: Fragments, selections: seq<Selection>, seen: set<string>, name: string)
    requires Acyclic(fs, selections) && PathIsAbove(fs, selections, seen) && name in Spreads(selections) && name in fs
    ensures PathIsAbove(fs, fs[name], seen + {name})
  {
    forall g, h | g in Spreads(fs[name]) && g in fs && h in seen + {name} ensures g != h && !Reaches(fs, g, h) {
      ReachesNext(fs, name, g, h);
      assert Within(fs, selections, name);
      assert !Reaches(fs, name, h);
    }
  }

  lemma PartIsAbove(fs: Fragments, selections: seq<Selection>, part: seq<Selection>, seen: set<string>)
    requires PathIsAbove(fs, selections, seen) && Spreads(part) <= Spreads(selections)
    ensures PathIsAbove(fs, part, seen)
  {
    hide Reaches, Spreads;
  }

  lemma NotSeen(fs: Fragments, selections: seq<Selection>, seen: set<string>, name: string)
    requires PathIsAbove(fs, selections, seen) && name in Spreads(selections) && name in fs
    ensures name !in seen
  {
    hide Reaches, Spreads;
  }

  lemma {:induction false} CountAlongPath(fs: Fragments, selections: seq<Selection>, seen: set<string>)
    requires Acyclic(fs, selections) && PathIsAbove(fs, selections, seen)
    ensures Count(fs, selections, seen) == |Inlined(fs, selections)|
    decreases |fs.Keys - seen|, selections
  {
    hide Acyclic, PathIsAbove;
    if selections != [] {
      var last := selections[|selections| - 1];
      PartIsAcyclic(fs, selections, selections[..|selections| - 1]);
      PartIsAbove(fs, selections, selections[..|selections| - 1], seen);
      CountAlongPath(fs, selections[..|selections| - 1], seen);
      if last.InlineFragment? {
        PartIsAcyclic(fs, selections, last.selections);
        PartIsAbove(fs, selections, last.selections, seen);
        CountAlongPath(fs, last.selections, seen);
      } else if last.Spread? && last.name in fs {
        assert last.name in Spreads(selections);
        NotSeen(fs, selections, seen, last.name);
        SeenMore(fs, seen, last.name);
        FragmentIsAcyclic(fs, selections, last.name);
        SpreadKeepsAbove(fs, selections, seen, last.name);
        CountAlongPath(fs, fs[last.name], seen + {last.name});
      }
    }
  }

  /** Where no fragment that the operation reaches is on a cycle, the count is the number of root fields of the fully
      inlined operation. */
  lemma CountIsInlined(fs: Fragments, operation: seq<Selection>, max: nat)
    requires Acyclic(fs, operation)
    ensures Count(fs, operation, {}) == |Inlined(fs, operation)|
    ensures TooMany(fs, operation, max) <==> |Inlined(fs, operation)| > max
  {
    CountAlongPath(fs, operation, {});
  }

  // -- All documents ---------------------------------------------------------------------------------

  datatype Collection = Collection(fields: seq<string>, visited: set<string>)

  /** CollectFields (section 6.3.2 of the GraphQL specification) for one type: an execution enters each fragment once. */
  function Collect(fs: Fragments, selections: seq<Selection>, visited: set<string>): (c: Collection)
    ensures visited <= c.visited
    decreases |fs.Keys - visited|, selections
  {
    if selections == [] then Collection([], visited)
    else
      var c := Collect(fs, selections[..|selections| - 1], visited);
      SubsetSize(fs.Keys - c.visited, fs.Keys - visited);
      match selections[|selections| - 1]
      case Field(alias_) => Collection(c.fields + [alias_], c.visited)
      case InlineFragment(inner) =>
        var d := Collect(fs, inner, c.visited);
        Collection(c.fields + d.fields, d.visited)
      case Spread(name) =>
        if name !in fs || name in c.visited then c
        else
          SeenMore(fs, c.visited, name);
          var d := Collect(fs, fs[name], c.visited + {name});
          Collection(c.fields + d.fields, d.visited)
  }

  /** On every document, with cycles or without, an operation is counted with at least the root fields that its execution
      collects, so the limit cannot be passed by. */
  lemma {:induction false} CollectsNoMore(fs: Fragments, selections: seq<Selection>, visited: set<string>,
                                          seen: set<string>)
    requires seen <= visited
    ensures |Collect(fs, selections, visited).fields| <= Count(fs, selections, seen)
    decreases |fs.Keys - visited|, selections
  {
    if selections != [] {
      var front, last := selections[..|selections| - 1], selections[|selections| - 1];
      CollectsNoMore(fs, front, visited, seen);
      var c := Collect(fs, front, visited);
      SubsetSize(fs.Keys - c.visited, fs.Keys - visited);
      if last.InlineFragment? {
        CollectsNoMore(fs, last.selections, c.visited, seen);
      } else if last.Spread? && last.name in fs && last.name !in c.visited {
        SeenMore(fs, c.visited, last.name);
        CollectsNoMore(fs, fs[last.name], c.visited + {last.name}, seen + {last.name});
      }
    }
  }

  /** Inside a fragment the count is that of a document without the fragment: this is how cycles are cut. */
  lemma {:induction false} SeenIsUndefined(fs: Fragments, selections: seq<Selection>, seen: set<string>)
    ensures Count(fs, selections, seen) == Count(fs - seen, selections, {})
    decreases |fs.Keys - seen|, selections
  {
    if selections != [] {
      var last, none: set<string> := selections[|selections| - 1], {};
      SeenIsUndefined(fs, selections[..|selections| - 1], seen);
      if last.InlineFragment? {
        SeenIsUndefined(fs, last.selections, seen);
      } else if last.Spread? && last.name in fs && last.name !in seen {
        var rest, once := fs - seen, none + {last.name};
        SeenMore(fs, seen, last.name);
        SeenIsUndefined(fs, fs[last.name], seen + {last.name});
        assert rest.Keys - once == fs.Keys - (seen + {last.name});
        SeenIsUndefined(rest, fs[last.name], once);
        assert rest - once == fs - (seen + {last.name});
      }
    }
  }

  /** Passing through more fragments never counts more, so cutting cycles never refuses an operation for fields that the
      plain document does not hold. */
  lemma {:induction false} SeenCountsLess(fs: Fragments, selections: seq<Selection>, seen: set<string>,
                                          more: set<string>)
    requires seen <= more
    ensures Count(fs, selections, more) <= Count(fs, selections, seen)
    decreases |fs.Keys - seen|, selections
  {
    if selections != [] {
      var last := selections[|selections| - 1];
      SeenCountsLess(fs, selections[..|selections| - 1], seen, more);
      if last.InlineFragment? {
        SeenCountsLess(fs, last.selections, seen, more);
      } else if last.Spread? && last.name in fs && last.name !in more {
        SeenMore(fs, seen, last.name);
        SeenCountsLess(fs, fs[last.name], seen + {last.name}, more + {last.name});
      }
    }
  }
}
