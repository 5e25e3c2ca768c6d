/** The walk over a parsed camera XML document, with an explicit stack in place of recursion.
    Comments and processing instructions are elements without a string tag.
 */
module XmlWalk {
  import opened Options

  datatype Element = Element(tag: Option<string>, children: seq<Element>)

  type Path = seq<string>

  datatype Visit = Visit(element: Element, path: Path)

  function AfterBrace(tag: string): string {
    if tag == [] || tag[|tag| - 1] == '}' then [] else AfterBrace(tag[..|tag| - 1]) + [tag[|tag| - 1]]
  }

  // The tag without its namespace; empty for a comment or processing instruction.
  function LocalName(e: Element): string { if e.tag.None? then [] else AfterBrace(e.tag.value) }

  predicate Named(e: Element, skip: set<string>) { LocalName(e) != [] && LocalName(e) !in skip }

  /** The local name is what follows the last brace of the tag, all of it if there is none. */
  lemma {:induction false} LocalNameIs(tag: string) returns (namespace: string)
    ensures tag == namespace + AfterBrace(tag) && '}' !in AfterBrace(tag)
    ensures namespace == [] || namespace[|namespace| - 1] == '}'
  {
    if tag == [] || tag[|tag| - 1] == '}' {
      namespace := tag;
      assert tag == tag + [];
    } else {
      var n := |tag| - 1;
      namespace := LocalNameIs(tag[..n]);
      assert tag == tag[..n] + [tag[n]];
    }
  }

  // ---------------------------------------------------------------------------------------
  // The recursive walk
  // ---------------------------------------------------------------------------------------

  // An element and its descendants in document order, pruned below a skipped or unnamed
  // element and below the depth cap. path is that of the parent.
  function Walk(e: Element, path: Path, skip: set<string>, maxDepth: int): seq<Visit>
    decreases e, 1
  {
    if !Named(e, skip) || |path| >= maxDepth then []
    else [Visit(e, path + [LocalName(e)])] + WalkAll(e.children, path + [LocalName(e)], skip, maxDepth)
  }

  function WalkAll(es: seq<Element>, path: Path, skip: set<string>, maxDepth: int): seq<Visit>
    decreases es, 0
  {
    if es == [] then [] else Walk(es[0], path, skip, maxDepth) + WalkAll(es[1..], path, skip, maxDepth)
  }

  // Whether the depth cap cuts anything off.
  predicate Cut(e: Element, path: Path, skip: set<string>, maxDepth: int)
    decreases e, 1
  {
    Named(e, skip) && (|path| >= maxDepth || CutAny(e.children, path + [LocalName(e)], skip, maxDepth))
  }

  predicate CutAny(es: seq<Element>, path: Path, skip: set<string>, maxDepth: int)
    decreases es, 0
  {
    es != [] && (Cut(es[0], path, skip, maxDepth) || CutAny(es[1..], path, skip, maxDepth))
  }

  // ---------------------------------------------------------------------------------------
  // The stack
  // ---------------------------------------------------------------------------------------

  datatype Frame = Frame(element: Element, parentPath: Path)

  function Size(e: Element): nat
    decreases e, 1
  {
    1 + SizeAll(e.children)
  }

  function SizeAll(es: seq<Element>): nat
    decreases es, 0
  {
    if es == [] then 0 else Size(es[0]) + SizeAll(es[1..])
  }

  function StackSize(stack: seq<Frame>): nat {
    if stack == [] then 0 else Size(stack[|stack| - 1].element) + StackSize(stack[..|stack| - 1])
  }

  // What the frames on a stack will yield, from the top down, and whether any is cut.
  function Pending(stack: seq<Frame>, skip: set<string>, maxDepth: int): seq<Visit> {
    if stack == [] then []
    else
      var top := stack[|stack| - 1];
      Walk(top.element, top.parentPath, skip, maxDepth) + Pending(stack[..|stack| - 1], skip, maxDepth)
  }

  predicate PendingCut(stack: seq<Frame>, skip: set<string>, maxDepth: int) {
    stack != [] && (Cut(stack[|stack| - 1].element, stack[|stack| - 1].parentPath, skip, maxDepth)
                    || PendingCut(stack[..|stack| - 1], skip, maxDepth))
  }

  // [(child, path) for child in reversed(es)]
  function ReversedFrames(es: seq<Element>, path: Path): seq<Frame> {
    if es == [] then [] else ReversedFrames(es[1..], path) + [Frame(es[0], path)]
  }

  // Children pushed in reverse come off the stack in document order.
  lemma {:induction false} PushedChildren(stack: seq<Frame>, es: seq<Element>, path: Path, skip: set<string>,
                                          maxDepth: int)
    ensures var pushed := stack + ReversedFrames(es, path);
            && Pending(pushed, skip, maxDepth) == WalkAll(es, path, skip, maxDepth) + Pending(stack, skip, maxDepth)
            && (PendingCut(pushed, skip, maxDepth) <==>
                CutAny(es, path, skip, maxDepth) || PendingCut(stack, skip, maxDepth))
            && StackSize(pushed) == SizeAll(es) + StackSize(stack)
  {
    hide Walk, Cut, Size, Pending, PendingCut, StackSize;
    var pushed := stack + ReversedFrames(es, path);
    if es == [] {
      assert pushed == stack;
      assert [] + Pending(stack, skip, maxDepth) == Pending(stack, skip, maxDepth);
    } else {
      var below := stack + ReversedFrames(es[1..], path);
      assert pushed == below + [Frame(es[0], path)];
      PushedOne(below, es[0], path, skip, maxDepth);
      PushedChildren(stack, es[1..], path, skip, maxDepth);
    }
  }

  lemma PushedOne(stack: seq<Frame>, e: Element, path: Path, skip: set<string>, maxDepth: int)
    ensures var pushed := stack + [Frame(e, path)];
            && Pending(pushed, skip, maxDepth) == Walk(e, path, skip, maxDepth) + Pending(stack, skip, maxDepth)
            && (PendingCut(pushed, skip, maxDepth) <==>
                Cut(e, path, skip, maxDepth) || PendingCut(stack, skip, maxDepth))
            && StackSize(pushed) == Size(e) + StackSize(stack)
  {
    hide Walk, Cut, Size;
    assert (stack + [Frame(e, path)])[..|stack|] == stack;
  }

  // The top frame taken off, its element pruned or opened.
  lemma PoppedFrame(stack: seq<Frame>, skip: set<string>, maxDepth: int)
    requires stack != []
    ensures var rest, e, p := stack[..|stack| - 1], stack[|stack| - 1].element, stack[|stack| - 1].parentPath;
            var path := p + [LocalName(e)];
            && StackSize(stack) == 1 + SizeAll(e.children) + StackSize(rest)
            && Pending(stack, skip, maxDepth) ==
               (if !Named(e, skip) || |p| >= maxDepth then []
                else [Visit(e, path)] + WalkAll(e.children, path, skip, maxDepth))
               + Pending(rest, skip, maxDepth)
            && (PendingCut(stack, skip, maxDepth) <==>
                (Named(e, skip) && (|p| >= maxDepth || CutAny(e.children, path, skip, maxDepth)))
                || PendingCut(rest, skip, maxDepth))
  {
    hide WalkAll, CutAny, SizeAll, Named;
  }

  lemma NoFrames(skip: set<string>, maxDepth: int)
    ensures Pending([], skip, maxDepth) == [] && !PendingCut([], skip, maxDepth) && StackSize([]) == 0
  {}

  /** The walk with an explicit stack yields exactly what the recursive one does, in the same
      order and with the same paths. */
  method WalkNamedDescendants(root: Element, skip: set<string>, maxDepth: int)
    returns (visits: seq<Visit>, truncated: bool)
    ensures visits == WalkAll(root.children, [], skip, maxDepth)
    ensures truncated == CutAny(root.children, [], skip, maxDepth)
  {
    hide WalkAll, CutAny, SizeAll, Pending, PendingCut, StackSize, LocalName, ReversedFrames;
    var stack := ReversedFrames(root.children, []);
    visits, truncated := [], false;
    PushedChildren([], root.children, [], skip, maxDepth);
    NoFrames(skip, maxDepth);
    assert [] + stack == stack;
    while stack != []
      invariant visits + Pending(stack, skip, maxDepth) == WalkAll(root.children, [], skip, maxDepth)
      invariant truncated || PendingCut(stack, skip, maxDepth) <==> CutAny(root.children, [], skip, maxDepth)
      decreases StackSize(stack)
    {
      PoppedFrame(stack, skip, maxDepth);
      var element, parentPath := stack[|stack| - 1].element, stack[|stack| - 1].parentPath;
      stack := stack[..|stack| - 1];
      var local := LocalName(element);
      if local == [] || local in skip { continue; }
      if |parentPath| >= maxDepth {
        truncated := true;
        continue;
      }
      var path := parentPath + [local];
      visits := visits + [Visit(element, path)];
      PushedChildren(stack, element.children, path, skip, maxDepth);
      stack := stack + ReversedFrames(element.children, path);
    }
  }

  // ---------------------------------------------------------------------------------------
  // What is yielded
  // ---------------------------------------------------------------------------------------

  // The names lead from an element down the tree to the target: the element's own local name,
  // then a child's, and so on to the target's.
  predicate LeadsTo(e: Element, names: Path, target: Element)
    decreases |names|, 0
  {
    names != [] && names[0] == LocalName(e) &&
    if |names| == 1 then e == target else ReachedBy(e.children, names[1..], target)
  }

  predicate ReachedBy(es: seq<Element>, names: Path, target: Element)
    decreases |names|, 1
  {
    exists i :: 0 <= i < |es| && LeadsTo(es[i], names, target)
  }

  // The part of the visit's path below the given one is within the cap, with no name that is
  // empty or skipped.
  predicate GoodPath(v: Visit, path: Path, skip: set<string>, maxDepth: int) {
    && path < v.path && |v.path| <= maxDepth
    && forall i :: |path| <= i < |v.path| ==> v.path[i] != [] && v.path[i] !in skip
  }

  /** An element is yielded with a path exactly when the path is the local names on the way down
      to it, none empty or skipped, and within the cap. */
  lemma {:induction false} VisitsAreExact(es: seq<Element>, path: Path, skip: set<string>, maxDepth: int, v: Visit)
    ensures v in WalkAll(es, path, skip, maxDepth) <==>
            GoodPath(v, path, skip, maxDepth) && ReachedBy(es, v.path[|path|..], v.element)
    decreases es, 0
  {
    hide Named, LocalName, LeadsTo, GoodPath, Walk;
    if es != [] {
      VisitIsExact(es[0], path, skip, maxDepth, v);
      VisitsAreExact(es[1..], path, skip, maxDepth, v);
      if path <= v.path { ReachedFirstOrRest(es, v.path[|path|..], v.element); }
    }
  }

  lemma ReachedFirstOrRest(es: seq<Element>, names: Path, target: Element)
    requires es != []
    ensures ReachedBy(es, names, target) <==> LeadsTo(es[0], names, target) || ReachedBy(es[1..], names, target)
  {
    hide LeadsTo;
    if ReachedBy(es, names, target) && !LeadsTo(es[0], names, target) {
      var i :| 0 <= i < |es| && LeadsTo(es[i], names, target);
      assert LeadsTo(es[1..][i - 1], names, target);
    }
    if ReachedBy(es[1..], names, target) {
      var i :| 0 <= i < |es[1..]| && LeadsTo(es[1..][i], names, target);
      assert LeadsTo(es[i + 1], names, target);
    }
  }

  lemma {:induction false} VisitIsExact(e: Element, path: Path, skip: set<string>, maxDepth: int, v: Visit)
    ensures v in Walk(e, path, skip, maxDepth) <==>
            GoodPath(v, path, skip, maxDepth) && LeadsTo(e, v.path[|path|..], v.element)
    decreases e, 1
  {
    hide WalkAll, LocalName;
    var below := path + [LocalName(e)];
    if Named(e, skip) && |path| < maxDepth { VisitsAreExact(e.children, below, skip, maxDepth, v); }
    if path < v.path && v.path[|path|] == LocalName(e) {
      var names := v.path[|path|..];
      assert v.path == path + names && names[0] == LocalName(e);
      assert below <= v.path;
      if |names| == 1 { assert v.path == below; } else { assert names[1..] == v.path[|below|..]; }
    }
  }

  // ---------------------------------------------------------------------------------------
  // The order of the visits
  // ---------------------------------------------------------------------------------------

  // A place below an element: which child, which child of that, and so on.
  type Place = seq<nat>

  // The element at a place, and the local names on the way to it.
  predicate StandsAt(parent: Element, place: Place, e: Element, names: Path)
    decreases |place|
  {
    && place != [] && place[0] < |parent.children| && names != []
    && names[0] == LocalName(parent.children[place[0]])
    && if |place| == 1 then e == parent.children[place[0]] && |names| == 1
       else StandsAt(parent.children[place[0]], place[1..], e, names[1..])
  }

  // Document order: an element before what is below it, a child before its later siblings.
  predicate Before(p: Place, q: Place) {
    q != [] && (p == [] || p[0] < q[0] || (p[0] == q[0] && Before(p[1..], q[1..])))
  }

  function Under(k: nat, places: seq<Place>): (r: seq<Place>)
    ensures |r| == |places| && forall i :: 0 <= i < |r| ==> r[i] == [k] + places[i]
  {
    seq(|places|, i requires 0 <= i < |places| => [k] + places[i])
  }

  // The places the walk goes to, from child k of an element on.
  function PlacesFrom(parent: Element, k: nat, path: Path, skip: set<string>, maxDepth: int): seq<Place>
    requires k <= |parent.children|
    decreases parent, |parent.children| - k
  {
    if k == |parent.children| then []
    else PlacesOf(parent, k, path, skip, maxDepth) + PlacesFrom(parent, k + 1, path, skip, maxDepth)
  }

  function PlacesOf(parent: Element, k: nat, path: Path, skip: set<string>, maxDepth: int): seq<Place>
    requires k < |parent.children|
    decreases parent, |parent.children| - k, 0
  {
    var e := parent.children[k];
    if !Named(e, skip) || |path| >= maxDepth then []
    else [[k]] + Under(k, PlacesFrom(e, 0, path + [LocalName(e)], skip, maxDepth))
  }

  // The visits stand at the places, one each, with their paths below the given one.
  predicate Placed(parent: Element, visits: seq<Visit>, places: seq<Place>, path: Path) {
    && |visits| == |places|
    && forall i :: 0 <= i < |visits| ==>
         path <= visits[i].path && StandsAt(parent, places[i], visits[i].element, visits[i].path[|path|..])
  }

  // In document order, and from child k on.
  predicate InOrder(places: seq<Place>, k: nat) {
    && (forall i :: 0 <= i < |places| ==> places[i] != [] && k <= places[i][0])
    && (forall i, j :: 0 <= i < j < |places| ==> Before(places[i], places[j]))
  }

  lemma UnderInOrder(k: nat, places: seq<Place>)
    requires InOrder(places, 0)
    ensures InOrder([[k]] + Under(k, places), k)
    ensures forall i :: 0 <= i < |places| + 1 ==> ([[k]] + Under(k, places))[i][0] == k
  {
    var all := [[k]] + Under(k, places);
    forall i, j | 0 <= i < j < |all| ensures Before(all[i], all[j]) {
      assert all[j] == [k] + places[j - 1] && all[j][1..] == places[j - 1];
      if i == 0 {
        assert all[i][1..] == [];
      } else {
        assert all[i] == [k] + places[i - 1] && all[i][1..] == places[i - 1];
      }
    }
  }

  lemma OrderOfBoth(a: seq<Place>, b: seq<Place>, k: nat)
    requires InOrder(a, k) && InOrder(b, k + 1) && forall i :: 0 <= i < |a| ==> a[i][0] == k
    ensures InOrder(a + b, k)
  {}

  lemma PlacedOfBoth(parent: Element, v: seq<Visit>, p: seq<Place>, w: seq<Visit>, q: seq<Place>, path: Path)
    requires Placed(parent, v, p, path) && Placed(parent, w, q, path)
    ensures Placed(parent, v + w, p + q, path)
  {}

  // An element and what the walk yields below it.
  lemma PlacedBelow(parent: Element, k: nat, visits: seq<Visit>, places: seq<Place>, path: Path)
    requires k < |parent.children|
    requires Placed(parent.children[k], visits, places, path + [LocalName(parent.children[k])])
    ensures var e := parent.children[k];
            Placed(parent, [Visit(e, path + [LocalName(e)])] + visits, [[k]] + Under(k, places), path)
  {
    hide LocalName;
    var e := parent.children[k];
    var below := path + [LocalName(e)];
    var all, at := [Visit(e, below)] + visits, [[k]] + Under(k, places);
    forall i | 0 <= i < |all|
      ensures path <= all[i].path && StandsAt(parent, at[i], all[i].element, all[i].path[|path|..])
    {
      if i == 0 {
        assert below[|path|..] == [LocalName(e)];
      } else {
        var v := visits[i - 1];
        var names := v.path[|path|..];
        assert at[i] == [k] + places[i - 1] && at[i][1..] == places[i - 1];
        assert below <= v.path && v.path == below + v.path[|below|..];
        assert names[0] == LocalName(e) && names[1..] == v.path[|below|..];
      }
    }
  }

  lemma {:induction false} PlacesAreInOrder(parent: Element, k: nat, path: Path, skip: set<string>, maxDepth: int)
    requires k <= |parent.children|
    ensures var places := PlacesFrom(parent, k, path, skip, maxDepth);
            InOrder(places, k) && Placed(parent, WalkAll(parent.children[k..], path, skip, maxDepth), places, path)
    decreases parent, |parent.children| - k
  {
    hide Named, LocalName, InOrder, Placed;
    if k == |parent.children| {
      NothingPlaced(parent, path, k);
    } else {
      var e := parent.children[k];
      assert parent.children[k..][0] == e && parent.children[k..][1..] == parent.children[k + 1..];
      PlacesAreInOrder(parent, k + 1, path, skip, maxDepth);
      var rest := WalkAll(parent.children[k + 1..], path, skip, maxDepth);
      var later := PlacesFrom(parent, k + 1, path, skip, maxDepth);
      if Named(e, skip) && |path| < maxDepth {
        var below := path + [LocalName(e)];
        assert e.children[0..] == e.children;
        PlacesAreInOrder(e, 0, below, skip, maxDepth);
        var visits, places := WalkAll(e.children, below, skip, maxDepth), PlacesFrom(e, 0, below, skip, maxDepth);
        UnderInOrder(k, places);
        PlacedBelow(parent, k, visits, places, path);
        OrderOfBoth([[k]] + Under(k, places), later, k);
        PlacedOfBoth(parent, [Visit(e, below)] + visits, [[k]] + Under(k, places), rest, later, path);
      } else {
        assert [] + rest == rest && [] + later == later;
        OrderLater(later, k);
      }
    }
  }

  lemma NothingPlaced(parent: Element, path: Path, k: nat)
    ensures InOrder([], k) && Placed(parent, [], [], path)
  {}

  lemma OrderLater(places: seq<Place>, k: nat)
    requires InOrder(places, k + 1)
    ensures InOrder(places, k)
  {}

  /** The visits are in document order: each stands at a place of the tree with its path as the
      names on the way, and the places increase. */
  lemma VisitsAreInOrder(root: Element, skip: set<string>, maxDepth: int)
    ensures var places := PlacesFrom(root, 0, [], skip, maxDepth);
            Placed(root, WalkAll(root.children, [], skip, maxDepth), places, []) && InOrder(places, 0)
  {
    assert root.children[0..] == root.children;
    PlacesAreInOrder(root, 0, [], skip, maxDepth);
  }
}
