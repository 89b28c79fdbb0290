/**
 A sorted binary tree of linked elements, each of which caches the depths of its two
 subtrees. The ghost Shape of a tree says which elements hang where; everything that is
 proved about the pointers is proved against it.
 */
module SortedTree {
  import opened StableSort

  class Element<T> {
    const item: T
    var up: Element?<T>
    var left: Element?<T>
    var left_depth: int
    var right: Element?<T>
    var right_depth: int

    constructor (item: T, up: Element?<T>)
      ensures this.item == item && this.up == up
      ensures left == null && right == null && left_depth == 0 && right_depth == 0
    {
      this.item := item;
      this.up := up;
      left, left_depth, right, right_depth := null, 0, null, 0;
    }
  }

  datatype Shape<T> = Nil | Bin(l: Shape<T>, n: Element<T>, r: Shape<T>)

  /** What surrounds a subtree, innermost element first. */
  datatype Context<T> =
    | Top
    | InLeft(p: Element<T>, sibling: Shape<T>, above: Context<T>)
    | InRight(sibling: Shape<T>, p: Element<T>, above: Context<T>)

  function Max(a: int, b: int): int { if a > b then a else b }

  ghost function Root<T>(s: Shape<T>): Element?<T> { if s.Nil? then null else s.n }

  ghost function Height<T>(s: Shape<T>): nat {
    match s
    case Nil => 0
    case Bin(l, _, r) => 1 + Max(Height(l), Height(r))
  }

  ghost function Order<T>(s: Shape<T>): seq<Element<T>> {
    match s
    case Nil => []
    case Bin(l, n, r) => Order(l) + [n] + Order(r)
  }

  ghost function Nodes<T>(s: Shape<T>): set<Element<T>> {
    match s
    case Nil => {}
    case Bin(l, n, r) => Nodes(l) + {n} + Nodes(r)
  }

  ghost predicate NoSharing<T>(s: Shape<T>) {
    match s
    case Nil => true
    case Bin(l, n, r) =>
      n !in Nodes(l) && n !in Nodes(r) && Nodes(l) !! Nodes(r) && NoSharing(l) && NoSharing(r)
  }

  /** The pointers and the stored depths in s are exactly what the shape says. */
  ghost predicate Accurate<T>(s: Shape<T>, up: Element?<T>)
    reads Nodes(s)
  {
    match s
    case Nil => true
    case Bin(l, n, r) =>
      && n.up == up
      && n.left == Root(l) && n.left_depth == Height(l)
      && n.right == Root(r) && n.right_depth == Height(r)
      && Accurate(l, n) && Accurate(r, n)
  }

  ghost function Parent<T>(c: Context<T>): Element?<T> { if c.Top? then null else c.p }

  ghost function Before<T>(c: Context<T>): seq<Element<T>> {
    match c
    case Top => []
    case InLeft(_, _, above) => Before(above)
    case InRight(sibling, p, above) => Before(above) + Order(sibling) + [p]
  }

  ghost function After<T>(c: Context<T>): seq<Element<T>> {
    match c
    case Top => []
    case InLeft(p, sibling, above) => [p] + Order(sibling) + After(above)
    case InRight(_, _, above) => After(above)
  }

  ghost function Around<T>(c: Context<T>): set<Element<T>> {
    if c.Top? then {} else Nodes(c.sibling) + {c.p} + Around(c.above)
  }

  ghost function Steps<T>(c: Context<T>): nat { if c.Top? then 0 else 1 + Steps(c.above) }

  ghost predicate NoSharingAround<T>(c: Context<T>) {
    c.Top? || (
      && c.p !in Nodes(c.sibling) && c.p !in Around(c.above)
      && Nodes(c.sibling) !! Around(c.above)
      && NoSharing(c.sibling) && NoSharingAround(c.above))
  }

  /** The innermost element of c holds a subtree with root `hole` and stores depth h for it. */
  ghost predicate Holds<T>(c: Context<T>, hole: Element?<T>, h: int)
    requires !c.Top?
    reads c.p, Nodes(c.sibling)
  {
    var p := c.p;
    && p.up == Parent(c.above)
    && Accurate(c.sibling, p)
    && (c.InLeft? ==>
          && p.left == hole && p.left_depth == h
          && p.right == Root(c.sibling) && p.right_depth == Height(c.sibling))
    && (c.InRight? ==>
          && p.right == hole && p.right_depth == h
          && p.left == Root(c.sibling) && p.left_depth == Height(c.sibling))
  }

  ghost function HeightAbove<T>(c: Context<T>, h: int): int
    requires !c.Top?
  {
    1 + Max(h, Height(c.sibling))
  }

  /** c is accurate around a subtree with root `hole` and height h. */
  ghost predicate AccurateAround<T>(c: Context<T>, hole: Element?<T>, h: int)
    reads Around(c)
  {
    c.Top? || (Holds(c, hole, h) && AccurateAround(c.above, c.p, HeightAbove(c, h)))
  }

  /** AccurateAround for the part of c below `rest`, which stands at (restHole, restH). */
  ghost predicate AccurateUpTo<T>(c: Context<T>, rest: Context<T>, hole: Element?<T>, h: int,
                                  restHole: Element?<T>, restH: int)
    reads AroundUpTo(c, rest)
  {
    if c == rest then
      hole == restHole && h == restH
    else
      !c.Top? && Holds(c, hole, h) &&
      AccurateUpTo(c.above, rest, c.p, HeightAbove(c, h), restHole, restH)
  }

  ghost function AroundUpTo<T>(c: Context<T>, rest: Context<T>): set<Element<T>> {
    if c == rest || c.Top? then {} else Nodes(c.sibling) + {c.p} + AroundUpTo(c.above, rest)
  }

  ghost predicate Within<T>(rest: Context<T>, c: Context<T>) {
    c == rest || (!c.Top? && Within(rest, c.above))
  }

  lemma {:induction false} PartsAreDisjoint<T>(c: Context<T>, rest: Context<T>)
    requires NoSharingAround(c) && Within(rest, c)
    ensures AroundUpTo(c, rest) !! Around(rest)
    ensures AroundUpTo(c, rest) + Around(rest) == Around(c)
    ensures NoSharingAround(rest)
  {
    if c == rest {
    } else {
      PartsAreDisjoint(c.above, rest);
    }
  }

  lemma {:induction false} PartIsSmaller<T>(c: Context<T>, rest: Context<T>)
    requires Within(rest, c) && !rest.Top?
    ensures Within(rest.above, c)
    ensures AroundUpTo(c, rest.above) == AroundUpTo(c, rest) + Nodes(rest.sibling) + {rest.p}
  {
    if c == rest {
    } else {
      PartIsSmaller(c.above, rest);
      StepsShrink(rest, c.above);
    }
    assert c != rest.above by { StepsShrink(rest, c); }
  }

  lemma {:induction false} StepsShrink<T>(rest: Context<T>, c: Context<T>)
    requires Within(rest, c)
    ensures Steps(rest) <= Steps(c)
  {
    if c == rest {
    } else {
      StepsShrink(rest, c.above);
    }
  }

  lemma StepOut<T>(c: Context<T>, rest: Context<T>)
    requires NoSharingAround(c) && Within(rest, c) && !rest.Top?
    ensures Within(rest.above, c) && NoSharingAround(rest.above)
    ensures rest.p in Around(c) && rest.p !in Around(rest.above)
    ensures Around(rest.above) <= Around(rest)
  {
    PartsAreDisjoint(c, rest);
    PartIsSmaller(c, rest);
  }

  lemma {:induction false} NodesExist<T>(s: Shape<T>)
    ensures forall o :: o in Nodes(s) ==> allocated(o)
  {
    if s.Nil? {
    } else {
      NodesExist(s.l);
      NodesExist(s.r);
    }
  }

  lemma AroundExists<T>(c: Context<T>)
    ensures forall o :: o in Around(c) ==> allocated(o)
  {
    if c.Top? {
    } else {
      NodesExist(c.sibling);
      AroundExists(c.above);
    }
  }

  /** Extend the accurate part of a context by one element. */
  lemma {:induction false} ExtendAccurate<T>(c: Context<T>, rest: Context<T>, hole: Element?<T>, h: int,
                                             restHole: Element?<T>, restH: int)
    requires Within(rest, c) && !rest.Top?
    requires AccurateUpTo(c, rest, hole, h, restHole, restH) && Holds(rest, restHole, restH)
    ensures AccurateUpTo(c, rest.above, hole, h, rest.p, HeightAbove(rest, restH))
  {
    assert c != rest.above by { StepsShrink(rest, c); }
    if c == rest {
    } else {
      ExtendAccurate(c.above, rest, c.p, HeightAbove(c, h), restHole, restH);
    }
  }

  /** Once the rest agrees, the whole context is accurate. */
  lemma {:induction false} JoinAccurate<T>(c: Context<T>, rest: Context<T>, hole: Element?<T>, h: int,
                                           restHole: Element?<T>, restH: int)
    requires AccurateUpTo(c, rest, hole, h, restHole, restH) && AccurateAround(rest, restHole, restH)
    ensures AccurateAround(c, hole, h)
  {
    if c == rest {
    } else {
      JoinAccurate(c.above, rest, c.p, HeightAbove(c, h), restHole, restH);
    }
  }

  /** Store depth d in `father` on the side where `child` hangs; tell the depth stored before. */
  method StoreDepth<T>(father: Element<T>, child: Element<T>, d: int,
                       ghost c: Context<T>, ghost rest: Context<T>,
                       ghost hole: Element<T>, ghost hNew: int, ghost hOld: int)
    returns (depth: int)
    requires NoSharingAround(c) && Within(rest, c) && !rest.Top? && rest.p == father
    requires child !in Around(rest)
    requires AccurateUpTo(c, rest, hole, hNew, child, d) && AccurateAround(rest, child, hOld)
    modifies father`left_depth, father`right_depth
    ensures depth == hOld
    ensures AccurateUpTo(c, rest.above, hole, hNew, father, HeightAbove(rest, d))
    ensures AccurateAround(rest.above, father, HeightAbove(rest, hOld))
    ensures father.up == Parent(rest.above) && 1 + Max(father.left_depth, father.right_depth) == HeightAbove(rest, d)
  {
    PartsAreDisjoint(c, rest);
    if father.left == child {
      depth := father.left_depth;
      father.left_depth := d;
    } else {
      depth := father.right_depth;
      father.right_depth := d;
    }
    ExtendAccurate(c, rest, hole, hNew, child, d);
  }

  /** The depth-fixing loop after an insertion: stop at the first depth that does not change. */
  method FixDepths<T>(father: Element<T>, added: Element<T>, ghost c: Context<T>)
    requires !c.Top? && c.p == father && NoSharingAround(c)
    requires added !in Around(c)
    requires AccurateAround(c, added, 0)
    requires added.left_depth == 0 && added.right_depth == 0
    modifies Around(c)
    ensures AccurateAround(c, added, 1)
  {
    var father_of_forefather: Element?<T> := father;
    var forefather_of_element: Element<T> := added;
    var depth, depth2 := 0, 0;
    var first := true;
    ghost var rest, hNew, hOld := c, 1, 0;
    while first || (depth != depth2 && father_of_forefather != null)
      invariant Within(rest, c) && father_of_forefather == Parent(rest)
      invariant first ==> !rest.Top? && rest == c
      invariant !first && depth == depth2 ==> hOld == hNew
      invariant forefather_of_element == added || forefather_of_element in Around(c)
      invariant forefather_of_element !in Around(rest)
      invariant added.left_depth == 0 && added.right_depth == 0
      invariant hNew == 1 + Max(forefather_of_element.right_depth, forefather_of_element.left_depth)
      invariant AccurateUpTo(c, rest, added, 1, forefather_of_element, hNew)
      invariant AccurateAround(rest, forefather_of_element, hOld)
      decreases Steps(rest)
    {
      StepOut(c, rest);
      depth2 := 1 + Max(forefather_of_element.right_depth, forefather_of_element.left_depth);
      depth := StoreDepth(father_of_forefather, forefather_of_element, depth2, c, rest, added, 1, hOld);
      hOld, hNew := HeightAbove(rest, hOld), HeightAbove(rest, hNew);
      forefather_of_element := father_of_forefather;
      father_of_forefather := father_of_forefather.up;
      rest := rest.above;
      first := false;
    }
    JoinAccurate(c, rest, added, 1, forefather_of_element, hNew);
  }

  /** The same loop before a rotation at `father`, whose place `added` is about to take. */
  method FixDepthsForRotation<T>(father: Element<T>, added: Element<T>, ghost c: Context<T>, ghost h: int)
    requires !c.Top? && father.up == c.p && added.up == father && NoSharingAround(c)
    requires added !in Around(c) && father !in Around(c)
    requires AccurateAround(c, father, h)
    modifies Around(c)
    ensures AccurateAround(c, father, 1 + Max(added.left_depth, added.right_depth))
  {
    var father_of_forefather: Element?<T> := father.up;
    var forefather_of_element: Element<T> := added;
    var first_time := true;
    var depth, depth2 := 0, 0;
    ghost var h' := 1 + Max(added.left_depth, added.right_depth);
    ghost var rest, hNew, hOld := c, h', h;
    ghost var here: Element<T> := father;
    while first_time || (depth != depth2 && father_of_forefather != null)
      invariant Within(rest, c) && father_of_forefather == Parent(rest)
      invariant first_time ==> !rest.Top? && rest == c && forefather_of_element == added && here == father
      invariant !first_time && depth == depth2 ==> hOld == hNew
      invariant here == father || here in Around(c)
      invariant here !in Around(rest) && forefather_of_element.up == here && here.up == Parent(rest)
      invariant forefather_of_element !in Around(rest)
      invariant !first_time ==> hNew == 1 + Max(here.left_depth, here.right_depth)
      invariant first_time ==> hNew == h'
      invariant h' == 1 + Max(added.left_depth, added.right_depth)
      invariant AccurateUpTo(c, rest, father, h', here, hNew)
      invariant AccurateAround(rest, here, hOld)
      decreases Steps(rest)
    {
      StepOut(c, rest);
      if first_time {
        depth2 := 1 + Max(forefather_of_element.left_depth, forefather_of_element.right_depth);
        first_time := false;
      } else {
        depth2 := 1 + Max(forefather_of_element.up.left_depth, forefather_of_element.up.right_depth);
      }
      depth := StoreDepth(father_of_forefather, forefather_of_element.up, depth2, c, rest, father, h', hOld);
      hOld, hNew := HeightAbove(rest, hOld), HeightAbove(rest, hNew);
      here := father_of_forefather;
      forefather_of_element := forefather_of_element.up;
      father_of_forefather := father_of_forefather.up;
      rest := rest.above;
    }
    JoinAccurate(c, rest, father, h', here, hNew);
  }

  /** A subtree changes hands. */
  method Adopt<T>(child: Element?<T>, up: Element<T>, ghost s: Shape<T>, ghost was: Element?<T>)
    requires child == Root(s) && NoSharing(s) && Accurate(s, was) && up !in Nodes(s)
    modifies if child == null then {} else {child}
    ensures Accurate(s, up)
  {
    if child != null {
      child.up := up;
    }
  }

  /** Father's left subtree is too deep: its root takes father's place, father goes to its right. */
  method RotateRight<T>(father_of_element: Element<T>, ghost c: Context<T>, ghost s: Shape<T>)
    requires s.Bin? && s.n == father_of_element && s.l.Bin?
    requires NoSharing(s) && NoSharingAround(c) && Nodes(s) !! Around(c)
    requires Accurate(s, Parent(c)) && AccurateAround(c, father_of_element, Height(s))
    modifies {father_of_element, s.l.n}, Around(c), Nodes(s.l.r)
    ensures Accurate(Bin(s.l.l, s.l.n, Bin(s.l.r, s.n, s.r)), Parent(c))
    ensures AccurateAround(c, s.l.n, Height(Bin(s.l.l, s.l.n, Bin(s.l.r, s.n, s.r))))
  {
    NodesExist(s);
    AroundExists(c);
    var added_element := father_of_element.left;
    DepthsForRight(father_of_element, added_element, s.l.l, s.l.r, s.r, Parent(c));
    TakePlace(father_of_element, added_element, c, Height(s));
    assert AccurateAround(c, added_element, Height(Bin(s.l.l, s.l.n, Bin(s.l.r, s.n, s.r))));
    RelinkRight(father_of_element, added_element, s.l.l, s.l.r, s.r);
  }

  /** The depths after RotateRight, stored before any pointer moves. */
  method DepthsForRight<T>(father_of_element: Element<T>, added_element: Element<T>,
                           ghost a: Shape<T>, ghost b: Shape<T>, ghost d: Shape<T>, ghost up: Element?<T>)
    requires NoSharing(Bin(Bin(a, added_element, b), father_of_element, d))
    requires Accurate(Bin(Bin(a, added_element, b), father_of_element, d), up)
    modifies father_of_element`left_depth, added_element`right_depth
    ensures father_of_element.left == added_element && father_of_element.left_depth == Height(b)
    ensures father_of_element.right == Root(d) && father_of_element.right_depth == Height(d)
    ensures added_element.left == Root(a) && added_element.left_depth == Height(a)
    ensures added_element.right == Root(b) && added_element.right_depth == 1 + Max(Height(b), Height(d))
    ensures father_of_element.up == up && added_element.up == father_of_element
    ensures Accurate(a, added_element) && Accurate(b, added_element) && Accurate(d, father_of_element)
  {
    assert Accurate(Bin(a, added_element, b), father_of_element);
    father_of_element.left_depth := added_element.right_depth;
    added_element.right_depth :=
      1 + Max(father_of_element.right_depth, father_of_element.left_depth);
  }

  /** The pointers between the two elements of RotateRight; the depths are already as rotated. */
  method RelinkRight<T>(father_of_element: Element<T>, added_element: Element<T>,
                        ghost a: Shape<T>, ghost b: Shape<T>, ghost d: Shape<T>)
    requires NoSharing(Bin(Bin(a, added_element, b), father_of_element, d))
    requires father_of_element.left == added_element && father_of_element.left_depth == Height(b)
    requires father_of_element.right == Root(d) && father_of_element.right_depth == Height(d)
    requires added_element.left == Root(a) && added_element.left_depth == Height(a)
    requires added_element.right == Root(b) && added_element.right_depth == 1 + Max(Height(b), Height(d))
    requires Accurate(a, added_element) && Accurate(b, added_element) && Accurate(d, father_of_element)
    modifies {father_of_element, added_element}, Nodes(b)
    ensures Accurate(Bin(a, added_element, Bin(b, father_of_element, d)), old(father_of_element.up))
  {
    NodesExist(a);
    NodesExist(d);
    added_element.up := father_of_element.up;
    father_of_element.left := added_element.right;
    added_element.right := father_of_element;
    father_of_element.up := added_element;
    Adopt(father_of_element.left, father_of_element, b, added_element);
  }

  /** Father's right subtree is too deep: its root takes father's place, father goes to its left. */
  method RotateLeft<T>(father_of_element: Element<T>, ghost c: Context<T>, ghost s: Shape<T>)
    requires s.Bin? && s.n == father_of_element && s.r.Bin?
    requires NoSharing(s) && NoSharingAround(c) && Nodes(s) !! Around(c)
    requires Accurate(s, Parent(c)) && AccurateAround(c, father_of_element, Height(s))
    modifies {father_of_element, s.r.n}, Around(c), Nodes(s.r.l)
    ensures Accurate(Bin(Bin(s.l, s.n, s.r.l), s.r.n, s.r.r), Parent(c))
    ensures AccurateAround(c, s.r.n, Height(Bin(Bin(s.l, s.n, s.r.l), s.r.n, s.r.r)))
  {
    NodesExist(s);
    AroundExists(c);
    var added_element := father_of_element.right;
    DepthsForLeft(father_of_element, added_element, s.l, s.r.l, s.r.r, Parent(c));
    TakePlace(father_of_element, added_element, c, Height(s));
    assert AccurateAround(c, added_element, Height(Bin(Bin(s.l, s.n, s.r.l), s.r.n, s.r.r)));
    RelinkLeft(father_of_element, added_element, s.l, s.r.l, s.r.r);
  }

  /** The depths after RotateLeft, stored before any pointer moves. */
  method DepthsForLeft<T>(father_of_element: Element<T>, added_element: Element<T>,
                          ghost a: Shape<T>, ghost b: Shape<T>, ghost d: Shape<T>, ghost up: Element?<T>)
    requires NoSharing(Bin(a, father_of_element, Bin(b, added_element, d)))
    requires Accurate(Bin(a, father_of_element, Bin(b, added_element, d)), up)
    modifies father_of_element`right_depth, added_element`left_depth
    ensures father_of_element.right == added_element && father_of_element.right_depth == Height(b)
    ensures father_of_element.left == Root(a) && father_of_element.left_depth == Height(a)
    ensures added_element.right == Root(d) && added_element.right_depth == Height(d)
    ensures added_element.left == Root(b) && added_element.left_depth == 1 + Max(Height(a), Height(b))
    ensures father_of_element.up == up && added_element.up == father_of_element
    ensures Accurate(a, father_of_element) && Accurate(b, added_element) && Accurate(d, added_element)
  {
    assert Accurate(Bin(b, added_element, d), father_of_element);
    father_of_element.right_depth := added_element.left_depth;
    added_element.left_depth :=
      1 + Max(father_of_element.right_depth, father_of_element.left_depth);
  }

  /** The pointers between the two elements of RotateLeft; the depths are already as rotated. */
  method RelinkLeft<T>(father_of_element: Element<T>, added_element: Element<T>,
                       ghost a: Shape<T>, ghost b: Shape<T>, ghost d: Shape<T>)
    requires NoSharing(Bin(a, father_of_element, Bin(b, added_element, d)))
    requires father_of_element.right == added_element && father_of_element.right_depth == Height(b)
    requires father_of_element.left == Root(a) && father_of_element.left_depth == Height(a)
    requires added_element.right == Root(d) && added_element.right_depth == Height(d)
    requires added_element.left == Root(b) && added_element.left_depth == 1 + Max(Height(a), Height(b))
    requires Accurate(a, father_of_element) && Accurate(b, added_element) && Accurate(d, added_element)
    modifies {father_of_element, added_element}, Nodes(b)
    ensures Accurate(Bin(Bin(a, father_of_element, b), added_element, d), old(father_of_element.up))
  {
    NodesExist(a);
    NodesExist(d);
    added_element.up := father_of_element.up;
    father_of_element.right := added_element.left;
    added_element.left := father_of_element;
    father_of_element.up := added_element;
    Adopt(father_of_element.right, father_of_element, b, added_element);
  }

  /** `added` takes father's place below father's father, after the depths there are fixed. */
  method TakePlace<T>(father: Element<T>, added: Element<T>, ghost c: Context<T>, ghost h: int)
    requires NoSharingAround(c) && father !in Around(c) && added !in Around(c)
    requires father.up == Parent(c) && added.up == father
    requires AccurateAround(c, father, h)
    modifies Around(c)
    ensures AccurateAround(c, added, 1 + Max(added.left_depth, added.right_depth))
  {
    if father.up != null {
      FixDepthsForRotation(father, added, c, h);
      var father_of_forefather := father.up;
      if father_of_forefather.left == father {
        father_of_forefather.left := added;
      }
      if father_of_forefather.right == father {
        father_of_forefather.right := added;
      }
    }
  }

  // ---- The balancing loop ----

  /** The tree seen from one of its elements: s hangs inside c, and everything is accurate. */
  ghost predicate At<T>(c: Context<T>, s: Shape<T>)
    reads Nodes(s), Around(c)
  {
    && s.Bin? && NoSharing(s) && NoSharingAround(c) && Nodes(s) !! Around(c)
    && Accurate(s, Parent(c)) && AccurateAround(c, s.n, Height(s))
  }

  ghost function WholeOrder<T>(c: Context<T>, s: Shape<T>): seq<Element<T>> {
    Before(c) + Order(s) + After(c)
  }

  ghost function Everything<T>(c: Context<T>, s: Shape<T>): set<Element<T>> { Nodes(s) + Around(c) }

  ghost function OneUp<T>(c: Context<T>, s: Shape<T>): Shape<T>
    requires !c.Top?
  {
    if c.InLeft? then Bin(s, c.p, c.sibling) else Bin(c.sibling, c.p, s)
  }

  lemma GoUp<T>(c: Context<T>, s: Shape<T>)
    requires !c.Top? && At(c, s)
    ensures At(c.above, OneUp(c, s))
    ensures Everything(c.above, OneUp(c, s)) == Everything(c, s)
  {
  }

  lemma GoUpOrder<T>(c: Context<T>, s: Shape<T>)
    requires !c.Top?
    ensures WholeOrder(c.above, OneUp(c, s)) == WholeOrder(c, s)
  {
    var a, b, p, q, t := Before(c.above), Order(s), [c.p], Order(c.sibling), After(c.above);
    if c.InLeft? {
      assert a + (b + p + q) + t == a + b + (p + q + t);
    } else {
      assert a + (q + p + b) + t == a + q + p + b + t;
    }
  }

  ghost function Rotated<T>(s: Shape<T>, toRight: bool): Shape<T>
    requires s.Bin? && (if toRight then s.l else s.r).Bin?
  {
    if toRight then Bin(s.l.l, s.l.n, Bin(s.l.r, s.n, s.r)) else Bin(Bin(s.l, s.n, s.r.l), s.r.n, s.r.r)
  }

  /** A rotation moves no element in the order of the tree. */
  lemma RotationKeepsOrder<T>(s: Shape<T>, toRight: bool)
    requires s.Bin? && (if toRight then s.l else s.r).Bin?
    ensures Order(Rotated(s, toRight)) == Order(s)
  {
    if toRight {
      assert Order(s) == Order(s.l.l) + [s.l.n] + Order(s.l.r) + [s.n] + Order(s.r);
    } else {
      assert Order(s) == Order(s.l) + [s.n] + Order(s.r.l) + [s.r.n] + Order(s.r.r);
    }
  }

  lemma RotationKeepsNodes<T>(s: Shape<T>, toRight: bool)
    requires s.Bin? && (if toRight then s.l else s.r).Bin? && NoSharing(s)
    ensures Nodes(Rotated(s, toRight)) == Nodes(s)
    ensures NoSharing(Rotated(s, toRight))
  {
    if toRight {
      assert NoSharing(s.l);
      assert NoSharing(Bin(s.l.r, s.n, s.r));
    } else {
      assert NoSharing(s.r);
      assert NoSharing(Bin(s.l, s.n, s.r.l));
    }
  }

  function Abs(x: int): nat { if x < 0 then -x else x }

  /** The whole tree, from any of its subtrees. */
  ghost function Plug<T>(c: Context<T>, s: Shape<T>): Shape<T> {
    if c.Top? then s else Plug(c.above, OneUp(c, s))
  }

  /** The elements whose two sides differ by two or more in depth. */
  ghost function OutOfBalance<T>(s: Shape<T>): set<Element<T>> {
    if s.Nil? then {}
    else (if Abs(Height(s.l) - Height(s.r)) >= 2 then {s.n} else {}) + OutOfBalance(s.l) + OutOfBalance(s.r)
  }

  /** The same in the subtrees that hang off the way up. */
  ghost function OutBeside<T>(c: Context<T>): set<Element<T>> {
    if c.Top? then {} else OutOfBalance(c.sibling) + OutBeside(c.above)
  }

  /** The same in the subtrees that hang off the way from an element up to the root, its own included. */
  ghost function OutOffSpine<T>(c: Context<T>, s: Shape<T>): set<Element<T>>
    requires s.Bin?
  {
    OutOfBalance(s.l) + OutOfBalance(s.r) + OutBeside(c)
  }

  /** Going up from an element in balance nothing more hangs off the way. */
  lemma SidesGoUp<T>(c: Context<T>, s: Shape<T>)
    requires s.Bin? && Abs(Height(s.l) - Height(s.r)) < 2
    ensures c.Top? ==> OutOfBalance(s) <= OutOffSpine(c, s)
    ensures !c.Top? ==> OutOffSpine(c.above, OneUp(c, s)) <= OutOffSpine(c, s)
  {
    var a, b := OutOfBalance(s.l), OutOfBalance(s.r);
    assert OutOfBalance(s) == a + b by { SetsTogether<Element<T>>({}, a, b, {}); }
    if c.Top? {
      SetsTogether(a, b, {}, {});
    } else {
      SetsTogether(a, b, OutOfBalance(c.sibling), OutBeside(c.above));
    }
    hide Height, OutOfBalance;
  }

  lemma SetsTogether<T>(a: set<T>, b: set<T>, x: set<T>, y: set<T>)
    ensures a + b + x + y == x + (a + b) + y == a + b + (x + y)
    ensures {} + a + b == a + b && a + b + {} == a + b
  {
  }

  /** A rotation changes nothing that hangs off the way. */
  lemma SidesAfterRotation<T>(c: Context<T>, s: Shape<T>, toRight: bool, d: Context<T>, t: Shape<T>)
    requires s.Bin? && (if toRight then s.l else s.r).Bin? && IsLowered(c, s, toRight, d, t)
    ensures t.Bin? && OutOffSpine(d, t) <= OutOffSpine(c, s)
  {
  }

  lemma OutBelow<T>(c: Context<T>, s: Shape<T>)
    requires s.Bin?
    ensures OutOfBalance(s.l) + OutBeside(InLeft(s.n, s.r, c)) <= OutOfBalance(s) + OutBeside(c)
    ensures OutOfBalance(s.r) + OutBeside(InRight(s.l, s.n, c)) <= OutOfBalance(s) + OutBeside(c)
  {
  }

  /** With a leaf in the place that was free nothing else hangs off the way. */
  lemma LeafAddsNoSide<T>(c: Context<T>, leaf: Element<T>)
    requires !c.Top?
    ensures OutOffSpine(c.above, OneUp(c, Bin(Nil, leaf, Nil))) <= OutBeside(c)
  {
    assert OutOfBalance(Bin(Nil, leaf, Nil)) == {};
  }

  /** One rotation: where, and in which direction. */
  datatype Turn<T> = Turn(c: Context<T>, s: Shape<T>, toRight: bool)

  /** A rotation of a subtree out of balance, which lifts its deeper side. */
  ghost predicate IsNeeded<T>(t: Turn<T>) {
    && t.s.Bin? && Abs(Height(t.s.l) - Height(t.s.r)) >= 2
    && (t.toRight <==> Height(t.s.l) > Height(t.s.r))
  }

  /** The walk gave up: it has used its seven rotations, or the last one was of no use. */
  ghost predicate GaveUp<T>(turns: seq<Turn<T>>) {
    |turns| == 7 || (turns != [] && IsBent(turns[|turns| - 1].s))
  }

  /** Do these rotations, each of them needed, make one tree of the other? */
  ghost predicate Turns<T>(from: Shape<T>, turns: seq<Turn<T>>, to: Shape<T>)
    decreases |turns|
  {
    if turns == [] then to == from
    else
      var t := turns[|turns| - 1];
      && IsNeeded(t) && Turns(from, turns[..|turns| - 1], Plug(t.c, t.s))
      && to == Plug(t.c, Rotated(t.s, t.toRight))
  }

  lemma OneMoreTurn<T>(from: Shape<T>, turns: seq<Turn<T>>, t: Turn<T>)
    requires IsNeeded(t) && Turns(from, turns, Plug(t.c, t.s))
    ensures Turns(from, turns + [t], Plug(t.c, Rotated(t.s, t.toRight)))
  {
    assert (turns + [t])[..|turns|] == turns;
  }

  /** From an element down to one of its children. */
  lemma GoRight<T>(c: Context<T>, s: Shape<T>)
    requires At(c, s) && s.r.Bin?
    ensures At(InRight(s.l, s.n, c), s.r)
    ensures Everything(InRight(s.l, s.n, c), s.r) == Everything(c, s)
  {
  }

  lemma GoLeft<T>(c: Context<T>, s: Shape<T>)
    requires At(c, s) && s.l.Bin?
    ensures At(InLeft(s.n, s.r, c), s.l)
    ensures Everything(InLeft(s.n, s.r, c), s.l) == Everything(c, s)
  {
  }

  /** An element and its only child, which has only one child, a leaf on the other side. */
  ghost predicate IsBent<T>(s: Shape<T>) {
    s.Bin? && (
      || (s.l.Nil? && s.r.Bin? && s.r.r.Nil? && s.r.l.Bin? && s.r.l == Bin(Nil, s.r.l.n, Nil))
      || (s.r.Nil? && s.l.Bin? && s.l.l.Nil? && s.l.r.Bin? && s.l.r == Bin(Nil, s.l.r.n, Nil)))
  }

  /** A rotation only mirrors these shapes, so the loop gives up on them. */
  lemma BentIsMirrored<T>(s: Shape<T>)
    requires IsBent(s)
    ensures var toRight := s.l.Bin?;
      var t := Rotated(s, toRight);
      IsBent(t) && t.l.Bin? == !toRight && Rotated(t, !toRight) == s && Height(t) == Height(s)
  {
  }

  method IsZigzag<T>(father_of_element: Element<T>, ghost c: Context<T>, ghost s: Shape<T>) returns (yes: bool)
    requires At(c, s) && s.n == father_of_element
    requires Abs(Height(s.l) - Height(s.r)) >= 2
    ensures yes <==> IsBent(s)
  {
    assert s.l.Bin? ==> Accurate(s.l, s.n) && (s.l.r.Bin? ==> Accurate(s.l.r, s.l.n));
    assert s.r.Bin? ==> Accurate(s.r, s.n) && (s.r.l.Bin? ==> Accurate(s.r.l, s.r.n));
    yes :=
      || (father_of_element.left == null
          && father_of_element.right.right == null
          && father_of_element.right.left.left == null
          && father_of_element.right.left.right == null)
      || (father_of_element.right == null
          && father_of_element.left.left == null
          && father_of_element.left.right.right == null
          && father_of_element.left.right.left == null);
  }

  /** The rotated element, one level further down. */
  ghost predicate IsLowered<T>(c: Context<T>, s: Shape<T>, toRight: bool, d: Context<T>, t: Shape<T>)
    requires s.Bin? && (if toRight then s.l else s.r).Bin?
  {
    if toRight then d == InRight(s.l.l, s.l.n, c) && t == Bin(s.l.r, s.n, s.r)
    else d == InLeft(s.r.n, s.r.r, c) && t == Bin(s.l, s.n, s.r.l)
  }

  /** Where the rotated element stands, one level further down. */
  lemma AfterRotation<T>(c: Context<T>, s: Shape<T>, toRight: bool) returns (d: Context<T>, t: Shape<T>)
    requires s.Bin? && (if toRight then s.l else s.r).Bin?
    requires NoSharing(s) && NoSharingAround(c) && Nodes(s) !! Around(c)
    requires Accurate(Rotated(s, toRight), Parent(c))
    requires AccurateAround(c, Root(Rotated(s, toRight)), Height(Rotated(s, toRight)))
    ensures At(d, t) && t.n == s.n && Plug(d, t) == Plug(c, Rotated(s, toRight))
    ensures IsLowered(c, s, toRight, d, t)
    ensures WholeOrder(d, t) == WholeOrder(c, s) && Everything(d, t) == Everything(c, s)
  {
    RotationKeepsOrder(s, toRight);
    RotationKeepsNodes(s, toRight);
    var u := Rotated(s, toRight);
    if toRight {
      GoRight(c, u);
      d, t := InRight(u.l, u.n, c), u.r;
    } else {
      GoLeft(c, u);
      d, t := InLeft(u.n, u.r, c), u.l;
    }
    GoUpOrder(d, t);
  }

  /** What the fields of an element say of its place. */
  lemma FieldsAt<T>(c: Context<T>, s: Shape<T>)
    requires At(c, s)
    ensures s.n in Nodes(s) && s.n.left_depth == Height(s.l) && s.n.right_depth == Height(s.r)
    ensures s.n.up == if c.Top? then null else c.p
  {
  }

  /** The walk has come to s by these turns; a last one that was of no use counts as the seventh. */
  ghost predicate Walked<T>(c0: Context<T>, s0: Shape<T>, c: Context<T>, s: Shape<T>,
                            turns: seq<Turn<T>>, corrections: int)
    requires s0.Bin? && s.Bin?
  {
    && |turns| <= corrections <= 7 && (corrections == |turns| || (corrections == 7 && GaveUp(turns)))
    && Turns(Plug(c0, s0), turns, Plug(c, s))
    && OutOffSpine(c, s) <= OutOffSpine(c0, s0)
  }

  lemma WalkedNowhere<T>(c: Context<T>, s: Shape<T>)
    requires s.Bin?
    ensures Walked(c, s, c, s, [], 0)
  {
  }

  lemma WalkedFar<T>(c0: Context<T>, s0: Shape<T>, c: Context<T>, s: Shape<T>, turns: seq<Turn<T>>, corrections: int)
    requires s0.Bin? && s.Bin? && Walked(c0, s0, c, s, turns, corrections)
    ensures |turns| <= 7 && Turns(Plug(c0, s0), turns, Plug(c, s))
    ensures corrections == 7 ==> GaveUp(turns)
  {
  }

  lemma WalkedUp<T>(c0: Context<T>, s0: Shape<T>, c: Context<T>, s: Shape<T>, turns: seq<Turn<T>>, corrections: int)
    requires s0.Bin? && s.Bin? && Walked(c0, s0, c, s, turns, corrections) && Abs(Height(s.l) - Height(s.r)) < 2
    ensures c.Top? ==> OutOfBalance(Plug(c, s)) <= OutOffSpine(c0, s0)
    ensures !c.Top? ==> Walked(c0, s0, c.above, OneUp(c, s), turns, corrections) && Steps(c.above) < Steps(c)
  {
    SidesGoUp(c, s);
    hide OutOfBalance, OutOffSpine, GaveUp, Turns;
  }

  lemma WalkedDown<T>(c0: Context<T>, s0: Shape<T>, d: Context<T>, t: Shape<T>,
                      turns: seq<Turn<T>>, turn: Turn<T>, corrections: int)
    requires s0.Bin? && t.Bin? && turn.s.Bin? && corrections < 7
    requires Walked(c0, s0, turn.c, turn.s, turns, corrections) && IsNeeded(turn)
    requires Plug(d, t) == Plug(turn.c, Rotated(turn.s, turn.toRight))
    requires OutOffSpine(d, t) <= OutOffSpine(turn.c, turn.s)
    ensures Walked(c0, s0, d, t, turns + [turn], if IsBent(turn.s) then 7 else corrections + 1)
  {
    OneMoreTurn(Plug(c0, s0), turns, turn);
    hide OutOffSpine, IsNeeded, Turns, Plug, IsBent;
  }

  /** Rotate an element that is out of balance, which brings it one level down. */
  method LiftDeeperSide<T>(father_of_element: Element<T>, ghost c: Context<T>, ghost s: Shape<T>)
    returns (ghost turn: Turn<T>, ghost d: Context<T>, ghost t: Shape<T>)
    requires At(c, s) && s.n == father_of_element && Abs(Height(s.l) - Height(s.r)) >= 2
    modifies Everything(c, s)
    ensures turn.c == c && turn.s == s && IsNeeded(turn)
    ensures At(d, t) && t.n == father_of_element && Plug(d, t) == Plug(c, Rotated(s, turn.toRight))
    ensures WholeOrder(d, t) == WholeOrder(c, s) && Everything(d, t) == Everything(c, s)
    ensures OutOffSpine(d, t) <= OutOffSpine(c, s)
  {
    NodesExist(s);
    AroundExists(c);
    turn := Turn(c, s, father_of_element.left_depth > father_of_element.right_depth);
    hide OutOffSpine;
    if father_of_element.left_depth > father_of_element.right_depth {
      RotateRight(father_of_element, c, s);
      d, t := AfterRotation(c, s, true);
      SidesAfterRotation(c, s, true, d, t);
    } else {
      RotateLeft(father_of_element, c, s);
      d, t := AfterRotation(c, s, false);
      SidesAfterRotation(c, s, false, d, t);
    }
  }

  /** One correction on the walk. */
  method Correct<T>(father_of_element: Element<T>, ghost c0: Context<T>, ghost s0: Shape<T>,
                    ghost c: Context<T>, ghost s: Shape<T>, ghost before: seq<Turn<T>>, ghost k: int)
    returns (ghost turns: seq<Turn<T>>, ghost d: Context<T>, ghost t: Shape<T>)
    requires At(c, s) && s.n == father_of_element && Abs(Height(s.l) - Height(s.r)) >= 2
    requires s0.Bin? && Walked(c0, s0, c, s, before, k) && k < 7
    modifies Everything(c, s)
    ensures At(d, t) && t.n == father_of_element
    ensures WholeOrder(d, t) == WholeOrder(c, s) && Everything(d, t) == Everything(c, s)
    ensures Walked(c0, s0, d, t, turns, if IsBent(s) then 7 else k + 1)
  {
    hide Walked, WholeOrder, Everything;
    ghost var turn;
    turn, d, t := LiftDeeperSide(father_of_element, c, s);
    WalkedDown(c0, s0, d, t, before, turn, k);
    turns := before + [turn];
  }

  /** Walk from the new element's father to the top, rotating at most seven times; find the top. */
  method Balance<T>(father: Element<T>, ghost c0: Context<T>, ghost s0: Shape<T>)
    returns (top: Element<T>, ghost shape: Shape<T>, ghost turns: seq<Turn<T>>)
    requires At(c0, s0) && s0.n == father
    modifies Everything(c0, s0)
    ensures At(Top, shape) && shape.n == top
    ensures |turns| <= 7 && Turns(Plug(c0, s0), turns, shape)
    ensures GaveUp(turns) || OutOfBalance(shape) <= OutOffSpine(c0, s0)
    ensures Order(shape) == WholeOrder(c0, s0) && Nodes(shape) == Everything(c0, s0)
  {
    var father_of_element := father;
    var top_found := true;
    var corrections := 0;
    ghost var c, s := c0, s0;
    turns := [];
    WalkedNowhere(c, s);
    hide Walked, GaveUp, Turns, OutOfBalance, OutOffSpine, IsBent, IsNeeded, Before, After, Order;
    while top_found && corrections < 7
      invariant At(c, s) && s.n == father_of_element && corrections <= 7
      invariant WholeOrder(c, s) == WholeOrder(c0, s0) && Everything(c, s) == Everything(c0, s0)
      invariant Walked(c0, s0, c, s, turns, corrections)
      invariant !top_found ==> OutOfBalance(Plug(c, s)) <= OutOffSpine(c0, s0)
      decreases 7 - corrections, Steps(c), top_found
    {
      FieldsAt(c, s);
      if Abs(father_of_element.left_depth - father_of_element.right_depth) < 2 {
        WalkedUp(c0, s0, c, s, turns, corrections);
        if father_of_element.up != null {
          GoUp(c, s);
          GoUpOrder(c, s);
          father_of_element := father_of_element.up;
          s, c := OneUp(c, s), c.above;
        } else {
          top_found := false;
        }
      } else {
        ghost var k := corrections;
        corrections := corrections + 1;
        NodesExist(s);
        AroundExists(c);
        var zigzag := IsZigzag(father_of_element, c, s);
        if zigzag { corrections := 7; }
        turns, c, s := Correct(father_of_element, c0, s0, c, s, turns, k);
      }
    }
    WalkedFar(c0, s0, c, s, turns, corrections);
    top, shape := FindTop(father_of_element, c, s);
  }

  /** Go up to the top. */
  method FindTop<T>(element: Element<T>, ghost c0: Context<T>, ghost s0: Shape<T>)
    returns (top: Element<T>, ghost shape: Shape<T>)
    requires At(c0, s0) && s0.n == element
    ensures top in Everything(c0, s0) && top.up == null
    ensures At(Top, shape) && shape.n == top && shape == Plug(c0, s0)
    ensures Order(shape) == WholeOrder(c0, s0) && Nodes(shape) == Everything(c0, s0)
  {
    top, shape := element, s0;
    ghost var c := c0;
    while top.up != null
      invariant At(c, shape) && shape.n == top && Plug(c, shape) == Plug(c0, s0)
      invariant WholeOrder(c, shape) == WholeOrder(c0, s0) && Everything(c, shape) == Everything(c0, s0)
      decreases Steps(c)
    {
      GoUp(c, shape);
      GoUpOrder(c, shape);
      top := top.up;
      shape, c := OneUp(c, shape), c.above;
    }
  }

  // ---- The tree ----

  ghost function Items<T>(es: seq<Element<T>>): (xs: seq<T>)
    ensures |xs| == |es| && forall i :: 0 <= i < |es| ==> xs[i] == es[i].item
  {
    seq(|es|, i requires 0 <= i < |es| => es[i].item)
  }

  lemma SortedSplit<T(!new)>(cmp: Comparer<T>, p: seq<Element<T>>, n: Element<T>, q: seq<Element<T>>, x: T)
    requires TotalPreorder(cmp) && Sorted(cmp, Items(p + [n] + q))
    ensures cmp(x, n.item) < 0 ==> forall e :: e in q ==> cmp(x, e.item) < 0
    ensures cmp(x, n.item) >= 0 ==> forall e :: e in p ==> cmp(x, e.item) >= 0
  {
    var es := p + [n] + q;
    forall i | 0 <= i < |q| && cmp(x, n.item) < 0 ensures cmp(x, q[i].item) < 0 {
      var j := |p| + 1 + i;
      assert es[|p|] == n && es[j] == q[i];
      assert Items(es)[|p|] == n.item && Items(es)[j] == q[i].item;
      assert NotAbove(cmp, n.item, q[i].item);
      if NotAbove(cmp, q[i].item, x) { assert false; }
    }
    forall i | 0 <= i < |p| && cmp(x, n.item) >= 0 ensures cmp(x, p[i].item) >= 0 {
      assert es[|p|] == n && es[i] == p[i];
      assert Items(es)[|p|] == n.item && Items(es)[i] == p[i].item;
      assert NotAbove(cmp, p[i].item, n.item) && NotAbove(cmp, n.item, x);
    }
  }

  /** All that stands before the subtree of c is not above x, all that stands behind it is above x. */
  ghost predicate Brackets<T>(cmp: Comparer<T>, c: Context<T>, x: T) {
    && (forall e :: e in Before(c) ==> cmp(x, e.item) >= 0)
    && (forall e :: e in After(c) ==> cmp(x, e.item) < 0)
  }

  lemma BracketsLeft<T(!new)>(cmp: Comparer<T>, c: Context<T>, s: Shape<T>, x: T)
    requires s.Bin? && Brackets(cmp, c, x) && TotalPreorder(cmp)
    requires Sorted(cmp, Items(WholeOrder(c, s)))
    requires cmp(x, s.n.item) < 0
    ensures Brackets(cmp, InLeft(s.n, s.r, c), x)
  {
    assert WholeOrder(c, s) == (Before(c) + Order(s.l)) + [s.n] + (Order(s.r) + After(c));
    SortedSplit(cmp, Before(c) + Order(s.l), s.n, Order(s.r) + After(c), x);
    assert forall e :: e in Order(s.r) ==> e in Order(s.r) + After(c);
  }

  lemma BracketsRight<T(!new)>(cmp: Comparer<T>, c: Context<T>, s: Shape<T>, x: T)
    requires s.Bin? && Brackets(cmp, c, x) && TotalPreorder(cmp)
    requires Sorted(cmp, Items(WholeOrder(c, s)))
    requires cmp(x, s.n.item) >= 0
    ensures Brackets(cmp, InRight(s.l, s.n, c), x)
  {
    assert WholeOrder(c, s) == (Before(c) + Order(s.l)) + [s.n] + (Order(s.r) + After(c));
    SortedSplit(cmp, Before(c) + Order(s.l), s.n, Order(s.r) + After(c), x);
    assert forall e :: e in Order(s.l) ==> e in Before(c) + Order(s.l);
  }

  lemma GoUpOrderNil<T>(c: Context<T>)
    ensures WholeOrder(c, Nil) == Before(c) + After(c)
  {
  }

  lemma ItemsAppend<T>(a: seq<Element<T>>, b: seq<Element<T>>)
    ensures Items(a + b) == Items(a) + Items(b)
  {
  }

  lemma ItemsInRange<T>(cmp: Comparer<T>, es: seq<Element<T>>, x: T, above: bool)
    requires forall e :: e in es ==> if above then cmp(x, e.item) < 0 else cmp(x, e.item) >= 0
    ensures forall y :: y in Items(es) ==> if above then cmp(x, y) < 0 else cmp(x, y) >= 0
  {
    forall i | 0 <= i < |es|
      ensures if above then cmp(x, Items(es)[i]) < 0 else cmp(x, Items(es)[i]) >= 0
    {
      assert es[i] in es;
    }
  }

  /** A new leaf between its two brackets is a stable insertion. */
  lemma LeafIsInsertion<T(!new)>(cmp: Comparer<T>, c: Context<T>, e: Element<T>)
    requires Brackets(cmp, c, e.item)
    ensures Items(WholeOrder(c, Bin(Nil, e, Nil))) == InsertStable(cmp, Items(Before(c) + After(c)), e.item)
  {
    ItemsInRange(cmp, Before(c), e.item, false);
    ItemsInRange(cmp, After(c), e.item, true);
    InsertBetween(cmp, Items(Before(c)), e.item, Items(After(c)));
    assert Order(Bin(Nil, e, Nil)) == [e];
    ItemsAppend(Before(c), After(c));
    ItemsAppend(Before(c), [e]);
    ItemsAppend(Before(c) + [e], After(c));
    assert Items([e]) == [e.item];
  }

  /** Hang a new element below `father`, on the free left side. */
  method HangLeft<T>(father: Element<T>, x: T, ghost c: Context<T>, ghost s: Shape<T>)
    returns (added: Element<T>)
    requires At(c, s) && s.n == father && s.l.Nil?
    modifies father`left
    ensures fresh(added) && added.item == x && added.up == father
    ensures added.left == null && added.right == null && added.left_depth == 0 && added.right_depth == 0
    ensures var d := InLeft(s.n, s.r, c);
      AccurateAround(d, added, 0) && NoSharingAround(d) && added !in Around(d) && Around(d) == Everything(c, s)
  {
    AroundExists(c);
    NodesExist(s);
    added := new Element(x, father);
    father.left := added;
  }

  /** Hang a new element below `father`, on the free right side. */
  method HangRight<T>(father: Element<T>, x: T, ghost c: Context<T>, ghost s: Shape<T>)
    returns (added: Element<T>)
    requires At(c, s) && s.n == father && s.r.Nil?
    modifies father`right
    ensures fresh(added) && added.item == x && added.up == father
    ensures added.left == null && added.right == null && added.left_depth == 0 && added.right_depth == 0
    ensures var d := InRight(s.l, s.n, c);
      AccurateAround(d, added, 0) && NoSharingAround(d) && added !in Around(d) && Around(d) == Everything(c, s)
  {
    AroundExists(c);
    NodesExist(s);
    added := new Element(x, father);
    father.right := added;
  }

  /** The place of x is somewhere in the subtree s of `father`. */
  ghost predicate Searching<T(!new)>(cmp: Comparer<T>, x: T, father: Element<T>, c: Context<T>, s: Shape<T>,
                                     order: seq<Element<T>>)
    reads Nodes(s), Around(c)
  {
    && At(c, s) && s.n == father && WholeOrder(c, s) == order && Brackets(cmp, c, x)
  }

  /** A new element for x hangs at its place; only the depths above it are not yet told. */
  ghost predicate Hung<T(!new)>(cmp: Comparer<T>, x: T, father: Element<T>, added: Element<T>, c: Context<T>,
                                order: seq<Element<T>>)
    reads added, Around(c)
  {
    && added.item == x && added.up == father && added.left == null && added.right == null
    && added.left_depth == 0 && added.right_depth == 0
    && !c.Top? && c.p == father && NoSharingAround(c) && added !in Around(c)
    && AccurateAround(c, added, 0)
    && Before(c) + After(c) == order && Brackets(cmp, c, x)
  }

  method StepLeft<T(!new)>(cmp: Comparer<T>, x: T, father: Element<T>, ghost c: Context<T>, ghost s: Shape<T>,
                           ghost order: seq<Element<T>>)
    returns (next: Element<T>, added: Element?<T>, ghost d: Context<T>, ghost t: Shape<T>)
    requires TotalPreorder(cmp) && Sorted(cmp, Items(order)) && Searching(cmp, x, father, c, s, order)
    requires cmp(x, father.item) < 0
    modifies father`left
    ensures Everything(d, t) == Everything(c, s) && Height(t) < Height(s)
    ensures OutOfBalance(t) + OutBeside(d) <= OutOfBalance(s) + OutBeside(c)
    ensures added == null ==> Searching(cmp, x, next, d, t, order) && unchanged(father)
    ensures added != null ==> fresh(added) && next == father && t.Nil? && Hung(cmp, x, father, added, d, order)
  {
    OutBelow(c, s);
    hide OutOfBalance, OutBeside;
    BracketsLeft(cmp, c, s, x);
    d, t := InLeft(s.n, s.r, c), s.l;
    GoUpOrder(d, t);
    if father.left != null {
      GoLeft(c, s);
      next, added := father.left, null;
    } else {
      GoUpOrderNil(d);
      added := HangLeft(father, x, c, s);
      next := father;
    }
  }

  method StepRight<T(!new)>(cmp: Comparer<T>, x: T, father: Element<T>, ghost c: Context<T>, ghost s: Shape<T>,
                            ghost order: seq<Element<T>>)
    returns (next: Element<T>, added: Element?<T>, ghost d: Context<T>, ghost t: Shape<T>)
    requires TotalPreorder(cmp) && Sorted(cmp, Items(order)) && Searching(cmp, x, father, c, s, order)
    requires cmp(x, father.item) >= 0
    modifies father`right
    ensures Everything(d, t) == Everything(c, s) && Height(t) < Height(s)
    ensures OutOfBalance(t) + OutBeside(d) <= OutOfBalance(s) + OutBeside(c)
    ensures added == null ==> Searching(cmp, x, next, d, t, order) && unchanged(father)
    ensures added != null ==> fresh(added) && next == father && t.Nil? && Hung(cmp, x, father, added, d, order)
  {
    OutBelow(c, s);
    hide OutOfBalance, OutBeside;
    BracketsRight(cmp, c, s, x);
    d, t := InRight(s.l, s.n, c), s.r;
    GoUpOrder(d, t);
    if father.right != null {
      GoRight(c, s);
      next, added := father.right, null;
    } else {
      GoUpOrderNil(d);
      added := HangRight(father, x, c, s);
      next := father;
    }
  }

  /** One turn of the descent: to the left or to the right, as the comparer says. */
  method Descend<T(!new)>(cmp: Comparer<T>, x: T, father: Element<T>, ghost c: Context<T>, ghost s: Shape<T>,
                          ghost order: seq<Element<T>>)
    returns (next: Element<T>, added: Element?<T>, ghost d: Context<T>, ghost t: Shape<T>)
    requires TotalPreorder(cmp) && Sorted(cmp, Items(order)) && Searching(cmp, x, father, c, s, order)
    modifies Everything(c, s)
    ensures Everything(d, t) == Everything(c, s) && Height(t) < Height(s)
    ensures OutOfBalance(t) + OutBeside(d) <= OutOfBalance(s) + OutBeside(c)
    ensures added == null ==> Searching(cmp, x, next, d, t, order)
    ensures added != null ==> fresh(added) && t.Nil? && Hung(cmp, x, next, added, d, order)
  {
    hide OutOfBalance, OutBeside;
    next, added, d, t := father, null, c, s;
    if cmp(x, next.item) < 0 {
      next, added, d, t := StepLeft(cmp, x, next, d, t, order);
    }
    if cmp(x, next.item) >= 0 {
      next, added, d, t := StepRight(cmp, x, next, d, t, order);
    }
  }

  ghost function First<T>(es: seq<Element<T>>): Element?<T> { if es == [] then null else es[0] }

  ghost predicate Distinct<T>(es: seq<Element<T>>) {
    forall i, j :: 0 <= i < j < |es| ==> es[i] != es[j]
  }

  lemma StaysDistinct<T>(p: seq<Element<T>>, n: Element<T>, q: seq<Element<T>>)
    requires Distinct(p) && Distinct(q) && n !in p && n !in q
    requires forall e :: e in p ==> e !in q
    ensures Distinct(p + [n] + q)
  {
    forall i, j | 0 <= i < j < |p + [n] + q| ensures (p + [n] + q)[i] != (p + [n] + q)[j] {
      if i < |p| {
        assert p[i] in p;
      }
    }
  }

  lemma {:induction false} OrderIsNodes<T>(s: Shape<T>)
    requires NoSharing(s)
    ensures forall e :: e in Order(s) ==> e in Nodes(s)
    ensures forall e :: e in Nodes(s) ==> e in Order(s)
    ensures Distinct(Order(s))
  {
    if s.Nil? {
    } else {
      OrderIsNodes(s.l);
      OrderIsNodes(s.r);
      forall e | e in Order(s.l) ensures e !in Order(s.r) {
        assert e in Nodes(s.l);
      }
      StaysDistinct(Order(s.l), s.n, Order(s.r));
    }
  }

  /** An element has one position in the order of the tree: behind what its context puts before it. */
  lemma PositionIsUnique<T>(shape: Shape<T>, c: Context<T>, s: Shape<T>)
    requires NoSharing(shape) && s.Bin? && WholeOrder(c, s) == Order(shape)
    ensures forall i :: 0 <= i < |Order(shape)| && Order(shape)[i] == s.n ==>
      Order(shape)[i + 1..] == Order(s.r) + After(c)
  {
    OrderIsNodes(shape);
    assert Order(shape) == (Before(c) + Order(s.l)) + [s.n] + (Order(s.r) + After(c));
    BehindIsUnique(Order(shape), Before(c) + Order(s.l), s.n, Order(s.r) + After(c));
  }

  lemma BehindIsUnique<T>(es: seq<Element<T>>, before: seq<Element<T>>, e: Element<T>, behind: seq<Element<T>>)
    requires Distinct(es) && es == before + [e] + behind
    ensures forall i :: 0 <= i < |es| && es[i] == e ==> es[i + 1..] == behind
  {
    assert es[|before|] == e && es[|before| + 1..] == behind;
  }

  /** Every element of a tree can be seen in its context. */
  lemma {:induction false} Locate<T>(c: Context<T>, s: Shape<T>, e: Element<T>)
    returns (d: Context<T>, t: Shape<T>)
    requires At(c, s) && e in Nodes(s)
    ensures At(d, t) && t.n == e && WholeOrder(d, t) == WholeOrder(c, s)
    decreases s
  {
    if e == s.n {
      d, t := c, s;
    } else if e in Nodes(s.l) {
      GoLeft(c, s);
      GoUpOrder(InLeft(s.n, s.r, c), s.l);
      d, t := Locate(InLeft(s.n, s.r, c), s.l, e);
    } else {
      GoRight(c, s);
      GoUpOrder(InRight(s.l, s.n, c), s.r);
      d, t := Locate(InRight(s.l, s.n, c), s.r, e);
    }
  }

  method Leftmost<T>(e: Element<T>, ghost c0: Context<T>, ghost s0: Shape<T>) returns (first: Element<T>)
    requires At(c0, s0) && s0.n == e
    ensures first == Order(s0)[0]
  {
    first := e;
    ghost var c, s := c0, s0;
    while first.left != null
      invariant At(c, s) && s.n == first
      invariant Order(s)[0] == Order(s0)[0]
      decreases s
    {
      GoLeft(c, s);
      first := first.left;
      c, s := InLeft(s.n, s.r, c), s.l;
    }
  }

  class Tree<T(!new)> {
    const compare: Comparer<T>
    var top: Element?<T>
    ghost var shape: Shape<T>

    constructor (compare: Comparer<T>)
      requires TotalPreorder(compare)
      ensures Valid() && Contents() == [] && this.compare == compare && shape == Nil
    {
      this.compare := compare;
      top, shape := null, Nil;
    }

    /** The pointers, the depths and the top are those of the shape. */
    ghost predicate Linked()
      reads this, Nodes(shape)
    {
      top == Root(shape) && NoSharing(shape) && Accurate(shape, null)
    }

    ghost predicate Valid()
      reads this, Nodes(shape)
    {
      Linked() && TotalPreorder(compare) && Sorted(compare, Contents())
    }

    ghost function Contents(): seq<T>
      reads this
    {
      Items(Order(shape))
    }

    lemma TopIsLinked()
      requires At(Top, shape) && shape.n == top
      ensures Linked()
    {
    }

    /** Add an object so that the tree remains sorted, behind the objects it ties with. */
    method Add(x: T) returns (ghost turns: seq<Turn<T>>)
      requires Valid()
      modifies this, Nodes(shape)
      ensures Valid() && forall n :: n in Nodes(shape) && n !in old(Nodes(shape)) ==> fresh(n)
      ensures Contents() == InsertStable(compare, old(Contents()), x)
      ensures GaveUp(turns) || OutOfBalance(shape) <= OutOfBalance(old(shape))
    {
      turns := [];
      InsertKeepsSorted(compare, Contents(), x);
      if top == null {
        top := new Element(x, null);
        shape := Bin(Nil, top, Nil);
        assert Order(shape) == [top];
        assert Items(Order(shape)) == [x];
      } else {
        ghost var c, s;
        var father, added;
        father, added, c := InsertLeaf(x);
        father, s, c := FixAfterInsertion(compare, x, father, added, c, Order(shape));
        top, shape, turns := Balance(father, c, s);
        TopIsLinked();
        assert Contents() == InsertStable(compare, old(Contents()), x);
      }
    }

    /** Walk down to the place of the new object and hang a new element there. */
    method InsertLeaf(x: T) returns (father: Element<T>, added: Element<T>, ghost c: Context<T>)
      requires Valid() && top != null
      modifies Nodes(shape)
      ensures fresh(added) && Around(c) == Nodes(shape)
      ensures Hung(compare, x, father, added, c, Order(shape))
      ensures OutBeside(c) <= OutOfBalance(shape)
    {
      var father_of_element: Element<T> := top;
      var added_element: Element?<T> := null;
      var father_found := true;
      ghost var s;
      c, s := Top, shape;
      assert WholeOrder(c, s) == Order(shape);
      while father_found
        invariant Everything(c, s) == Nodes(shape)
        invariant OutOfBalance(s) + OutBeside(c) <= OutOfBalance(shape)
        invariant father_found ==> Searching(compare, x, father_of_element, c, s, Order(shape))
        invariant !father_found ==>
          && added_element != null && fresh(added_element) && s.Nil?
          && Hung(compare, x, father_of_element, added_element, c, Order(shape))
        decreases Height(s), father_found
      {
        father_of_element, added_element, c, s := Descend(compare, x, father_of_element, c, s, Order(shape));
        father_found := added_element == null;
      }
      father, added := father_of_element, added_element;
    }

    /** The element after `ele` in the order of the tree; the first one if `ele` is null. */
    method Next(ele: Element?<T>) returns (next: Element?<T>)
      requires Linked() && (ele != null ==> ele in Nodes(shape))
      ensures ele == null ==> next == First(Order(shape))
      ensures forall i :: 0 <= i < |Order(shape)| && Order(shape)[i] == ele ==>
        next == First(Order(shape)[i + 1..])
    {
      if ele == null {
        next := top;
        if next != null {
          next := Leftmost(next, Top, shape);
        }
      } else {
        ghost var c, s := Locate(Top, shape, ele);
        assert WholeOrder(Top, shape) == Order(shape);
        PositionIsUnique(shape, c, s);
        if ele.right != null {
          GoRight(c, s);
          next := Leftmost(ele.right, InRight(s.l, s.n, c), s.r);
        } else {
          ghost var after := After(c);
          var father_of_element: Element<T> := ele;
          var father_of_forefather := ele.up;
          while father_of_forefather != null && father_of_forefather.right == father_of_element
            invariant At(c, s) && s.n == father_of_element && father_of_forefather == father_of_element.up
            invariant After(c) == after
            decreases Steps(c)
          {
            GoUp(c, s);
            father_of_element := father_of_forefather;
            father_of_forefather := father_of_element.up;
            s, c := OneUp(c, s), c.above;
          }
          next := father_of_forefather;
        }
      }
    }
  }

  /** All depths are accurate again, and the new leaf is a stable insertion. */
  method FixAfterInsertion<T(!new)>(cmp: Comparer<T>, x: T, father: Element<T>, added: Element<T>,
                                    ghost c: Context<T>, ghost order: seq<Element<T>>)
    returns (start: Element<T>, ghost s: Shape<T>, ghost d: Context<T>)
    requires Hung(cmp, x, father, added, c, order)
    modifies Around(c)
    ensures start == father && At(d, s) && s.n == father
    ensures Everything(d, s) == Around(c) + {added}
    ensures Items(WholeOrder(d, s)) == InsertStable(cmp, Items(order), x)
    ensures OutOffSpine(d, s) <= OutBeside(c)
  {
    hide OutOfBalance, OutBeside, OutOffSpine;
    start := father;
    FixDepths(father, added, c);
    LeafAddsNoSide(c, added);
    ghost var leaf := Bin(Nil, added, Nil);
    LeafIsInsertion(cmp, c, added);
    GoUp(c, leaf);
    GoUpOrder(c, leaf);
    s, d := OneUp(c, leaf), c.above;
  }

  method Build<T(!new)>(compare: Comparer<T>, xs: seq<T>) returns (tree: Tree<T>)
    requires TotalPreorder(compare)
    ensures fresh(tree) && tree.Valid() && tree.Contents() == InsertAll(compare, xs)
  {
    tree := new Tree(compare);
    for k := 0 to |xs|
      invariant tree.Valid() && fresh(tree) && tree.compare == compare
      invariant forall n :: n in Nodes(tree.shape) ==> fresh(n)
      invariant tree.Contents() == InsertAll(compare, xs[..k])
    {
      assert xs[..k + 1][..k] == xs[..k];
      ghost var nodes := Nodes(tree.shape);
      ghost var _ := tree.Add(xs[k]);
      forall n | n in Nodes(tree.shape) ensures fresh(n) {
        assert n in nodes ==> fresh(n);
      }
    }
    assert xs[..|xs|] == xs;
  }

  lemma OneFurther<T>(order: seq<Element<T>>, k: nat)
    requires k <= |order|
    ensures First(order[k..]) == if k < |order| then order[k] else null
    ensures k < |order| ==> Items(order)[..k + 1] == Items(order)[..k] + [order[k].item]
  {
  }

  /** The element after the one at position k. */
  method NextBehind<T(!new)>(tree: Tree<T>, ele: Element<T>, ghost k: nat) returns (next: Element?<T>)
    requires tree.Linked() && k < |Order(tree.shape)| && Order(tree.shape)[k] == ele
    ensures tree.Linked() && next == First(Order(tree.shape)[k + 1..])
  {
    OrderIsNodes(tree.shape);
    NodesExist(tree.shape);
    next := tree.Next(ele);
  }

  method Walk<T(!new)>(tree: Tree<T>) returns (ys: seq<T>)
    requires tree.Linked()
    ensures ys == tree.Contents()
  {
    ghost var order := Order(tree.shape);
    ys := [];
    NodesExist(tree.shape);
    var next_element := tree.Next(null);
    OneFurther(order, 0);
    assert order[0..] == order;
    while next_element != null
      invariant tree.Linked() && |ys| <= |order| && next_element == First(order[|ys|..])
      invariant ys == Items(order)[..|ys|]
      decreases |order| - |ys|
    {
      OneFurther(order, |ys|);
      ghost var k := |ys|;
      ys := ys + [next_element.item];
      next_element := NextBehind(tree, next_element, k);
    }
    OneFurther(order, |ys|);
  }

  /** Add the objects one by one, then walk the tree from null to null. */
  method SortWithTree<T(!new)>(compare: Comparer<T>, xs: seq<T>) returns (ys: seq<T>)
    requires TotalPreorder(compare)
    ensures IsStableSortOf(compare, ys, xs)
    ensures ys == InsertAll(compare, xs)
  {
    InsertAllIsStableSort(compare, xs);
    var tree := Build(compare, xs);
    ys := Walk(tree);
  }
}
