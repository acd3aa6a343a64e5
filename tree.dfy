/** The ElementTree element tree the passes of `SVG` work on, and the walk
    `SVG._iter` / `SVG.iter` takes through it (svgplot.py:294-301).

    A tree is a value; a node is addressed by its path of child indices from
    the root.  A pass that changes elements one by one while walking the
    tree is modelled as a sequence of `Edit`s of single nodes; only the
    attributes, text and tail of an element (its `Local` part) ever change,
    never its tag or its children. */
module Tree {
  import opened Wrappers
  import opened Attributes

  datatype Element = Element(
    tag: string,
    attrib: Attrs,
    text: Option<string>,
    tail: Option<string>,
    children: seq<Element>)

  /** What the passes change in an element: `attrib`, `text` and `tail`. */
  datatype Local = Local(attrib: Attrs, text: Option<string>, tail: Option<string>)

  function LocalOf(e: Element): Local
  {
    Local(e.attrib, e.text, e.tail)
  }

  /** Child indices from the root down to a node. */
  type Path = seq<nat>

  predicate ValidPath(e: Element, p: Path)
    decreases |p|
  {
    |p| == 0 || (p[0] < |e.children| && ValidPath(e.children[p[0]], p[1..]))
  }

  /** The node at the end of a path. */
  function At(e: Element, p: Path): Element
    requires ValidPath(e, p)
    decreases |p|
  {
    if |p| == 0 then e else At(e.children[p[0]], p[1..])
  }

  /** The path `[i, j]` leads to child `j` of child `i`. */
  lemma GrandchildPath(e: Element, i: nat, j: nat)
    requires i < |e.children| && j < |e.children[i].children|
    ensures ValidPath(e, [i, j]) && At(e, [i, j]) == e.children[i].children[j]
  {
    var c := e.children[i];
    assert [j][1..] == [];
    assert ValidPath(c, [j]) && At(c, [j]) == c.children[j];
    assert [i, j][1..] == [j];
  }

  /** The tree with the node at `p` given the attributes, text and tail `l`. */
  function Edit(e: Element, p: Path, l: Local): Element
    requires ValidPath(e, p)
    decreases |p|
  {
    if |p| == 0 then Element(e.tag, l.attrib, l.text, l.tail, e.children)
    else
      var k := p[0];
      Element(e.tag, e.attrib, e.text, e.tail, e.children[k := Edit(e.children[k], p[1..], l)])
  }

  /** Same tags and same children counts everywhere. */
  predicate SameShape(a: Element, b: Element)
    decreases a
  {
    a.tag == b.tag && |a.children| == |b.children|
    && forall k :: 0 <= k < |a.children| ==> SameShape(a.children[k], b.children[k])
  }

  lemma {:induction false} SameShapeRefl(a: Element)
    ensures SameShape(a, a)
    decreases a
  {
    forall k | 0 <= k < |a.children| ensures SameShape(a.children[k], a.children[k]) {
      SameShapeRefl(a.children[k]);
    }
  }

  lemma {:induction false} SameShapeTrans(a: Element, b: Element, c: Element)
    requires SameShape(a, b) && SameShape(b, c)
    ensures SameShape(a, c)
    decreases a
  {
    forall k | 0 <= k < |a.children| ensures SameShape(a.children[k], c.children[k]) {
      SameShapeTrans(a.children[k], b.children[k], c.children[k]);
    }
  }

  lemma {:induction false} SameShapeSym(a: Element, b: Element)
    requires SameShape(a, b)
    ensures SameShape(b, a)
    decreases a
  {
    forall k | 0 <= k < |b.children| ensures SameShape(b.children[k], a.children[k]) {
      SameShapeSym(a.children[k], b.children[k]);
    }
  }

  /** Trees of the same shape have the same paths, leading to nodes of the
      same shape. */
  lemma {:induction false} ShapePath(a: Element, b: Element, p: Path)
    requires SameShape(a, b) && ValidPath(a, p)
    ensures ValidPath(b, p) && SameShape(At(a, p), At(b, p))
    decreases |p|
  {
    if |p| > 0 {
      ShapePath(a.children[p[0]], b.children[p[0]], p[1..]);
    }
  }

  /** An edit changes the local part of the node at `p` to `l`, and nothing
      else: not the shape, not any other node. */
  lemma {:induction false} EditAt(e: Element, p: Path, l: Local, q: Path)
    requires ValidPath(e, p) && ValidPath(e, q)
    ensures SameShape(Edit(e, p, l), e)
    ensures ValidPath(Edit(e, p, l), q)
    ensures LocalOf(At(Edit(e, p, l), q)) == if q == p then l else LocalOf(At(e, q))
    decreases |p|
  {
    var r := Edit(e, p, l);
    if |p| == 0 {
      forall k | 0 <= k < |e.children| ensures SameShape(r.children[k], e.children[k]) {
        SameShapeRefl(e.children[k]);
      }
      if |q| > 0 {
        SameShapeRefl(e.children[q[0]]);
      }
    } else {
      var k := p[0];
      forall j | 0 <= j < |e.children| ensures SameShape(r.children[j], e.children[j]) {
        if j == k {
          EditAt(e.children[k], p[1..], l, []);
        } else {
          SameShapeRefl(e.children[j]);
        }
      }
      if |q| > 0 {
        if q[0] == k {
          EditAt(e.children[k], p[1..], l, q[1..]);
          assert q == [q[0]] + q[1..] && p == [p[0]] + p[1..];
        }
      }
    }
  }

  /** Two trees of the same shape whose nodes agree everywhere are equal. */
  lemma {:induction false} TreeExt(a: Element, b: Element)
    requires SameShape(a, b)
    requires forall p :: ValidPath(a, p) && ValidPath(b, p) ==> LocalOf(At(a, p)) == LocalOf(At(b, p))
    ensures a == b
    decreases a
  {
    assert LocalOf(At(a, [])) == LocalOf(At(b, []));
    forall k | 0 <= k < |a.children| ensures a.children[k] == b.children[k] {
      forall p | ValidPath(a.children[k], p) && ValidPath(b.children[k], p)
        ensures LocalOf(At(a.children[k], p)) == LocalOf(At(b.children[k], p))
      {
        var kp := [k] + p;
        assert kp[1..] == p;
        assert ValidPath(a, kp) && ValidPath(b, kp);
      }
      TreeExt(a.children[k], b.children[k]);
    }
    assert a.children == b.children;
  }

  /** The queries `SVG.iter` is called with: a tag (`"path"`), every child
      (`"*"`, which ElementPath reads as an operator, not as a tag, so it
      selects every child whatever its namespace), an attribute test
      (`"[@id]"`), and ElementTree's own `Element.iter()`, which `SVG.slim`
      uses. */
  datatype Query = Tag(name: string) | Wildcard | HasAttr(name: string) | All

  /** Attribute tests and `Element.iter()` look at the starting element
      itself; tag and wildcard steps only at its children. */
  predicate SelfTest(q: Query)
  {
    q.HasAttr? || q.All?
  }

  predicate Matches(q: Query, e: Element)
  {
    match q
    case Tag(n) => e.tag == n
    case Wildcard => true
    case HasAttr(n) => n in Names(e.attrib)
    case All => true
  }

  /** The node at `p` is one the walk from the root yields: the root only
      for a self test. */
  predicate Selected(e: Element, q: Query, p: Path)
  {
    ValidPath(e, p) && (SelfTest(q) || |p| > 0) && Matches(q, At(e, p))
  }

  /** `el.iterfind(q)`: for a self test the element itself if it matches,
      otherwise its matching children, in order. */
  function Here(e: Element, q: Query): seq<Path>
  {
    if SelfTest(q) then (if Matches(q, e) then [[]] else [])
    else ChildMatches(e, q, 0)
  }

  function ChildMatches(e: Element, q: Query, k: nat): seq<Path>
    requires k <= |e.children|
    decreases |e.children| - k
  {
    if k == |e.children| then []
    else (if Matches(q, e.children[k]) then [[k]] else []) + ChildMatches(e, q, k + 1)
  }

  function Prefix(k: nat, ps: seq<Path>): (r: seq<Path>)
    ensures |r| == |ps|
    ensures forall i :: 0 <= i < |ps| ==> r[i] == [k] + ps[i]
  {
    seq(|ps|, i requires 0 <= i < |ps| => [k] + ps[i])
  }

  /** `SVG._iter(el, q)`: `el.iterfind(q)`, then the walk from each child in
      turn; for `All`, the pre-order of `Element.iter()`. */
  function Walk(e: Element, q: Query): seq<Path>
    decreases e, 1
  {
    Here(e, q) + Below(e, q, 0)
  }

  function Below(e: Element, q: Query, k: nat): seq<Path>
    requires k <= |e.children|
    decreases e, 0, |e.children| - k
  {
    if k == |e.children| then []
    else Prefix(k, Walk(e.children[k], q)) + Below(e, q, k + 1)
  }

  lemma {:induction false} ChildMatchesMember(e: Element, q: Query, k: nat, p: Path)
    requires k <= |e.children|
    ensures p in ChildMatches(e, q, k) <==>
              |p| == 1 && k <= p[0] < |e.children| && Matches(q, e.children[p[0]])
    decreases |e.children| - k
  {
    if k < |e.children| {
      ChildMatchesMember(e, q, k + 1, p);
      if |p| == 1 && p[0] == k {
        assert p == [k];
      }
    }
  }

  lemma {:induction false} ChildMatchesDistinct(e: Element, q: Query, k: nat)
    requires k <= |e.children|
    ensures forall i :: 0 <= i < |ChildMatches(e, q, k)| ==>
              |ChildMatches(e, q, k)[i]| == 1 && k <= ChildMatches(e, q, k)[i][0]
    ensures Distinct(ChildMatches(e, q, k))
    decreases |e.children| - k
  {
    if k < |e.children| {
      ChildMatchesDistinct(e, q, k + 1);
    }
  }

  lemma PrefixMember(k: nat, ps: seq<Path>, p: Path)
    ensures p in Prefix(k, ps) <==> |p| > 0 && p[0] == k && p[1..] in ps
  {
    if |p| > 0 && p[0] == k && p[1..] in ps {
      var i :| 0 <= i < |ps| && ps[i] == p[1..];
      assert Prefix(k, ps)[i] == p;
    }
    if p in Prefix(k, ps) {
      var i :| 0 <= i < |ps| && Prefix(k, ps)[i] == p;
      assert p[1..] == ps[i];
    }
  }

  lemma {:induction false} BelowMember(e: Element, q: Query, k: nat, p: Path)
    requires k <= |e.children|
    ensures p in Below(e, q, k) <==>
              |p| > 0 && k <= p[0] < |e.children| && p[1..] in Walk(e.children[p[0]], q)
    decreases |e.children| - k
  {
    if k < |e.children| {
      BelowMember(e, q, k + 1, p);
      PrefixMember(k, Walk(e.children[k], q), p);
    }
  }

  /** The walk yields exactly the selected nodes. */
  lemma {:induction false} WalkMember(e: Element, q: Query, p: Path)
    ensures p in Walk(e, q) <==> Selected(e, q, p)
    decreases e
  {
    BelowMember(e, q, 0, p);
    if !SelfTest(q) {
      ChildMatchesMember(e, q, 0, p);
    }
    if |p| > 0 && p[0] < |e.children| {
      var c := e.children[p[0]];
      WalkMember(c, q, p[1..]);
      assert ValidPath(e, p) == ValidPath(c, p[1..]);
      if ValidPath(e, p) {
        assert At(e, p) == At(c, p[1..]);
      }
      if |p| == 1 {
        assert p[1..] == [];
        assert p in Here(e, q) <==> !SelfTest(q) && Matches(q, c);
      } else if !SelfTest(q) {
        assert p !in Here(e, q);
      }
    }
  }

  predicate Distinct(ps: seq<Path>)
  {
    forall i, j :: 0 <= i < j < |ps| ==> ps[i] != ps[j]
  }

  lemma DistinctConcat(a: seq<Path>, b: seq<Path>)
    requires Distinct(a) && Distinct(b)
    requires forall i :: 0 <= i < |a| ==> a[i] !in b
    ensures Distinct(a + b)
  {
    forall i, j | 0 <= i < j < |a + b| ensures (a + b)[i] != (a + b)[j] {
      if i < |a| && j >= |a| {
        assert (a + b)[j] == b[j - |a|];
      }
    }
  }

  lemma PrefixDistinct(k: nat, ps: seq<Path>)
    requires Distinct(ps)
    ensures Distinct(Prefix(k, ps))
  {
    var r := Prefix(k, ps);
    forall i, j | 0 <= i < j < |r| ensures r[i] != r[j] {
      assert r[i][1..] == ps[i];
      assert r[j][1..] == ps[j];
    }
  }

  lemma {:induction false} BelowDistinct(e: Element, q: Query, k: nat)
    requires k <= |e.children|
    requires forall j :: k <= j < |e.children| ==> Distinct(Walk(e.children[j], q))
    ensures Distinct(Below(e, q, k))
    decreases |e.children| - k
  {
    if k < |e.children| {
      BelowDistinct(e, q, k + 1);
      var ws := Walk(e.children[k], q);
      PrefixDistinct(k, ws);
      HeadNotBelow(e, q, k);
      DistinctConcat(Prefix(k, ws), Below(e, q, k + 1));
    }
  }

  /** The paths through child `k` are not among those through later children. */
  lemma HeadNotBelow(e: Element, q: Query, k: nat)
    requires k < |e.children|
    ensures forall i :: 0 <= i < |Prefix(k, Walk(e.children[k], q))| ==>
              Prefix(k, Walk(e.children[k], q))[i] !in Below(e, q, k + 1)
  {
    var head := Prefix(k, Walk(e.children[k], q));
    forall i | 0 <= i < |head| ensures head[i] !in Below(e, q, k + 1) {
      BelowMember(e, q, k + 1, head[i]);
    }
  }

  /** The walk visits each node at most once. */
  lemma {:induction false} WalkDistinct(e: Element, q: Query)
    ensures Distinct(Walk(e, q))
    decreases e
  {
    forall j | 0 <= j < |e.children| ensures Distinct(Walk(e.children[j], q)) {
      WalkDistinct(e.children[j], q);
    }
    BelowDistinct(e, q, 0);
    var here := Here(e, q);
    var below := Below(e, q, 0);
    if !SelfTest(q) {
      ChildMatchesDistinct(e, q, 0);
    }
    forall i | 0 <= i < |here| ensures here[i] !in below {
      var p := here[i];
      BelowMember(e, q, 0, p);
      if |p| > 0 && p[0] < |e.children| {
        WalkMember(e.children[p[0]], q, p[1..]);
      }
    }
    DistinctConcat(here, below);
  }

  /** The tree after the nodes at `ps` have been changed by `f` one after
      the other, each from its state at that time. */
  function EditSeq(e: Element, ps: seq<Path>, f: Local -> Local): (r: Element)
    requires forall i :: 0 <= i < |ps| ==> ValidPath(e, ps[i])
    ensures SameShape(r, e)
    decreases |ps|
  {
    if |ps| == 0 then
      SameShapeRefl(e);
      e
    else
      var r0 := EditSeq(e, ps[..|ps| - 1], f);
      var p := ps[|ps| - 1];
      SameShapeSym(r0, e);
      ShapePath(e, r0, p);
      var l := f(LocalOf(At(r0, p)));
      EditAt(r0, p, l, []);
      SameShapeTrans(Edit(r0, p, l), r0, e);
      Edit(r0, p, l)
  }

  /** One step of a loop that changes the nodes `ps` in turn: the next node
      is still there, and changing it extends the edits. */
  lemma EditSeqStep(e: Element, ps: seq<Path>, f: Local -> Local, i: nat, cur: Element)
    requires forall j :: 0 <= j < |ps| ==> ValidPath(e, ps[j])
    requires i < |ps| && cur == EditSeq(e, ps[..i], f)
    ensures ValidPath(cur, ps[i])
    ensures EditSeq(e, ps[..i + 1], f) == Edit(cur, ps[i], f(LocalOf(At(cur, ps[i]))))
  {
    SameShapeSym(cur, e);
    ShapePath(e, cur, ps[i]);
    assert ps[..i + 1][..i] == ps[..i];
  }

  /** After editing the distinct nodes `ps`, each of them holds `f` of its
      original local part and every other node is as it was. */
  lemma {:induction false} EditSeqAt(e: Element, ps: seq<Path>, f: Local -> Local, q: Path)
    requires forall i :: 0 <= i < |ps| ==> ValidPath(e, ps[i])
    requires Distinct(ps) && ValidPath(e, q)
    ensures ValidPath(EditSeq(e, ps, f), q)
    ensures LocalOf(At(EditSeq(e, ps, f), q)) ==
              if q in ps then f(LocalOf(At(e, q))) else LocalOf(At(e, q))
    decreases |ps|
  {
    if |ps| > 0 {
      var init := ps[..|ps| - 1];
      var p := ps[|ps| - 1];
      var r0 := EditSeq(e, init, f);
      EditSeqAt(e, init, f, q);
      SameShapeSym(r0, e);
      ShapePath(e, r0, p);
      EditAt(r0, p, f(LocalOf(At(r0, p))), q);
      if q == p {
        EditSeqAt(e, init, f, p);
        assert p !in init;
      }
      assert q in ps <==> q in init || q == p;
    }
  }

  /** The specification of a loop `for el in iter(q): <change el by f>`:
      every node the walk selects is changed by `f`, all others kept. */
  function Rewrite(e: Element, q: Query, f: Local -> Local): Element
  {
    RewriteFrom(e, q, f, true)
  }

  function RewriteFrom(e: Element, q: Query, f: Local -> Local, top: bool): Element
    decreases e
  {
    var l := if Matches(q, e) && (SelfTest(q) || !top) then f(LocalOf(e)) else LocalOf(e);
    Element(e.tag, l.attrib, l.text, l.tail,
      seq(|e.children|, k requires 0 <= k < |e.children| => RewriteFrom(e.children[k], q, f, false)))
  }

  lemma {:induction false} RewriteFromAt(e: Element, q: Query, f: Local -> Local, top: bool, p: Path)
    requires ValidPath(e, p)
    ensures SameShape(RewriteFrom(e, q, f, top), e)
    ensures ValidPath(RewriteFrom(e, q, f, top), p)
    ensures LocalOf(At(RewriteFrom(e, q, f, top), p)) ==
              if Matches(q, At(e, p)) && (SelfTest(q) || !top || |p| > 0) then f(LocalOf(At(e, p)))
              else LocalOf(At(e, p))
    decreases e
  {
    var r := RewriteFrom(e, q, f, top);
    forall k | 0 <= k < |e.children| ensures SameShape(r.children[k], e.children[k]) {
      RewriteFromAt(e.children[k], q, f, false, []);
    }
    if |p| > 0 {
      RewriteFromAt(e.children[p[0]], q, f, false, p[1..]);
    }
  }

  /** `Rewrite` changes exactly the selected nodes, each by `f`. */
  lemma RewriteAt(e: Element, q: Query, f: Local -> Local, p: Path)
    requires ValidPath(e, p)
    ensures SameShape(Rewrite(e, q, f), e)
    ensures ValidPath(Rewrite(e, q, f), p)
    ensures At(Rewrite(e, q, f), p).tag == At(e, p).tag
    ensures LocalOf(At(Rewrite(e, q, f), p)) ==
              if Selected(e, q, p) then f(LocalOf(At(e, p))) else LocalOf(At(e, p))
  {
    RewriteFromAt(e, q, f, true, p);
    SameShapeSym(Rewrite(e, q, f), e);
    ShapePath(e, Rewrite(e, q, f), p);
  }

  /** Walking the tree and changing each node as it is reached gives the
      specification. */
  lemma WalkRewrite(e: Element, q: Query, f: Local -> Local)
    ensures forall i :: 0 <= i < |Walk(e, q)| ==> ValidPath(e, Walk(e, q)[i])
    ensures EditSeq(e, Walk(e, q), f) == Rewrite(e, q, f)
  {
    var ps := Walk(e, q);
    WalkValid(e, q);
    WalkDistinct(e, q);
    var a := EditSeq(e, ps, f);
    var b := Rewrite(e, q, f);
    RewriteAt(e, q, f, []);
    SameShapeSym(b, e);
    SameShapeTrans(a, e, b);
    forall p | ValidPath(a, p) && ValidPath(b, p) ensures LocalOf(At(a, p)) == LocalOf(At(b, p)) {
      ShapePath(a, e, p);
      EditSeqAt(e, ps, f, p);
      RewriteAt(e, q, f, p);
      WalkMember(e, q, p);
    }
    TreeExt(a, b);
  }

  /** Every path the walk yields leads to a node. */
  lemma WalkValid(e: Element, q: Query)
    ensures forall i :: 0 <= i < |Walk(e, q)| ==> ValidPath(e, Walk(e, q)[i])
  {
    forall i | 0 <= i < |Walk(e, q)| ensures ValidPath(e, Walk(e, q)[i]) {
      WalkMember(e, q, Walk(e, q)[i]);
    }
  }

  /** A change that may fail, used where it succeeds. */
  function Recover<E>(g: Local -> Result<Local, E>): Local -> Local
  {
    l => if g(l).Ok? then g(l).value else l
  }

  /** The first failure of `g` on the nodes at `ps`, taken in order. */
  function FirstFailure<E>(e: Element, ps: seq<Path>, g: Local -> Result<Local, E>): Option<E>
    requires forall i :: 0 <= i < |ps| ==> ValidPath(e, ps[i])
    decreases |ps|
  {
    if |ps| == 0 then None
    else match g(LocalOf(At(e, ps[0])))
      case Err(x) => Some(x)
      case Ok(_) => FirstFailure(e, ps[1..], g)
  }

  /** There is a first failure exactly when `g` fails somewhere, and it is
      the failure at the first such node. */
  lemma {:induction false} FirstFailureSpec<E>(e: Element, ps: seq<Path>, g: Local -> Result<Local, E>)
    requires forall i :: 0 <= i < |ps| ==> ValidPath(e, ps[i])
    ensures FirstFailure(e, ps, g).None? <==> forall i :: 0 <= i < |ps| ==> g(LocalOf(At(e, ps[i]))).Ok?
    ensures FirstFailure(e, ps, g).Some? ==>
              exists i :: 0 <= i < |ps| && g(LocalOf(At(e, ps[i]))) == Err(FirstFailure(e, ps, g).value)
                && forall j :: 0 <= j < i ==> g(LocalOf(At(e, ps[j]))).Ok?
    decreases |ps|
  {
    if |ps| > 0 {
      FirstFailureSpec(e, ps[1..], g);
      if g(LocalOf(At(e, ps[0]))).Ok? {
        if FirstFailure(e, ps, g).Some? {
          var i :| 0 <= i < |ps[1..]| && g(LocalOf(At(e, ps[1..][i]))) == Err(FirstFailure(e, ps, g).value)
                  && forall j :: 0 <= j < i ==> g(LocalOf(At(e, ps[1..][j]))).Ok?;
          assert g(LocalOf(At(e, ps[i + 1]))) == Err(FirstFailure(e, ps, g).value);
          forall j | 0 <= j < i + 1 ensures g(LocalOf(At(e, ps[j]))).Ok? {
            if j > 0 {
              assert ps[j] == ps[1..][j - 1];
            }
          }
        }
        forall i | 0 <= i < |ps| && FirstFailure(e, ps, g).None? ensures g(LocalOf(At(e, ps[i]))).Ok? {
          if i > 0 {
            assert ps[i] == ps[1..][i - 1];
          }
        }
      }
    }
  }

  /** With no failure before node `i`, the failure there, if any, is the
      first one. */
  lemma {:induction false} FirstFailureStep<E>(e: Element, ps: seq<Path>, g: Local -> Result<Local, E>, i: nat)
    requires forall j :: 0 <= j < |ps| ==> ValidPath(e, ps[j])
    requires i < |ps| && FirstFailure(e, ps[..i], g).None?
    ensures g(LocalOf(At(e, ps[i]))).Err? ==> FirstFailure(e, ps, g) == Some(g(LocalOf(At(e, ps[i]))).error)
    ensures g(LocalOf(At(e, ps[i]))).Ok? ==> FirstFailure(e, ps[..i + 1], g).None?
    decreases i
  {
    if i > 0 {
      assert ps[..i][1..] == ps[1..][..i - 1];
      assert ps[..i + 1][1..] == ps[1..][..i];
      FirstFailureStep(e, ps[1..], g, i - 1);
    }
  }

  /** The specification of a loop `for el in iter(q): <change el by g, or
      fail>`: the first failure in walk order, or every selected node
      changed. */
  function RewriteOrFail<E>(e: Element, q: Query, g: Local -> Result<Local, E>): Result<Element, E>
  {
    WalkValid(e, q);
    match FirstFailure(e, Walk(e, q), g)
    case Some(x) => Err(x)
    case None => Ok(Rewrite(e, q, Recover(g)))
  }

  /** `RewriteOrFail` fails exactly when `g` fails on a selected node, and
      otherwise changes every selected node by `g`. */
  lemma RewriteOrFailSpec<E>(e: Element, q: Query, g: Local -> Result<Local, E>)
    ensures RewriteOrFail(e, q, g).Err? <==> exists p :: Selected(e, q, p) && g(LocalOf(At(e, p))).Err?
    ensures RewriteOrFail(e, q, g).Ok? ==> RewriteOrFail(e, q, g).value == Rewrite(e, q, Recover(g))
  {
    WalkValid(e, q);
    var ps := Walk(e, q);
    FirstFailureSpec(e, ps, g);
    if exists p :: Selected(e, q, p) && g(LocalOf(At(e, p))).Err? {
      var p :| Selected(e, q, p) && g(LocalOf(At(e, p))).Err?;
      WalkMember(e, q, p);
      var i :| 0 <= i < |ps| && ps[i] == p;
    }
    if FirstFailure(e, ps, g).Some? {
      var i :| 0 <= i < |ps| && g(LocalOf(At(e, ps[i]))) == Err(FirstFailure(e, ps, g).value);
      WalkMember(e, q, ps[i]);
    }
  }

  /** A loop that can fail and did not changed exactly the selected nodes,
      each by `g`, and `g` succeeded on all of them. */
  lemma RewriteOrFailAt<E>(e: Element, q: Query, g: Local -> Result<Local, E>, p: Path)
    requires ValidPath(e, p) && RewriteOrFail(e, q, g).Ok?
    ensures SameShape(RewriteOrFail(e, q, g).value, e)
    ensures ValidPath(RewriteOrFail(e, q, g).value, p)
    ensures At(RewriteOrFail(e, q, g).value, p).tag == At(e, p).tag
    ensures Selected(e, q, p) ==> g(LocalOf(At(e, p))).Ok?
    ensures LocalOf(At(RewriteOrFail(e, q, g).value, p)) ==
              if Selected(e, q, p) then g(LocalOf(At(e, p))).value else LocalOf(At(e, p))
  {
    RewriteOrFailSpec(e, q, g);
    RewriteAt(e, q, Recover(g), p);
    var r := RewriteOrFail(e, q, g).value;
    SameShapeSym(r, e);
    ShapePath(e, r, p);
  }

  /** One step of a loop that may fail, from the state after `i` nodes of
      `ps` have been changed: the node is where it was and as it was, and
      its failure is the first one, or its change extends the state. */
  lemma EditStep<E>(e: Element, ps: seq<Path>, g: Local -> Result<Local, E>, i: nat, cur: Element)
    requires forall j :: 0 <= j < |ps| ==> ValidPath(e, ps[j])
    requires Distinct(ps) && i < |ps|
    requires cur == EditSeq(e, ps[..i], Recover(g)) && FirstFailure(e, ps[..i], g).None?
    ensures ValidPath(cur, ps[i]) && LocalOf(At(cur, ps[i])) == LocalOf(At(e, ps[i]))
    ensures g(LocalOf(At(e, ps[i]))).Err? ==> FirstFailure(e, ps, g) == Some(g(LocalOf(At(e, ps[i]))).error)
    ensures g(LocalOf(At(e, ps[i]))).Ok? ==>
              && FirstFailure(e, ps[..i + 1], g).None?
              && EditSeq(e, ps[..i + 1], Recover(g)) == Edit(cur, ps[i], g(LocalOf(At(e, ps[i]))).value)
  {
    var p := ps[i];
    SameShapeSym(cur, e);
    ShapePath(e, cur, p);
    assert forall j :: 0 <= j < i ==> ps[..i][j] != p;
    EditSeqAt(e, ps[..i], Recover(g), p);
    FirstFailureStep(e, ps, g, i);
    assert ps[..i + 1][..i] == ps[..i];
  }

  /** A loop that reached the end of the walk without a failure has done
      what `RewriteOrFail` specifies. */
  lemma RewriteOrFailDone<E>(e: Element, q: Query, g: Local -> Result<Local, E>, cur: Element)
    requires forall j :: 0 <= j < |Walk(e, q)| ==> ValidPath(e, Walk(e, q)[j])
    requires cur == EditSeq(e, Walk(e, q), Recover(g)) && FirstFailure(e, Walk(e, q), g).None?
    ensures RewriteOrFail(e, q, g) == Ok(cur)
  {
    WalkRewrite(e, q, Recover(g));
  }
}
