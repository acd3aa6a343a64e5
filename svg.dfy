/** The `SVG` class (svgplot.py:184-304): a parsed matplotlib drawing with
    its namespace map and a document id, and the passes that turn its inline
    styles into classes, trim whitespace, drop the XLink namespace and make
    its ids unique, in the order `savefig` and `minify` run them
    (svgplot.py:313-316, 326-329). */
module Svg {
  import opened Wrappers
  import opened Attributes
  import opened Tree
  import opened Passes
  import StyleMap

  /** The prefix ElementPath puts before an unprefixed tag in a query: the
      document's default namespace when there is a non-empty one.  A bare
      `*` is not a tag and gets no prefix. */
  function DefaultPrefix(namespaces: map<string, string>): string
  {
    if "" in namespaces && namespaces[""] != "" then "{" + namespaces[""] + "}" else ""
  }

  /** How ElementPath reads an unprefixed tag in a query. */
  function Qualify(namespaces: map<string, string>, tag: string): string
  {
    DefaultPrefix(namespaces) + tag
  }

  /** The first child of `e` from index `k` on with the given tag. */
  function FirstChild(e: Element, tag: string, k: nat): (r: Option<nat>)
    requires k <= |e.children|
    ensures r.Some? ==> k <= r.value < |e.children| && e.children[r.value].tag == tag
    ensures r.Some? ==> forall j :: k <= j < r.value ==> e.children[j].tag != tag
    ensures r.None? <==> forall j :: k <= j < |e.children| ==> e.children[j].tag != tag
    decreases |e.children| - k
  {
    if k == |e.children| then None
    else if e.children[k].tag == tag then Some(k)
    else FirstChild(e, tag, k + 1)
  }

  /** `find("outer/inner")` from child `k` on: the first `inner` child of
      the first `outer` child that has one. */
  function FindPair(e: Element, outer: string, inner: string, k: nat): (r: Option<Path>)
    requires k <= |e.children|
    ensures r.Some? ==> |r.value| == 2 && ValidPath(e, r.value) && k <= r.value[0]
    ensures r.Some? ==> r.value[0] < |e.children| && r.value[1] < |e.children[r.value[0]].children|
    ensures r.Some? ==> e.children[r.value[0]].tag == outer && At(e, r.value).tag == inner
    ensures r.Some? ==> forall i, j :: k <= i < r.value[0] && 0 <= j < |e.children[i].children| ==>
                                         !(e.children[i].tag == outer && e.children[i].children[j].tag == inner)
    ensures r.Some? ==> forall j :: 0 <= j < r.value[1] ==> e.children[r.value[0]].children[j].tag != inner
    ensures r.None? <==> forall i, j :: k <= i < |e.children| && 0 <= j < |e.children[i].children| ==>
                                          !(e.children[i].tag == outer && e.children[i].children[j].tag == inner)
    decreases |e.children| - k
  {
    if k == |e.children| then None
    else
      var c := e.children[k];
      var j := FirstChild(c, inner, 0);
      if c.tag == outer && j.Some? then
        GrandchildPath(e, k, j.value);
        Some([k, j.value])
      else FindPair(e, outer, inner, k + 1)
  }

  /** `SVG.style`: `find("defs/style")` with the document's namespaces. */
  function FindStylesheet(e: Element, namespaces: map<string, string>): Option<Path>
  {
    FindPair(e, Qualify(namespaces, "defs"), Qualify(namespaces, "style"), 0)
  }

  // ---------------------------------------------------------------------
  // What each pass does to the tree

  /** `SVG.slim`: first every text stripped and every tail dropped, then
      every attribute value cleaned by `_slim`, the root included. */
  function Slimmed(e: Element): Element
  {
    Rewrite(Rewrite(e, All, SlimText), All, SlimLocal)
  }

  /** `SVG.svg2`: the XLink attributes of every element below the root
      renamed, whatever the element's namespace. */
  function Svg2Tree(e: Element): Element
  {
    Rewrite(e, Wildcard, Svg2Local)
  }

  /** `SVG.uid`: `id`, then `href`, then `clip-path` rewritten by `insert`
      wherever they occur, the root included. */
  function Uided(e: Element, uid: string): Element
  {
    var e1 := Rewrite(e, HasAttr("id"), UidFix("id", uid));
    var e2 := Rewrite(e1, HasAttr("href"), UidFix("href", uid));
    Rewrite(e2, HasAttr("clip-path"), UidFix("clip-path", uid))
  }

  /** Why `SVG.classify` stops: a style it cannot classify (a `KeyError` or
      `ValueError`), a `style` left on an element it does not classify (the
      `assert`), or no `defs/style` element to hold the stylesheet (an
      `AttributeError` on `None`). */
  datatype ClassifyError =
    | BadStyle(error: StyleMap.StyleError)
    | StrayStyle
    | MissingStylesheet

  /** The change a classifying loop makes to one element. */
  function ClassStep(styles: StyleMap.Styles, text: bool): Local -> Result<Local, StyleMap.StyleError>
  {
    if text then l => TextLocal(styles, l) else l => ClassifyLocal(styles, l)
  }

  /** The tree after the first three loops of `SVG.classify`. */
  function ClassesSet(e: Element, namespaces: map<string, string>, styles: StyleMap.Styles): Result<Element, StyleMap.StyleError>
  {
    match RewriteOrFail(e, Tag(Qualify(namespaces, "path")), ClassStep(styles, false))
    case Err(x) => Err(x)
    case Ok(e1) =>
      match RewriteOrFail(e1, Tag(Qualify(namespaces, "use")), ClassStep(styles, false))
      case Err(x) => Err(x)
      case Ok(e2) =>
        var e3 := Rewrite(e2, HasAttr("id"), GlyphLocal);
        RewriteOrFail(e3, Tag(Qualify(namespaces, "text")), ClassStep(styles, true))
  }

  /** `SVG.classify`: styles of paths, uses and texts turned into classes,
      glyph paths and texts marked `text`, then the check that no style is
      left, then the stylesheet written into `defs/style`. */
  function Classified(e: Element, namespaces: map<string, string>, styles: StyleMap.Styles): Result<Element, ClassifyError>
  {
    match ClassesSet(e, namespaces, styles)
    case Err(x) => Err(BadStyle(x))
    case Ok(e4) =>
      if |Walk(e4, HasAttr("style"))| != 0 then Err(StrayStyle)
      else match FindStylesheet(e4, namespaces)
        case None => Err(MissingStylesheet)
        case Some(p) => Ok(WithText(e4, p, StyleMap.Stylesheet(styles)))
  }

  /** The tree with the text of the node at `p` replaced. */
  function WithText(e: Element, p: Path, text: string): Element
    requires ValidPath(e, p)
  {
    var n := At(e, p);
    Edit(e, p, Local(n.attrib, Some(text), n.tail))
  }

  /** `savefig` and `minify`: classify, slim, svg2 and uid in turn. */
  function Normalized(e: Element, namespaces: map<string, string>, uid: string): Result<Element, ClassifyError>
  {
    match Classified(e, namespaces, StyleMap.Base)
    case Err(x) => Err(x)
    case Ok(c) => Ok(Uided(Svg2Tree(Slimmed(c)), uid))
  }

  // ---------------------------------------------------------------------
  // The class

  class SVG {
    var root: Element
    var namespaces: map<string, string>
    var id: string

    /** `SVG(el, namespaces, id)`; the random default id of `make_uid` is
        the caller's to choose. */
    constructor (el: Element, namespaces: map<string, string>, id: string)
      ensures root == el && this.namespaces == namespaces && this.id == id
    {
      root := el;
      this.namespaces := namespaces;
      this.id := id;
    }

    /** `for el in <walk q>: <change el by f>`. */
    method Each(q: Query, f: Local -> Local)
      modifies this
      ensures root == Rewrite(old(root), q, f)
      ensures namespaces == old(namespaces) && id == old(id)
    {
      ghost var start := root;
      var order := Walk(root, q);
      WalkValid(start, q);
      for i := 0 to |order|
        invariant root == EditSeq(start, order[..i], f)
        invariant namespaces == old(namespaces) && id == old(id)
      {
        var p := order[i];
        EditSeqStep(start, order, f, i, root);
        var el := At(root, p);
        root := Edit(root, p, f(LocalOf(el)));
      }
      assert order[..|order|] == order;
      WalkRewrite(start, q, f);
    }

    /** `SVG.slim`. */
    method Slim()
      modifies this
      ensures root == Slimmed(old(root))
      ensures namespaces == old(namespaces) && id == old(id)
    {
      Each(All, SlimText);
      ghost var start := root;
      var order := Walk(root, All);
      WalkValid(start, All);
      for i := 0 to |order|
        invariant root == EditSeq(start, order[..i], SlimLocal)
        invariant namespaces == old(namespaces) && id == old(id)
      {
        var p := order[i];
        EditSeqStep(start, order, SlimLocal, i, root);
        var c := At(root, p);
        var attrib := SlimAttributes(c.attrib);
        root := Edit(root, p, Local(attrib, c.text, c.tail));
      }
      assert order[..|order|] == order;
      WalkRewrite(start, All, SlimLocal);
    }

    /** `SVG.svg2`. */
    method Svg2()
      modifies this
      ensures root == Svg2Tree(old(root))
      ensures namespaces == old(namespaces) && id == old(id)
    {
      ghost var start := root;
      var order := Walk(root, Wildcard);
      WalkValid(start, Wildcard);
      for i := 0 to |order|
        invariant root == EditSeq(start, order[..i], Svg2Local)
        invariant namespaces == old(namespaces) && id == old(id)
      {
        var p := order[i];
        EditSeqStep(start, order, Svg2Local, i, root);
        var el := At(root, p);
        var attrib := FixXlink(el.attrib);
        root := Edit(root, p, Local(attrib, el.text, el.tail));
      }
      assert order[..|order|] == order;
      WalkRewrite(start, Wildcard, Svg2Local);
    }

    /** `SVG.uid`. */
    method Uid()
      modifies this
      ensures root == Uided(old(root), id)
      ensures namespaces == old(namespaces) && id == old(id)
    {
      Each(HasAttr("id"), UidFix("id", id));
      Each(HasAttr("href"), UidFix("href", id));
      Each(HasAttr("clip-path"), UidFix("clip-path", id));
    }

    /** The body of a classifying loop, on the element at `p`:
        `set_none(el, "class", StyleMap.classify(el.attrib.pop("style", "")))`,
        and for texts `set_none(el, "class", "text")`. */
    method ClassifyAt(p: Path, text: bool, styles: StyleMap.Styles) returns (r: Result<(), StyleMap.StyleError>)
      requires ValidPath(root, p)
      modifies this
      ensures var g := ClassStep(styles, text)(LocalOf(At(old(root), p)));
              && (r.Err? <==> g.Err?)
              && (r.Err? ==> r.error == g.error)
              && (r.Ok? ==> root == Edit(old(root), p, g.value))
      ensures var el := At(old(root), p);
              r.Err? ==> root == Edit(old(root), p, Local(Pop(el.attrib, "style"), el.text, el.tail))
      ensures namespaces == old(namespaces) && id == old(id)
    {
      var el := At(root, p);
      var style := GetOr(el.attrib, "style", "");
      var attrib := Pop(el.attrib, "style");
      var classes := StyleMap.Classify(styles, style);
      ghost var g := ClassStep(styles, text)(LocalOf(el));
      if classes.Err? {
        assert g == Err(classes.error);
        root := Edit(root, p, Local(attrib, el.text, el.tail));
        return Err(classes.error);
      }
      attrib := SetNone(attrib, "class", classes.value);
      if text {
        attrib := SetNone(attrib, "class", "text");
      }
      assert g == Ok(Local(attrib, el.text, el.tail));
      root := Edit(root, p, Local(attrib, el.text, el.tail));
      r := Ok(());
    }

    /** One classifying loop of `SVG.classify`: `for el in iter(tag)`, the
        body of `ClassifyAt`. */
    method ClassifyEach(tag: string, text: bool, styles: StyleMap.Styles) returns (r: Result<(), StyleMap.StyleError>)
      modifies this
      ensures var spec := RewriteOrFail(old(root), Tag(tag), ClassStep(styles, text));
              && (r.Err? <==> spec.Err?)
              && (r.Err? ==> r.error == spec.error)
              && (r.Ok? ==> root == spec.value)
      ensures namespaces == old(namespaces) && id == old(id)
    {
      ghost var start := root;
      var order := Walk(root, Tag(tag));
      WalkValid(start, Tag(tag));
      WalkDistinct(start, Tag(tag));
      for i := 0 to |order|
        invariant root == EditSeq(start, order[..i], Recover(ClassStep(styles, text)))
        invariant FirstFailure(start, order[..i], ClassStep(styles, text)).None?
        invariant namespaces == old(namespaces) && id == old(id)
      {
        EditStep(start, order, ClassStep(styles, text), i, root);
        var s := ClassifyAt(order[i], text, styles);
        if s.Err? {
          return Err(s.error);
        }
      }
      assert order[..|order|] == order;
      RewriteOrFailDone(start, Tag(tag), ClassStep(styles, text), root);
      r := Ok(());
    }

    /** `SVG.classify`. */
    method Classify() returns (r: Result<(), ClassifyError>)
      modifies this
      ensures r.Err? <==> Classified(old(root), namespaces, StyleMap.Base).Err?
      ensures r.Err? ==> r.error == Classified(old(root), namespaces, StyleMap.Base).error
      ensures r.Ok? ==> root == Classified(old(root), namespaces, StyleMap.Base).value
      ensures namespaces == old(namespaces) && id == old(id)
    {
      var s := ClassifyEach(Qualify(namespaces, "path"), false, StyleMap.Base);
      if s.Err? {
        return Err(BadStyle(s.error));
      }
      s := ClassifyEach(Qualify(namespaces, "use"), false, StyleMap.Base);
      if s.Err? {
        return Err(BadStyle(s.error));
      }
      Each(HasAttr("id"), GlyphLocal);
      s := ClassifyEach(Qualify(namespaces, "text"), true, StyleMap.Base);
      if s.Err? {
        return Err(BadStyle(s.error));
      }
      if |Walk(root, HasAttr("style"))| != 0 {
        return Err(StrayStyle);
      }
      var sheet := FindStylesheet(root, namespaces);
      if sheet.None? {
        return Err(MissingStylesheet);
      }
      var css := StyleMap.ToString(StyleMap.Base);
      var el := At(root, sheet.value);
      root := Edit(root, sheet.value, Local(el.attrib, Some(css), el.tail));
      r := Ok(());
    }

    /** The passes as `savefig` and `minify` run them; an error of
        `classify` ends the run. */
    method Normalize() returns (r: Result<(), ClassifyError>)
      modifies this
      ensures r.Err? <==> Normalized(old(root), namespaces, id).Err?
      ensures r.Err? ==> r.error == Normalized(old(root), namespaces, id).error
      ensures r.Ok? ==> root == Normalized(old(root), namespaces, id).value
      ensures namespaces == old(namespaces) && id == old(id)
    {
      r := Classify();
      if r.Err? {
        return;
      }
      Slim();
      Svg2();
      Uid();
    }
  }
}
