/** What the passes of `SVG` (svgplot.py:206-292) guarantee about the tree
    they leave behind, stated node by node over the specifications in
    module `Svg`. */
module SvgProperties {
  import opened Wrappers
  import opened Strings
  import opened Attributes
  import opened Tree
  import opened Passes
  import opened Svg
  import StyleMap

  // ---------------------------------------------------------------------
  // classify

  /** The element at `p` is one of those the three classifying loops of
      `SVG.classify` reach: a `path`, `use` or `text` below the root. */
  predicate Classifiable(e: Element, namespaces: map<string, string>, p: Path)
    requires ValidPath(e, p)
  {
    |p| > 0 && At(e, p).tag in {Qualify(namespaces, "path"), Qualify(namespaces, "use"), Qualify(namespaces, "text")}
  }

  /** The three tags the loops look for are different, so no element is
      classified twice. */
  lemma QualifyDistinct(namespaces: map<string, string>)
    ensures Qualify(namespaces, "path") != Qualify(namespaces, "use")
    ensures Qualify(namespaces, "path") != Qualify(namespaces, "text")
    ensures Qualify(namespaces, "use") != Qualify(namespaces, "text")
  {
    var pre := DefaultPrefix(namespaces);
    assert Qualify(namespaces, "path") == pre + "path";
    assert Qualify(namespaces, "use") == pre + "use";
    assert Qualify(namespaces, "text") == pre + "text";
    assert (pre + "path")[|pre|] == 'p';
    assert (pre + "text")[|pre|] == 't';
  }

  /** One classifying loop, at one element: an element with the loop's tag
      below the root is classified (its style known, removed and turned
      into classes), any other is left alone. */
  lemma ClassStageAt(e: Element, tag: string, styles: StyleMap.Styles, text: bool, p: Path)
    requires ValidPath(e, p) && RewriteOrFail(e, Tag(tag), ClassStep(styles, text)).Ok?
    ensures var e1 := RewriteOrFail(e, Tag(tag), ClassStep(styles, text)).value;
            SameShape(e1, e) && ValidPath(e1, p) && At(e1, p).tag == At(e, p).tag
    ensures var e1 := RewriteOrFail(e, Tag(tag), ClassStep(styles, text)).value;
            var l0 := LocalOf(At(e, p));
            var l1 := LocalOf(At(e1, p));
            var cs := StyleMap.ClassNames(styles, GetOr(l0.attrib, "style", ""));
            if |p| > 0 && At(e, p).tag == tag then
              && cs.Ok?
              && Keeps(l0, l1)
              && "style" !in Names(l1.attrib)
              && TokenSet(StyleMap.Joined(cs).value) <= Classes(l1.attrib)
              && (text ==> "text" in Classes(l1.attrib))
            else l1 == l0
  {
    var g := ClassStep(styles, text);
    RewriteOrFailAt(e, Tag(tag), g, p);
    var l0 := LocalOf(At(e, p));
    if text {
      TextLocalSpec(styles, l0);
    } else {
      ClassifyLocalSpec(styles, l0);
    }
  }

  /** The glyph loop at one element: classes gain `text` when the id
      starts with `DejaVuSans`; nothing else changes. */
  lemma GlyphStageAt(e: Element, p: Path)
    requires ValidPath(e, p)
    ensures var e1 := Rewrite(e, HasAttr("id"), GlyphLocal);
            SameShape(e1, e) && ValidPath(e1, p) && At(e1, p).tag == At(e, p).tag
    ensures var e1 := Rewrite(e, HasAttr("id"), GlyphLocal);
            var l0 := LocalOf(At(e, p));
            var l1 := LocalOf(At(e1, p));
            && Keeps(l0, l1)
            && Get(l1.attrib, "style") == Get(l0.attrib, "style")
            && (StartsWith(GetOr(l0.attrib, "id", ""), "DejaVuSans") ==> "text" in Classes(l1.attrib))
  {
    RewriteAt(e, HasAttr("id"), GlyphLocal, p);
    var l0 := LocalOf(At(e, p));
    GlyphLocalSpec(l0);
    if StartsWith(GetOr(l0.attrib, "id", ""), "DejaVuSans") {
      assert Get(l0.attrib, "id").Some?;
    }
  }

  /** The trees between the loops of `SVG.classify`, each of the shape of
      `e`, with the element at `p` as each loop leaves it. */
  lemma ClassesSetStages(e: Element, namespaces: map<string, string>, styles: StyleMap.Styles, p: Path)
    returns (l0: Local, l1: Local, l2: Local, l3: Local, l4: Local)
    requires ValidPath(e, p) && ClassesSet(e, namespaces, styles).Ok?
    ensures var t := ClassesSet(e, namespaces, styles).value;
            SameShape(t, e) && ValidPath(t, p) && l0 == LocalOf(At(e, p)) && l4 == LocalOf(At(t, p))
    ensures var cs := StyleMap.ClassNames(styles, GetOr(l0.attrib, "style", ""));
            var tag := At(e, p).tag;
            && (if |p| > 0 && tag == Qualify(namespaces, "path") then
                  cs.Ok? && Keeps(l0, l1) && "style" !in Names(l1.attrib) && TokenSet(StyleMap.Joined(cs).value) <= Classes(l1.attrib)
                else l1 == l0)
            && (if |p| > 0 && tag == Qualify(namespaces, "use") then
                  cs.Ok? && Keeps(l1, l2) && "style" !in Names(l2.attrib) && TokenSet(StyleMap.Joined(cs).value) <= Classes(l2.attrib)
                else l2 == l1)
            && Keeps(l2, l3)
            && Get(l3.attrib, "style") == Get(l2.attrib, "style")
            && (StartsWith(GetOr(l2.attrib, "id", ""), "DejaVuSans") ==> "text" in Classes(l3.attrib))
            && (if |p| > 0 && tag == Qualify(namespaces, "text") then
                  cs.Ok? && Keeps(l3, l4) && "style" !in Names(l4.attrib) && TokenSet(StyleMap.Joined(cs).value) <= Classes(l4.attrib)
                  && "text" in Classes(l4.attrib)
                else l4 == l3)
  {
    QualifyDistinct(namespaces);
    var e1 := RewriteOrFail(e, Tag(Qualify(namespaces, "path")), ClassStep(styles, false)).value;
    ClassStageAt(e, Qualify(namespaces, "path"), styles, false, p);
    var e2 := RewriteOrFail(e1, Tag(Qualify(namespaces, "use")), ClassStep(styles, false)).value;
    ClassStageAt(e1, Qualify(namespaces, "use"), styles, false, p);
    var e3 := Rewrite(e2, HasAttr("id"), GlyphLocal);
    GlyphStageAt(e2, p);
    var e4 := ClassesSet(e, namespaces, styles).value;
    assert e4 == RewriteOrFail(e3, Tag(Qualify(namespaces, "text")), ClassStep(styles, true)).value;
    ClassStageAt(e3, Qualify(namespaces, "text"), styles, true, p);
    l0, l1, l2 := LocalOf(At(e, p)), LocalOf(At(e1, p)), LocalOf(At(e2, p));
    l3, l4 := LocalOf(At(e3, p)), LocalOf(At(e4, p));
    SameShapeTrans(e2, e1, e);
    SameShapeTrans(e3, e2, e);
    SameShapeTrans(e4, e3, e);
  }

  /** After the three classifying loops and the glyph loop, attributes
      other than `class` and `style`, the text and the tail of every
      element are as they were, and no class token is lost. */
  lemma ClassesSetKeeps(e: Element, namespaces: map<string, string>, styles: StyleMap.Styles, p: Path)
    requires ValidPath(e, p) && ClassesSet(e, namespaces, styles).Ok?
    ensures var t := ClassesSet(e, namespaces, styles).value;
            SameShape(t, e) && ValidPath(t, p) && Keeps(LocalOf(At(e, p)), LocalOf(At(t, p)))
  {
    var l0, l1, l2, l3, l4 := ClassesSetStages(e, namespaces, styles, p);
    KeepsRefl(l0);
    KeepsRefl(l1);
    KeepsRefl(l3);
    KeepsTrans(l0, l1, l2);
    KeepsTrans(l0, l2, l3);
    KeepsTrans(l0, l3, l4);
  }

  /** After the loops a classified element has no style any more. */
  lemma ClassesSetStyleGone(e: Element, namespaces: map<string, string>, styles: StyleMap.Styles, p: Path)
    requires ValidPath(e, p) && ClassesSet(e, namespaces, styles).Ok? && Classifiable(e, namespaces, p)
    ensures var t := ClassesSet(e, namespaces, styles).value;
            SameShape(t, e) && ValidPath(t, p) && "style" !in Names(At(t, p).attrib)
  {
    var l0, l1, l2, l3, l4 := ClassesSetStages(e, namespaces, styles, p);
    QualifyDistinct(namespaces);
    if At(e, p).tag != Qualify(namespaces, "text") {
      assert "style" !in Names(l2.attrib);
      assert Get(l3.attrib, "style") == Get(l2.attrib, "style");
    }
  }

  /** After the loops an element that is not classified has its style as
      it was. */
  lemma ClassesSetStyleKept(e: Element, namespaces: map<string, string>, styles: StyleMap.Styles, p: Path)
    requires ValidPath(e, p) && ClassesSet(e, namespaces, styles).Ok? && !Classifiable(e, namespaces, p)
    ensures var t := ClassesSet(e, namespaces, styles).value;
            SameShape(t, e) && ValidPath(t, p) && Get(At(t, p).attrib, "style") == Get(At(e, p).attrib, "style")
  {
    var l0, l1, l2, l3, l4 := ClassesSetStages(e, namespaces, styles, p);
  }

  /** After the loops an element has a style exactly when it had one and
      is not classified. */
  lemma ClassesSetStyle(e: Element, namespaces: map<string, string>, styles: StyleMap.Styles, p: Path)
    requires ValidPath(e, p) && ClassesSet(e, namespaces, styles).Ok?
    ensures var t := ClassesSet(e, namespaces, styles).value;
            SameShape(t, e) && ValidPath(t, p)
    ensures "style" in Names(At(ClassesSet(e, namespaces, styles).value, p).attrib) <==>
              "style" in Names(At(e, p).attrib) && !Classifiable(e, namespaces, p)
  {
    if Classifiable(e, namespaces, p) {
      ClassesSetStyleGone(e, namespaces, styles, p);
    } else {
      ClassesSetStyleKept(e, namespaces, styles, p);
      var t := ClassesSet(e, namespaces, styles).value;
      assert Get(At(t, p).attrib, "style").Some? <==> "style" in Names(At(t, p).attrib);
      assert Get(At(e, p).attrib, "style").Some? <==> "style" in Names(At(e, p).attrib);
    }
  }

  /** After the loops a classified element had a style the tables know and
      holds the classes of that style. */
  lemma ClassesSetClasses(e: Element, namespaces: map<string, string>, styles: StyleMap.Styles, p: Path)
    requires ValidPath(e, p) && ClassesSet(e, namespaces, styles).Ok? && Classifiable(e, namespaces, p)
    ensures var t := ClassesSet(e, namespaces, styles).value;
            SameShape(t, e) && ValidPath(t, p)
    ensures var cs := StyleMap.ClassNames(styles, GetOr(At(e, p).attrib, "style", ""));
            && cs.Ok?
            && TokenSet(StyleMap.Joined(cs).value) <= Classes(At(ClassesSet(e, namespaces, styles).value, p).attrib)
  {
    var l0, l1, l2, l3, l4 := ClassesSetStages(e, namespaces, styles, p);
    QualifyDistinct(namespaces);
    assert Classes(l1.attrib) <= Classes(l2.attrib);
    assert Classes(l2.attrib) <= Classes(l3.attrib);
    assert Classes(l3.attrib) <= Classes(l4.attrib);
  }

  /** After the loops every text element below the root, and every element
      whose id starts with `DejaVuSans`, has the class `text`. */
  lemma ClassesSetText(e: Element, namespaces: map<string, string>, styles: StyleMap.Styles, p: Path)
    requires ValidPath(e, p) && ClassesSet(e, namespaces, styles).Ok?
    ensures var t := ClassesSet(e, namespaces, styles).value;
            SameShape(t, e) && ValidPath(t, p)
    ensures var l0 := LocalOf(At(e, p));
            var l := LocalOf(At(ClassesSet(e, namespaces, styles).value, p));
            && (|p| > 0 && At(e, p).tag == Qualify(namespaces, "text") ==> "text" in Classes(l.attrib))
            && (StartsWith(GetOr(l0.attrib, "id", ""), "DejaVuSans") ==> "text" in Classes(l.attrib))
  {
    var l0, l1, l2, l3, l4 := ClassesSetStages(e, namespaces, styles, p);
    if StartsWith(GetOr(l0.attrib, "id", ""), "DejaVuSans") {
      assert Get(l1.attrib, "id") == Get(l0.attrib, "id");
      assert Get(l2.attrib, "id") == Get(l1.attrib, "id");
      assert "text" in Classes(l3.attrib);
      assert Classes(l3.attrib) <= Classes(l4.attrib);
    }
  }

  /** Some classified element has a style the tables cannot classify. */
  ghost predicate HasBadStyle(e: Element, namespaces: map<string, string>, styles: StyleMap.Styles)
  {
    exists p :: ValidPath(e, p) && Classifiable(e, namespaces, p)
                && StyleMap.ClassNames(styles, GetOr(At(e, p).attrib, "style", "")).Err?
  }

  /** Some element that is not classified has a style. */
  ghost predicate HasStrayStyle(e: Element, namespaces: map<string, string>)
  {
    exists p :: ValidPath(e, p) && "style" in Names(At(e, p).attrib) && !Classifiable(e, namespaces, p)
  }

  /** A failure of the `use` loop is a bad style of a `use` element. */
  lemma UseFailure(e: Element, namespaces: map<string, string>, styles: StyleMap.Styles)
    requires RewriteOrFail(e, Tag(Qualify(namespaces, "path")), ClassStep(styles, false)).Ok?
    requires RewriteOrFail(RewriteOrFail(e, Tag(Qualify(namespaces, "path")), ClassStep(styles, false)).value,
                           Tag(Qualify(namespaces, "use")), ClassStep(styles, false)).Err?
    ensures HasBadStyle(e, namespaces, styles)
  {
    QualifyDistinct(namespaces);
    var e1 := RewriteOrFail(e, Tag(Qualify(namespaces, "path")), ClassStep(styles, false)).value;
    RewriteOrFailSpec(e1, Tag(Qualify(namespaces, "use")), ClassStep(styles, false));
    var p :| Selected(e1, Tag(Qualify(namespaces, "use")), p) && ClassStep(styles, false)(LocalOf(At(e1, p))).Err?;
    RewriteOrFailAt(e, Tag(Qualify(namespaces, "path")), ClassStep(styles, false), []);
    ShapePath(e1, e, p);
    ClassStageAt(e, Qualify(namespaces, "path"), styles, false, p);
    ClassifyLocalSpec(styles, LocalOf(At(e, p)));
    assert Classifiable(e, namespaces, p);
  }

  /** A failure of the `text` loop is a bad style of a `text` element. */
  lemma TextFailure(e: Element, namespaces: map<string, string>, styles: StyleMap.Styles)
    requires RewriteOrFail(e, Tag(Qualify(namespaces, "path")), ClassStep(styles, false)).Ok?
    requires RewriteOrFail(RewriteOrFail(e, Tag(Qualify(namespaces, "path")), ClassStep(styles, false)).value,
                           Tag(Qualify(namespaces, "use")), ClassStep(styles, false)).Ok?
    requires ClassesSet(e, namespaces, styles).Err?
    ensures HasBadStyle(e, namespaces, styles)
  {
    QualifyDistinct(namespaces);
    var e1 := RewriteOrFail(e, Tag(Qualify(namespaces, "path")), ClassStep(styles, false)).value;
    var e2 := RewriteOrFail(e1, Tag(Qualify(namespaces, "use")), ClassStep(styles, false)).value;
    var e3 := Rewrite(e2, HasAttr("id"), GlyphLocal);
    RewriteOrFailSpec(e3, Tag(Qualify(namespaces, "text")), ClassStep(styles, true));
    var p :| Selected(e3, Tag(Qualify(namespaces, "text")), p) && ClassStep(styles, true)(LocalOf(At(e3, p))).Err?;
    RewriteOrFailAt(e, Tag(Qualify(namespaces, "path")), ClassStep(styles, false), []);
    RewriteOrFailAt(e1, Tag(Qualify(namespaces, "use")), ClassStep(styles, false), []);
    RewriteAt(e2, HasAttr("id"), GlyphLocal, []);
    SameShapeTrans(e3, e2, e1);
    SameShapeTrans(e3, e1, e);
    ShapePath(e3, e, p);
    ClassStageAt(e, Qualify(namespaces, "path"), styles, false, p);
    ClassStageAt(e1, Qualify(namespaces, "use"), styles, false, p);
    GlyphStageAt(e2, p);
    TextLocalSpec(styles, LocalOf(At(e3, p)));
    assert GetOr(At(e3, p).attrib, "style", "") == GetOr(At(e, p).attrib, "style", "");
    assert Classifiable(e, namespaces, p);
  }

  /** The three classifying loops fail exactly when some classified element
      has a style the tables cannot classify. */
  lemma ClassesSetErr(e: Element, namespaces: map<string, string>, styles: StyleMap.Styles)
    ensures ClassesSet(e, namespaces, styles).Err? <==> HasBadStyle(e, namespaces, styles)
  {
    if ClassesSet(e, namespaces, styles).Ok? {
      if HasBadStyle(e, namespaces, styles) {
        var p :| ValidPath(e, p) && Classifiable(e, namespaces, p)
                 && StyleMap.ClassNames(styles, GetOr(At(e, p).attrib, "style", "")).Err?;
        ClassesSetClasses(e, namespaces, styles, p);
      }
    } else {
      var r1 := RewriteOrFail(e, Tag(Qualify(namespaces, "path")), ClassStep(styles, false));
      if r1.Err? {
        RewriteOrFailSpec(e, Tag(Qualify(namespaces, "path")), ClassStep(styles, false));
        var p :| Selected(e, Tag(Qualify(namespaces, "path")), p) && ClassStep(styles, false)(LocalOf(At(e, p))).Err?;
        ClassifyLocalSpec(styles, LocalOf(At(e, p)));
        assert Classifiable(e, namespaces, p);
      } else if RewriteOrFail(r1.value, Tag(Qualify(namespaces, "use")), ClassStep(styles, false)).Err? {
        UseFailure(e, namespaces, styles);
      } else {
        TextFailure(e, namespaces, styles);
      }
    }
  }

  /** After the loops some element still has a style exactly when some
      element that is not classified had one. */
  lemma StrayStyleSpec(e: Element, namespaces: map<string, string>, styles: StyleMap.Styles)
    requires ClassesSet(e, namespaces, styles).Ok?
    ensures |Walk(ClassesSet(e, namespaces, styles).value, HasAttr("style"))| != 0 <==> HasStrayStyle(e, namespaces)
  {
    var t := ClassesSet(e, namespaces, styles).value;
    var ws := Walk(t, HasAttr("style"));
    if |ws| != 0 {
      var p := ws[0];
      WalkMember(t, HasAttr("style"), p);
      ClassesSetStyle(e, namespaces, styles, []);
      ShapePath(t, e, p);
      ClassesSetStyle(e, namespaces, styles, p);
    }
    if HasStrayStyle(e, namespaces) {
      var p :| ValidPath(e, p) && "style" in Names(At(e, p).attrib) && !Classifiable(e, namespaces, p);
      ClassesSetStyle(e, namespaces, styles, p);
      WalkMember(t, HasAttr("style"), p);
    }
  }

  lemma {:induction false} FirstChildShape(a: Element, b: Element, tag: string, k: nat)
    requires SameShape(a, b) && k <= |a.children|
    ensures FirstChild(a, tag, k) == FirstChild(b, tag, k)
    decreases |a.children| - k
  {
    if k < |a.children| {
      FirstChildShape(a, b, tag, k + 1);
    }
  }

  lemma {:induction false} FindPairShape(a: Element, b: Element, outer: string, inner: string, k: nat)
    requires SameShape(a, b) && k <= |a.children|
    ensures FindPair(a, outer, inner, k) == FindPair(b, outer, inner, k)
    decreases |a.children| - k
  {
    if k < |a.children| {
      FirstChildShape(a.children[k], b.children[k], inner, 0);
      FindPairShape(a, b, outer, inner, k + 1);
    }
  }

  /** `SVG.classify` fails with `BadStyle` exactly when some path, use or
      text has a style the tables cannot classify; with `StrayStyle` when
      all of those are classifiable but some other element has a style;
      with `MissingStylesheet` when neither holds and there is no
      `defs/style` element. */
  lemma ClassifiedErrors(e: Element, namespaces: map<string, string>, styles: StyleMap.Styles)
    ensures (Classified(e, namespaces, styles).Err? && Classified(e, namespaces, styles).error.BadStyle?)
              <==> HasBadStyle(e, namespaces, styles)
    ensures (Classified(e, namespaces, styles) == Err(StrayStyle))
              <==> !HasBadStyle(e, namespaces, styles) && HasStrayStyle(e, namespaces)
    ensures (Classified(e, namespaces, styles) == Err(MissingStylesheet))
              <==> !HasBadStyle(e, namespaces, styles) && !HasStrayStyle(e, namespaces)
                   && FindStylesheet(e, namespaces).None?
  {
    ClassesSetErr(e, namespaces, styles);
    if ClassesSet(e, namespaces, styles).Ok? {
      var t := ClassesSet(e, namespaces, styles).value;
      StrayStyleSpec(e, namespaces, styles);
      ClassesSetStyle(e, namespaces, styles, []);
      SameShapeSym(t, e);
      FindPairShape(e, t, Qualify(namespaces, "defs"), Qualify(namespaces, "style"), 0);
    }
  }

  /** A successful `SVG.classify`: the tree after the loops, with the
      stylesheet written into the text of `defs/style`. */
  lemma ClassifiedFinal(e: Element, namespaces: map<string, string>, styles: StyleMap.Styles, p: Path)
    requires ValidPath(e, p) && Classified(e, namespaces, styles).Ok?
    ensures ClassesSet(e, namespaces, styles).Ok? && FindStylesheet(e, namespaces).Some?
    ensures var t := Classified(e, namespaces, styles).value;
            var c := ClassesSet(e, namespaces, styles).value;
            && SameShape(t, e) && ValidPath(t, p) && ValidPath(c, p)
            && "style" !in Names(At(c, p).attrib)
            && LocalOf(At(t, p)) ==
                 if p == FindStylesheet(e, namespaces).value
                 then Local(At(c, p).attrib, Some(StyleMap.Stylesheet(styles)), At(c, p).tail)
                 else LocalOf(At(c, p))
  {
    var c := ClassesSet(e, namespaces, styles).value;
    ClassesSetStyle(e, namespaces, styles, p);
    SameShapeSym(c, e);
    FindPairShape(e, c, Qualify(namespaces, "defs"), Qualify(namespaces, "style"), 0);
    var sp := FindStylesheet(c, namespaces).value;
    var n := At(c, sp);
    EditAt(c, sp, Local(n.attrib, Some(StyleMap.Stylesheet(styles)), n.tail), p);
    SameShapeTrans(Classified(e, namespaces, styles).value, c, e);
    WalkMember(c, HasAttr("style"), p);
  }

  /** After `SVG.classify` no element has a style, the root included. */
  lemma ClassifiedNoStyle(e: Element, namespaces: map<string, string>, styles: StyleMap.Styles, p: Path)
    requires ValidPath(e, p) && Classified(e, namespaces, styles).Ok?
    ensures ValidPath(Classified(e, namespaces, styles).value, p)
    ensures "style" !in Names(At(Classified(e, namespaces, styles).value, p).attrib)
  {
    ClassifiedFinal(e, namespaces, styles, p);
  }

  /** After `SVG.classify` the text of `defs/style` is the stylesheet of
      `StyleMap.tostring`, and every other text is as it was. */
  lemma ClassifiedText(e: Element, namespaces: map<string, string>, styles: StyleMap.Styles, p: Path)
    requires ValidPath(e, p) && Classified(e, namespaces, styles).Ok?
    ensures FindStylesheet(e, namespaces).Some?
    ensures ValidPath(Classified(e, namespaces, styles).value, p)
    ensures At(Classified(e, namespaces, styles).value, p).text ==
              if p == FindStylesheet(e, namespaces).value then Some(StyleMap.Stylesheet(styles)) else At(e, p).text
    ensures At(Classified(e, namespaces, styles).value, p).tail == At(e, p).tail
  {
    ClassifiedFinal(e, namespaces, styles, p);
    ClassesSetKeeps(e, namespaces, styles, p);
  }

  /** `SVG.classify` keeps every attribute but `class` and `style`, and
      loses no class token. */
  lemma ClassifiedKeeps(e: Element, namespaces: map<string, string>, styles: StyleMap.Styles, p: Path, k: string)
    requires ValidPath(e, p) && Classified(e, namespaces, styles).Ok?
    ensures ValidPath(Classified(e, namespaces, styles).value, p)
    ensures k != "class" && k != "style" ==> Get(At(Classified(e, namespaces, styles).value, p).attrib, k) == Get(At(e, p).attrib, k)
    ensures Classes(At(e, p).attrib) <= Classes(At(Classified(e, namespaces, styles).value, p).attrib)
  {
    ClassifiedFinal(e, namespaces, styles, p);
    ClassesSetKeeps(e, namespaces, styles, p);
  }

  /** After `SVG.classify` with the base tables, every path, use and text
      below the root has the classes `butt` and `rounded` and those of its
      old style; every text, and every element whose id starts with
      `DejaVuSans`, has the class `text`. */
  lemma ClassifiedClasses(e: Element, namespaces: map<string, string>, p: Path)
    requires ValidPath(e, p) && Classified(e, namespaces, StyleMap.Base).Ok?
    ensures ValidPath(Classified(e, namespaces, StyleMap.Base).value, p)
    ensures var cs := Classes(At(Classified(e, namespaces, StyleMap.Base).value, p).attrib);
            var style := GetOr(At(e, p).attrib, "style", "");
            && (Classifiable(e, namespaces, p) ==>
                  && StyleMap.ClassNames(StyleMap.Base, style).Ok?
                  && TokenSet(StyleMap.Joined(StyleMap.ClassNames(StyleMap.Base, style)).value) <= cs
                  && {"butt", "rounded"} <= cs)
            && (|p| > 0 && At(e, p).tag == Qualify(namespaces, "text") ==> "text" in cs)
            && (StartsWith(GetOr(At(e, p).attrib, "id", ""), "DejaVuSans") ==> "text" in cs)
  {
    ClassifiedFinal(e, namespaces, StyleMap.Base, p);
    ClassesSetText(e, namespaces, StyleMap.Base, p);
    if Classifiable(e, namespaces, p) {
      ClassesSetClasses(e, namespaces, StyleMap.Base, p);
      BaseClassTokens(GetOr(At(e, p).attrib, "style", ""));
    }
  }

  // ---------------------------------------------------------------------
  // slim

  /** `SVG.slim` at one element, the root included: its text stripped, its
      tail dropped, the same attribute names with every value cleaned by
      `_slim`. */
  lemma SlimmedAt(e: Element, p: Path)
    requires ValidPath(e, p)
    ensures SameShape(Slimmed(e), e) && ValidPath(Slimmed(e), p)
    ensures var n0 := At(e, p);
            var n := At(Slimmed(e), p);
            && n.tail == None
            && (n.text.Some? <==> n0.text.Some?)
            && (n.text.Some? ==> n.text.value == Strip(n0.text.value))
            && Names(n.attrib) == Names(n0.attrib)
            && forall k :: k in Names(n0.attrib) ==> Get(n.attrib, k) == Some(SlimValue(Get(n0.attrib, k).value))
  {
    var e1 := Rewrite(e, All, SlimText);
    RewriteAt(e, All, SlimText, p);
    RewriteAt(e1, All, SlimLocal, p);
    SameShapeTrans(Slimmed(e), e1, e);
    var a := At(e, p).attrib;
    forall k | k in Names(a) ensures Get(At(Slimmed(e), p).attrib, k) == Some(SlimValue(Get(a, k).value)) {
      SlimAttrsGet(a, k);
    }
  }

  /** Cleaning every attribute value twice is cleaning it once. */
  lemma SlimAttrsIdempotent(a: Attrs)
    ensures SlimAttrs(SlimAttrs(a)) == SlimAttrs(a)
  {
    forall k ensures Get(SlimAttrs(SlimAttrs(a)), k) == Get(SlimAttrs(a), k) {
      SlimAttrsGet(a, k);
      SlimAttrsGet(SlimAttrs(a), k);
      if k in Names(a) {
        SlimIdempotent(Get(a, k).value);
      }
    }
    AttrsExt(SlimAttrs(SlimAttrs(a)), SlimAttrs(a));
  }

  /** `SVG.slim` run twice leaves the tree as one run does. */
  lemma SlimmedIdempotent(e: Element)
    ensures Slimmed(Slimmed(e)) == Slimmed(e)
  {
    var s := Slimmed(e);
    var s2 := Slimmed(s);
    RewriteAt(e, All, SlimText, []);
    RewriteAt(Rewrite(e, All, SlimText), All, SlimLocal, []);
    RewriteAt(s, All, SlimText, []);
    RewriteAt(Rewrite(s, All, SlimText), All, SlimLocal, []);
    SameShapeTrans(s2, Rewrite(s, All, SlimText), s);
    forall p | ValidPath(s2, p) && ValidPath(s, p) ensures LocalOf(At(s2, p)) == LocalOf(At(s, p)) {
      SameShapeTrans(s, Rewrite(e, All, SlimText), e);
      ShapePath(s, e, p);
      SlimmedTwiceAt(e, p);
    }
    TreeExt(s2, s);
  }

  /** One node of `SlimmedIdempotent`. */
  lemma SlimmedTwiceAt(e: Element, p: Path)
    requires ValidPath(e, p) && ValidPath(Slimmed(e), p)
    ensures ValidPath(Slimmed(Slimmed(e)), p)
    ensures LocalOf(At(Slimmed(Slimmed(e)), p)) == LocalOf(At(Slimmed(e), p))
  {
    var s := Slimmed(e);
    var l := LocalOf(At(e, p));
    RewriteAt(e, All, SlimText, p);
    RewriteAt(Rewrite(e, All, SlimText), All, SlimLocal, p);
    RewriteAt(s, All, SlimText, p);
    RewriteAt(Rewrite(s, All, SlimText), All, SlimLocal, p);
    var l1 := LocalOf(At(s, p));
    assert l1 == SlimLocal(SlimText(l));
    assert LocalOf(At(Slimmed(s), p)) == SlimLocal(SlimText(l1));
    SlimAttrsIdempotent(l.attrib);
    if l.text.Some? {
      StripIdempotent(l.text.value);
    }
    assert SlimText(l1) == l1;
  }

  // ---------------------------------------------------------------------
  // svg2

  /** `SVG.svg2` at one element: the root is left alone; in every element
      below it, whatever its namespace, each XLink attribute moves to its
      plain name (when no name carries the prefix twice) and no XLink name
      is left; the tag, text and tail stay. */
  lemma Svg2TreeAt(e: Element, p: Path, n: string)
    requires ValidPath(e, p)
    ensures SameShape(Svg2Tree(e), e) && ValidPath(Svg2Tree(e), p)
    ensures At(Svg2Tree(e), p).tag == At(e, p).tag
    ensures |p| == 0 ==> LocalOf(At(Svg2Tree(e), p)) == LocalOf(At(e, p))
    ensures At(Svg2Tree(e), p).text == At(e, p).text
    ensures At(Svg2Tree(e), p).tail == At(e, p).tail
    ensures |p| > 0 && NoDoubleXlink(At(e, p).attrib) ==>
              var a0 := At(e, p).attrib;
              var a := At(Svg2Tree(e), p).attrib;
              && Get(a, n) == (if Xlink + n in Names(a0) then Get(a0, Xlink + n)
                               else if StartsWith(n, Xlink) then None
                               else Get(a0, n))
              && (StartsWith(n, Xlink) ==> n !in Names(a))
  {
    RewriteAt(e, Wildcard, Svg2Local, p);
    if |p| > 0 && NoDoubleXlink(At(e, p).attrib) {
      Svg2AttrsSpec(At(e, p).attrib, n);
    }
  }

  // ---------------------------------------------------------------------
  // uid

  /** `uid` on one attribute of one element: the value of `name`, if
      present, goes through `insert`; every other attribute, the order of
      the names, the text and the tail stay. */
  lemma UidLocalSpec(name: string, uid: string, l: Local, k: string)
    ensures Names(UidLocal(name, uid, l).attrib) == Names(l.attrib)
    ensures Get(UidLocal(name, uid, l).attrib, k) ==
              if k == name && name in Names(l.attrib) then Some(Insert(Get(l.attrib, k).value, uid))
              else Get(l.attrib, k)
    ensures UidLocal(name, uid, l).text == l.text && UidLocal(name, uid, l).tail == l.tail
  {
  }

  /** One loop of `SVG.uid` at one element. */
  lemma UidStageAt(e: Element, name: string, uid: string, p: Path, k: string)
    requires ValidPath(e, p)
    ensures var e1 := Rewrite(e, HasAttr(name), UidFix(name, uid));
            && SameShape(e1, e) && ValidPath(e1, p)
            && Names(At(e1, p).attrib) == Names(At(e, p).attrib)
            && Get(At(e1, p).attrib, k) == (if k == name && name in Names(At(e, p).attrib)
                                           then Some(Insert(Get(At(e, p).attrib, k).value, uid))
                                           else Get(At(e, p).attrib, k))
            && At(e1, p).text == At(e, p).text && At(e1, p).tail == At(e, p).tail
  {
    RewriteAt(e, HasAttr(name), UidFix(name, uid), p);
    UidLocalSpec(name, uid, LocalOf(At(e, p)), k);
  }

  /** `SVG.uid` at one element, the root included: `id`, `href` and
      `clip-path`, where present, each go through `insert` exactly once;
      every other attribute, the text and the tail stay. */
  lemma UidedAt(e: Element, uid: string, p: Path, k: string)
    requires ValidPath(e, p)
    ensures SameShape(Uided(e, uid), e) && ValidPath(Uided(e, uid), p)
    ensures var a0 := At(e, p).attrib;
            var a := At(Uided(e, uid), p).attrib;
            && Names(a) == Names(a0)
            && Get(a, k) == if k in {"id", "href", "clip-path"} && k in Names(a0)
                            then Some(Insert(Get(a0, k).value, uid)) else Get(a0, k)
    ensures At(Uided(e, uid), p).text == At(e, p).text && At(Uided(e, uid), p).tail == At(e, p).tail
  {
    var e1 := Rewrite(e, HasAttr("id"), UidFix("id", uid));
    var e2 := Rewrite(e1, HasAttr("href"), UidFix("href", uid));
    UidStageAt(e, "id", uid, p, k);
    UidStageAt(e1, "href", uid, p, k);
    UidStageAt(e2, "clip-path", uid, p, k);
    SameShapeTrans(e2, e1, e);
    SameShapeTrans(Uided(e, uid), e2, e);
  }
}
