/** `StyleMap` (svgplot.py:49-153): the closed vocabulary that turns the
    inline `style` declarations the plotting backend emits into class names,
    and the stylesheet that defines those classes. */
module StyleMap {
  import opened Wrappers
  import opened Strings

  /** A family table: attribute value -> class name, in declaration order. */
  type Table = seq<(string, string)>

  /** Style property -> family table, in declaration order. */
  type Vocabulary = seq<(string, Table)>

  /** Applied to every classified element (svgplot.py:51-55). */
  const Global: Table := [("stroke-linecap", "butt"), ("stroke-linejoin", "round")]

  /** The baseline of text elements, rendered as the one `.text` rule
      (svgplot.py:57-60). */
  const TextDefaults: Table := [("stroke", "none"), ("fill", "#000000")]

  const Stroke: Table := [
    ("#ffffff", "primary"), ("#000000", "primary-text"), ("#cccccc", "secondary"),
    ("#1f77b4", "blue"), ("#ff7f0e", "orange"), ("#2ca02c", "green"),
    ("#d62728", "red"), ("#9467bd", "purple"), ("#8c564b", "brown"),
    ("#e377c2", "pink"), ("#7f7f7f", "grey"), ("#bcbd22", "olive"),
    ("#17becf", "cyan")]

  const Fill: Table := [("none", "no-fill"), ("#ffffff", "bg")]

  const StrokeWidth: Table := [("0.8", "thin"), ("1.5", "thick")]

  const StrokeLineJoin: Table := [("round", "rounded"), ("miter", "miter")]

  const StrokeLineCap: Table := [("butt", "butt"), ("square", "square")]

  const Font: Table := [("10px 'sans-serif'", "regular")]

  const TextAnchor: Table := [("start", "left-align"), ("middle", "center-align"), ("end", "right-align")]

  /** The vocabulary `StyleMap.attributes` (svgplot.py:110-118). */
  const Attributes: Vocabulary := [
    ("fill", Fill), ("stroke", Stroke), ("stroke-width", StrokeWidth),
    ("stroke-linejoin", StrokeLineJoin), ("stroke-linecap", StrokeLineCap),
    ("font", Font), ("text-anchor", TextAnchor)]

  /** The tables a `StyleMap` class carries: its global defaults, its text
      defaults and its vocabulary (a subclass may set others). */
  datatype Styles = Styles(defaults: Table, text: Table, attributes: Vocabulary)

  /** The `StyleMap` class itself. */
  const Base: Styles := Styles(Global, TextDefaults, Attributes)

  /** A dictionary subscript `t[k]`: the entry for `k`, if any. */
  function Lookup<V>(t: seq<(string, V)>, k: string): (r: Option<V>)
    ensures r.None? <==> forall i :: 0 <= i < |t| ==> t[i].0 != k
    ensures r.Some? ==> exists i :: 0 <= i < |t| && t[i] == (k, r.value)
  {
    if |t| == 0 then None
    else if t[0].0 == k then Some(t[0].1)
    else
      var r := Lookup(t[1..], k);
      assert r.Some? ==> exists i :: 1 <= i < |t| && t[i] == (k, r.value);
      r
  }

  /** The entry found is the first with that key. */
  lemma {:induction false} LookupAt<V>(t: seq<(string, V)>, i: nat, k: string)
    requires i < |t| && t[i].0 == k
    requires forall j :: 0 <= j < i ==> t[j].0 != k
    ensures Lookup(t, k) == Some(t[i].1)
  {
    if i > 0 {
      LookupAt(t[1..], i - 1, k);
    }
  }

  /** Why `StyleMap.classify` raises: a declaration that does not unpack
      into exactly (property, value) (ValueError), or a `KeyError` on the
      property or on the value. */
  datatype StyleError =
    | Unpack(parts: seq<string>)
    | UnknownProperty(property: string)
    | UnknownValue(property: string, value: string)

  /** `attributes[property][value]` in a vocabulary. */
  function ClassOf(vocab: Vocabulary, property: string, value: string): Result<string, StyleError>
  {
    match Lookup(vocab, property)
    case None => Err(UnknownProperty(property))
    case Some(t) =>
      match Lookup(t, value)
      case None => Err(UnknownValue(property, value))
      case Some(c) => Ok(c)
  }

  /** A `KeyError` on the property exactly when no family has it, one on the
      value when the family has no entry for it; otherwise the class of that
      entry. */
  lemma ClassOfSpec(vocab: Vocabulary, property: string, value: string)
    ensures var r := ClassOf(vocab, property, value);
      && (r == Err(UnknownProperty(property)) <==> forall i :: 0 <= i < |vocab| ==> vocab[i].0 != property)
      && (r.Err? ==> r == Err(UnknownProperty(property)) || r == Err(UnknownValue(property, value)))
      && (r == Err(UnknownValue(property, value)) ==>
            exists i :: 0 <= i < |vocab| && vocab[i].0 == property
              && forall j :: 0 <= j < |vocab[i].1| ==> vocab[i].1[j].0 != value)
      && (r.Ok? ==> exists i, j :: 0 <= i < |vocab| && 0 <= j < |vocab[i].1|
                      && vocab[i].0 == property && vocab[i].1[j] == (value, r.value))
  {
  }

  /** `StyleMap.parse`: the `;`-separated declarations of a style, each cut
      at every `:` and stripped; none at all for the empty string. */
  function Parse(style: string): seq<seq<string>>
  {
    if style == "" then []
    else
      var rules := Split(style, ';');
      seq(|rules|, i requires 0 <= i < |rules| => StripAll(Split(rules[i], ':')))
  }

  function StripAll(parts: seq<string>): (r: seq<string>)
    ensures |r| == |parts|
    ensures forall j :: 0 <= j < |r| ==> r[j] == Strip(parts[j])
  {
    seq(|parts|, j requires 0 <= j < |parts| => Strip(parts[j]))
  }

  /** One declaration per `;`-separated piece, none for the empty style:
      declaration `i` is piece `i` split at `:`, every part stripped of
      surrounding whitespace. */
  lemma ParseSpec(style: string)
    ensures style == "" <==> Parse(style) == []
    ensures style != "" ==> |Parse(style)| == |Split(style, ';')|
    ensures style != "" ==> forall i :: 0 <= i < |Parse(style)| ==>
              |Parse(style)[i]| == |Split(Split(style, ';')[i], ':')|
              && forall j :: 0 <= j < |Parse(style)[i]| ==>
                   Parse(style)[i][j] == Strip(Split(Split(style, ';')[i], ':')[j])
    ensures forall i, j :: 0 <= i < |Parse(style)| && 0 <= j < |Parse(style)[i]| ==>
              Parse(style)[i][j] == Strip(Parse(style)[i][j])
  {
    if style != "" {
      var rules := Split(style, ';');
      forall i | 0 <= i < |rules| ensures Parse(style)[i] == StripAll(Split(rules[i], ':')) {
        ParseAt(style, i);
      }
      forall i, j | 0 <= i < |Parse(style)| && 0 <= j < |Parse(style)[i]|
        ensures Parse(style)[i][j] == Strip(Parse(style)[i][j])
      {
        var part := Split(rules[i], ':')[j];
        assert Parse(style)[i][j] == Strip(part);
        StripIdempotent(part);
      }
    }
  }

  /** The class of one parsed declaration: `for attr, value in parse(style)`
      followed by the two subscripts. */
  function DeclClass(vocab: Vocabulary, decl: seq<string>): Result<string, StyleError>
  {
    if |decl| != 2 then Err(Unpack(decl)) else ClassOf(vocab, decl[0], decl[1])
  }

  /** The classes of the declarations, in order, or the error of the first
      declaration that has none. */
  function DeclClasses(vocab: Vocabulary, decls: seq<seq<string>>): Result<seq<string>, StyleError>
  {
    if |decls| == 0 then Ok([])
    else
      match DeclClasses(vocab, decls[..|decls| - 1])
      case Err(e) => Err(e)
      case Ok(cs) =>
        match DeclClass(vocab, decls[|decls| - 1])
        case Err(e) => Err(e)
        case Ok(c) => Ok(cs + [c])
  }

  /** Default settings as declarations `(property, value)`, in order. */
  function DefaultDecls(defaults: Table): (ds: seq<seq<string>>)
    ensures |ds| == |defaults|
    ensures forall i :: 0 <= i < |defaults| ==> ds[i] == [defaults[i].0, defaults[i].1]
  {
    seq(|defaults|, i requires 0 <= i < |defaults| => [defaults[i].0, defaults[i].1])
  }

  /** `classify` before the join: the classes of the global defaults, then
      one class per declaration of the style. */
  function ClassNames(s: Styles, style: string): Result<seq<string>, StyleError>
  {
    DeclClasses(s.attributes, DefaultDecls(s.defaults) + Parse(style))
  }

  /** `" ".join(...)` of a successful classification. */
  function Joined(r: Result<seq<string>, StyleError>): Result<string, StyleError>
  {
    match r
    case Ok(cs) => Ok(Join(cs, ' '))
    case Err(e) => Err(e)
  }

  /** A prefix of the declarations that already fails decides the result. */
  lemma {:induction false} DeclClassesPrefixErr(vocab: Vocabulary, ds: seq<seq<string>>, n: nat)
    requires n <= |ds| && DeclClasses(vocab, ds[..n]).Err?
    ensures DeclClasses(vocab, ds) == DeclClasses(vocab, ds[..n])
    decreases |ds|
  {
    if n < |ds| {
      assert ds[..|ds| - 1][..n] == ds[..n];
      DeclClassesPrefixErr(vocab, ds[..|ds| - 1], n);
    } else {
      assert ds[..n] == ds;
    }
  }

  /** Classifying two runs of declarations one after the other: the first
      error wins, otherwise the classes are concatenated. */
  /** The classes of `a + b` are those of `a + init` and of the last
      declaration of `b`. */
  lemma DeclClassesSnoc(vocab: Vocabulary, a: seq<seq<string>>, b: seq<seq<string>>)
    requires |b| > 0
    ensures DeclClasses(vocab, a + b) ==
              match DeclClasses(vocab, a + b[..|b| - 1])
              case Err(e) => Err(e)
              case Ok(cs) =>
                match DeclClass(vocab, b[|b| - 1])
                case Err(e) => Err(e)
                case Ok(c) => Ok(cs + [c])
  {
    assert (a + b)[..|a + b| - 1] == a + b[..|b| - 1];
    assert (a + b)[|a + b| - 1] == b[|b| - 1];
  }

  lemma {:induction false} DeclClassesAppend(vocab: Vocabulary, a: seq<seq<string>>, b: seq<seq<string>>)
    ensures DeclClasses(vocab, a).Err? ==> DeclClasses(vocab, a + b) == DeclClasses(vocab, a)
    ensures DeclClasses(vocab, a).Ok? && DeclClasses(vocab, b).Err? ==>
              DeclClasses(vocab, a + b) == DeclClasses(vocab, b)
    ensures DeclClasses(vocab, a).Ok? && DeclClasses(vocab, b).Ok? ==>
              DeclClasses(vocab, a + b) == Ok(DeclClasses(vocab, a).value + DeclClasses(vocab, b).value)
    decreases |b|
  {
    if |b| == 0 {
      assert a + b == a;
      if DeclClasses(vocab, a).Ok? {
        assert DeclClasses(vocab, a).value + [] == DeclClasses(vocab, a).value;
      }
    } else {
      var init := b[..|b| - 1];
      DeclClassesAppend(vocab, a, init);
      DeclClassesSnoc(vocab, a, b);
      if DeclClasses(vocab, a).Ok? && DeclClasses(vocab, b).Ok? {
        var ca, ci := DeclClasses(vocab, a).value, DeclClasses(vocab, init).value;
        var c := DeclClass(vocab, b[|b| - 1]).value;
        assert DeclClasses(vocab, b).value == ci + [c];
        assert ca + (ci + [c]) == (ca + ci) + [c];
      }
    }
  }

  /** The classes succeed exactly when every declaration has a class, and
      are then those classes in declaration order; otherwise the error is
      that of the first declaration without one. */
  lemma {:induction false} DeclClassesSpec(vocab: Vocabulary, ds: seq<seq<string>>)
    ensures DeclClasses(vocab, ds).Ok? <==> forall i :: 0 <= i < |ds| ==> DeclClass(vocab, ds[i]).Ok?
    ensures DeclClasses(vocab, ds).Ok? ==>
              |DeclClasses(vocab, ds).value| == |ds|
              && forall i :: 0 <= i < |ds| ==> DeclClasses(vocab, ds).value[i] == DeclClass(vocab, ds[i]).value
    ensures DeclClasses(vocab, ds).Err? ==>
              exists i :: 0 <= i < |ds| && DeclClass(vocab, ds[i]) == Err(DeclClasses(vocab, ds).error)
                && forall j :: 0 <= j < i ==> DeclClass(vocab, ds[j]).Ok?
  {
    if |ds| > 0 {
      var init := ds[..|ds| - 1];
      DeclClassesSpec(vocab, init);
      assert forall i :: 0 <= i < |init| ==> init[i] == ds[i];
      if DeclClasses(vocab, init).Err? {
        var i :| 0 <= i < |init| && DeclClass(vocab, init[i]) == Err(DeclClasses(vocab, init).error)
                 && forall j :: 0 <= j < i ==> DeclClass(vocab, init[j]).Ok?;
        assert DeclClass(vocab, ds[i]) == Err(DeclClasses(vocab, ds).error);
      }
    }
  }

  /** A declaration without a class ends the classification with its error. */
  lemma DeclClassesStop(vocab: Vocabulary, ds: seq<seq<string>>, k: nat)
    requires k < |ds| && DeclClasses(vocab, ds[..k]).Ok? && DeclClass(vocab, ds[k]).Err?
    ensures DeclClasses(vocab, ds) == Err(DeclClass(vocab, ds[k]).error)
  {
    assert ds[..k + 1][..k] == ds[..k];
    DeclClassesPrefixErr(vocab, ds, k + 1);
  }

  /** A declaration with a class appends it. */
  lemma DeclClassesNext(vocab: Vocabulary, ds: seq<seq<string>>, k: nat)
    requires k < |ds| && DeclClasses(vocab, ds[..k]).Ok? && DeclClass(vocab, ds[k]).Ok?
    ensures DeclClasses(vocab, ds[..k + 1]) ==
              Ok(DeclClasses(vocab, ds[..k]).value + [DeclClass(vocab, ds[k]).value])
  {
    assert ds[..k + 1][..k] == ds[..k];
  }

  /** Classification of a style succeeds or fails with the classification of
      its declarations alone, after the classes of the defaults. */
  lemma ClassNamesDecls(s: Styles, style: string)
    requires DeclClasses(s.attributes, DefaultDecls(s.defaults)).Ok?
    ensures var g := DeclClasses(s.attributes, DefaultDecls(s.defaults)).value;
      var d := DeclClasses(s.attributes, Parse(style));
      && (d.Err? ==> ClassNames(s, style) == d && Joined(ClassNames(s, style)) == Err(d.error))
      && (d.Ok? ==> ClassNames(s, style) == Ok(g + d.value) && Joined(ClassNames(s, style)) == Ok(Join(g + d.value, ' ')))
  {
    DeclClassesAppend(s.attributes, DefaultDecls(s.defaults), Parse(style));
  }

  /** Classification of a style: the classes of the defaults followed by the
      class of each declaration, or the error of the first declaration that
      does not unpack into `(property, value)` or whose property or value is
      not in the vocabulary. */
  lemma ClassNamesSpec(s: Styles, style: string)
    requires DeclClasses(s.attributes, DefaultDecls(s.defaults)).Ok?
    ensures ClassNames(s, style).Ok? <==>
              forall i :: 0 <= i < |Parse(style)| ==> DeclClass(s.attributes, Parse(style)[i]).Ok?
    ensures ClassNames(s, style).Ok? ==>
              var cs := ClassNames(s, style).value;
              var n := |s.defaults|;
              |cs| == n + |Parse(style)|
              && cs[..n] == DeclClasses(s.attributes, DefaultDecls(s.defaults)).value
              && forall i :: 0 <= i < |Parse(style)| ==> cs[n + i] == DeclClass(s.attributes, Parse(style)[i]).value
    ensures ClassNames(s, style).Err? ==>
              exists i :: 0 <= i < |Parse(style)| && DeclClass(s.attributes, Parse(style)[i]) == Err(ClassNames(s, style).error)
                && forall j :: 0 <= j < i ==> DeclClass(s.attributes, Parse(style)[j]).Ok?
  {
    ClassNamesDecls(s, style);
    DeclClassesSpec(s.attributes, DefaultDecls(s.defaults));
    DeclClassesSpec(s.attributes, Parse(style));
  }

  /** A style with a trailing `;` ends in an empty declaration, which does
      not unpack: classification fails, whatever the tables. */
  lemma TrailingSemicolon(s: Styles, style: string)
    requires |style| > 0 && style[|style| - 1] == ';'
    ensures ClassNames(s, style).Err?
    ensures DeclClass(s.attributes, Parse(style)[|Parse(style)| - 1]) == Err(Unpack([""]))
  {
    var ps := Parse(style);
    ParseTrailing(style);
    DeclClassesSpec(s.attributes, DefaultDecls(s.defaults) + ps);
    assert (DefaultDecls(s.defaults) + ps)[|s.defaults| + |ps| - 1] == ps[|ps| - 1];
  }

  /** A style ending in `;` parses to a last declaration holding one empty
      field. */
  lemma ParseTrailing(style: string)
    requires |style| > 0 && style[|style| - 1] == ';'
    ensures |Parse(style)| > 0 && Parse(style)[|Parse(style)| - 1] == [""]
  {
    SplitTrailing(style, ';');
    SplitWord("", ':');
    var rules := Split(style, ';');
    ParseAt(style, |rules| - 1);
    assert StripAll([""]) == [""];
  }

  /** Declaration `i` of a non-empty style is rule `i` split at `:` and
      stripped. */
  lemma ParseAt(style: string, i: nat)
    requires style != "" && i < |Split(style, ';')|
    ensures |Parse(style)| == |Split(style, ';')|
    ensures Parse(style)[i] == StripAll(Split(Split(style, ';')[i], ':'))
  {
  }
  /** The style `stroke: #1f77b4; stroke-width: 0.8`, as matplotlib writes
      it (each `property: value` joined by `; `), parses to two declarations,
      each a property and a value with the spaces around them gone. */
  lemma ParseExample()
    ensures Parse("stroke" + ": " + "#1f77b4" + "; " + "stroke-width" + ": " + "0.8") ==
              [["stroke", "#1f77b4"], ["stroke-width", "0.8"]]
  {
    assert Bare("stroke") && Bare("#1f77b4") && Bare("stroke-width") && Bare("0.8");
    TwoDecls("stroke", "#1f77b4", "stroke-width", "0.8");
  }

  /** A word without `:` or `;` that neither starts nor ends with whitespace. */
  predicate Bare(w: string) {
    w != "" && ':' !in w && ';' !in w && !IsSpace(w[0]) && !IsSpace(w[|w| - 1])
  }

  /** `p1: v1; p2: v2` parses to the two declarations `[p1, v1]`, `[p2, v2]`. */
  lemma TwoDecls(p1: string, v1: string, p2: string, v2: string)
    requires Bare(p1) && Bare(v1) && Bare(p2) && Bare(v2)
    ensures Parse(p1 + ": " + v1 + "; " + p2 + ": " + v2) == [[p1, v1], [p2, v2]]
  {
    var style := p1 + ": " + v1 + "; " + p2 + ": " + v2;
    var r0, r1 := p1 + [':'] + (" " + v1), (" " + p2) + [':'] + (" " + v2);
    SemicolonPieces(p1, v1, p2, v2);
    assert ':' !in " " + p2;
    LeadingSpace(v1);
    LeadingSpace(p2);
    LeadingSpace(v2);
    DeclExample(p1, " " + v1, p1, v1);
    DeclExample(" " + p2, " " + v2, p2, v2);
    TwoPieces(style, r0, r1, [p1, v1], [p2, v2]);
  }

  /** `p1: v1; p2: v2` has the two `;`-pieces `p1: v1` and ` p2: v2`. */
  lemma SemicolonPieces(p1: string, v1: string, p2: string, v2: string)
    requires Bare(p1) && Bare(v1) && Bare(p2) && Bare(v2)
    ensures Split(p1 + ": " + v1 + "; " + p2 + ": " + v2, ';') ==
              [p1 + [':'] + (" " + v1), (" " + p2) + [':'] + (" " + v2)]
  {
    var r0, r1 := p1 + [':'] + (" " + v1), (" " + p2) + [':'] + (" " + v2);
    DeclsLayout(p1, v1, p2, v2);
    assert ';' !in r0 && ';' !in r1;
    SplitTwo(r0, r1, ';');
  }

  lemma DeclsLayout(p1: string, v1: string, p2: string, v2: string)
    ensures p1 + ": " + v1 + "; " + p2 + ": " + v2 ==
              (p1 + [':'] + (" " + v1)) + [';'] + ((" " + p2) + [':'] + (" " + v2))
  {
    assert ": " == [':'] + " " && "; " == [';'] + " ";
  }

  /** Two pieces without the separator, joined by it, split back apart. */
  lemma SplitTwo(a: string, b: string, sep: char)
    requires sep !in a && sep !in b
    ensures Split(a + [sep] + b, sep) == [a, b]
  {
    SplitCons(a, b, sep);
    SplitWord(b, sep);
  }

  /** A style of two `;`-pieces parses to the two pieces' declarations. */
  lemma TwoPieces(style: string, r0: string, r1: string, d0: seq<string>, d1: seq<string>)
    requires style != "" && Split(style, ';') == [r0, r1]
    requires StripAll(Split(r0, ':')) == d0 && StripAll(Split(r1, ':')) == d1
    ensures Parse(style) == [d0, d1]
  {
    ParseAt(style, 0);
    ParseAt(style, 1);
    PairSeq(Parse(style), d0, d1);
  }

  lemma PairSeq<T>(d: seq<T>, a: T, b: T)
    requires |d| == 2 && d[0] == a && d[1] == b
    ensures d == [a, b]
  {
  }

  /** `property: value` splits at its one `:` and strips to the two parts. */
  lemma DeclExample(p: string, v: string, property: string, value: string)
    requires ':' !in p && ':' !in v
    requires Strip(p) == property && Strip(v) == value
    ensures StripAll(Split(p + [':'] + v, ':')) == [property, value]
  {
    SplitTwo(p, v, ':');
  }

  /** One space in front of a word that does not start or end with
      whitespace is all that `Strip` removes. */
  lemma LeadingSpace(w: string)
    requires w != "" && !IsSpace(w[0]) && !IsSpace(w[|w| - 1])
    ensures Strip(" " + w) == w
  {
    var s := " " + w;
    assert s[1..] == w;
    assert TrimStart(w) == w;
    assert TrimStart(s) == w;
    assert TrimEnd(w) == w;
  }


  /** Each global default of the base class is in the vocabulary: `butt`,
      then `rounded`. */
  lemma GlobalClassOf(i: nat)
    requires i < |Global|
    ensures ClassOf(Attributes, Global[i].0, Global[i].1) == Ok(["butt", "rounded"][i])
  {
    if i == 0 {
      LookupAt(Attributes, 4, "stroke-linecap");
      LookupAt(StrokeLineCap, 0, "butt");
    } else {
      LookupAt(Attributes, 3, "stroke-linejoin");
      LookupAt(StrokeLineJoin, 0, "round");
    }
  }

  /** The global classes of the base class are `butt` and `rounded`. */
  lemma GlobalClasses()
    ensures DeclClasses(Attributes, DefaultDecls(Global)) == Ok(["butt", "rounded"])
  {
    var ds := DefaultDecls(Global);
    GlobalClassOf(0);
    GlobalClassOf(1);
    assert DeclClasses(Attributes, ds[..0]) == Ok([]);
    DeclClassesNext(Attributes, ds, 0);
    assert [] + ["butt"] == ["butt"];
    DeclClassesNext(Attributes, ds, 1);
    assert ["butt"] + ["rounded"] == ["butt", "rounded"];
    assert ds[..2] == ds;
  }

  /** With the base class, a style is classified as `butt rounded` followed
      by the class of each declaration. */
  lemma BaseClassNames(style: string)
    ensures DeclClasses(Attributes, Parse(style)).Ok? ==>
              ClassNames(Base, style) == Ok(["butt", "rounded"] + DeclClasses(Attributes, Parse(style)).value)
    ensures DeclClasses(Attributes, Parse(style)).Err? ==>
              ClassNames(Base, style) == DeclClasses(Attributes, Parse(style))
  {
    GlobalClasses();
    ClassNamesDecls(Base, style);
  }

  /** An element without a style gets exactly `butt rounded`. */
  lemma ClassifyEmpty()
    ensures Joined(ClassNames(Base, "")) == Ok("butt rounded")
  {
    BaseClassNames("");
    assert Parse("") == [];
    assert DeclClasses(Attributes, []) == Ok([]);
    assert ["butt", "rounded"] + [] == ["butt", "rounded"];
    assert ["butt", "rounded"][1..] == ["rounded"];
    assert Join(["butt", "rounded"], ' ') == "butt" + [' '] + "rounded";
    assert "butt" + [' '] + "rounded" == "butt rounded";
  }

  /** One `for attr, value in ...: classes.append(attributes[attr][value])`
      loop of `StyleMap.classify`: the classes of `decls` appended to
      `classes`, or the error of the first declaration without one. */
  method AppendClasses(vocab: Vocabulary, decls: seq<seq<string>>, classes: seq<string>)
    returns (r: Result<seq<string>, StyleError>)
    ensures DeclClasses(vocab, decls).Err? ==> r == Err(DeclClasses(vocab, decls).error)
    ensures DeclClasses(vocab, decls).Ok? ==> r == Ok(classes + DeclClasses(vocab, decls).value)
  {
    var acc := classes;
    ghost var tail: seq<string> := [];
    var k := 0;
    while k < |decls|
      invariant 0 <= k <= |decls|
      invariant DeclClasses(vocab, decls[..k]) == Ok(tail)
      invariant acc == classes + tail
    {
      var decl := decls[k];
      if |decl| != 2 {
        DeclClassesStop(vocab, decls, k);
        return Err(Unpack(decl));
      }
      var c := ClassOf(vocab, decl[0], decl[1]);
      if c.Err? {
        DeclClassesStop(vocab, decls, k);
        return Err(c.error);
      }
      DeclClassesNext(vocab, decls, k);
      acc := acc + [c.value];
      tail := tail + [c.value];
      k := k + 1;
    }
    assert decls[..k] == decls;
    r := Ok(acc);
  }

  /** `StyleMap.classify` of class `s`: collect the classes of the global
      defaults, then of each declaration, and join them with spaces; a
      declaration that does not unpack or is not in the vocabulary raises. */
  method Classify(s: Styles, style: string) returns (r: Result<string, StyleError>)
    ensures r == Joined(ClassNames(s, style))
  {
    DeclClassesAppend(s.attributes, DefaultDecls(s.defaults), Parse(style));
    var classes := AppendClasses(s.attributes, DefaultDecls(s.defaults), []);
    if classes.Err? {
      return Err(classes.error);
    }
    assert classes.value == DeclClasses(s.attributes, DefaultDecls(s.defaults)).value;
    classes := AppendClasses(s.attributes, Parse(style), classes.value);
    if classes.Err? {
      return Err(classes.error);
    }
    r := Ok(Join(classes.value, ' '));
  }

  /** The rule `.selector { property: value; }`. */
  function Rule(selector: string, property: string, value: string): string
  {
    "." + selector + " { " + property + ": " + value + "; }"
  }

  /** The rules of one family, in table order. */
  function FamilyRules(property: string, t: Table): seq<string>
  {
    seq(|t|, j requires 0 <= j < |t| => Rule(t[j].1, property, t[j].0))
  }

  /** One rule per table entry: family by family, each in table order. */
  function AllRules(families: Vocabulary): seq<string>
  {
    if |families| == 0 then []
    else
      var last := families[|families| - 1];
      AllRules(families[..|families| - 1]) + FamilyRules(last.0, last.1)
  }

  function Declaration(property: string, value: string): string
  {
    property + ": " + value
  }

  /** The declarations `property: value` of a table, in order. */
  function Declarations(t: Table): (ds: seq<string>)
    ensures |ds| == |t|
    ensures forall i :: 0 <= i < |t| ==> ds[i] == Declaration(t[i].0, t[i].1)
  {
    seq(|t|, i requires 0 <= i < |t| => Declaration(t[i].0, t[i].1))
  }

  /** The `.text` rule: the text defaults as one declaration block. */
  function TextRule(text: Table): string
  {
    ".text { " + JoinWith(Declarations(text), "; ") + "; }"
  }

  /** What `tostring` of class `s` returns. */
  function Stylesheet(s: Styles): string
  {
    Concat(AllRules(s.attributes) + [TextRule(s.text)])
  }

  /** `StyleMap.tostring` of class `s`: one rule per vocabulary entry,
      then the `.text` rule, concatenated. */
  method ToString(s: Styles) returns (css: string)
    ensures css == Stylesheet(s)
  {
    var ruleset: seq<string> := [];
    for i := 0 to |s.attributes|
      invariant ruleset == AllRules(s.attributes[..i])
    {
      var (attr, group) := s.attributes[i];
      for j := 0 to |group|
        invariant ruleset == AllRules(s.attributes[..i]) + FamilyRules(attr, group)[..j]
      {
        var (rule, selector) := group[j];
        ruleset := ruleset + ["." + selector + " { " + attr + ": " + rule + "; }"];
        assert FamilyRules(attr, group)[..j + 1] == FamilyRules(attr, group)[..j] + [Rule(selector, attr, rule)];
      }
      AllRulesStep(s.attributes, i + 1);
      assert FamilyRules(attr, group)[..|group|] == FamilyRules(attr, group);
    }
    assert s.attributes[..|s.attributes|] == s.attributes;
    var decls := seq(|s.text|, i requires 0 <= i < |s.text| => s.text[i].0 + ": " + s.text[i].1);
    assert decls == Declarations(s.text);
    var textRule := JoinWith(decls, "; ");
    assert ".text { " + textRule + "; }" == TextRule(s.text);
    assert ruleset == AllRules(s.attributes);
    ruleset := ruleset + [".text { " + textRule + "; }"];
    css := Concat(ruleset);
  }

  /** The rules of the first `k` families extend those of the first `k - 1`
      by the rules of family `k`. */
  lemma AllRulesStep(families: Vocabulary, k: nat)
    requires 0 < k <= |families|
    ensures AllRules(families[..k]) == AllRules(families[..k - 1]) + FamilyRules(families[k - 1].0, families[k - 1].1)
  {
    assert families[..k][..k - 1] == families[..k - 1];
  }

  lemma FillRules()
    ensures FamilyRules("fill", Fill) == [
      Rule("no-fill", "fill", "none"),
      Rule("bg", "fill", "#ffffff")]
  {
  }

  lemma StrokeRules()
    ensures FamilyRules("stroke", Stroke) == [
      Rule("primary", "stroke", "#ffffff"),
      Rule("primary-text", "stroke", "#000000"),
      Rule("secondary", "stroke", "#cccccc"),
      Rule("blue", "stroke", "#1f77b4"),
      Rule("orange", "stroke", "#ff7f0e"),
      Rule("green", "stroke", "#2ca02c"),
      Rule("red", "stroke", "#d62728"),
      Rule("purple", "stroke", "#9467bd"),
      Rule("brown", "stroke", "#8c564b"),
      Rule("pink", "stroke", "#e377c2"),
      Rule("grey", "stroke", "#7f7f7f"),
      Rule("olive", "stroke", "#bcbd22"),
      Rule("cyan", "stroke", "#17becf")]
  {
  }

  lemma StrokeWidthRules()
    ensures FamilyRules("stroke-width", StrokeWidth) == [
      Rule("thin", "stroke-width", "0.8"),
      Rule("thick", "stroke-width", "1.5")]
  {
  }

  lemma StrokeLineJoinRules()
    ensures FamilyRules("stroke-linejoin", StrokeLineJoin) == [
      Rule("rounded", "stroke-linejoin", "round"),
      Rule("miter", "stroke-linejoin", "miter")]
  {
  }

  lemma StrokeLineCapRules()
    ensures FamilyRules("stroke-linecap", StrokeLineCap) == [
      Rule("butt", "stroke-linecap", "butt"),
      Rule("square", "stroke-linecap", "square")]
  {
  }

  lemma FontRules()
    ensures FamilyRules("font", Font) == [
      Rule("regular", "font", "10px 'sans-serif'")]
  {
  }

  lemma TextAnchorRules()
    ensures FamilyRules("text-anchor", TextAnchor) == [
      Rule("left-align", "text-anchor", "start"),
      Rule("center-align", "text-anchor", "middle"),
      Rule("right-align", "text-anchor", "end")]
  {
  }

  /** One rule `.class { property: value; }` per vocabulary entry, families
      in declaration order and each family in table order (the rules of each
      family are listed by the lemmas above): 25 rules. */
  lemma VocabularyRules()
    ensures AllRules(Attributes) ==
      FamilyRules("fill", Fill)
      + FamilyRules("stroke", Stroke)
      + FamilyRules("stroke-width", StrokeWidth)
      + FamilyRules("stroke-linejoin", StrokeLineJoin)
      + FamilyRules("stroke-linecap", StrokeLineCap)
      + FamilyRules("font", Font)
      + FamilyRules("text-anchor", TextAnchor)
    ensures |AllRules(Attributes)| == 25
  {
    AllRulesStep(Attributes, 1);
    AllRulesStep(Attributes, 2);
    AllRulesStep(Attributes, 3);
    AllRulesStep(Attributes, 4);
    AllRulesStep(Attributes, 5);
    AllRulesStep(Attributes, 6);
    AllRulesStep(Attributes, 7);
    assert Attributes[..7] == Attributes;
  }

  /** The stylesheet is the vocabulary's rules followed by the `.text` rule
      built from the text defaults. */
  lemma StylesheetRules()
    ensures Stylesheet(Base) == Concat(AllRules(Attributes) + [".text { stroke: none; fill: #000000; }"])
  {
    assert Declarations(TextDefaults) == [Declaration("stroke", "none"), Declaration("fill", "#000000")];
    TextRuleLiteral();
  }

  /** The `.text` rule of the source's text defaults, character for character. */
  lemma TextRuleLiteral()
    ensures ".text { " + JoinWith([Declaration("stroke", "none"), Declaration("fill", "#000000")], "; ") + "; }"
            == ".text { stroke: none; fill: #000000; }"
  {
    var ds := [Declaration("stroke", "none"), Declaration("fill", "#000000")];
    assert ds[1..] == [Declaration("fill", "#000000")];
    assert JoinWith(ds, "; ") == "stroke: none" + "; " + "fill: #000000";
  }

  /** Every entry of a vocabulary has its rule among the vocabulary's rules. */
  lemma {:induction false} AllRulesHas(families: Vocabulary, i: nat, j: nat)
    requires i < |families| && j < |families[i].1|
    ensures Rule(families[i].1[j].1, families[i].0, families[i].1[j].0) in AllRules(families)
  {
    var n := |families| - 1;
    if i < n {
      AllRulesHas(families[..n], i, j);
    } else {
      assert FamilyRules(families[n].0, families[n].1)[j] == Rule(families[i].1[j].1, families[i].0, families[i].1[j].0);
    }
  }

  /** Every class that classification can produce is defined by a rule of
      the stylesheet setting that very property to that very value. */
  lemma ClassHasRule(vocab: Vocabulary, property: string, value: string)
    requires ClassOf(vocab, property, value).Ok?
    ensures Rule(ClassOf(vocab, property, value).value, property, value) in AllRules(vocab)
  {
    var c := ClassOf(vocab, property, value).value;
    ClassOfSpec(vocab, property, value);
    var i, j :| 0 <= i < |vocab| && 0 <= j < |vocab[i].1|
                && vocab[i].0 == property && vocab[i].1[j] == (value, c);
    AllRulesHas(vocab, i, j);
  }
}
