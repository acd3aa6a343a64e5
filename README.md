# svgplot: the SVG post-processing passes, modelled in Dafny

`svgplot.py` post-processes the SVG that matplotlib writes. It turns each
element's inline `style` into a short list of CSS classes taken from a fixed
vocabulary, the `StyleMap`. It writes the matching stylesheet into the
document's `defs/style` element. It trims whitespace, renames the
deprecated XLink attributes, and rewrites every `id`, `href` and `clip-path`
so that several drawings can share one page. `savefig` and `minify` run the
passes in the order classify, slim, svg2, uid.

This project models that core and proves what each pass does.

- `wrappers.dfy` has `Option` and `Result`.
- `strings.dfy` has the parts of Python's `str` the code relies on:
  `split` on one character, `join`, `strip` (ASCII whitespace and the
  separators U+001C to U+001F), `replace` of one character, `rpartition`
  and `startswith`.
- `ordering.dfy` has `sorted(set(...))` on strings, as a strictly sorted list
  of distinct strings.
- `attributes.dfy` has an element's attribute dictionary. It is an ordered
  list of distinct names with their values, with `get`, `set`, `pop` and
  `SVG.set_none`.
- `style_map.dfy` has the `StyleMap` tables, `parse`, `classify` and
  `tostring`. `Classify` and `ToString` are loops proved against the
  functions `ClassNames` and `Stylesheet`. Everything is stated for any
  tables of the same form, and again for the tables of the source (`Base`).
- `tree.dfy` has the ElementTree element tree as a value. A node is
  addressed by its path of child indices. The file also has the walk
  `SVG._iter`/`SVG.iter` and ElementTree's `Element.iter()` as a list of
  paths (`Walk`).
  - `Rewrite` specifies a loop that changes every node the walk reaches.
  - `RewriteOrFail` specifies such a loop when the change can raise.
  - Walking and editing one node at a time gives exactly the
    specification (`WalkRewrite`, `EditStep`).
- `passes.dfy` has what each pass does to one element: `_slim`, `_fix`,
  `insert`, and the bodies of the classify loops.
- `svg.dfy` has the class `SVG`. Its field `root` holds the tree, and it
  also holds the namespace map and the document id. Its methods `Slim`,
  `Svg2`, `Uid`, `Classify` and `Normalize` walk the tree and update
  `root` node by node. Each method is proved equal to a specification
  function on the old tree (`Slimmed`, `Svg2Tree`, `Uided`, `Classified`,
  `Normalized`).
- `svg_properties.dfy` proves what those specifications guarantee, element
  by element:
  - the exact conditions under which `classify` fails;
  - that it leaves no `style` anywhere;
  - that it gives the classes `butt` and `rounded` and the classes of the
    old style to every path, use and text;
  - that it gives `text` to texts and to `DejaVuSans` glyphs;
  - the stylesheet text it writes;
  - that slim is idempotent;
  - that no XLink name is left below the root after svg2;
  - that `insert` is applied exactly once to each `id`, `href` and
    `clip-path`.

Where the comments in the source read differently, the model follows the
code:

- `_slim` (svgplot.py:212) deletes a whitespace character when it is
  followed by another one. An inner run therefore keeps its last character,
  which can be a tab or a newline rather than a space.
- A text that is only whitespace becomes the empty string, not `None`
  (svgplot.py:208).
- The comment of `insert` (svgplot.py:236) says it puts `ins` "after the
  last # and before the last -". The code puts `ins` followed by a new dash
  just after the last `-` that comes after the last `#`. When there is no
  such `-`, it puts them just after the last `#`, or at the start.
  Underscores become dashes first.

## Model

| member | source | states |
|---|---|---|
| `StyleMap.Lookup` | svgplot.py:131 | a dictionary subscript finds nothing exactly when no entry has the key, and otherwise the value of an entry with that key |
| `StyleMap.ClassOfSpec` | svgplot.py:135 | `attributes[attr][value]` raises `KeyError` on the property exactly when no family has it, and on the value exactly when that family lacks it; otherwise the class is that family's entry |
| `StyleMap.ParseSpec` | svgplot.py:120-125 | the empty style has no declarations; otherwise declaration `i` is the `;`-piece `i` split at `:`, every part stripped of surrounding whitespace |
| `StyleMap.ParseAt` | svgplot.py:124-125 | one declaration of a non-empty style: piece `i` of the `;`-split, split at `:` and stripped |
| `StyleMap.TwoDecls` | svgplot.py:124-125 | `p1: v1; p2: v2`, with words free of `:`, `;` and end whitespace, parses to `[p1, v1]`, `[p2, v2]` |
| `StyleMap.ParseExample` | svgplot.py:124-125 | the style `stroke: #1f77b4; stroke-width: 0.8` parses to `["stroke", "#1f77b4"]`, `["stroke-width", "0.8"]` |
| `StyleMap.DeclClassesSpec` | svgplot.py:134-136 | the classes of a list of declarations succeed exactly when every declaration has one, and are then those classes in order; otherwise the result is the error of the first declaration without one |
| `StyleMap.ClassNamesSpec` | svgplot.py:127-137 | classification is the classes of the global defaults followed by those of the style's declarations, and fails exactly when some declaration fails, with the first such error |
| `StyleMap.TrailingSemicolon` | svgplot.py:124-125 | a style that ends in `;` yields an empty last declaration, which does not unpack, so classification raises |
| `StyleMap.GlobalClasses` | svgplot.py:51-55 | the global defaults of the source classify as `butt`, `rounded` |
| `StyleMap.BaseClassNames` | svgplot.py:127-137 | with the source's tables, a style classifies as `butt rounded` followed by the classes of its declarations, or fails as they do |
| `StyleMap.ClassifyEmpty` | svgplot.py:127-137 | an element without a style is classified `butt rounded` |
| `StyleMap.AppendClasses` | svgplot.py:134-136 | the loop appends the class of each declaration in order and stops at the first one that raises |
| `StyleMap.Classify` | svgplot.py:127-137 | the method returns the joined classes of `ClassNames`, or its error |
| `StyleMap.ToString` | svgplot.py:139-153 | the method returns `Stylesheet`: one rule per vocabulary entry, then the `.text` rule |
| `StyleMap.VocabularyRules` | svgplot.py:141-145 | the rules come family by family, each family in table order; there are 25 of them |
| `StyleMap.StylesheetRules` | svgplot.py:147-153 | the stylesheet of the source's tables is the 25 rules followed by the literal `.text { stroke: none; fill: #000000; }` |
| `StyleMap.FillRules` | svgplot.py:80-83 | the rules of the `fill` family, written out |
| `StyleMap.StrokeRules` | svgplot.py:62-78 | the rules of the `stroke` family, written out |
| `StyleMap.StrokeWidthRules` | svgplot.py:85-88 | the rules of the `stroke-width` family, written out |
| `StyleMap.StrokeLineJoinRules` | svgplot.py:90-93 | the rules of the `stroke-linejoin` family, written out |
| `StyleMap.StrokeLineCapRules` | svgplot.py:95-98 | the rules of the `stroke-linecap` family, written out |
| `StyleMap.FontRules` | svgplot.py:100-102 | the rule of the `font` family, written out |
| `StyleMap.TextAnchorRules` | svgplot.py:104-108 | the rules of the `text-anchor` family, written out |
| `StyleMap.AllRulesHas` | svgplot.py:141-145 | every vocabulary entry has its rule in the stylesheet |
| `StyleMap.ClassHasRule` | svgplot.py:131-145 | every class that classification can produce is defined by a stylesheet rule that sets that property to that value |
| `Strings.Split` | svgplot.py:124 | `str.split` on one character gives at least one piece and no piece contains the separator |
| `Strings.JoinSplit` | svgplot.py:266-268 | joining the pieces of a split with the separator gives the string back |
| `Strings.SplitJoin` | svgplot.py:266-268 | splitting a join of pieces that are free of the separator gives the pieces back |
| `Strings.Strip` | svgplot.py:208 | `str.strip` leaves no whitespace at either end; the result is empty exactly when the string is all whitespace, and a string without end whitespace is kept |
| `Strings.StripIsWindow` | svgplot.py:208 | what `str.strip` keeps is one contiguous piece of the string, with only whitespace before and after it |
| `Strings.StripPadded` | svgplot.py:208 | stripping whitespace, a piece without whitespace at its ends, and whitespace gives the piece |
| `Strings.StripIdempotent` | svgplot.py:208 | stripping twice is stripping once |
| `Strings.ReplaceChar` | svgplot.py:240 | `replace("_", "-")` changes exactly the underscores |
| `Strings.RPartition` | svgplot.py:243-246 | `rpartition` cuts at the last separator: the three parts rebuild the string, the last contains no separator, and without a separator everything is in the last part |
| `Ordering.SortUnique` | svgplot.py:267 | `sorted(set(xs))` is strictly increasing and has the elements of `xs` |
| `Ordering.SortedUnique` | svgplot.py:267 | two strictly sorted lists with the same elements are equal |
| `Ordering.DropEmpty` | svgplot.py:268 | `filter(None, ...)` removes exactly the empty strings and keeps the order |
| `Attributes.Get` | svgplot.py:252 | `el.get(k)` is present exactly when `k` is a name, and is then its value |
| `Attributes.Set` | svgplot.py:253 | `el.set(k, v)` gives `k` the value `v`, keeps every other value, and appends `k` to the names only when it is new |
| `Attributes.Pop` | svgplot.py:274 | `attrib.pop(k)` removes `k`, keeps every other value, and keeps the order of the other names |
| `Attributes.SetTwice` | svgplot.py:253 | setting the same value twice is setting it once |
| `Attributes.MergedTokens` | svgplot.py:266-267 | the merged tokens are sorted, distinct and nonempty, and are the old tokens together with the new ones |
| `Attributes.JoinedTokens` | svgplot.py:268 | joining such tokens gives the empty string exactly when there are none, and otherwise a canonical value that splits back into them |
| `Attributes.SetNone` | svgplot.py:264-270 | the tokens of the attribute become the old tokens together with those of the value; with no tokens the element is unchanged; the new value is canonical; no other attribute changes |
| `Attributes.SetNoneIdempotent` | svgplot.py:264-270 | merging the same value twice is merging it once |
| `Passes.Squeeze` | svgplot.py:212 | deleting each whitespace character that another follows leaves no two adjacent whitespace characters and keeps the last character |
| `Passes.SqueezeKept` | svgplot.py:212 | the result is exactly the characters not followed by whitespace while being whitespace themselves, in order: its length is their count, and each such character sits at the position given by the number of such characters before it |
| `Passes.StripVisible` | svgplot.py:208 | stripping keeps every non-whitespace character, in order |
| `Passes.SqueezeVisible` | svgplot.py:212 | squeezing keeps every non-whitespace character, in order |
| `Passes.SlimValueKept` | svgplot.py:212 | `_slim` is exactly the stripped value with each whitespace character dropped that another whitespace character follows; every other character is kept, in order |
| `Passes.SlimValueSpec` | svgplot.py:212 | `_slim` gives the empty string exactly for all-whitespace input; otherwise a value with no whitespace at either end and no two whitespace characters in a row, with the same non-whitespace characters in order |
| `Passes.SlimIdempotent` | svgplot.py:212 | `_slim` of a slimmed value changes nothing |
| `Passes.SlimExample` | svgplot.py:211-212 | `_slim(" a  b c  ")` is `"a b c"`, the example in the source's comment |
| `Passes.SlimAttrs` | svgplot.py:213-215 | slimming every value keeps the attribute names in order |
| `Passes.SlimAttrsGet` | svgplot.py:213-215 | after the loop every value is `_slim` of its old value |
| `Passes.SlimAttributes` | svgplot.py:214-215 | the loop over `c.keys()` computes `SlimAttrs` |
| `Passes.FixKeysGet` | svgplot.py:222-228 | the `_fix` loop over a snapshot of the keys moves each XLink attribute to its plain name; a plain name gets the value of its XLink form when there is one, and otherwise keeps its own |
| `Passes.Svg2AttrsSpec` | svgplot.py:217-228 | when no name carries the XLink prefix twice, every attribute is found under its plain name afterwards and no XLink name is left |
| `Passes.FixXlink` | svgplot.py:227-228 | the method computes `Svg2Attrs` |
| `Passes.ConcatDropEmpty` | svgplot.py:249 | dropping the empty parts before `"".join` changes nothing |
| `Passes.InsertSpec` | svgplot.py:234-249 | `insert` puts `ins` and a dash at the splice point of the underscore-replaced id: just after its last `#` or `-`, or at its start |
| `Passes.SplicePointUnique` | svgplot.py:243-247 | the splice point is unique |
| `Passes.InsertLength` | svgplot.py:234-249 | `insert` makes an id exactly `len(ins) + 1` characters longer |
| `Passes.InsertInjective` | svgplot.py:234-249 | different document ids give different results for the same id |
| `Passes.InsertSameId` | svgplot.py:234-249 | two ids give the same result exactly when they are equal once underscores become dashes |
| `Passes.InsertExampleWord` | svgplot.py:237 | `insert("hello-world", "what")` is `"hello-what-world"` |
| `Passes.InsertExampleSharp` | svgplot.py:238 | `insert("#hey", "world")` is `"#world-hey"` |
| `Passes.InsertExampleLastDash` | svgplot.py:239 | `insert("#a-b-c", "x")` is `"#a-b-x-c"` |
| `Passes.ClassifyLocalSpec` | svgplot.py:274 | a classified element fails exactly when its style does; otherwise its style is gone, its class tokens are the old ones together with those of the style, and nothing else changes |
| `Passes.TextLocalSpec` | svgplot.py:287-288 | a text element is classified in the same way and also gets the token `text` |
| `Passes.GlyphLocalSpec` | svgplot.py:280-283 | the glyph loop adds `text` to the classes exactly when the id starts with `DejaVuSans`, and changes nothing else, the style included |
| `Passes.BaseClassTokens` | svgplot.py:130-132 | with the source's tables every successful classification contains the tokens `butt` and `rounded` |
| `Tree.WalkMember` | svgplot.py:294-301 | the walk yields exactly the matching nodes: for a tag or `*`, every matching descendant but not the starting element; for `[@attr]` and `Element.iter()`, the starting element too |
| `Tree.WalkDistinct` | svgplot.py:294-301 | the walk yields no element twice |
| `Tree.RewriteAt` | svgplot.py:294-301 | a loop over the walk changes exactly the selected nodes, each by the loop body applied to its old attributes, text and tail, and keeps the tree's shape |
| `Tree.WalkRewrite` | svgplot.py:294-301 | changing the nodes one by one in walk order gives `Rewrite` |
| `Tree.RewriteOrFailSpec` | svgplot.py:273-288 | a loop whose body may raise fails exactly when the body fails on some selected node; otherwise every selected node is changed |
| `Tree.RewriteOrFailAt` | svgplot.py:273-288 | after such a loop succeeds, each node is changed exactly when it is selected, and the body succeeded on it |
| `Svg.FirstChild` | svgplot.py:204 | the first child from a position on with a given tag, or none when there is none |
| `Svg.FindPair` | svgplot.py:202-204 | `find("defs/style")` is a `style` child of a `defs` child, with no earlier `defs` child having a `style` child and no earlier `style` child in the chosen one; it is none exactly when no `defs` child has a `style` child |
| `Svg.SVG.constructor` | svgplot.py:185-190 | the object holds the tree, the namespaces and the id it was given |
| `Svg.SVG.Each` | svgplot.py:251-261 | a loop over `iter(q)` that changes each element leaves `Rewrite` of the old tree |
| `Svg.SVG.Slim` | svgplot.py:206-215 | the two loops of `slim` leave `Slimmed` of the old tree |
| `Svg.SVG.Svg2` | svgplot.py:217-228 | the loop of `svg2` over `iter("*")`, which reaches every element below the root in any namespace, leaves `Svg2Tree` of the old tree |
| `Svg.SVG.Uid` | svgplot.py:230-261 | the three loops of `uid` leave `Uided` of the old tree |
| `Svg.SVG.ClassifyAt` | svgplot.py:273-274 | one loop body pops the style and raises when it cannot be classified, leaving the element without its style; otherwise it merges its classes into `class` |
| `Svg.SVG.ClassifyEach` | svgplot.py:273-277 | a classifying loop fails with the first failure in walk order, or leaves every selected element classified |
| `Svg.SVG.Classify` | svgplot.py:272-292 | `classify` fails exactly as `Classified` does, and otherwise leaves its tree |
| `Svg.SVG.Normalize` | svgplot.py:313-316 | classify, slim, svg2 and uid in turn; a classify error ends the run |
| `SvgProperties.QualifyDistinct` | svgplot.py:273-286 | the three tags the classifying loops look for are different |
| `SvgProperties.ClassStageAt` | svgplot.py:273-277 | one classifying loop classifies exactly the elements with its tag below the root and leaves every other element alone |
| `SvgProperties.GlyphStageAt` | svgplot.py:280-283 | the glyph loop adds `text` where the id starts with `DejaVuSans` and keeps the style |
| `SvgProperties.ClassesSetKeeps` | svgplot.py:272-288 | the loops of `classify` keep every attribute but `class` and `style`, the text, the tail and every class token |
| `SvgProperties.ClassesSetStyleGone` | svgplot.py:272-288 | after the loops a path, use or text below the root has no style |
| `SvgProperties.ClassesSetStyleKept` | svgplot.py:272-288 | after the loops every other element has its style as it was |
| `SvgProperties.ClassesSetStyle` | svgplot.py:272-288 | after the loops an element has a style exactly when it had one and is not a path, use or text below the root |
| `SvgProperties.ClassesSetClasses` | svgplot.py:272-288 | after the loops a path, use or text had a classifiable style and holds all its classes |
| `SvgProperties.ClassesSetText` | svgplot.py:279-288 | after the loops every text below the root, and every element whose id starts with `DejaVuSans`, has the class `text` |
| `SvgProperties.UseFailure` | svgplot.py:276-277 | a failure of the `use` loop comes from a `use` element whose style cannot be classified |
| `SvgProperties.TextFailure` | svgplot.py:286-288 | a failure of the `text` loop comes from a `text` element whose style cannot be classified |
| `SvgProperties.ClassesSetErr` | svgplot.py:272-288 | the loops fail exactly when some path, use or text below the root has a style that cannot be classified |
| `SvgProperties.StrayStyleSpec` | svgplot.py:290 | the `assert` finds a style exactly when some element that is not classified had one |
| `SvgProperties.FindPairShape` | svgplot.py:202-204 | `find("defs/style")` depends only on tags and nesting, so the passes do not move it |
| `SvgProperties.ClassifiedErrors` | svgplot.py:272-292 | `classify` fails with a bad style exactly when some path, use or text has one; with the `assert` exactly when none has but some other element has a style; and for lack of `defs/style` exactly when neither holds and there is none |
| `SvgProperties.ClassifiedNoStyle` | svgplot.py:290 | after `classify` no element has a `style`, the root included |
| `SvgProperties.ClassifiedText` | svgplot.py:292 | after `classify` the text of `defs/style` is the stylesheet; every other text and every tail is unchanged |
| `SvgProperties.ClassifiedKeeps` | svgplot.py:272-292 | `classify` keeps every attribute but `class` and `style`, and loses no class token |
| `SvgProperties.ClassifiedClasses` | svgplot.py:272-292 | after `classify` every path, use and text below the root has `butt`, `rounded` and the classes of its old style; texts and `DejaVuSans` glyphs have `text` |
| `SvgProperties.SlimmedAt` | svgplot.py:206-215 | after `slim` every element, the root included, has its text stripped, no tail, the same attribute names, and every value `_slim` of the old one |
| `SvgProperties.SlimAttrsIdempotent` | svgplot.py:212-215 | slimming the attribute values twice is slimming them once |
| `SvgProperties.SlimmedIdempotent` | svgplot.py:206-215 | running `slim` twice leaves the tree as one run does |
| `SvgProperties.Svg2TreeAt` | svgplot.py:217-228 | `svg2` leaves the root alone; in every element below it, whatever its namespace, it moves XLink attributes to their plain names and leaves no XLink name; tags, texts and tails stay |
| `SvgProperties.UidStageAt` | svgplot.py:251-261 | one loop of `uid` sends its attribute, where present, through `insert` and changes nothing else |
| `SvgProperties.UidedAt` | svgplot.py:251-261 | after `uid`, `id`, `href` and `clip-path`, where present, have each been through `insert` exactly once; every other attribute, the names, the text and the tail stay |

## Left out

- Parsing and serialising XML, reading the namespace map, and registering
  namespaces (svgplot.py:155-200, 303-304) are not modelled. The tree
  arrives already parsed, with expanded `{uri}local` names, and the
  namespace map is a field.
- `make_uid` (svgplot.py:43-45) draws a random id. Randomness is outside the
  model, so the constructor takes the id as given.
- The file I/O and the matplotlib call of `savefig` and `minify`
  (svgplot.py:308-333) are not modelled, nor the `__main__` block. Nor are
  the prints, including the one in the glyph loop. Only the order of the
  passes is kept (`Normalize`). These functions pass `id` in the position
  of `parser`. The model gives the id to the constructor, as the rest of
  the class expects.
- Python's `\s` and `str.strip` match every character that `str.isspace`
  accepts. The model knows space, tab, newline, vertical tab, form feed,
  carriage return and the separators U+001C to U+001F. It does not know
  the other Unicode whitespace: U+0085, U+00A0, U+1680, U+2000 to U+200A,
  U+2028, U+2029, U+202F, U+205F and U+3000. Such characters are kept by
  `_slim` and by the text stripping in the model, where the source removes
  or collapses them.
- Comments and processing instructions in the tree are not modelled. The
  walk and `*` see only elements.
- Svg.SVG.Classify: on a failure the state of the tree is not specified,
  only the error. The source leaves the elements before the failing one
  changed, and the failing element with its style already popped. The
  method does that too, and `ClassifyAt` states it for the failing
  element, but the contract of `Classify` does not say so.
- SvgProperties.Svg2TreeAt: states the renaming only for attribute lists
  where no name carries the XLink prefix twice. Such a name would be
  renamed to one that still has the prefix. A parsed document cannot
  produce it.
- Svg.SVG.Svg2: the order of the attribute names after the renaming is
  stated only through `Svg2Attrs`. No separate lemma says where the
  renamed name ends up (at the end, as `set` appends it).
- Passes.FixName: it guards on the key still being present, which the
  source does not check. The guard always holds in the loop of `svg2`,
  because it walks a snapshot of the keys and pops only the key it fixes.
  `UidLocal` is guarded the same way, and its guard always holds because
  `uid` selects with `[@name]`.
