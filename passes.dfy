/** What the passes of `SVG` do to one element: the whitespace clean-up of
    `slim` (svgplot.py:206-215), the xlink renaming of `svg2`
    (svgplot.py:217-228), the id splicing of `uid` (svgplot.py:230-261) and
    the class assignment of `classify` (svgplot.py:272-292). */
module Passes {
  import opened Wrappers
  import opened Strings
  import opened Ordering
  import opened Attributes
  import StyleMap
  import opened Tree

  // ---------------------------------------------------------------------
  // slim

  /** No two whitespace characters in a row. */
  predicate NoDoubleSpace(s: string)
  {
    forall i :: 0 <= i < |s| - 1 ==> !(IsSpace(s[i]) && IsSpace(s[i + 1]))
  }

  /** The characters of `s` that are not whitespace, in order. */
  function Visible(s: string): (r: string)
    ensures forall i :: 0 <= i < |r| ==> !IsSpace(r[i])
  {
    if |s| == 0 then "" else (if IsSpace(s[0]) then "" else [s[0]]) + Visible(s[1..])
  }

  lemma {:induction false} VisibleAppend(a: string, b: string)
    ensures Visible(a + b) == Visible(a) + Visible(b)
  {
    if |a| > 0 {
      VisibleAppend(a[1..], b);
      assert (a + b)[0] == a[0];
      assert (a + b)[1..] == a[1..] + b;
      var x := if IsSpace(a[0]) then "" else [a[0]];
      assert Visible(a + b) == x + Visible(a[1..] + b);
      assert Visible(a) == x + Visible(a[1..]);
    } else {
      assert a + b == b;
    }
  }

  lemma {:induction false} VisibleSpaces(s: string)
    requires forall i :: 0 <= i < |s| ==> IsSpace(s[i])
    ensures Visible(s) == ""
  {
    if |s| > 0 {
      VisibleSpaces(s[1..]);
    }
  }

  /** Stripping removes only whitespace. */
  lemma StripVisible(s: string)
    ensures Visible(Strip(s)) == Visible(s)
  {
    TrimStartVisible(s);
    TrimEndVisible(TrimStart(s));
  }

  lemma TrimStartVisible(s: string)
    ensures Visible(TrimStart(s)) == Visible(s)
  {
    var t := TrimStart(s);
    assert s == s[..|s| - |t|] + t;
    VisibleAppend(s[..|s| - |t|], t);
    VisibleSpaces(s[..|s| - |t|]);
  }

  lemma TrimEndVisible(t: string)
    ensures Visible(TrimEnd(t)) == Visible(t)
  {
    var r := TrimEnd(t);
    assert t == r + t[|r|..];
    VisibleAppend(r, t[|r|..]);
    VisibleSpaces(t[|r|..]);
  }

  /** The `\s+(?=\s)` part of `_slim`: of each run of whitespace only its
      last character is kept. */
  function Squeeze(s: string): (r: string)
    ensures |r| <= |s|
    ensures |s| > 0 ==> |r| > 0 && r[|r| - 1] == s[|s| - 1]
    ensures |s| > 0 ==> (IsSpace(r[0]) <==> IsSpace(s[0]))
    ensures |s| > 0 && !IsSpace(s[0]) ==> r[0] == s[0]
    ensures NoDoubleSpace(r)
  {
    if |s| <= 1 then s
    else if IsSpace(s[0]) && IsSpace(s[1]) then Squeeze(s[1..])
    else [s[0]] + Squeeze(s[1..])
  }

  /** The character at `i` is whitespace and so is the next one: what
      `\s+(?=\s)` deletes. */
  predicate Doubled(s: string, i: nat)
    requires i < |s|
  {
    IsSpace(s[i]) && i + 1 < |s| && IsSpace(s[i + 1])
  }

  /** How many positions before `i` are not `Doubled`. */
  function KeptBefore(s: string, i: nat): nat
    requires i <= |s|
  {
    if i == 0 then 0 else KeptBefore(s, i - 1) + (if Doubled(s, i - 1) then 0 else 1)
  }

  lemma {:induction false} KeptBeforeTail(s: string, i: nat)
    requires 1 <= i <= |s|
    ensures KeptBefore(s, i) == (if Doubled(s, 0) then 0 else 1) + KeptBefore(s[1..], i - 1)
  {
    if i > 1 {
      KeptBeforeTail(s, i - 1);
      assert Doubled(s[1..], i - 2) == Doubled(s, i - 1);
    }
  }

  /** `Squeeze` keeps exactly the characters that are not `Doubled`, in
      order: the one at `i` lands after the `KeptBefore(s, i)` kept before
      it, and nothing else is left.  So of each whitespace run only the
      last character stays. */
  lemma {:induction false} SqueezeKept(s: string)
    ensures |Squeeze(s)| == KeptBefore(s, |s|)
    ensures forall i :: 0 <= i < |s| && !Doubled(s, i) ==>
              KeptBefore(s, i) < |Squeeze(s)| && Squeeze(s)[KeptBefore(s, i)] == s[i]
    decreases |s|
  {
    if |s| == 1 {
      assert KeptBefore(s, 1) == 1;
    } else if |s| > 1 {
      var t := s[1..];
      SqueezeKept(t);
      var h := if Doubled(s, 0) then 0 else 1;
      KeptBeforeTail(s, |s|);
      assert |Squeeze(s)| == h + |Squeeze(t)|;
      forall i | 0 <= i < |s| && !Doubled(s, i)
        ensures KeptBefore(s, i) < |Squeeze(s)| && Squeeze(s)[KeptBefore(s, i)] == s[i]
      {
        if i > 0 {
          KeptBeforeTail(s, i);
          assert Doubled(t, i - 1) == Doubled(s, i);
          assert Squeeze(s)[KeptBefore(s, i)] == Squeeze(t)[KeptBefore(t, i - 1)];
        }
      }
    }
  }

  lemma {:induction false} SqueezeVisible(s: string)
    ensures Visible(Squeeze(s)) == Visible(s)
  {
    if |s| > 1 {
      SqueezeVisible(s[1..]);
      if !(IsSpace(s[0]) && IsSpace(s[1])) {
        VisibleAppend([s[0]], Squeeze(s[1..]));
        assert ([s[0]] + Squeeze(s[1..]))[1..] == Squeeze(s[1..]);
      }
    }
  }

  lemma {:induction false} SqueezeKeeps(s: string)
    requires NoDoubleSpace(s)
    ensures Squeeze(s) == s
  {
    if |s| > 1 {
      SqueezeKeeps(s[1..]);
      assert s == [s[0]] + s[1..];
    }
  }

  /** `_slim`: `re.sub(r"^\s+|\s+$|\s+(?=\s)", "", value)`. */
  function SlimValue(s: string): string
  {
    Squeeze(Strip(s))
  }

  /** `_slim` removes the leading and trailing whitespace and shortens each
      inner run of whitespace to its last character; the other characters
      stay, in order. */
  lemma SlimValueSpec(s: string)
    ensures SlimValue(s) == "" <==> forall i :: 0 <= i < |s| ==> IsSpace(s[i])
    ensures |SlimValue(s)| > 0 ==>
              !IsSpace(SlimValue(s)[0]) && !IsSpace(SlimValue(s)[|SlimValue(s)| - 1])
    ensures NoDoubleSpace(SlimValue(s))
    ensures Visible(SlimValue(s)) == Visible(s)
  {
    StripVisible(s);
    SqueezeVisible(Strip(s));
  }

  /** Exactly: the value is the stripped string without its `Doubled`
      positions, the others kept in order. */
  lemma SlimValueKept(s: string)
    ensures var t := Strip(s);
            && |SlimValue(s)| == KeptBefore(t, |t|)
            && forall i :: 0 <= i < |t| && !Doubled(t, i) ==>
                 KeptBefore(t, i) < |SlimValue(s)| && SlimValue(s)[KeptBefore(t, i)] == t[i]
  {
    SqueezeKept(Strip(s));
  }

  /** A value `_slim` has already cleaned is left as it is. */
  lemma SlimIdempotent(s: string)
    ensures SlimValue(SlimValue(s)) == SlimValue(s)
  {
    var r := SlimValue(s);
    SlimValueSpec(s);
    assert Strip(r) == r;
    SqueezeKeeps(r);
  }

  /** The example in the source's comment. */
  lemma SlimExample()
    ensures SlimValue(" a  b c  ") == "a b c"
  {
    StripExample();
    SqueezeExample();
  }

  lemma StripExample()
    ensures Strip(" a  b c  ") == "a  b c"
  {
    assert " a  b c  " == " " + "a  b c" + "  ";
    StripPadded(" ", "a  b c", "  ");
  }

  lemma SqueezeExample()
    ensures Squeeze("a  b c") == "a b c"
  {
    assert Squeeze("c") == "c";
    assert " c"[1..] == "c";
    assert Squeeze(" c") == " c";
    assert "b c"[1..] == " c";
    assert Squeeze("b c") == "b c";
    assert " b c"[1..] == "b c";
    assert Squeeze(" b c") == " b c";
    assert "  b c"[1..] == " b c";
    assert Squeeze("  b c") == " b c";
    assert "a  b c"[1..] == "  b c";
  }

  /** `c.set(att, _slim(c.get(att)))` for every attribute. */
  function SlimAttrs(a: Attrs): (r: Attrs)
    ensures Names(r) == Names(a)
  {
    var r := seq(|a|, i requires 0 <= i < |a| => (a[i].0, SlimValue(a[i].1)));
    assert Names(r) == Names(a);
    r
  }

  /** After `SlimAttrs` every attribute value is `_slim` of its old value. */
  lemma SlimAttrsGet(a: Attrs, k: string)
    ensures Get(SlimAttrs(a), k) == if k in Names(a) then Some(SlimValue(Get(a, k).value)) else None
  {
    if k in Names(a) {
      var i :| 0 <= i < |a| && a[i].0 == k;
      assert SlimAttrs(a)[i].0 == k;
    }
  }

  /** Attribute lists with the same names and the same values are equal. */
  lemma AttrsExt(a: Attrs, b: Attrs)
    requires Names(a) == Names(b)
    requires forall k :: Get(a, k) == Get(b, k)
    ensures a == b
  {
    forall i | 0 <= i < |a| ensures a[i] == b[i] {
      assert a[i].0 == Names(a)[i] == Names(b)[i] == b[i].0;
      assert Get(a, a[i].0) == Some(a[i].1);
      assert Get(b, b[i].0) == Some(b[i].1);
    }
  }

  /** One step of the inner loop of `slim`, at the name `k`: the value of
      `keys[i]` is slimmed, every other value is as before. */
  lemma SlimAttributesStep(a: Attrs, keys: seq<string>, i: nat, prev: Attrs, r: Attrs, k: string)
    requires keys == Names(a) && i < |keys|
    requires Get(prev, k) == if k in keys[..i] then Some(SlimValue(Get(a, k).value)) else Get(a, k)
    requires Get(r, k) == if k == keys[i] then Some(SlimValue(Get(prev, k).value)) else Get(prev, k)
    ensures Get(r, k) == if k in keys[..i + 1] then Some(SlimValue(Get(a, k).value)) else Get(a, k)
  {
    assert keys[..i + 1] == keys[..i] + [keys[i]];
    if k == keys[i] {
      forall j | 0 <= j < i ensures keys[j] != k {
        assert keys[j] == a[j].0 && k == a[i].0;
      }
      assert k !in keys[..i];
    }
  }

  /** The inner loop of `slim`: `for att in c.keys(): c.set(att, _slim(c.get(att)))`. */
  method SlimAttributes(a: Attrs) returns (r: Attrs)
    ensures r == SlimAttrs(a)
  {
    var keys := Names(a);
    r := a;
    for i := 0 to |keys|
      invariant Names(r) == keys
      invariant forall k :: Get(r, k) == if k in keys[..i] then Some(SlimValue(Get(a, k).value)) else Get(a, k)
    {
      var att := keys[i];
      assert att in Names(r);
      ghost var prev := r;
      r := Set(r, att, SlimValue(Get(r, att).value));
      forall k ensures Get(r, k) == if k in keys[..i + 1] then Some(SlimValue(Get(a, k).value)) else Get(a, k) {
        SlimAttributesStep(a, keys, i, prev, r, k);
      }
    }
    assert keys[..|keys|] == keys;
    forall k ensures Get(r, k) == Get(SlimAttrs(a), k) {
      SlimAttrsGet(a, k);
    }
    AttrsExt(r, SlimAttrs(a));
  }

  /** The first loop of `slim` on one element: the text stripped, the tail
      dropped. */
  function SlimText(l: Local): (r: Local)
  {
    Local(l.attrib, if l.text.Some? then Some(Strip(l.text.value)) else None, None)
  }

  /** The second loop of `slim` on one element. */
  function SlimLocal(l: Local): Local
  {
    Local(SlimAttrs(l.attrib), l.text, l.tail)
  }

  // ---------------------------------------------------------------------
  // svg2

  /** The expanded-name prefix of the XLink namespace; 30 characters. */
  const Xlink: string := "{http://www.w3.org/1999/xlink}"

  /** `_fix(el, name)`: an attribute in the XLink namespace is moved to the
      same local name without namespace.  In `svg2` the name is always
      present when `_fix` is reached (see `FixKeysGet`). */
  function FixName(a: Attrs, name: string): Attrs
  {
    if StartsWith(name, Xlink) && name in Names(a) then
      Set(Pop(a, name), name[|Xlink|..], Get(a, name).value)
    else a
  }

  /** `for key in keys: _fix(el, key)`. */
  function FixKeys(a: Attrs, keys: seq<string>): Attrs
    decreases |keys|
  {
    if |keys| == 0 then a else FixName(FixKeys(a, keys[..|keys| - 1]), keys[|keys| - 1])
  }

  /** No attribute name carries the XLink prefix twice. */
  predicate NoDoubleXlink(a: Attrs)
  {
    forall n :: n in Names(a) ==> !StartsWith(n, Xlink + Xlink)
  }

  lemma XlinkSplit(name: string)
    requires StartsWith(name, Xlink)
    ensures name == Xlink + name[|Xlink|..]
    ensures StartsWith(Xlink + name, Xlink + Xlink)
  {
    assert (Xlink + name)[..|Xlink + Xlink|] == Xlink + name[..|Xlink|];
  }

  /** The value the name `n` should have after `_fix` of the names `keys`:
      that of the XLink name for `n` if it is among them, none for an XLink
      name among them, and otherwise the old one. */
  ghost function FixedGet(a: Attrs, keys: seq<string>, n: string): Option<string>
  {
    if Xlink + n in keys then Get(a, Xlink + n)
    else if n in keys && StartsWith(n, Xlink) then None
    else Get(a, n)
  }

  /** After fixing the distinct names `keys` of `a`: a name `n` holds what
      the XLink name for `n` held if that was among them, an XLink name
      among them is gone, and every other name is as before. */
  lemma {:induction false} FixKeysGet(a: Attrs, keys: seq<string>, n: string)
    requires NoDoubleXlink(a)
    requires forall i :: 0 <= i < |keys| ==> keys[i] in Names(a)
    requires forall i, j :: 0 <= i < j < |keys| ==> keys[i] != keys[j]
    ensures Get(FixKeys(a, keys), n) == FixedGet(a, keys, n)
    decreases |keys|
  {
    if |keys| > 0 {
      var init := keys[..|keys| - 1];
      var m := keys[|keys| - 1];
      FixKeysGet(a, init, n);
      assert keys == init + [m];
      assert FixKeys(a, keys) == FixName(FixKeys(a, init), m);
      if StartsWith(m, Xlink) {
        FixKeysGet(a, init, m);
        assert m !in init;
        assert m in Names(a);
        FixStepXlink(a, init, m, n);
      } else {
        FixStepPlain(a, init, m, n);
      }
    }
  }

  /** One step of the `_fix` loop on a name outside the XLink namespace. */
  lemma FixStepPlain(a: Attrs, init: seq<string>, m: string, n: string)
    requires !StartsWith(m, Xlink)
    requires Get(FixKeys(a, init), n) == FixedGet(a, init, n)
    ensures Get(FixName(FixKeys(a, init), m), n) == FixedGet(a, init + [m], n)
  {
    assert Xlink + n != m;
  }

  /** One step of the `_fix` loop on an XLink name `m` not fixed before. */
  lemma FixStepXlink(a: Attrs, init: seq<string>, m: string, n: string)
    requires NoDoubleXlink(a)
    requires StartsWith(m, Xlink) && m in Names(a) && m !in init
    requires forall i :: 0 <= i < |init| ==> init[i] in Names(a)
    requires Get(FixKeys(a, init), n) == FixedGet(a, init, n)
    requires Get(FixKeys(a, init), m) == FixedGet(a, init, m)
    ensures Get(FixName(FixKeys(a, init), m), n) == FixedGet(a, init + [m], n)
  {
    var cur := FixKeys(a, init);
    XlinkSplit(m);
    assert Xlink + m !in Names(a);
    assert Xlink + m !in init;
    FixNameGet(cur, m, n);
    if n == m[|Xlink|..] {
      assert Xlink + n == m;
    } else if n == m {
      assert Xlink + n !in init + [m];
    } else {
      assert Xlink + n != m;
    }
  }

  /** One `_fix` of a present XLink name `m`: its value moves to the plain
      name, and every other name is as before. */
  lemma FixNameGet(a: Attrs, m: string, n: string)
    requires StartsWith(m, Xlink) && m in Names(a)
    ensures Get(FixName(a, m), n) ==
              if n == m[|Xlink|..] then Get(a, m)
              else if n == m then None
              else Get(a, n)
  {
    assert |m[|Xlink|..]| < |m|;
  }


  /** The loop of `svg2` on one element: `_fix` applied to a snapshot of its
      attribute names. */
  function Svg2Attrs(a: Attrs): Attrs
  {
    FixKeys(a, Names(a))
  }

  /** `svg2` moves every XLink attribute to its plain name and leaves no
      XLink name behind (when no name carries the prefix twice). */
  lemma Svg2AttrsSpec(a: Attrs, n: string)
    requires NoDoubleXlink(a)
    ensures Get(Svg2Attrs(a), n) ==
              if Xlink + n in Names(a) then Get(a, Xlink + n)
              else if StartsWith(n, Xlink) then None
              else Get(a, n)
    ensures StartsWith(n, Xlink) ==> n !in Names(Svg2Attrs(a))
  {
    FixKeysGet(a, Names(a), n);
    if StartsWith(n, Xlink) {
      XlinkSplit(n);
      assert Xlink + n !in Names(a);
      if n !in Names(a) {
        assert Get(a, n) == None;
      }
    }
  }

  /** The inner loop of `svg2`: `for key in el.keys(): _fix(el, key)`. */
  method FixXlink(a: Attrs) returns (r: Attrs)
    ensures r == Svg2Attrs(a)
  {
    var keys := Names(a);
    r := a;
    for i := 0 to |keys|
      invariant r == FixKeys(a, keys[..i])
    {
      r := FixName(r, keys[i]);
      assert keys[..i + 1][..i] == keys[..i];
    }
    assert keys[..|keys|] == keys;
  }

  function Svg2Local(l: Local): Local
  {
    Local(Svg2Attrs(l.attrib), l.text, l.tail)
  }

  // ---------------------------------------------------------------------
  // uid

  /** `insert(string, ins)` of `uid`: underscores become dashes, then `ins`
      and a dash go in after the last `#` or `-`. */
  function Insert(s: string, ins: string): string
  {
    Concat(DropEmpty(InsertParts(s, ins)))
  }

  /** The pieces `insert` joins: what precedes the last `#`, the `#`, what
      precedes the last `-` after it, the `-`, `ins`, a dash, and the rest. */
  function InsertParts(s: string, ins: string): seq<string>
  {
    var t := ReplaceChar(s, '_', '-');
    var (prefix, sharp, rest) := RPartition(t, '#');
    var (before, dash, after) := RPartition(rest, '-');
    [prefix, sharp, before, dash, ins, "-", after]
  }

  /** `"".join(filter(None, parts))` is `"".join(parts)`. */
  lemma {:induction false} ConcatDropEmpty(parts: seq<string>)
    ensures Concat(DropEmpty(parts)) == Concat(parts)
  {
    if |parts| > 0 {
      ConcatDropEmpty(parts[1..]);
    }
  }

  /** Where `insert` splices: just after the last `#` or `-`, or at the
      start when there is none. */
  predicate SplicePoint(t: string, k: int)
  {
    0 <= k <= |t|
    && (k == 0 || t[k - 1] == '#' || t[k - 1] == '-')
    && forall j :: k <= j < |t| ==> t[j] != '#' && t[j] != '-'
  }

  lemma Concat7(a: string, b: string, c: string, d: string, e: string, f: string, g: string)
    ensures Concat([a, b, c, d, e, f, g]) == a + b + c + d + e + f + g
  {
    calc {
      Concat([a, b, c, d, e, f, g]);
      { assert [a, b, c, d, e, f, g][1..] == [b, c, d, e, f, g]; }
      a + Concat([b, c, d, e, f, g]);
      { assert [b, c, d, e, f, g][1..] == [c, d, e, f, g]; }
      a + (b + Concat([c, d, e, f, g]));
      { assert [c, d, e, f, g][1..] == [d, e, f, g]; }
      a + (b + (c + Concat([d, e, f, g])));
      { assert [d, e, f, g][1..] == [e, f, g]; }
      a + (b + (c + (d + Concat([e, f, g]))));
      { assert [e, f, g][1..] == [f, g]; }
      a + (b + (c + (d + (e + Concat([f, g])))));
      { assert [f, g][1..] == [g]; }
      a + (b + (c + (d + (e + (f + Concat([g]))))));
      { assert [g][1..] == []; }
      a + (b + (c + (d + (e + (f + (g + ""))))));
      { assert g + "" == g; }
      a + (b + (c + (d + (e + (f + g)))));
      a + b + c + d + e + f + g;
    }
  }

  /** The splice point of a string cut in five at its last `#` and at the
      last `-` after it. */
  lemma SplicePieces(t: string, prefix: string, sharp: string, rest: string, before: string, dash: string, after: string)
    requires t == prefix + sharp + rest && rest == before + dash + after
    requires sharp == "" || sharp == "#"
    requires dash == "" || dash == "-"
    requires dash == "" ==> before == ""
    requires sharp == "" && dash == "" ==> prefix == ""
    requires '#' !in rest && '-' !in after
    ensures SplicePoint(t, |prefix + sharp + before + dash|)
    ensures t[..|prefix + sharp + before + dash|] == prefix + sharp + before + dash
    ensures t[|prefix + sharp + before + dash|..] == after
  {
    var head := prefix + sharp + before + dash;
    var k := |head|;
    assert t == head + after;
    assert '#' !in after by {
      assert forall j :: 0 <= j < |after| ==> after[j] == rest[|before + dash| + j];
    }
    if dash != "" {
      assert head[k - 1] == '-';
    } else if sharp != "" {
      assert head == prefix + sharp;
    }
    forall j | k <= j < |t| ensures t[j] != '#' && t[j] != '-' {
      assert t[j] == after[j - k];
    }
  }

  /** `insert` puts `ins` and a dash at the splice point of the string with
      its underscores turned into dashes. */
  lemma InsertSpec(s: string, ins: string)
    ensures var t := ReplaceChar(s, '_', '-');
            exists k :: SplicePoint(t, k) && Insert(s, ins) == t[..k] + ins + "-" + t[k..]
  {
    var t := ReplaceChar(s, '_', '-');
    var (prefix, sharp, rest) := RPartition(t, '#');
    var (before, dash, after) := RPartition(rest, '-');
    InsertPieces(s, ins);
    SplicePieces(t, prefix, sharp, rest, before, dash, after);
    var k := |prefix + sharp + before + dash|;
    SpliceWitness(t, k, ins, Insert(s, ins));
  }

  lemma SpliceWitness(t: string, k: int, ins: string, r: string)
    requires SplicePoint(t, k) && r == t[..k] + ins + "-" + t[k..]
    ensures exists k :: SplicePoint(t, k) && r == t[..k] + ins + "-" + t[k..]
  {
  }

  /** `insert` joins the pieces of the two `rpartition`s around `ins`. */
  lemma InsertPieces(s: string, ins: string)
    ensures var t := ReplaceChar(s, '_', '-');
            var (prefix, sharp, rest) := RPartition(t, '#');
            var (before, dash, after) := RPartition(rest, '-');
            Insert(s, ins) == (prefix + sharp + before + dash) + ins + "-" + after
  {
    var t := ReplaceChar(s, '_', '-');
    var (prefix, sharp, rest) := RPartition(t, '#');
    var (before, dash, after) := RPartition(rest, '-');
    ConcatDropEmpty(InsertParts(s, ins));
    assert InsertParts(s, ins) == [prefix, sharp, before, dash, ins, "-", after];
    Concat7(prefix, sharp, before, dash, ins, "-", after);
  }
  /** The splice point of a string is unique. */
  lemma SplicePointUnique(t: string, k1: int, k2: int)
    requires SplicePoint(t, k1) && SplicePoint(t, k2)
    ensures k1 == k2
  {
  }

  /** `insert` makes the id one character plus `ins` longer. */
  lemma InsertLength(s: string, ins: string)
    ensures |Insert(s, ins)| == |s| + |ins| + 1
  {
    InsertSpec(s, ins);
  }

  lemma SpliceInjective(t: string, k: int, ins1: string, ins2: string)
    requires 0 <= k <= |t|
    requires t[..k] + ins1 + "-" + t[k..] == t[..k] + ins2 + "-" + t[k..]
    ensures ins1 == ins2
  {
    var r1 := t[..k] + ins1 + "-" + t[k..];
    var r2 := t[..k] + ins2 + "-" + t[k..];
    assert |ins1| == |ins2|;
    assert r1[k..k + |ins1|] == ins1;
    assert r2[k..k + |ins2|] == ins2;
  }

  /** Different inserted strings give different results. */
  lemma InsertInjective(s: string, ins1: string, ins2: string)
    requires Insert(s, ins1) == Insert(s, ins2)
    ensures ins1 == ins2
  {
    var t := ReplaceChar(s, '_', '-');
    InsertSpec(s, ins1);
    InsertSpec(s, ins2);
    var k1 :| SplicePoint(t, k1) && Insert(s, ins1) == t[..k1] + ins1 + "-" + t[k1..];
    var k2 :| SplicePoint(t, k2) && Insert(s, ins2) == t[..k2] + ins2 + "-" + t[k2..];
    SplicePointUnique(t, k1, k2);
    SpliceInjective(t, k1, ins1, ins2);
  }

  /** In a spliced string the dash after `ins` is the last dash. */
  lemma SpliceLastDash(t: string, k: int, ins: string)
    requires SplicePoint(t, k)
    ensures var r := t[..k] + ins + "-" + t[k..];
            && |r| == |t| + |ins| + 1 && r[k + |ins|] == '-'
            && forall j :: k + |ins| < j < |r| ==> r[j] != '-'
  {
    var r := t[..k] + ins + "-" + t[k..];
    forall j | k + |ins| < j < |r| ensures r[j] != '-' {
      assert r[j] == t[j - |ins| - 1];
    }
  }

  lemma SpliceSame(t1: string, k1: int, t2: string, k2: int, ins: string)
    requires SplicePoint(t1, k1) && SplicePoint(t2, k2)
    requires t1[..k1] + ins + "-" + t1[k1..] == t2[..k2] + ins + "-" + t2[k2..]
    ensures t1 == t2
  {
    var r := t1[..k1] + ins + "-" + t1[k1..];
    SpliceLastDash(t1, k1, ins);
    SpliceLastDash(t2, k2, ins);
    assert k1 == k2;
    assert t1[..k1] == r[..k1] == t2[..k1];
    assert t1[k1..] == r[k1 + |ins| + 1..] == t2[k1..];
    assert t1 == t1[..k1] + t1[k1..];
    assert t2 == t2[..k1] + t2[k1..];
  }

  /** Two ids come out of `insert` alike exactly when they are alike once
      their underscores are dashes: `a_b` and `a-b` collide. */
  lemma InsertSameId(s1: string, s2: string, ins: string)
    ensures Insert(s1, ins) == Insert(s2, ins) <==> ReplaceChar(s1, '_', '-') == ReplaceChar(s2, '_', '-')
  {
    var t1 := ReplaceChar(s1, '_', '-');
    var t2 := ReplaceChar(s2, '_', '-');
    if t1 == t2 {
      assert InsertParts(s1, ins) == InsertParts(s2, ins);
    }
    if Insert(s1, ins) == Insert(s2, ins) {
      InsertSpec(s1, ins);
      InsertSpec(s2, ins);
      var k1 :| SplicePoint(t1, k1) && Insert(s1, ins) == t1[..k1] + ins + "-" + t1[k1..];
      var k2 :| SplicePoint(t2, k2) && Insert(s2, ins) == t2[..k2] + ins + "-" + t2[k2..];
      SpliceSame(t1, k1, t2, k2, ins);
    }
  }

  /** The examples in the comment of `insert`. */
  lemma InsertExampleWord()
    ensures Insert("hello-world", "what") == "hello-what-world"
  {
    var s := "hello-world";
    assert SplicePoint(s, 6);
    assert s[..6] == "hello-" && s[6..] == "world";
    ExampleAt(s, "what", 6, "hello-what-world");
  }

  lemma InsertExampleSharp()
    ensures Insert("#hey", "world") == "#world-hey"
  {
    var s := "#hey";
    assert SplicePoint(s, 1);
    assert s[..1] == "#" && s[1..] == "hey";
    ExampleAt(s, "world", 1, "#world-hey");
  }

  lemma InsertExampleLastDash()
    ensures Insert("#a-b-c", "x") == "#a-b-x-c"
  {
    var s := "#a-b-c";
    assert SplicePoint(s, 5);
    assert s[..5] == "#a-b-" && s[5..] == "c";
    ExampleAt(s, "x", 5, "#a-b-x-c");
  }

  lemma ExampleAt(s: string, ins: string, k: int, expected: string)
    requires '_' !in s
    requires SplicePoint(s, k)
    requires expected == s[..k] + ins + "-" + s[k..]
    ensures Insert(s, ins) == expected
  {
    var t := ReplaceChar(s, '_', '-');
    assert t == s;
    InsertSpec(s, ins);
    var k' :| SplicePoint(t, k') && Insert(s, ins) == t[..k'] + ins + "-" + t[k'..];
    SplicePointUnique(t, k, k');
  }

  /** `el.set(name, insert(el.get(name), uid))` on an element that has
      `name`. */
  function UidLocal(name: string, uid: string, l: Local): Local
  {
    if name in Names(l.attrib) then
      Local(Set(l.attrib, name, Insert(Get(l.attrib, name).value, uid)), l.text, l.tail)
    else l
  }

  function UidFix(name: string, uid: string): Local -> Local
  {
    l => UidLocal(name, uid, l)
  }

  // ---------------------------------------------------------------------
  // classify

  /** The class of a path, use or text element: its `style` popped and
      classified, the classes merged into `class` by `set_none`. */
  function ClassifyLocal(styles: StyleMap.Styles, l: Local): Result<Local, StyleMap.StyleError>
  {
    var style := GetOr(l.attrib, "style", "");
    var a := Pop(l.attrib, "style");
    match StyleMap.Joined(StyleMap.ClassNames(styles, style))
    case Err(e) => Err(e)
    case Ok(classes) => Ok(Local(SetNone(a, "class", classes), l.text, l.tail))
  }

  /** The text loop: as for paths, then the `text` class. */
  function TextLocal(styles: StyleMap.Styles, l: Local): Result<Local, StyleMap.StyleError>
  {
    match ClassifyLocal(styles, l)
    case Err(e) => Err(e)
    case Ok(c) => Ok(Local(SetNone(c.attrib, "class", "text"), c.text, c.tail))
  }

  /** The `[@id]` loop: glyphs of text drawn as paths get the `text` class. */
  function GlyphLocal(l: Local): Local
  {
    if StartsWith(GetOr(l.attrib, "id", ""), "DejaVuSans") then
      Local(SetNone(l.attrib, "class", "text"), l.text, l.tail)
    else l
  }

  /** The class tokens of an element's attributes. */
  function Classes(a: Attrs): set<string>
  {
    TokenSet(GetOr(a, "class", ""))
  }

  /** What classification keeps: every attribute but `class` and `style`,
      the text, the tail, and the class tokens already there. */
  ghost predicate Keeps(a: Local, b: Local)
  {
    && (forall k :: k != "class" && k != "style" ==> Get(b.attrib, k) == Get(a.attrib, k))
    && b.text == a.text && b.tail == a.tail
    && Classes(a.attrib) <= Classes(b.attrib)
  }

  lemma KeepsRefl(a: Local)
    ensures Keeps(a, a)
  {
  }

  lemma KeepsTrans(a: Local, b: Local, c: Local)
    requires Keeps(a, b) && Keeps(b, c)
    ensures Keeps(a, c)
  {
  }

  /** A classified element has no `style` any more; its class tokens are
      the old ones and those of its style, and nothing else changes.  It
      fails exactly when its style cannot be classified. */
  lemma ClassifyLocalSpec(styles: StyleMap.Styles, l: Local)
    ensures ClassifyLocal(styles, l).Err? <==> StyleMap.ClassNames(styles, GetOr(l.attrib, "style", "")).Err?
    ensures ClassifyLocal(styles, l).Ok? ==>
              var r := ClassifyLocal(styles, l).value;
              && Keeps(l, r)
              && "style" !in Names(r.attrib)
              && Classes(r.attrib) == Classes(l.attrib) + TokenSet(StyleMap.Joined(StyleMap.ClassNames(styles, GetOr(l.attrib, "style", ""))).value)
  {
    var a := Pop(l.attrib, "style");
    var classes := StyleMap.Joined(StyleMap.ClassNames(styles, GetOr(l.attrib, "style", "")));
    if classes.Ok? {
      var r := Local(SetNone(a, "class", classes.value), l.text, l.tail);
      assert ClassifyLocal(styles, l) == Ok(r);
      assert Get(a, "class") == Get(l.attrib, "class");
      assert Classes(r.attrib) == Classes(a) + TokenSet(classes.value);
    }
  }

  /** A text element is classified like a path and gets the `text` class. */
  lemma TextLocalSpec(styles: StyleMap.Styles, l: Local)
    ensures TextLocal(styles, l).Err? <==> StyleMap.ClassNames(styles, GetOr(l.attrib, "style", "")).Err?
    ensures TextLocal(styles, l).Ok? ==>
              var r := TextLocal(styles, l).value;
              && Keeps(l, r)
              && "style" !in Names(r.attrib)
              && Classes(r.attrib) == Classes(l.attrib) + TokenSet(StyleMap.Joined(StyleMap.ClassNames(styles, GetOr(l.attrib, "style", ""))).value) + {"text"}
  {
    ClassifyLocalSpec(styles, l);
    TextToken();
    if ClassifyLocal(styles, l).Ok? {
      var c := ClassifyLocal(styles, l).value;
      var r := Local(SetNone(c.attrib, "class", "text"), c.text, c.tail);
      assert TextLocal(styles, l) == Ok(r);
      assert "style" !in Names(r.attrib) by {
        assert Get(r.attrib, "style") == Get(c.attrib, "style") == None;
      }
      assert Classes(r.attrib) == Classes(c.attrib) + {"text"};
      assert Keeps(c, r);
      KeepsTrans(l, c, r);
    }
  }

  /** The class string `text` is the single token `text`. */
  lemma TextToken()
    ensures TokenSet("text") == {"text"}
  {
    SplitWord("text", ' ');
  }

  /** The glyph loop adds `text` to the classes of an element whose id
      starts with `DejaVuSans`, and changes nothing else. */
  lemma GlyphLocalSpec(l: Local)
    ensures Keeps(l, GlyphLocal(l))
    ensures Get(GlyphLocal(l).attrib, "style") == Get(l.attrib, "style")
    ensures Classes(GlyphLocal(l).attrib) ==
              if StartsWith(GetOr(l.attrib, "id", ""), "DejaVuSans") then Classes(l.attrib) + {"text"} else Classes(l.attrib)
  {
    if StartsWith(GetOr(l.attrib, "id", ""), "DejaVuSans") {
      TextToken();
      MergeClassKeeps(l, "text");
    } else {
      KeepsRefl(l);
    }
  }

  /** Merging tokens into `class` keeps the element in the sense of `Keeps`. */
  lemma MergeClassKeeps(l: Local, v: string)
    ensures var a := SetNone(l.attrib, "class", v);
            && Keeps(l, Local(a, l.text, l.tail))
            && Classes(a) == Classes(l.attrib) + TokenSet(v)
  {
  }

  /** With the base tables every successful classification yields the
      classes `butt` and `rounded` of the global defaults. */
  lemma BaseClassTokens(style: string)
    ensures StyleMap.ClassNames(StyleMap.Base, style).Ok? ==>
              {"butt", "rounded"} <= TokenSet(StyleMap.Joined(StyleMap.ClassNames(StyleMap.Base, style)).value)
  {
    StyleMap.BaseClassNames(style);
    if StyleMap.ClassNames(StyleMap.Base, style).Ok? {
      BaseTokens(StyleMap.ClassNames(StyleMap.Base, style).value);
    }
  }

  /** A class list that starts with `butt rounded` has those two tokens. */
  lemma BaseTokens(cs: seq<string>)
    requires |cs| >= 2 && cs[0] == "butt" && cs[1] == "rounded"
    ensures {"butt", "rounded"} <= TokenSet(Join(cs, ' '))
  {
    if |cs| == 2 {
      assert Join(cs, ' ') == "butt" + [' '] + "rounded";
      TokenCons("butt", "rounded");
      SplitWord("rounded", ' ');
    } else {
      var rest := Join(cs[2..], ' ');
      assert Join(cs, ' ') == "butt" + [' '] + ("rounded" + [' '] + rest);
      TokenCons("butt", "rounded" + [' '] + rest);
      TokenCons("rounded", rest);
    }
  }

  /** A word in front of a space is a token, and so is every token after it. */
  lemma TokenCons(w: string, t: string)
    requires w != "" && ' ' !in w
    ensures TokenSet(w + [' '] + t) == {w} + TokenSet(t)
  {
    SplitCons(w, t, ' ');
    ElemsConcat([w], Split(t, ' '));
  }

}
