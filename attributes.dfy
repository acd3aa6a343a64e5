/** An element's attribute dictionary, as ElementTree keeps it: names in
    insertion order, each at most once, with `get`, `set` and `pop`; and
    `SVG.set_none`, which merges space-separated class tokens into one
    attribute (svgplot.py:264-270). */
module Attributes {
  import opened Wrappers
  import opened Strings
  import opened Ordering

  predicate UniqueNames(a: seq<(string, string)>)
  {
    forall i, j :: 0 <= i < j < |a| ==> a[i].0 != a[j].0
  }

  /** (name, value) pairs in insertion order; a name occurs at most once. */
  type Attrs = a: seq<(string, string)> | UniqueNames(a)

  function Names(a: seq<(string, string)>): (r: seq<string>)
    ensures |r| == |a|
    ensures forall i :: 0 <= i < |a| ==> r[i] == a[i].0
  {
    seq(|a|, i requires 0 <= i < |a| => a[i].0)
  }

  function IndexFrom(a: Attrs, k: string, from: nat): (r: Option<nat>)
    requires from <= |a|
    ensures r.Some? ==> from <= r.value < |a| && a[r.value].0 == k
    ensures r.None? ==> forall i :: from <= i < |a| ==> a[i].0 != k
    decreases |a| - from
  {
    if from == |a| then None
    else if a[from].0 == k then Some(from)
    else IndexFrom(a, k, from + 1)
  }

  /** Where `k` sits in `a`, if it is there at all. */
  function IndexOf(a: Attrs, k: string): (r: Option<nat>)
    ensures r.None? <==> k !in Names(a)
    ensures forall i :: 0 <= i < |a| && a[i].0 == k ==> r == Some(i)
  {
    var r := IndexFrom(a, k, 0);
    assert r.None? ==> k !in Names(a);
    r
  }

  /** `el.get(k)`. */
  function Get(a: Attrs, k: string): (r: Option<string>)
    ensures r.Some? <==> k in Names(a)
    ensures forall i :: 0 <= i < |a| && a[i].0 == k ==> r == Some(a[i].1)
  {
    match IndexOf(a, k)
    case Some(i) => Some(a[i].1)
    case None => None
  }

  /** `el.get(k, default)`. */
  function GetOr(a: Attrs, k: string, default: string): string
  {
    match Get(a, k)
    case Some(v) => v
    case None => default
  }

  /** `el.set(k, v)`: overwrites in place, or appends a new name at the end. */
  function Set(a: Attrs, k: string, v: string): (r: Attrs)
    ensures Names(r) == if k in Names(a) then Names(a) else Names(a) + [k]
    ensures forall j :: Get(r, j) == if j == k then Some(v) else Get(a, j)
  {
    match IndexOf(a, k)
    case Some(i) =>
      var r := a[i := (k, v)];
      assert Names(r) == Names(a);
      r
    case None =>
      var r := a + [(k, v)];
      assert Names(r) == Names(a) + [k];
      assert forall j :: j != k ==> Get(r, j) == Get(a, j) by {
        forall j | j != k ensures Get(r, j) == Get(a, j) {
          if j in Names(a) {
            var m :| 0 <= m < |a| && a[m].0 == j;
            assert r[m] == a[m];
          }
        }
      }
      r
  }

  /** `el.attrib.pop(k, None)`: removes `k`, keeping the others in order. */
  function Pop(a: Attrs, k: string): (r: Attrs)
    ensures k !in Names(a) ==> r == a
    ensures k in Names(a) ==> exists i :: 0 <= i < |a| && a[i].0 == k && Names(r) == Names(a)[..i] + Names(a)[i + 1..]
    ensures forall j :: Get(r, j) == if j == k then None else Get(a, j)
  {
    match IndexOf(a, k)
    case Some(i) =>
      RemoveAt(a, i);
      a[..i] + a[i + 1..]
    case None => a
  }

  lemma RemoveAt(a: Attrs, i: nat)
    requires i < |a|
    ensures UniqueNames(a[..i] + a[i + 1..])
    ensures Names(a[..i] + a[i + 1..]) == Names(a)[..i] + Names(a)[i + 1..]
    ensures forall j :: Get(a[..i] + a[i + 1..], j) == if j == a[i].0 then None else Get(a, j)
  {
    var r := a[..i] + a[i + 1..];
    assert forall m :: 0 <= m < |r| ==> r[m] == if m < i then a[m] else a[m + 1];
    forall m | 0 <= m < |a| && m != i ensures a[m].0 in Names(r) {
      if m < i { assert Names(r)[m] == a[m].0; } else { assert Names(r)[m - 1] == a[m].0; }
    }
    forall j ensures Get(r, j) == if j == a[i].0 then None else Get(a, j) {
      if j in Names(r) {
        var m :| 0 <= m < |r| && r[m].0 == j;
        assert Get(r, j) == Some(r[m].1);
      }
    }
  }

  /** Setting the value a name already has changes nothing. */
  lemma {:induction false} SetTwice(a: Attrs, k: string, v: string)
    ensures Set(Set(a, k, v), k, v) == Set(a, k, v)
  {
    var r := Set(a, k, v);
    var i :| 0 <= i < |r| && r[i].0 == k;
    assert IndexOf(r, k) == Some(i);
    assert Get(r, k) == Some(v);
    assert r[i] == (k, v);
  }

  /** The non-empty space-separated tokens of an attribute value. */
  function TokenSet(s: string): set<string>
  {
    Elems(Split(s, ' ')) - {""}
  }

  /** An attribute value as `set_none` writes it: non-empty tokens, sorted
      and without duplicates, joined by single spaces. */
  ghost predicate Canonical(v: string)
  {
    var ts := Split(v, ' ');
    StrictlySorted(ts) && "" !in ts
  }

  lemma ElemsConcat(xs: seq<string>, ys: seq<string>)
    ensures Elems(xs + ys) == Elems(xs) + Elems(ys)
  {
    assert forall y :: y in xs + ys <==> y in xs || y in ys;
  }

  /** The tokens `set_none` writes: `sorted(set(old + new))` without the
      empty string. */
  function MergedTokens(current: string, value: string): (r: seq<string>)
    ensures StrictlySorted(r)
    ensures Elems(r) == TokenSet(current) + TokenSet(value)
    ensures forall i :: 0 <= i < |r| ==> r[i] != "" && ' ' !in r[i]
  {
    var parts := Split(current, ' ') + Split(value, ' ');
    ElemsConcat(Split(current, ' '), Split(value, ' '));
    var r := DropEmpty(SortUnique(parts));
    forall i | 0 <= i < |r| ensures r[i] != "" && ' ' !in r[i] {
      assert r[i] in Elems(r);
      assert r[i] in parts;
    }
    r
  }

  /** Joining the merged tokens and splitting again gives them back. */
  lemma JoinedTokens(ts: seq<string>)
    requires StrictlySorted(ts)
    requires forall i :: 0 <= i < |ts| ==> ts[i] != "" && ' ' !in ts[i]
    ensures Join(ts, ' ') == "" <==> |ts| == 0
    ensures |ts| > 0 ==> Split(Join(ts, ' '), ' ') == ts && Canonical(Join(ts, ' '))
    ensures TokenSet(Join(ts, ' ')) == Elems(ts)
  {
    if |ts| > 0 {
      SplitJoin(ts, ' ');
      assert |Join(ts, ' ')| >= |ts[0]| by {
        if |ts| > 1 { assert Join(ts, ' ') == ts[0] + [' '] + Join(ts[1..], ' '); }
      }
      assert "" !in ts;
    }
  }

  /** `SVG.set_none(el, name, value)`: the attribute becomes the sorted,
      duplicate-free, space-joined set of the non-empty tokens of its old
      value and of `value`; it is left alone when that set is empty, and no
      other attribute changes. */
  function SetNone(a: Attrs, name: string, value: string): (r: Attrs)
    ensures TokenSet(GetOr(r, name, "")) == TokenSet(GetOr(a, name, "")) + TokenSet(value)
    ensures TokenSet(GetOr(a, name, "")) + TokenSet(value) == {} ==> r == a
    ensures TokenSet(GetOr(a, name, "")) + TokenSet(value) != {} ==>
              Get(r, name).Some? && Canonical(Get(r, name).value)
    ensures forall k :: k != name ==> Get(r, k) == Get(a, k)
    ensures Names(r) == if r == a || name in Names(a) then Names(a) else Names(a) + [name]
  {
    var merged := MergedTokens(GetOr(a, name, ""), value);
    var newValue := Join(merged, ' ');
    JoinedTokens(merged);
    ElemsHead(merged);
    if newValue != "" then Set(a, name, newValue) else a
  }

  /** Merging the same tokens a second time changes nothing. */
  lemma {:induction false} SetNoneIdempotent(a: Attrs, name: string, value: string)
    ensures SetNone(SetNone(a, name, value), name, value) == SetNone(a, name, value)
  {
    var merged := MergedTokens(GetOr(a, name, ""), value);
    var newValue := Join(merged, ' ');
    JoinedTokens(merged);
    if newValue != "" {
      var r := Set(a, name, newValue);
      assert GetOr(r, name, "") == newValue;
      var merged2 := MergedTokens(newValue, value);
      assert Elems(merged2) == Elems(merged);
      SortedUnique(merged2, merged);
      SetTwice(a, name, newValue);
    }
  }
}
