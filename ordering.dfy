/** The order Python's `sorted` puts strings in (lexicographic by code point,
    a proper prefix first), and sorting a collection of strings into a
    duplicate-free sequence, as `sorted(set(tokens))` does. */
module Ordering {

  predicate Less(a: string, b: string)
  {
    if |a| == 0 then |b| > 0
    else if |b| == 0 then false
    else if a[0] == b[0] then Less(a[1..], b[1..])
    else a[0] < b[0]
  }

  lemma {:induction false} LessIrreflexive(a: string)
    ensures !Less(a, a)
  {
    if |a| > 0 {
      LessIrreflexive(a[1..]);
    }
  }

  lemma {:induction false} LessTransitive(a: string, b: string, c: string)
    requires Less(a, b) && Less(b, c)
    ensures Less(a, c)
  {
    if |a| > 0 && a[0] == b[0] && b[0] == c[0] {
      LessTransitive(a[1..], b[1..], c[1..]);
    }
  }

  lemma {:induction false} LessAsymmetric(a: string, b: string)
    requires Less(a, b)
    ensures !Less(b, a)
  {
    if |a| > 0 && a[0] == b[0] {
      LessAsymmetric(a[1..], b[1..]);
    }
  }

  lemma {:induction false} LessTotal(a: string, b: string)
    requires a != b
    ensures Less(a, b) || Less(b, a)
  {
    if |a| > 0 && |b| > 0 && a[0] == b[0] {
      assert a == [a[0]] + a[1..] && b == [b[0]] + b[1..];
      LessTotal(a[1..], b[1..]);
    }
  }

  /** The strings a sequence holds. */
  function Elems(xs: seq<string>): set<string>
  {
    set y | y in xs
  }

  lemma ElemsHead(xs: seq<string>)
    ensures |xs| > 0 ==> xs[0] in Elems(xs)
  {
  }

  /** Every element is smaller than every element after it: sorted and
      free of duplicates. */
  ghost predicate StrictlySorted(xs: seq<string>)
  {
    forall i, j :: 0 <= i < j < |xs| ==> Less(xs[i], xs[j])
  }

  /** `xs` with `x` put in its place, unless `x` is already there. */
  function InsertSorted(x: string, xs: seq<string>): (r: seq<string>)
    requires StrictlySorted(xs)
    ensures StrictlySorted(r)
    ensures Elems(r) == Elems(xs) + {x}
  {
    if |xs| == 0 then [x]
    else if x == xs[0] then xs
    else if Less(x, xs[0]) then
      assert forall j :: 0 < j < |xs| ==> Less(x, xs[j]) by {
        forall j | 0 < j < |xs| ensures Less(x, xs[j]) {
          LessTransitive(x, xs[0], xs[j]);
        }
      }
      [x] + xs
    else
      LessTotal(x, xs[0]);
      var rest := InsertSorted(x, xs[1..]);
      forall y | y in rest ensures Less(xs[0], y) {
        assert y in Elems(rest);
      }
      assert Elems([xs[0]] + rest) == {xs[0]} + Elems(rest);
      assert xs == [xs[0]] + xs[1..];
      [xs[0]] + rest
  }

  /** `sorted(set(ts))`. */
  function SortUnique(ts: seq<string>): (r: seq<string>)
    ensures StrictlySorted(r)
    ensures Elems(r) == Elems(ts)
  {
    if |ts| == 0 then []
    else
      assert Elems(ts) == {ts[0]} + Elems(ts[1..]) by {
        assert ts == [ts[0]] + ts[1..];
      }
      InsertSorted(ts[0], SortUnique(ts[1..]))
  }

  /** `filter(None, xs)` on strings: drops the empty ones. */
  function DropEmpty(xs: seq<string>): (r: seq<string>)
    ensures Elems(r) == Elems(xs) - {""}
    ensures StrictlySorted(xs) ==> StrictlySorted(r)
  {
    if |xs| == 0 then []
    else
      assert xs == [xs[0]] + xs[1..];
      var rest := DropEmpty(xs[1..]);
      if xs[0] == "" then rest
      else
        forall y | y in rest && StrictlySorted(xs) ensures Less(xs[0], y) {
          assert y in Elems(rest);
        }
        assert Elems([xs[0]] + rest) == {xs[0]} + Elems(rest);
        [xs[0]] + rest
  }

  /** A duplicate-free sorted sequence is determined by its elements. */
  lemma {:induction false} SortedUnique(a: seq<string>, b: seq<string>)
    requires StrictlySorted(a) && StrictlySorted(b)
    requires Elems(a) == Elems(b)
    ensures a == b
  {
    if |a| == 0 || |b| == 0 {
      ElemsHead(a);
      ElemsHead(b);
    } else {
      assert a[0] in Elems(b);
      assert b[0] in Elems(a);
      var j :| 0 <= j < |b| && b[j] == a[0];
      var i :| 0 <= i < |a| && a[i] == b[0];
      if j > 0 {
        if i > 0 {
          LessAsymmetric(a[0], a[i]);
        } else {
          LessIrreflexive(b[0]);
        }
      }
      assert a[0] == b[0];
      assert forall y :: y in a[1..] ==> y != a[0] by {
        forall y | y in a[1..] ensures y != a[0] {
          LessIrreflexive(a[0]);
        }
      }
      assert forall y :: y in b[1..] ==> y != b[0] by {
        forall y | y in b[1..] ensures y != b[0] {
          LessIrreflexive(b[0]);
        }
      }
      assert a == [a[0]] + a[1..] && b == [b[0]] + b[1..];
      assert Elems(a[1..]) == Elems(a) - {a[0]};
      assert Elems(b[1..]) == Elems(b) - {b[0]};
      SortedUnique(a[1..], b[1..]);
    }
  }
}
