/**
 * A flat row is a Python `dict` from string keys to scalar values. It is
 * modelled as the sequence of its items in insertion order, with the three
 * dict operations the converter uses: `d[k] = v`, the display `{k: v, ...}`
 * (and the comprehension) and the merge `a | b`.
 */
module Rows {
  import opened Wrappers
  import opened Messages
  import Strings

  /** A cell value. Floats are copied, never computed with, so `real` stands for them. */
  datatype Value =
    | BoolValue(b: bool)
    | FloatValue(x: real)
    | TextValue(s: string)
    | TimeValue(t: Time)
    | IntValue(n: int)

  type Row = seq<(string, Value)>

  function Keys(r: Row): (ks: seq<string>)
    ensures |ks| == |r|
    ensures forall i :: 0 <= i < |r| ==> ks[i] == r[i].0
  {
    seq(|r|, i requires 0 <= i < |r| => r[i].0)
  }

  predicate Distinct(ks: seq<string>) {
    forall i, j :: 0 <= i < j < |ks| ==> ks[i] != ks[j]
  }

  /** `d.get(k)` */
  function Get(r: Row, k: string): (v: Option<Value>)
    ensures v.Some? <==> k in Keys(r)
  {
    if |r| == 0 then None
    else if r[0].0 == k then Some(r[0].1)
    else Get(r[1..], k)
  }

  lemma KeysAppend(a: Row, b: Row)
    ensures Keys(a + b) == Keys(a) + Keys(b)
  {
  }

  /** In a row with distinct keys, each key looks up its own value. */
  lemma {:induction false} GetDistinct(r: Row, i: nat)
    requires i < |r| && Distinct(Keys(r))
    ensures Get(r, r[i].0) == Some(r[i].1)
    decreases i
  {
    if i > 0 {
      DistinctTail(r);
      assert Keys(r)[0] != Keys(r)[i];
      assert r[1..][i - 1] == r[i];
      GetDistinct(r[1..], i - 1);
    }
  }

  /**
   * `d[k] = v` on a copy: an existing key keeps its position and takes the
   * new value, a new key is appended.
   */
  function Insert(r: Row, k: string, v: Value): (s: Row)
    ensures Keys(s) == if k in Keys(r) then Keys(r) else Keys(r) + [k]
  {
    if |r| == 0 then [(k, v)]
    else if r[0].0 == k then [(k, v)] + r[1..]
    else [r[0]] + Insert(r[1..], k, v)
  }

  /** After `d[k] = v`, `k` holds `v` and every other key holds what it held before. */
  lemma {:induction false} InsertGet(r: Row, k: string, v: Value, j: string)
    ensures Get(Insert(r, k, v), j) == if j == k then Some(v) else Get(r, j)
    decreases |r|
  {
    if |r| > 0 && r[0].0 != k {
      var s := Insert(r, k, v);
      assert s[0] == r[0] && s[1..] == Insert(r[1..], k, v);
      InsertGet(r[1..], k, v, j);
    }
  }

  /** `a | b`: a copy of `a` updated with the items of `b` in order. */
  function Union(a: Row, b: Row): (r: Row)
    ensures |a| <= |r| <= |a| + |b|
    decreases |b|
  {
    if |b| == 0 then a
    else Union(Insert(a, b[0].0, b[0].1), b[1..])
  }

  /** The keys of `a | b` are those of `a` and those of `b`. */
  lemma {:induction false} UnionKeys(a: Row, b: Row)
    ensures forall k :: k in Keys(Union(a, b)) <==> k in Keys(a) || k in Keys(b)
    decreases |b|
  {
    if |b| > 0 {
      KeysCons(b);
      UnionKeys(Insert(a, b[0].0, b[0].1), b[1..]);
    }
  }

  /** `a | b` keeps the keys of a dict distinct. */
  lemma {:induction false} UnionDistinct(a: Row, b: Row)
    requires Distinct(Keys(a))
    ensures Distinct(Keys(Union(a, b)))
    decreases |b|
  {
    if |b| > 0 {
      InsertDistinct(a, b[0].0, b[0].1);
      UnionDistinct(Insert(a, b[0].0, b[0].1), b[1..]);
    }
  }

  /** In `a | b` a key of `b` takes `b`'s value; every other key keeps `a`'s. */
  lemma {:induction false} UnionGet(a: Row, b: Row, k: string)
    requires Distinct(Keys(b))
    ensures Get(Union(a, b), k) == if k in Keys(b) then Get(b, k) else Get(a, k)
    decreases |b|
  {
    if |b| > 0 {
      var k0, v0, b' := b[0].0, b[0].1, b[1..];
      KeysCons(b);
      DistinctTail(b);
      InsertGet(a, k0, v0, k);
      UnionGet(Insert(a, k0, v0), b', k);
    }
  }

  lemma KeysCons(r: Row)
    requires |r| > 0
    ensures Keys(r) == [r[0].0] + Keys(r[1..])
  {
  }

  lemma InsertDistinct(r: Row, k: string, v: Value)
    requires Distinct(Keys(r))
    ensures Distinct(Keys(Insert(r, k, v)))
  {
    if k !in Keys(r) {
      var ks := Keys(r) + [k];
      forall i, j | 0 <= i < j < |ks| ensures ks[i] != ks[j] {
        if j == |ks| - 1 {
          assert ks[i] in Keys(r);
        }
      }
    }
  }

  lemma DistinctTail(r: Row)
    requires |r| > 0 && Distinct(Keys(r))
    ensures Distinct(Keys(r[1..])) && r[0].0 !in Keys(r[1..])
  {
    var ks, ts := Keys(r), Keys(r[1..]);
    forall i, j | 0 <= i < j < |ts| ensures ts[i] != ts[j] {
      assert ks[i + 1] != ks[j + 1];
    }
    forall i | 0 <= i < |ts| ensures ts[i] != r[0].0 {
      assert ks[0] != ks[i + 1];
    }
  }

  /**
   * A merge whose two sides have, together, distinct keys overwrites nothing:
   * `a | b` is `a` followed by `b`.
   */
  lemma {:induction false} UnionConcat(a: Row, b: Row)
    requires Distinct(Keys(a) + Keys(b))
    ensures Union(a, b) == a + b
    ensures Keys(a + b) == Keys(a) + Keys(b)
    decreases |b|
  {
    KeysAppend(a, b);
    if |b| > 0 {
      var k0, b' := b[0].0, b[1..];
      var a' := a + [b[0]];
      assert Keys(a') + Keys(b') == Keys(a) + Keys(b) by {
        KeysCons(b);
        KeysAppend(a, [b[0]]);
        assert Keys([b[0]]) == [k0];
        AppendAssoc(Keys(a), [k0], Keys(b'));
      }
      assert Insert(a, k0, b[0].1) == a' by {
        DistinctSplit(Keys(a), Keys(b));
        assert k0 == Keys(b)[0];
        InsertFresh(a, k0, b[0].1);
      }
      assert Union(a, b) == Union(a', b');
      UnionConcat(a', b');
      assert [b[0]] + b' == b;
      AppendAssoc(a, [b[0]], b');
    }
  }

  lemma AppendAssoc<T>(x: seq<T>, y: seq<T>, z: seq<T>)
    ensures (x + y) + z == x + (y + z)
  {
  }

  lemma DistinctSplit(xs: seq<string>, ys: seq<string>)
    requires Distinct(xs + ys)
    ensures forall y :: y in ys ==> y !in xs
  {
    var ks := xs + ys;
    forall y | y in ys ensures y !in xs {
      var j :| 0 <= j < |ys| && ys[j] == y;
      forall i | 0 <= i < |xs| ensures xs[i] != y {
        assert ks[i] != ks[|xs| + j];
      }
    }
  }

  lemma {:induction false} InsertFresh(r: Row, k: string, v: Value)
    requires k !in Keys(r)
    ensures Insert(r, k, v) == r + [(k, v)]
    decreases |r|
  {
    if |r| > 0 {
      KeysCons(r);
      assert k != r[0].0 && k !in Keys(r[1..]);
      InsertFresh(r[1..], k, v);
      assert [r[0]] + r[1..] == r;
      AppendAssoc([r[0]], r[1..], [(k, v)]);
    } else {
      assert r + [(k, v)] == [(k, v)];
    }
  }

  /**
   * The dict display `{k0: v0, k1: v1, ...}` and the comprehension: the items
   * are inserted left to right, so a repeated key keeps its first position and
   * its last value. With distinct keys the dict is exactly the item list.
   */
  function FromPairs(items: seq<(string, Value)>): (r: Row)
    ensures Distinct(Keys(r))
    ensures Distinct(Keys(items)) ==> r == items
  {
    assert Keys([]) + Keys(items) == Keys(items);
    UnionDistinct([], items);
    if Distinct(Keys(items)) then UnionConcat([], items); assert [] + items == items; Union([], items)
    else Union([], items)
  }

  /** The items `(p + fields[i], values[i])` of a dict display whose keys share the prefix `p`. */
  function Columns(p: string, fields: seq<string>, values: seq<Value>): (r: Row)
    requires |fields| == |values|
    ensures |r| == |fields|
    ensures forall i :: 0 <= i < |fields| ==> r[i] == (p + fields[i], values[i])
  {
    seq(|fields|, i requires 0 <= i < |fields| => (p + fields[i], values[i]))
  }

  /**
   * A display of distinct fields under one prefix is exactly its item list:
   * its keys are the prefixed fields, distinct, each holding its own value.
   */
  lemma ColumnsDisplay(p: string, fields: seq<string>, values: seq<Value>)
    requires |fields| == |values| && Distinct(fields)
    ensures var r := FromPairs(Columns(p, fields, values));
      && r == Columns(p, fields, values)
      && Keys(r) == Prefixed(p, fields)
      && Distinct(Keys(r))
      && forall i :: 0 <= i < |fields| ==> Get(r, p + fields[i]) == Some(values[i])
  {
    var c := Columns(p, fields, values);
    assert Keys(c) == Prefixed(p, fields);
    PrefixedDistinct(p, fields);
    forall i | 0 <= i < |fields| ensures Get(c, p + fields[i]) == Some(values[i]) {
      GetDistinct(c, i);
    }
  }

  /** `p + s` for each `s` of `ss`, in order. */
  function Prefixed(p: string, ss: seq<string>): (ks: seq<string>)
    ensures |ks| == |ss|
    ensures forall i :: 0 <= i < |ss| ==> ks[i] == p + ss[i]
  {
    seq(|ss|, i requires 0 <= i < |ss| => p + ss[i])
  }

  lemma PrefixedDistinct(p: string, ss: seq<string>)
    requires Distinct(ss)
    ensures Distinct(Prefixed(p, ss))
  {
    forall i, j | 0 <= i < j < |ss| ensures Prefixed(p, ss)[i] != Prefixed(p, ss)[j] {
      Strings.PrefixCancel(p, ss[i], ss[j]);
    }
  }

  lemma PrefixedTwice(p: string, q: string, ss: seq<string>)
    ensures Prefixed(p, Prefixed(q, ss)) == Prefixed(p + q, ss)
  {
    forall i | 0 <= i < |ss| ensures Prefixed(p, Prefixed(q, ss))[i] == Prefixed(p + q, ss)[i] {
      assert p + (q + ss[i]) == (p + q) + ss[i];
    }
  }

  lemma PrefixedAppend(p: string, a: seq<string>, b: seq<string>)
    ensures Prefixed(p, a + b) == Prefixed(p, a) + Prefixed(p, b)
  {
  }

}
