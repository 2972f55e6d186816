/**
 * Threshold-table construction (`get_temp_values` in argonone.py).
 *
 * The configured `fan_speed` mapping is given as its items after the integer
 * conversion of keys and values, in document order. Two distinct configured
 * keys may convert to the same integer, so the items may repeat a temperature.
 * The source sorts the pairs in descending tuple order and then builds a
 * Python dict from them; a dict keeps the position of a key's first insertion
 * and the value of its last one.
 */
module Thresholds {

  /** One (temperature, speed) pair: a configured item or a table entry. */
  datatype Threshold = Threshold(temp: int, speed: int)

  /** Python's tuple comparison `a >= b` on (temp, speed). */
  predicate AtLeast(a: Threshold, b: Threshold) {
    a.temp > b.temp || (a.temp == b.temp && a.speed >= b.speed)
  }

  /** The order `sorted(..., reverse=True)` produces. */
  predicate SortedDescending(s: seq<Threshold>) {
    forall i, j :: 0 <= i < j < |s| ==> AtLeast(s[i], s[j])
  }

  /** The shape of a finished table: temperatures distinct and strictly descending. */
  predicate StrictlyDescending(d: seq<Threshold>) {
    forall i, j :: 0 <= i < j < |d| ==> d[i].temp > d[j].temp
  }

  /** The set of temperatures occurring in a sequence of pairs. */
  function Temps(s: seq<Threshold>): set<int> {
    set t | t in s :: t.temp
  }

  function Insert(x: Threshold, s: seq<Threshold>): (r: seq<Threshold>)
    requires SortedDescending(s)
    ensures SortedDescending(r)
    ensures multiset(r) == multiset(s) + multiset{x}
  {
    if s == [] || AtLeast(x, s[0]) then [x] + s
    else
      var rest := Insert(x, s[1..]);
      assert s == [s[0]] + s[1..];
      Dominates(s[0], x, s[1..], rest);
      [s[0]] + rest
  }

  /** A pair at least every element of tail and at least x is at least every element of a permutation of tail plus x. */
  lemma Dominates(h: Threshold, x: Threshold, tail: seq<Threshold>, r: seq<Threshold>)
    requires AtLeast(h, x)
    requires forall k :: 0 <= k < |tail| ==> AtLeast(h, tail[k])
    requires multiset(r) == multiset(tail) + multiset{x}
    ensures forall k :: 0 <= k < |r| ==> AtLeast(h, r[k])
  {
    forall k | 0 <= k < |r| ensures AtLeast(h, r[k]) {
      assert r[k] in multiset(r);
      if r[k] != x {
        assert r[k] in multiset(tail);
        var j :| 0 <= j < |tail| && tail[j] == r[k];
      }
    }
  }

  /**
   * `sorted(items, reverse=True)`. The tuple order is total and equal tuples
   * are indistinguishable, so any correct sort yields this same sequence.
   */
  function SortDescending(s: seq<Threshold>): (r: seq<Threshold>)
    ensures SortedDescending(r)
    ensures multiset(r) == multiset(s)
  {
    if s == [] then []
    else
      assert s == [s[0]] + s[1..];
      Insert(s[0], SortDescending(s[1..]))
  }

  /** `d[t.temp] = t.speed` on an insertion-ordered dict held as its items. */
  function Put(d: seq<Threshold>, t: Threshold): seq<Threshold> {
    if d == [] then [t]
    else if d[0].temp == t.temp then [t] + d[1..]
    else [d[0]] + Put(d[1..], t)
  }

  /** `dict(pairs)`: the pairs inserted one after the other. */
  function DictFrom(ps: seq<Threshold>): seq<Threshold> {
    if ps == [] then []
    else Put(DictFrom(ps[..|ps| - 1]), ps[|ps| - 1])
  }

  /**
   * One table of `get_temp_values`. Its temperatures are exactly the
   * configured ones, distinct and strictly descending, and each keeps a
   * configured speed for it: the smallest, because that pair comes last in
   * descending tuple order and the dict keeps the last value.
   */
  function BuildTable(items: seq<Threshold>): (r: seq<Threshold>)
    ensures StrictlyDescending(r)
    ensures Temps(r) == Temps(items)
    ensures forall i :: 0 <= i < |r| ==> r[i] in items
    ensures forall i, e :: 0 <= i < |r| && e in items && e.temp == r[i].temp ==> r[i].speed <= e.speed
  {
    var sorted := SortDescending(items);
    DictFromSorted(sorted);
    assert forall x :: x in sorted <==> x in multiset(sorted);
    assert forall x :: x in items <==> x in multiset(items);
    assert Temps(sorted) == Temps(items);
    DictFrom(sorted)
  }

  /** Putting a key no larger than the smallest one replaces or appends at the end. */
  lemma {:induction false} PutAtEnd(d: seq<Threshold>, t: Threshold)
    requires StrictlyDescending(d) && d != []
    requires d[|d| - 1].temp >= t.temp
    ensures Put(d, t) == if d[|d| - 1].temp == t.temp then d[..|d| - 1] + [t] else d + [t]
  {
    if |d| == 1 {
    } else {
      assert d[0].temp > d[|d| - 1].temp;
      var tail := d[1..];
      assert StrictlyDescending(tail);
      PutAtEnd(tail, t);
      assert tail[|tail| - 1] == d[|d| - 1];
      assert [d[0]] + tail[..|tail| - 1] == d[..|d| - 1];
      assert [d[0]] + tail == d;
    }
  }

  lemma TempsAppend(s: seq<Threshold>, x: Threshold)
    ensures Temps(s + [x]) == Temps(s) + {x.temp}
  {
    assert forall t :: t in s + [x] <==> t in s || t == x;
  }

  /**
   * The facts `dict` establishes for sorted pairs `ps` and the table `d` it
   * builds from them.
   */
  predicate Summarises(ps: seq<Threshold>, d: seq<Threshold>) {
    && StrictlyDescending(d)
    && (ps != [] ==> d != [] && d[|d| - 1].temp == ps[|ps| - 1].temp)
    && Temps(d) == Temps(ps)
    && (forall i :: 0 <= i < |d| ==> d[i] in ps)
    && (forall i, j :: 0 <= i < |d| && 0 <= j < |ps| && ps[j].temp == d[i].temp ==> d[i].speed <= ps[j].speed)
  }

  lemma {:induction false} DictFromSorted(ps: seq<Threshold>)
    requires SortedDescending(ps)
    ensures Summarises(ps, DictFrom(ps))
  {
    if ps == [] {
    } else {
      var n := |ps| - 1;
      var pre, x := ps[..n], ps[n];
      assert ps == pre + [x];
      assert SortedDescending(pre);
      DictFromSorted(pre);
      var d' := DictFrom(pre);
      assert DictFrom(ps) == Put(d', x);
      if pre == [] {
        assert Put(d', x) == [x];
        TempsAppend([], x);
        assert [] + [x] == ps;
      } else {
        var m := |d'| - 1;
        assert AtLeast(ps[n - 1], x);
        PutAtEnd(d', x);
        if d'[m].temp == x.temp {
          ReplaceLast(pre, x, d');
        } else {
          AppendLast(pre, x, d');
        }
      }
    }
  }

  lemma ReplaceLast(pre: seq<Threshold>, x: Threshold, d': seq<Threshold>)
    requires SortedDescending(pre + [x]) && pre != []
    requires Summarises(pre, d')
    requires d'[|d'| - 1].temp == x.temp
    ensures Summarises(pre + [x], d'[..|d'| - 1] + [x])
  {
    var ps, n, m := pre + [x], |pre|, |d'| - 1;
    var d := d'[..m] + [x];
    assert d' == d'[..m] + [d'[m]];
    TempsAppend(d'[..m], x);
    TempsAppend(d'[..m], d'[m]);
    TempsAppend(pre, x);
    assert x.temp in Temps(pre);
    forall i, j | 0 <= i < |d| && 0 <= j < |ps| && ps[j].temp == d[i].temp
      ensures d[i].speed <= ps[j].speed
    {
      if i == m {
        if j < n { assert AtLeast(ps[j], ps[n]); }
      } else {
        assert d[i] == d'[i];
        assert d'[i].temp > d'[m].temp;
        assert pre[j] == ps[j];
      }
    }
    forall i | 0 <= i < |d| ensures d[i] in ps {
      if i < m { assert d[i] == d'[i]; assert d'[i] in pre; }
    }
  }

  lemma AppendLast(pre: seq<Threshold>, x: Threshold, d': seq<Threshold>)
    requires SortedDescending(pre + [x]) && pre != []
    requires Summarises(pre, d')
    requires d'[|d'| - 1].temp > x.temp
    ensures Summarises(pre + [x], d' + [x])
  {
    var ps, n, m := pre + [x], |pre|, |d'| - 1;
    var d := d' + [x];
    TempsAppend(d', x);
    TempsAppend(pre, x);
    forall i, j | 0 <= i < |d| && 0 <= j < |ps| && ps[j].temp == d[i].temp
      ensures d[i].speed <= ps[j].speed
    {
      if i < m + 1 {
        assert d[i] == d'[i];
        assert d'[i].temp >= d'[m].temp;
        assert pre[j] == ps[j];
      }
    }
    forall i | 0 <= i < |d| ensures d[i] in ps {
      if i <= m { assert d[i] == d'[i]; assert d'[i] in pre; }
    }
  }
}
