/**
  * Lists of (column, value) tuples, as `get_key` and `get_slice` return them: what it means for
  * such a list to be sorted, the column map it denotes, the unique sorted listing of a column
  * map, the inclusive slice filter with optional bounds, and Python's `sorted` by column.
  */
module ColumnList {
  import opened Wrappers
  import opened StringOrder

  /** A (column, value) tuple. */
  type Pair = (string, string)

  /** Strictly ascending by column, so every column occurs once. */
  ghost predicate Ascending(ps: seq<Pair>) {
    forall i, j :: 0 <= i < j < |ps| ==> Less(ps[i].0, ps[j].0)
  }

  /** Ascending by column, ties allowed: what `sorted(..., key=lambda tup: tup[0])` returns. */
  ghost predicate SortedByColumn(ps: seq<Pair>) {
    forall i, j :: 0 <= i < j < |ps| ==> AtMost(ps[i].0, ps[j].0)
  }

  /** No column occurs twice, as in the items of a dict. */
  ghost predicate DistinctColumns(ps: seq<Pair>) {
    forall i, j :: 0 <= i < j < |ps| ==> ps[i].0 != ps[j].0
  }

  /** The column map a list of pairs denotes; a later pair overrides an earlier one. */
  function AsMap(ps: seq<Pair>): map<string, string>
    decreases |ps|
  {
    if ps == [] then map[] else AsMap(ps[..|ps| - 1])[ps[|ps| - 1].0 := ps[|ps| - 1].1]
  }

  lemma {:induction false} AsMapAppend(a: seq<Pair>, b: seq<Pair>)
    ensures AsMap(a + b) == AsMap(a) + AsMap(b)
    decreases |b|
  {
    if b != [] {
      var b' := b[..|b| - 1];
      var last := b[|b| - 1];
      assert (a + b)[..|a + b| - 1] == a + b';
      assert (a + b)[|a + b| - 1] == last;
      AsMapAppend(a, b');
      assert AsMap(a + b) == (AsMap(a) + AsMap(b'))[last.0 := last.1];
      assert AsMap(b) == AsMap(b')[last.0 := last.1];
      assert (AsMap(a) + AsMap(b'))[last.0 := last.1] == AsMap(a) + AsMap(b')[last.0 := last.1];
    } else {
      assert a + b == a;
    }
  }

  lemma AsMapCons(p: Pair, ps: seq<Pair>)
    ensures AsMap([p] + ps) == map[p.0 := p.1] + AsMap(ps)
  {
    AsMapAppend([p], ps);
    assert [p][..0] == [];
  }

  /** Prepending a pair whose column is new adds that column to the map. */
  lemma AsMapConsFresh(p: Pair, ps: seq<Pair>)
    requires p.0 !in AsMap(ps)
    ensures AsMap([p] + ps) == AsMap(ps)[p.0 := p.1]
  {
    AsMapCons(p, ps);
  }

  /** Every column of a list is a key of its map, and every key is some pair's column. */
  lemma {:induction false} AsMapKeys(ps: seq<Pair>)
    ensures forall i :: 0 <= i < |ps| ==> ps[i].0 in AsMap(ps)
    ensures forall c :: c in AsMap(ps) ==> exists i :: 0 <= i < |ps| && ps[i].0 == c
    decreases |ps|
  {
    if ps != [] {
      var front := ps[..|ps| - 1];
      AsMapKeys(front);
      forall c | c in AsMap(ps)
        ensures exists i :: 0 <= i < |ps| && ps[i].0 == c
      {
        if c != ps[|ps| - 1].0 {
          var i :| 0 <= i < |front| && front[i].0 == c;
          assert ps[i].0 == c;
        }
      }
    }
  }

  /** Ascending lists have distinct columns. */
  lemma AscendingDistinct(ps: seq<Pair>)
    requires Ascending(ps)
    ensures DistinctColumns(ps)
  {
    forall i, j | 0 <= i < j < |ps|
      ensures ps[i].0 != ps[j].0
    {
      Irreflexive(ps[i].0);
    }
  }

  /** In a list without repeated columns, each pair's value is its column's value in the map. */
  lemma {:induction false} AsMapAt(ps: seq<Pair>, i: int)
    requires DistinctColumns(ps) && 0 <= i < |ps|
    ensures ps[i].0 in AsMap(ps) && AsMap(ps)[ps[i].0] == ps[i].1
    decreases |ps|
  {
    var n := |ps| - 1;
    if i < n {
      var init := ps[..n];
      assert forall a, b :: 0 <= a < b < |init| ==> init[a] == ps[a] && init[b] == ps[b];
      assert init[i] == ps[i];
      AsMapAt(init, i);
    }
  }

  /** A pair heads an ascending list exactly when the rest is ascending with larger columns. */
  lemma ConsAscending(p: Pair, ps: seq<Pair>)
    ensures Ascending([p] + ps) <==> Ascending(ps) && forall j :: 0 <= j < |ps| ==> Less(p.0, ps[j].0)
  {
    var r := [p] + ps;
    if Ascending(ps) && forall j :: 0 <= j < |ps| ==> Less(p.0, ps[j].0) {
      forall i, j | 0 <= i < j < |r|
        ensures Less(r[i].0, r[j].0)
      {
        if i > 0 {
          assert r[i] == ps[i - 1] && r[j] == ps[j - 1];
        } else {
          assert r[j] == ps[j - 1];
        }
      }
    }
    if Ascending(r) {
      forall i, j | 0 <= i < j < |ps|
        ensures Less(ps[i].0, ps[j].0)
      {
        assert r[i + 1] == ps[i] && r[j + 1] == ps[j];
      }
      forall j | 0 <= j < |ps|
        ensures Less(p.0, ps[j].0)
      {
        assert r[0] == p && r[j + 1] == ps[j];
        assert Less(r[0].0, r[j + 1].0);
      }
    }
  }

  /** Two ascending lists whose columns are all ordered across them concatenate to an ascending list. */
  lemma AscendingConcat(a: seq<Pair>, b: seq<Pair>)
    requires Ascending(a) && Ascending(b)
    requires forall i, j :: 0 <= i < |a| && 0 <= j < |b| ==> Less(a[i].0, b[j].0)
    ensures Ascending(a + b)
  {
    var r := a + b;
    forall i, j | 0 <= i < j < |r|
      ensures Less(r[i].0, r[j].0)
    {
      if j < |a| {
        assert r[i] == a[i] && r[j] == a[j];
      } else if i >= |a| {
        assert r[i] == b[i - |a|] && r[j] == b[j - |a|];
      } else {
        assert r[i] == a[i] && r[j] == b[j - |a|];
      }
    }
  }

  /** The head column of an ascending list does not occur in the rest of it. */
  lemma HeadFresh(ps: seq<Pair>)
    requires Ascending(ps) && ps != []
    ensures Ascending(ps[1..])
    ensures ps[0].0 !in AsMap(ps[1..])
  {
    assert ps == [ps[0]] + ps[1..];
    ConsAscending(ps[0], ps[1..]);
    AsMapKeys(ps[1..]);
    if ps[0].0 in AsMap(ps[1..]) {
      var j :| 0 <= j < |ps[1..]| && ps[1..][j].0 == ps[0].0;
      Irreflexive(ps[0].0);
      assert false;
    }
  }

  /** c is the least element of s. */
  ghost predicate IsLeast(c: string, s: set<string>) {
    c in s && forall d :: d in s && d != c ==> Less(c, d)
  }

  lemma {:induction false} LeastExists(s: set<string>)
    requires s != {}
    ensures exists c :: IsLeast(c, s)
    decreases |s|
  {
    var x :| x in s;
    if s == {x} {
      assert IsLeast(x, s);
    } else {
      var s' := s - {x};
      LeastExists(s');
      var m :| IsLeast(m, s');
      Trichotomy(x, m);
      if Less(x, m) {
        forall d | d in s && d != x
          ensures Less(x, d)
        {
          if d != m {
            Transitive(x, m, d);
          }
        }
        assert IsLeast(x, s);
      } else {
        assert IsLeast(m, s);
      }
    }
  }

  /** The least string of a non-empty finite set. */
  ghost function Least(s: set<string>): (c: string)
    requires s != {}
    ensures IsLeast(c, s)
  {
    LeastExists(s);
    var c :| IsLeast(c, s);
    c
  }

  /** The list of a column map's (column, value) tuples sorted by column. */
  ghost function Listing(m: map<string, string>): (r: seq<Pair>)
    ensures Ascending(r) && AsMap(r) == m
    decreases |m|
  {
    if m == map[] then []
    else
      var c := Least(m.Keys);
      var rest := m - {c};
      assert rest.Keys == m.Keys - {c};
      assert |rest| < |m| by {
        assert |rest.Keys| < |m.Keys|;
      }
      var tail := Listing(rest);
      ListingStep(c, m, tail);
      [(c, m[c])] + tail
  }

  lemma ListingStep(c: string, m: map<string, string>, tail: seq<Pair>)
    requires IsLeast(c, m.Keys)
    requires Ascending(tail) && AsMap(tail) == m - {c}
    ensures Ascending([(c, m[c])] + tail) && AsMap([(c, m[c])] + tail) == m
  {
    AsMapKeys(tail);
    forall j | 0 <= j < |tail|
      ensures Less(c, tail[j].0)
    {
      assert tail[j].0 in m - {c};
    }
    ConsAscending((c, m[c]), tail);
    AsMapConsFresh((c, m[c]), tail);
    assert (m - {c})[c := m[c]] == m;
  }

  /** A column map has exactly one ascending listing. */
  lemma {:induction false} ListingUnique(ps: seq<Pair>, m: map<string, string>)
    requires Ascending(ps) && AsMap(ps) == m
    ensures ps == Listing(m)
    decreases |ps|
  {
    if ps != [] {
      AscendingHead(ps);
      var c := Least(m.Keys);
      ListingUnique(ps[1..], m - {c});
      assert ps == [(c, m[c])] + ps[1..];
    } else {
      assert m == map[];
    }
  }

  /** The head of an ascending list is the least column of its map, and the tail lists the rest. */
  lemma AscendingHead(ps: seq<Pair>)
    requires Ascending(ps) && ps != []
    ensures var m := AsMap(ps);
      && m != map[] && ps[0] == (Least(m.Keys), m[Least(m.Keys)])
      && Ascending(ps[1..]) && AsMap(ps[1..]) == m - {Least(m.Keys)}
  {
    var m := AsMap(ps);
    assert ps == [ps[0]] + ps[1..];
    HeadFresh(ps);
    AsMapConsFresh(ps[0], ps[1..]);
    HeadIsLeast(ps);
    LeastUnique(ps[0].0, Least(m.Keys), m.Keys);
    RemoveUpdate(AsMap(ps[1..]), ps[0].0, ps[0].1);
  }

  lemma HeadIsLeast(ps: seq<Pair>)
    requires Ascending(ps) && ps != []
    ensures IsLeast(ps[0].0, AsMap(ps).Keys)
  {
    AsMapKeys(ps);
    forall d | d in AsMap(ps) && d != ps[0].0
      ensures Less(ps[0].0, d)
    {
      var i :| 0 <= i < |ps| && ps[i].0 == d;
    }
  }

  /** Removing a key just added to a map that lacked it gives the map back. */
  lemma RemoveUpdate(a: map<string, string>, k: string, v: string)
    requires k !in a
    ensures a[k := v] - {k} == a
  {
    assert (a[k := v] - {k}).Keys == a.Keys;
  }

  lemma LeastUnique(a: string, b: string, s: set<string>)
    requires IsLeast(a, s) && IsLeast(b, s)
    ensures a == b
  {
    if a != b {
      Asymmetric(a, b);
    }
  }

  /** `(start is None or col >= start) and (stop is None or col <= stop)`. */
  predicate InRange(c: string, start: Option<string>, stop: Option<string>) {
    && (start.None? || AtMost(start.value, c))
    && (stop.None? || AtMost(c, stop.value))
  }

  /** The part of a column map whose columns lie within the inclusive bounds. */
  function Restrict(m: map<string, string>, start: Option<string>, stop: Option<string>): map<string, string> {
    map c | c in m && InRange(c, start, stop) :: m[c]
  }

  /** The pairs of a list whose column lies within the inclusive bounds, in list order. */
  function Filter(ps: seq<Pair>, start: Option<string>, stop: Option<string>): seq<Pair>
    decreases |ps|
  {
    if ps == [] then []
    else (if InRange(ps[0].0, start, stop) then [ps[0]] else []) + Filter(ps[1..], start, stop)
  }

  lemma {:induction false} FilterAppend(a: seq<Pair>, b: seq<Pair>, start: Option<string>, stop: Option<string>)
    ensures Filter(a + b, start, stop) == Filter(a, start, stop) + Filter(b, start, stop)
    decreases |a|
  {
    if a != [] {
      assert (a + b)[1..] == a[1..] + b;
      assert (a + b)[0] == a[0];
      FilterAppend(a[1..], b, start, stop);
      var h := if InRange(a[0].0, start, stop) then [a[0]] else [];
      assert h + (Filter(a[1..], start, stop) + Filter(b, start, stop))
          == (h + Filter(a[1..], start, stop)) + Filter(b, start, stop);
    } else {
      assert a + b == b;
    }
  }

  /** Every pair a filter keeps comes from the filtered list. */
  lemma {:induction false} FilterSubset(ps: seq<Pair>, start: Option<string>, stop: Option<string>)
    ensures forall q :: q in Filter(ps, start, stop) ==> q in ps
    decreases |ps|
  {
    if ps != [] {
      FilterSubset(ps[1..], start, stop);
    }
  }

  /** Filtering an ascending list keeps it ascending and restricts its map to the bounds. */
  lemma {:induction false} FilterAscending(ps: seq<Pair>, start: Option<string>, stop: Option<string>)
    requires Ascending(ps)
    ensures Ascending(Filter(ps, start, stop))
    ensures AsMap(Filter(ps, start, stop)) == Restrict(AsMap(ps), start, stop)
    decreases |ps|
  {
    if ps != [] {
      var p := ps[0];
      var tail := ps[1..];
      HeadFresh(ps);
      FilterAscending(tail, start, stop);
      var ft := Filter(tail, start, stop);
      assert ps == [p] + tail;
      ConsAscending(p, tail);
      FilterSubset(tail, start, stop);
      forall j | 0 <= j < |ft|
        ensures Less(p.0, ft[j].0)
      {
        assert ft[j] in tail;
      }
      ConsAscending(p, ft);
      AsMapConsFresh(p, tail);
      RestrictUpdate(AsMap(tail), p.0, p.1, start, stop);
      if InRange(p.0, start, stop) {
        assert Filter(ps, start, stop) == [p] + ft;
        assert p.0 !in AsMap(ft);
        AsMapConsFresh(p, ft);
      } else {
        assert Filter(ps, start, stop) == ft;
      }
    }
  }

  lemma RestrictUpdate(m: map<string, string>, c: string, v: string, start: Option<string>, stop: Option<string>)
    requires c !in m
    ensures InRange(c, start, stop) ==> Restrict(m[c := v], start, stop) == Restrict(m, start, stop)[c := v]
    ensures !InRange(c, start, stop) ==> Restrict(m[c := v], start, stop) == Restrict(m, start, stop)
  {
  }

  /** A slice of a listing is the listing of the column map restricted to the bounds. */
  lemma FilterListing(m: map<string, string>, start: Option<string>, stop: Option<string>)
    ensures Filter(Listing(m), start, stop) == Listing(Restrict(m, start, stop))
  {
    FilterAscending(Listing(m), start, stop);
    ListingUnique(Filter(Listing(m), start, stop), Restrict(m, start, stop));
  }

  /** In an ascending list, once one column exceeds the stop bound no later pair is in range. */
  lemma {:induction false} FilterPastStop(ps: seq<Pair>, start: Option<string>, stop: string)
    requires Ascending(ps) && ps != [] && Less(stop, ps[0].0)
    ensures Filter(ps, start, Some(stop)) == []
    decreases |ps|
  {
    Asymmetric(stop, ps[0].0);
    Irreflexive(stop);
    if |ps| > 1 {
      Transitive(stop, ps[0].0, ps[1].0);
      FilterPastStop(ps[1..], start, stop);
    }
  }

  /** A bound below every column of ps and of p is below every column of a permutation of
      ps with p added. */
  lemma AllAtLeast(c: string, p: Pair, ps: seq<Pair>, rest: seq<Pair>)
    requires multiset(rest) == multiset(ps) + multiset{p}
    requires AtMost(c, p.0) && forall j :: 0 <= j < |ps| ==> AtMost(c, ps[j].0)
    ensures forall j :: 0 <= j < |rest| ==> AtMost(c, rest[j].0)
  {
    forall j | 0 <= j < |rest|
      ensures AtMost(c, rest[j].0)
    {
      assert rest[j] in multiset(rest);
      if rest[j] != p {
        assert rest[j] in multiset(ps);
        var k :| 0 <= k < |ps| && ps[k] == rest[j];
      }
    }
  }

  /** Inserts a pair before the first pair whose column is not smaller (`sorted` is stable). */
  function InsertByColumn(p: Pair, ps: seq<Pair>): (r: seq<Pair>)
    requires SortedByColumn(ps)
    ensures multiset(r) == multiset(ps) + multiset{p}
    ensures SortedByColumn(r)
    decreases |ps|
  {
    if ps == [] then [p]
    else if AtMost(p.0, ps[0].0) then
      BelowHead(p.0, ps);
      ConsSorted(p, ps);
      [p] + ps
    else
      Trichotomy(p.0, ps[0].0);
      var rest := InsertByColumn(p, ps[1..]);
      assert ps == [ps[0]] + ps[1..];
      AllAtLeast(ps[0].0, p, ps[1..], rest);
      ConsSorted(ps[0], rest);
      [ps[0]] + rest
  }

  /** A column at most the head of a sorted list is at most every column in it. */
  lemma BelowHead(c: string, ps: seq<Pair>)
    requires SortedByColumn(ps) && ps != [] && AtMost(c, ps[0].0)
    ensures forall j :: 0 <= j < |ps| ==> AtMost(c, ps[j].0)
  {
    forall j | 0 <= j < |ps|
      ensures AtMost(c, ps[j].0)
    {
      if j > 0 && Less(c, ps[0].0) && Less(ps[0].0, ps[j].0) {
        Transitive(c, ps[0].0, ps[j].0);
      }
    }
  }

  lemma ConsSorted(q: Pair, ps: seq<Pair>)
    requires SortedByColumn(ps) && forall j :: 0 <= j < |ps| ==> AtMost(q.0, ps[j].0)
    ensures SortedByColumn([q] + ps)
  {
    var r := [q] + ps;
    forall i, j | 0 <= i < j < |r|
      ensures AtMost(r[i].0, r[j].0)
    {
      assert r[j] == ps[j - 1];
      if i > 0 {
        assert r[i] == ps[i - 1];
      }
    }
  }

  /** Python's `sorted(ps, key=lambda tup: tup[0])`: a permutation of ps, ascending by column. */
  function SortByColumn(ps: seq<Pair>): (r: seq<Pair>)
    ensures multiset(r) == multiset(ps)
    ensures SortedByColumn(r)
    decreases |ps|
  {
    if ps == [] then []
    else
      assert ps == [ps[0]] + ps[1..];
      InsertByColumn(ps[0], SortByColumn(ps[1..]))
  }

  lemma AscendingSorted(ps: seq<Pair>)
    requires Ascending(ps)
    ensures SortedByColumn(ps)
  {
  }

  /** Inserting a pair whose column is new into an ascending list keeps it ascending and adds
      exactly that column to its map. */
  lemma {:induction false} InsertFresh(p: Pair, ps: seq<Pair>)
    requires Ascending(ps)
    requires p.0 !in AsMap(ps)
    ensures Ascending(InsertByColumn(p, ps))
    ensures AsMap(InsertByColumn(p, ps)) == AsMap(ps)[p.0 := p.1]
    decreases |ps|
  {
    AscendingSorted(ps);
    if ps == [] {
      AsMapConsFresh(p, ps);
    } else {
      AsMapKeys(ps);
      assert ps[0].0 != p.0;
      if AtMost(p.0, ps[0].0) {
        forall j | 0 <= j < |ps|
          ensures Less(p.0, ps[j].0)
        {
          if j > 0 {
            Transitive(p.0, ps[0].0, ps[j].0);
          }
        }
        ConsAscending(p, ps);
        AsMapConsFresh(p, ps);
      } else {
        Trichotomy(p.0, ps[0].0);
        var tail := ps[1..];
        HeadFresh(ps);
        assert ps == [ps[0]] + tail;
        AsMapConsFresh(ps[0], tail);
        InsertFresh(p, tail);
        InsertFreshStep(p, ps[0], tail);
      }
    }
  }

  lemma InsertFreshStep(p: Pair, q: Pair, tail: seq<Pair>)
    requires Ascending(tail) && Ascending([q] + tail) && Less(q.0, p.0)
    requires Ascending(InsertByColumn(p, tail))
    requires AsMap(InsertByColumn(p, tail)) == AsMap(tail)[p.0 := p.1]
    ensures Ascending([q] + InsertByColumn(p, tail))
    ensures AsMap([q] + InsertByColumn(p, tail)) == AsMap([q] + tail)[p.0 := p.1]
  {
    var rest := InsertByColumn(p, tail);
    ConsAscending(q, tail);
    forall j | 0 <= j < |rest|
      ensures Less(q.0, rest[j].0)
    {
      InsertMember(p, tail, j);
    }
    ConsAscending(q, rest);
    Irreflexive(q.0);
    ConsMapUpdate(q, tail, rest, p);
  }

  lemma ConsMapUpdate(q: Pair, tail: seq<Pair>, rest: seq<Pair>, p: Pair)
    requires q.0 != p.0 && AsMap(rest) == AsMap(tail)[p.0 := p.1]
    ensures AsMap([q] + rest) == AsMap([q] + tail)[p.0 := p.1]
  {
    AsMapCons(q, rest);
    AsMapCons(q, tail);
    UpdateUnder(map[q.0 := q.1], AsMap(tail), p.0, p.1);
  }

  /** Updating a key after a union is updating the right map: the right map wins. */
  lemma UpdateUnder(a: map<string, string>, b: map<string, string>, k: string, v: string)
    ensures (a + b)[k := v] == a + b[k := v]
  {
    var x, y := (a + b)[k := v], a + b[k := v];
    assert x.Keys == y.Keys;
    forall c | c in x.Keys
      ensures x[c] == y[c]
    {
    }
  }

  /** Updating a key the right map lacks may be done in the left map before the union. */
  lemma UpdateOver(a: map<string, string>, b: map<string, string>, k: string, v: string)
    requires k !in b
    ensures (a + b)[k := v] == a[k := v] + b
  {
    var x, y := (a + b)[k := v], a[k := v] + b;
    assert x.Keys == y.Keys;
    forall c | c in x.Keys
      ensures x[c] == y[c]
    {
    }
  }

  /** Updates of two different keys commute. */
  lemma UpdateSwap(m: map<string, string>, a: string, va: string, b: string, vb: string)
    requires a != b
    ensures m[a := va][b := vb] == m[b := vb][a := va]
  {
    var x, y := m[a := va][b := vb], m[b := vb][a := va];
    assert x.Keys == y.Keys;
    forall c | c in x.Keys
      ensures x[c] == y[c]
    {
    }
  }

  lemma InsertMember(p: Pair, ps: seq<Pair>, j: int)
    requires SortedByColumn(ps) && 0 <= j < |InsertByColumn(p, ps)|
    ensures InsertByColumn(p, ps)[j] == p || exists k :: 0 <= k < |ps| && ps[k] == InsertByColumn(p, ps)[j]
  {
    var r := InsertByColumn(p, ps);
    assert r[j] in multiset(r);
    if r[j] != p {
      assert r[j] in multiset(ps);
      assert r[j] in ps;
    }
  }

  /** Sorting the items of a dict by column gives its listing. */
  lemma {:induction false} SortItemsIsListing(ps: seq<Pair>)
    requires DistinctColumns(ps)
    ensures SortByColumn(ps) == Listing(AsMap(ps))
    decreases |ps|
  {
    if ps != [] {
      var tail := ps[1..];
      assert ps == [ps[0]] + tail;
      SortItemsIsListing(tail);
      AsMapKeys(tail);
      assert ps[0].0 !in AsMap(tail);
      var ls := Listing(AsMap(tail));
      InsertFresh(ps[0], ls);
      AsMapConsFresh(ps[0], tail);
      ListingUnique(InsertByColumn(ps[0], ls), AsMap(ps));
    }
  }
}
