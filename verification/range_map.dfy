/**
  `range_map`: a map from half-open, pairwise disjoint intervals `[left,
  right)` of points to values.

  The underlying ordered map is a sequence of entries sorted by left
  endpoint; `LowerBound` is the ordered map's `lower_bound`. Points are
  integers.
 */
module RangeMap {
  import opened Wrappers

  datatype Entry<V> = Entry(left: int, right: int, value: V)

  type Map<V> = seq<Entry<V>>

  /** Whether `[e.left, e.right)` holds `p`. */
  predicate Contains<V>(e: Entry<V>, p: int) {
    e.left <= p < e.right
  }

  /** Whether `[e.left, e.right)` and `[l, r)` share a point. */
  predicate Overlaps<V>(e: Entry<V>, l: int, r: int) {
    e.left < r && l < e.right
  }

  /** Every interval is non-empty, and each ends before the next begins. */
  ghost predicate Valid<V>(m: Map<V>) {
    && (forall i :: 0 <= i < |m| ==> m[i].left < m[i].right)
    && (forall i, j :: 0 <= i < j < |m| ==> m[i].right <= m[j].left)
  }

  /** At most one interval of a valid map holds a point. */
  lemma ContainsUnique<V>(m: Map<V>, p: int, i: nat, j: nat)
    requires Valid(m) && i < |m| && j < |m|
    requires Contains(m[i], p) && Contains(m[j], p)
    ensures i == j
  {
  }

  /** `lower_bound(p)`: the first entry whose left endpoint is not below `p`. */
  function LowerBound<V>(m: Map<V>, p: int): (r: nat)
    requires Valid(m)
    ensures r <= |m|
    ensures forall i :: 0 <= i < r ==> m[i].left < p
    ensures forall i :: r <= i < |m| ==> p <= m[i].left
  {
    if |m| == 0 || p <= m[0].left then 0
    else 1 + LowerBound(m[1..], p)
  }

  /** The private `find(p, lb)`: the entry at `lb` if it starts at `p`,
      otherwise the entry before `lb` if it reaches past `p`. */
  function FindFrom<V>(m: Map<V>, p: int, lb: nat): (r: Option<nat>)
    requires lb <= |m|
    ensures r.Some? ==> r.value < |m|
  {
    if lb < |m| && m[lb].left == p then Some(lb)
    else if lb > 0 && p < m[lb - 1].right then Some(lb - 1)
    else None
  }

  /** The entry holding `p`, found from `lower_bound(p)`. */
  function FindIndex<V>(m: Map<V>, p: int): (r: Option<nat>)
    requires Valid(m)
    ensures r.Some? ==> r.value < |m| && Contains(m[r.value], p)
    ensures r.None? <==> forall i :: 0 <= i < |m| ==> !Contains(m[i], p)
  {
    var lb := LowerBound(m, p);
    FindFromComplete(m, p, lb);
    FindFrom(m, p, lb)
  }

  /** Starting from `lower_bound(p)`, the private `find` misses no interval:
      it reports one exactly when one holds `p`. */
  lemma FindFromComplete<V>(m: Map<V>, p: int, lb: nat)
    requires Valid(m) && lb == LowerBound(m, p)
    ensures FindFrom(m, p, lb).Some? ==> Contains(m[FindFrom(m, p, lb).value], p)
    ensures FindFrom(m, p, lb).None? ==> forall i :: 0 <= i < |m| ==> !Contains(m[i], p)
  {
    if FindFrom(m, p, lb).None? {
      forall i | 0 <= i < |m|
        ensures !Contains(m[i], p)
      {
        if i < lb - 1 {
          assert m[i].right <= m[lb - 1].left;
        }
      }
    }
  }

  /** `lookup(p)`: the value of the interval holding `p`. */
  function Lookup<V>(m: Map<V>, p: int): (r: Option<V>)
    requires Valid(m)
    ensures r.None? <==> forall i :: 0 <= i < |m| ==> !Contains(m[i], p)
    ensures r.Some? ==> exists i :: 0 <= i < |m| && Contains(m[i], p) && m[i].value == r.value
  {
    match FindIndex(m, p)
    case None => None
    case Some(i) => Some(m[i].value)
  }

  /** `lookup(p)` answers with the value of the one interval holding `p`. */
  lemma LookupIs<V>(m: Map<V>, p: int, i: nat)
    requires Valid(m) && i < |m| && Contains(m[i], p)
    ensures Lookup(m, p) == Some(m[i].value)
  {
    var j := FindIndex(m, p).value;
    ContainsUnique(m, p, i, j);
  }

  /** `find(p)`: value and interval of the entry holding `p`, or nothing and
      `[0, 0)`. */
  function Find<V>(m: Map<V>, p: int): (r: (Option<V>, int, int))
    requires Valid(m)
    ensures r.0.None? <==> forall i :: 0 <= i < |m| ==> !Contains(m[i], p)
    ensures r.0.None? ==> r.1 == 0 && r.2 == 0
    ensures r.0.Some? ==> exists i :: 0 <= i < |m| && m[i] == Entry(r.1, r.2, r.0.value) && Contains(m[i], p)
  {
    match FindIndex(m, p)
    case None => (None, 0, 0)
    case Some(i) => (Some(m[i].value), m[i].left, m[i].right)
  }

  /** `insert(l, r, v)`: succeeds exactly when no stored interval shares a
      point with `[l, r)`; adjacent intervals are fine. On failure the map is
      unchanged. */
  function Insert<V>(m: Map<V>, l: int, r: int, v: V): (res: (bool, Map<V>))
    requires Valid(m) && l < r
    ensures res.0 <==> forall i :: 0 <= i < |m| ==> !Overlaps(m[i], l, r)
    ensures !res.0 ==> res.1 == m
    ensures res.0 ==> Valid(res.1) && |res.1| == |m| + 1
    ensures res.0 ==> exists k :: 0 <= k <= |m| && res.1 == m[..k] + [Entry(l, r, v)] + m[k..]
  {
    var lb := LowerBound(m, l);
    if FindFrom(m, l, lb).Some? then
      var i := FindIndex(m, l).value;
      assert Overlaps(m[i], l, r);
      (false, m)
    else if lb == |m| || m[lb].left >= r then
      var m' := m[..lb] + [Entry(l, r, v)] + m[lb..];
      InsertValid(m, lb, l, r, v);
      (true, m')
    else
      assert Overlaps(m[lb], l, r);
      (false, m)
  }

  lemma InsertValid<V>(m: Map<V>, lb: nat, l: int, r: int, v: V)
    requires Valid(m) && l < r && lb == LowerBound(m, l)
    requires FindIndex(m, l).None?
    requires lb == |m| || m[lb].left >= r
    ensures Valid(m[..lb] + [Entry(l, r, v)] + m[lb..])
    ensures forall i :: 0 <= i < |m| ==> !Overlaps(m[i], l, r)
  {
    if lb > 0 {
      assert !Contains(m[lb - 1], l);
    }
    InsertSorted(m, lb, Entry(l, r, v));
    FitsBetween(m, lb, l, r);
  }

  /** An interval that fits in the gap before position `k`. */
  predicate FitsAt<V>(m: Map<V>, k: nat, l: int, r: int)
    requires k <= |m|
  {
    l < r && (k == 0 || m[k - 1].right <= l) && (k == |m| || r <= m[k].left)
  }

  /** Placing an interval in the gap it fits keeps the map valid. */
  lemma InsertSorted<V>(m: Map<V>, k: nat, e: Entry<V>)
    requires Valid(m) && k <= |m| && FitsAt(m, k, e.left, e.right)
    ensures Valid(m[..k] + [e] + m[k..])
  {
    var m' := m[..k] + [e] + m[k..];
    assert forall i :: 0 <= i < k ==> m'[i] == m[i];
    assert m'[k] == e;
    assert forall i :: k < i < |m'| ==> m'[i] == m[i - 1];
    forall i, j | 0 <= i < j < |m'|
      ensures m'[i].right <= m'[j].left
    {
      if j < k {
      } else if j == k {
        assert m[i].right <= m[k - 1].right;
      } else if i < k {
        assert m[i].right <= m[k - 1].right <= e.left;
      } else if i == k {
        assert m[k].left <= m[j - 1].left;
      }
    }
  }

  /** An interval that fits in a gap shares no point with any stored one. */
  lemma FitsBetween<V>(m: Map<V>, k: nat, l: int, r: int)
    requires Valid(m) && k <= |m| && FitsAt(m, k, l, r)
    ensures forall i :: 0 <= i < |m| ==> !Overlaps(m[i], l, r)
  {
    forall i | 0 <= i < |m|
      ensures !Overlaps(m[i], l, r)
    {
      if i < k - 1 {
        assert m[i].right <= m[k - 1].right;
      } else if k < i {
        assert m[k].left <= m[i].left;
      }
    }
  }

  /** After a successful `insert(l, r, v)`, every point of `[l, r)` looks up
      `v` and every other point looks up what it did before. */
  lemma InsertLookup<V>(m: Map<V>, l: int, r: int, v: V, p: int)
    requires Valid(m) && l < r && Insert(m, l, r, v).0
    ensures Lookup(Insert(m, l, r, v).1, p) == if l <= p < r then Some(v) else Lookup(m, p)
  {
    var lb := LowerBound(m, l);
    assert FindIndex(m, l).None?;
    if lb > 0 {
      assert !Contains(m[lb - 1], l);
    }
    assert Insert(m, l, r, v).1 == m[..lb] + [Entry(l, r, v)] + m[lb..];
    LookupAfterPlacing(m, lb, Entry(l, r, v), p);
  }

  /** Placing an interval in a gap changes the lookup of its own points
      only. */
  lemma LookupAfterPlacing<V>(m: Map<V>, k: nat, e: Entry<V>, p: int)
    requires Valid(m) && k <= |m| && FitsAt(m, k, e.left, e.right)
    ensures Valid(m[..k] + [e] + m[k..])
    ensures Lookup(m[..k] + [e] + m[k..], p) == if Contains(e, p) then Some(e.value) else Lookup(m, p)
  {
    InsertSorted(m, k, e);
    PlacedAt(m, k, e, m[..k] + [e] + m[k..]);
    LookupAfterPlaced(m, k, e, m[..k] + [e] + m[k..], p);
  }

  lemma LookupAfterPlaced<V>(m: Map<V>, k: nat, e: Entry<V>, m': Map<V>, p: int)
    requires Valid(m) && Valid(m') && k <= |m|
    requires |m'| == |m| + 1 && m'[k] == e
    requires forall i :: 0 <= i < k ==> m'[i] == m[i]
    requires forall i :: k <= i < |m| ==> m'[i + 1] == m[i]
    ensures Lookup(m', p) == if Contains(e, p) then Some(e.value) else Lookup(m, p)
  {
    if Contains(e, p) {
      LookupIs(m', p, k);
    } else if Lookup(m, p).None? {
      forall i | 0 <= i < |m'|
        ensures !Contains(m'[i], p)
      {
        if k < i {
          assert m'[(i - 1) + 1] == m[i - 1];
        }
      }
    } else {
      var i := FindIndex(m, p).value;
      LookupIs(m, p, i);
      LookupIs(m', p, if i < k then i else i + 1);
    }
  }

  /** Where the entries of `m` sit once `e` is placed at `k`. */
  lemma PlacedAt<V>(m: Map<V>, k: nat, e: Entry<V>, m': Map<V>)
    requires k <= |m| && m' == m[..k] + [e] + m[k..]
    ensures |m'| == |m| + 1 && m'[k] == e
    ensures forall i :: 0 <= i < k ==> m'[i] == m[i]
    ensures forall i :: k <= i < |m| ==> m'[i + 1] == m[i]
  {
  }

  /** `erase(p)`: removes the interval holding `p` and reports whether there
      was one. */
  function Erase<V>(m: Map<V>, p: int): (res: (bool, Map<V>))
    requires Valid(m)
    ensures res.0 <==> exists i :: 0 <= i < |m| && Contains(m[i], p)
    ensures !res.0 ==> res.1 == m
    ensures res.0 ==> Valid(res.1) && |res.1| == |m| - 1
    ensures res.0 ==> exists i :: 0 <= i < |m| && Contains(m[i], p) && res.1 == m[..i] + m[i + 1..]
  {
    match FindIndex(m, p)
    case None => (false, m)
    case Some(i) =>
      RemoveValid(m, i);
      (true, m[..i] + m[i + 1..])
  }

  /** Removing one interval keeps the map valid. */
  lemma RemoveValid<V>(m: Map<V>, i: nat)
    requires Valid(m) && i < |m|
    ensures Valid(m[..i] + m[i + 1..])
  {
    var m' := m[..i] + m[i + 1..];
    forall a, b | 0 <= a < b < |m'|
      ensures m'[a].right <= m'[b].left
    {
      var a' := if a < i then a else a + 1;
      var b' := if b < i then b else b + 1;
      assert m'[a] == m[a'] && m'[b] == m[b'];
    }
  }

  /** After `erase(p)`, the points of the erased interval look up nothing and
      all others look up what they did before. */
  lemma EraseLookup<V>(m: Map<V>, p: int, q: int)
    requires Valid(m) && Erase(m, p).0
    ensures var i := FindIndex(m, p).value;
      Lookup(Erase(m, p).1, q) == if Contains(m[i], q) then None else Lookup(m, q)
  {
    var i := FindIndex(m, p).value;
    assert Erase(m, p).1 == m[..i] + m[i + 1..];
    RemoveValid(m, i);
    if Contains(m[i], q) {
      RemovedLooksUpNothing(m, i, q);
    } else {
      OthersUnchanged(m, i, q);
    }
  }

  lemma RemovedLooksUpNothing<V>(m: Map<V>, i: nat, q: int)
    requires Valid(m) && i < |m| && Contains(m[i], q)
    ensures Valid(m[..i] + m[i + 1..])
    ensures Lookup(m[..i] + m[i + 1..], q).None?
  {
    RemoveValid(m, i);
    var m' := m[..i] + m[i + 1..];
    forall j | 0 <= j < |m'|
      ensures !Contains(m'[j], q)
    {
      if j < i {
        assert m'[j] == m[j];
      } else {
        assert m'[j] == m[j + 1];
      }
    }
  }

  lemma OthersUnchanged<V>(m: Map<V>, i: nat, q: int)
    requires Valid(m) && i < |m| && !Contains(m[i], q)
    ensures Valid(m[..i] + m[i + 1..])
    ensures Lookup(m[..i] + m[i + 1..], q) == Lookup(m, q)
  {
    RemoveValid(m, i);
    var m' := m[..i] + m[i + 1..];
    match FindIndex(m, q)
    case None =>
      forall j | 0 <= j < |m'|
        ensures !Contains(m'[j], q)
      {
        assert m'[j] == m[if j < i then j else j + 1];
      }
    case Some(k) =>
      var k' := if k < i then k else k - 1;
      assert m'[k'] == m[k];
      LookupIs(m', q, k');
  }

  /** `size()`: the number of intervals; on a valid map it is zero
      exactly when the map is empty. */
  function Size<V>(m: Map<V>): (r: nat)
    ensures Valid(m) ==> (r == 0 <==> IsEmpty(m))
  {
    |m|
  }

  /** `empty()`: holds exactly when no point looks anything up. */
  function IsEmpty<V>(m: Map<V>): (r: bool)
    requires Valid(m)
    ensures r <==> forall p :: Lookup(m, p).None?
  {
    if |m| == 0 then true
    else
      assert Lookup(m, m[0].left).Some?;
      false
  }

  /** Iteration from `begin()` to `end()` visits the intervals in strictly
      ascending order of their endpoints. */
  lemma IterationAscends<V>(m: Map<V>)
    requires Valid(m)
    ensures forall i, j :: 0 <= i < j < |m| ==> m[i].left < m[j].left && m[i].right < m[j].right
  {
    forall i, j | 0 <= i < j < |m|
      ensures m[i].left < m[j].left && m[i].right < m[j].right
    {
      assert m[i].left < m[i].right <= m[j].left < m[j].right;
    }
  }
}
