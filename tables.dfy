/**
 * The query machinery shared by every store: a table is a map from primary key to row,
 * a `where` clause is a predicate on rows, a select list is a projection, and `orderBy`
 * is a sort by a column key.
 */
module Tables {
  /** The ids below `n` whose row satisfies `keep`, in increasing order: a primary-key-order scan. */
  function Scan<T>(table: map<nat, T>, n: nat, keep: T -> bool): (ids: seq<nat>)
    ensures forall id :: id in ids <==> id < n && id in table && keep(table[id])
    ensures forall i, j :: 0 <= i < j < |ids| ==> ids[i] < ids[j]
  {
    if n == 0 then []
    else
      var before := Scan(table, n - 1, keep);
      if n - 1 in table && keep(table[n - 1]) then
        assert forall i :: 0 <= i < |before| ==> before[i] in before;
        before + [n - 1]
      else before
  }

  /** Two tables with the same keys below `n`, whose rows agree on `keep`, scan alike. */
  lemma {:induction false} ScanAgrees<T>(t1: map<nat, T>, k1: T -> bool, t2: map<nat, T>, k2: T -> bool, n: nat)
    requires forall id :: id < n ==> (id in t1 <==> id in t2)
    requires forall id :: id < n && id in t1 && id in t2 ==> k1(t1[id]) == k2(t2[id])
    ensures Scan(t1, n, k1) == Scan(t2, n, k2)
  {
    if n > 0 {
      ScanAgrees(t1, k1, t2, k2, n - 1);
    }
  }

  /** `select view from table where keep`, in primary-key order. */
  function Query<T, V>(table: map<nat, T>, n: nat, keep: T -> bool, view: T -> V): (r: seq<V>)
    ensures |r| == |Scan(table, n, keep)|
    ensures forall i :: 0 <= i < |r| ==> r[i] == view(table[Scan(table, n, keep)[i]])
    ensures forall v :: v in r ==> exists id :: id < n && id in table && keep(table[id]) && v == view(table[id])
    ensures forall id :: id < n && id in table && keep(table[id]) ==> view(table[id]) in r
  {
    var ids := Scan(table, n, keep);
    seq(|ids|, i requires 0 <= i < |ids| => view(table[ids[i]]))
  }

  /** The direction of an `orderBy`. */
  datatype SortOrder = Asc | Desc

  /** The value of the column a query orders by: a timestamp or a text column. */
  datatype SortKey = DateKey(time: nat) | TextKey(text: string)

  /** Lexicographic order on character codes. */
  predicate TextLe(a: string, b: string)
    decreases |a|
  {
    |a| == 0 || (|b| > 0 && (a[0] < b[0] || (a[0] == b[0] && TextLe(a[1..], b[1..]))))
  }

  predicate KeyLe(a: SortKey, b: SortKey)
  {
    match (a, b)
    case (DateKey(x), DateKey(y)) => x <= y
    case (TextKey(x), TextKey(y)) => TextLe(x, y)
    case (DateKey(_), TextKey(_)) => true
    case (TextKey(_), DateKey(_)) => false
  }

  /** `a` may come before `b` in a result ordered in direction `order`. */
  predicate InOrder(a: SortKey, b: SortKey, order: SortOrder)
  {
    if order == Asc then KeyLe(a, b) else KeyLe(b, a)
  }

  lemma {:induction false} TextLeTotal(a: string, b: string)
    ensures TextLe(a, b) || TextLe(b, a)
    decreases |a|
  {
    if |a| > 0 && |b| > 0 && a[0] == b[0] {
      TextLeTotal(a[1..], b[1..]);
    }
  }

  lemma {:induction false} TextLeTrans(a: string, b: string, c: string)
    requires TextLe(a, b) && TextLe(b, c)
    ensures TextLe(a, c)
    decreases |a|
  {
    if |a| > 0 && a[0] == b[0] && b[0] == c[0] {
      TextLeTrans(a[1..], b[1..], c[1..]);
    }
  }

  lemma InOrderTotal(a: SortKey, b: SortKey, order: SortOrder)
    ensures InOrder(a, b, order) || InOrder(b, a, order)
  {
    if a.TextKey? && b.TextKey? {
      TextLeTotal(a.text, b.text);
    }
  }

  lemma InOrderTrans(a: SortKey, b: SortKey, c: SortKey, order: SortOrder)
    requires InOrder(a, b, order) && InOrder(b, c, order)
    ensures InOrder(a, c, order)
  {
    if a.TextKey? && b.TextKey? && c.TextKey? {
      if order == Asc {
        TextLeTrans(a.text, b.text, c.text);
      } else {
        TextLeTrans(c.text, b.text, a.text);
      }
    }
  }

  /** Every earlier element may come before every later one. */
  ghost predicate SortedBy<V>(s: seq<V>, key: V -> SortKey, order: SortOrder)
  {
    forall i, j :: 0 <= i < j < |s| ==> InOrder(key(s[i]), key(s[j]), order)
  }

  function Insert<V>(x: V, s: seq<V>, key: V -> SortKey, order: SortOrder): (r: seq<V>)
    requires SortedBy(s, key, order)
    ensures multiset(r) == multiset(s) + multiset{x}
    ensures forall y :: y in r ==> y == x || y in s
    ensures SortedBy(r, key, order)
  {
    if s == [] then [x]
    else if InOrder(key(x), key(s[0]), order) then
      assert forall j :: 0 < j < |s| ==> InOrder(key(x), key(s[j]), order) by {
        forall j | 0 < j < |s| {
          InOrderTrans(key(x), key(s[0]), key(s[j]), order);
        }
      }
      [x] + s
    else
      var rest := Insert(x, s[1..], key, order);
      InOrderTotal(key(x), key(s[0]), order);
      assert forall y :: y in rest ==> InOrder(key(s[0]), key(y), order);
      assert s == [s[0]] + s[1..];
      [s[0]] + rest
  }

  /** The rows of `s` rearranged in direction `order` of `key`; the order among equal keys is left to the sort. */
  function SortRows<V>(s: seq<V>, key: V -> SortKey, order: SortOrder): (r: seq<V>)
    ensures multiset(r) == multiset(s)
    ensures SortedBy(r, key, order)
  {
    if s == [] then []
    else
      assert s == [s[0]] + s[1..];
      Insert(s[0], SortRows(s[1..], key, order), key, order)
  }
}
