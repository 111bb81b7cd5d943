/** Stable sorting of keyed entries by a total preorder on keys, as Array.prototype.sort does. */
module KeySort {
  import opened JsonText

  datatype Entry<+T> = Entry(key: Text, value: T)

  /** The order on keys, "not after". `localeCompare` is one; it ties some distinct keys, such as two
      Unicode spellings of one letter. */
  type Order = (Text, Text) -> bool

  ghost predicate Total(le: Order) { forall a: Text, b: Text :: le(a, b) || le(b, a) }

  ghost predicate Transitive(le: Order) {
    forall a: Text, b: Text, c: Text :: le(a, b) && le(b, c) ==> le(a, c)
  }

  ghost predicate Preorder(le: Order) { Total(le) && Transitive(le) }

  predicate Tied(a: Text, b: Text, le: Order) { le(a, b) && le(b, a) }

  ghost predicate NoTies<T>(es: seq<Entry<T>>, le: Order) {
    forall i, j | 0 <= i < j < |es| :: !Tied(es[i].key, es[j].key, le)
  }

  /** `e` came before all of `es`, so it stays before its equals. */
  function Insert<T>(e: Entry<T>, es: seq<Entry<T>>, le: Order): (r: seq<Entry<T>>)
    ensures multiset(r) == multiset{e} + multiset(es)
  {
    if es == [] then [e]
    else if le(e.key, es[0].key) then
      assert [e] + es == [e] + es;
      [e] + es
    else
      assert es == [es[0]] + es[1..];
      [es[0]] + Insert(e, es[1..], le)
  }

  function Sort<T>(es: seq<Entry<T>>, le: Order): (r: seq<Entry<T>>)
    ensures multiset(r) == multiset(es)
  {
    if es == [] then []
    else
      assert es == [es[0]] + es[1..];
      Insert(es[0], Sort(es[1..], le), le)
  }

  ghost predicate Sorted<T>(es: seq<Entry<T>>, le: Order) {
    forall i, j | 0 <= i < j < |es| :: le(es[i].key, es[j].key)
  }

  ghost predicate DistinctKeys<T>(es: seq<Entry<T>>) {
    forall i, j | 0 <= i < j < |es| :: es[i].key != es[j].key
  }

  lemma SameElements<T>(a: seq<T>, b: seq<T>)
    requires multiset(a) == multiset(b)
    ensures |a| == |b|
    ensures forall x :: x in a <==> x in b
  {
    assert |multiset(a)| == |a| && |multiset(b)| == |b|;
    forall x ensures x in a <==> x in b {
      assert x in a <==> x in multiset(a);
      assert x in b <==> x in multiset(b);
    }
  }

  lemma {:induction false} InsertSorted<T>(e: Entry<T>, es: seq<Entry<T>>, le: Order)
    requires Preorder(le) && Sorted(es, le)
    ensures Sorted(Insert(e, es, le), le)
  {
    if es != [] {
      if le(e.key, es[0].key) {
        forall j | 0 <= j < |es| ensures le(e.key, es[j].key) {
          assert j > 0 ==> le(es[0].key, es[j].key);
        }
      } else {
        InsertSorted(e, es[1..], le);
        var r := Insert(e, es[1..], le);
        forall j | 0 <= j < |r| ensures le(es[0].key, r[j].key) {
          assert r[j] in multiset(r);
          assert r[j] == e || r[j] in es[1..];
          if r[j] != e {
            var i :| 0 <= i < |es[1..]| && es[1..][i] == r[j];
            assert le(es[0].key, es[i + 1].key);
          }
        }
      }
    }
  }

  lemma {:induction false} SortSorts<T>(es: seq<Entry<T>>, le: Order)
    requires Preorder(le)
    ensures Sorted(Sort(es, le), le)
  {
    if es != [] {
      SortSorts(es[1..], le);
      InsertSorted(es[0], Sort(es[1..], le), le);
    }
  }

  lemma {:induction false} SortedIsFixed<T>(es: seq<Entry<T>>, le: Order)
    requires Sorted(es, le)
    ensures Sort(es, le) == es
  {
    if es != [] {
      SortedIsFixed(es[1..], le);
      if |es| > 1 {
        assert le(es[0].key, es[1].key);
      }
      assert es == [es[0]] + es[1..];
    }
  }

  function Keys<T>(es: seq<Entry<T>>): multiset<Text> {
    if es == [] then multiset{} else multiset{es[0].key} + Keys(es[1..])
  }

  lemma {:induction false} KeysHas<T>(es: seq<Entry<T>>, k: Text)
    ensures k in Keys(es) <==> exists i :: 0 <= i < |es| && es[i].key == k
  {
    if es != [] {
      KeysHas(es[1..], k);
      if i :| 0 <= i < |es| && es[i].key == k {
        if i > 0 {
          assert es[1..][i - 1].key == k;
        }
      }
      if i :| 0 <= i < |es[1..]| && es[1..][i].key == k {
        assert es[i + 1].key == k;
      }
    }
  }

  ghost predicate AtMostOnce<T>(es: seq<Entry<T>>) {
    forall k: Text :: Keys(es)[k] <= 1
  }

  lemma KeysOfTail<T>(es: seq<Entry<T>>, k: Text)
    requires es != []
    ensures Keys(es)[k] == Keys(es[1..])[k] + (if k == es[0].key then 1 else 0)
  {
  }

  lemma {:induction false} DistinctCount<T>(es: seq<Entry<T>>)
    requires DistinctKeys(es)
    ensures AtMostOnce(es)
  {
    if es != [] {
      DistinctCount(es[1..]);
      KeysHas(es[1..], es[0].key);
      forall k: Text ensures Keys(es)[k] <= 1 {
        KeysOfTail(es, k);
        assert Keys(es[1..])[k] <= 1;
      }
    }
  }

  lemma {:induction false} CountDistinct<T>(es: seq<Entry<T>>)
    requires AtMostOnce(es)
    ensures DistinctKeys(es)
  {
    if es != [] {
      forall k: Text ensures Keys(es[1..])[k] <= 1 {
        KeysOfTail(es, k);
        assert Keys(es)[k] <= 1;
      }
      CountDistinct(es[1..]);
      HeadIsNew(es);
      forall i, j | 0 < i < j < |es| ensures es[i].key != es[j].key {
        assert es[1..][i - 1].key != es[1..][j - 1].key;
      }
    }
  }

  lemma HeadIsNew<T>(es: seq<Entry<T>>)
    requires es != [] && AtMostOnce(es)
    ensures forall j | 0 < j < |es| :: es[0].key != es[j].key
  {
    KeysOfTail(es, es[0].key);
    assert Keys(es)[es[0].key] <= 1;
    forall j | 0 < j < |es| ensures es[0].key != es[j].key {
      KeysHas(es[1..], es[j].key);
      assert es[1..][j - 1].key == es[j].key;
    }
  }

  lemma KeysOfCons<T>(e: Entry<T>, es: seq<Entry<T>>)
    ensures Keys([e] + es) == multiset{e.key} + Keys(es)
  {
    assert ([e] + es)[1..] == es;
  }

  lemma {:induction false} InsertKeys<T>(e: Entry<T>, es: seq<Entry<T>>, le: Order)
    ensures Keys(Insert(e, es, le)) == multiset{e.key} + Keys(es)
  {
    KeysOfCons(e, es);
    if es == [] {
      assert [e] == [e] + es;
    } else if !le(e.key, es[0].key) {
      var rest := Insert(e, es[1..], le);
      InsertKeys(e, es[1..], le);
      KeysOfCons(es[0], rest);
    }
  }

  lemma {:induction false} SortKeys<T>(es: seq<Entry<T>>, le: Order)
    ensures Keys(Sort(es, le)) == Keys(es)
  {
    if es != [] {
      SortKeys(es[1..], le);
      InsertKeys(es[0], Sort(es[1..], le), le);
    }
  }

  lemma SortKeepsDistinct<T>(es: seq<Entry<T>>, le: Order)
    requires DistinctKeys(es)
    ensures DistinctKeys(Sort(es, le))
  {
    SortKeys(es, le);
    DistinctCount(es);
    assert AtMostOnce(Sort(es, le));
    CountDistinct(Sort(es, le));
  }

  ghost predicate HasKey<T>(es: seq<Entry<T>>, k: Text) {
    exists i :: 0 <= i < |es| && es[i].key == k
  }

  /** Two sorted lists with the same keys list them in the same order, when no keys tie. */
  lemma {:induction false} SortedKeysAgree<S, T>(es: seq<Entry<S>>, fs: seq<Entry<T>>, le: Order)
    requires Sorted(es, le) && Sorted(fs, le) && DistinctKeys(es) && DistinctKeys(fs) && NoTies(es, le)
    requires forall k: Text :: HasKey(es, k) <==> HasKey(fs, k)
    ensures |es| == |fs|
    ensures forall i | 0 <= i < |es| :: es[i].key == fs[i].key
  {
    if es == [] {
      if fs != [] {
        assert HasKey(fs, fs[0].key);
        assert false;
      }
    } else {
      assert HasKey(es, es[0].key);
      assert HasKey(fs, es[0].key);
      var i :| 0 <= i < |fs| && fs[i].key == es[0].key;
      assert HasKey(fs, fs[0].key);
      assert HasKey(es, fs[0].key);
      var j :| 0 <= j < |es| && es[j].key == fs[0].key;
      assert j > 0 ==> !Tied(es[0].key, es[j].key, le);
      assert es[0].key == fs[0].key;
      forall k: Text ensures HasKey(es[1..], k) <==> HasKey(fs[1..], k) {
        TailKeys(es, k);
        TailKeys(fs, k);
      }
      SortedKeysAgree(es[1..], fs[1..], le);
      forall n | 0 <= n < |es| ensures es[n].key == fs[n].key {
        assert n > 0 ==> es[1..][n - 1].key == fs[1..][n - 1].key;
      }
    }
  }

  lemma TailKeys<T>(es: seq<Entry<T>>, k: Text)
    requires es != [] && DistinctKeys(es)
    ensures HasKey(es[1..], k) <==> HasKey(es, k) && k != es[0].key
  {
    if HasKey(es, k) && k != es[0].key {
      var i :| 0 <= i < |es| && es[i].key == k;
      assert es[1..][i - 1].key == k;
    }
    if HasKey(es[1..], k) {
      var i :| 0 <= i < |es[1..]| && es[1..][i].key == k;
      assert es[i + 1].key == k;
    }
  }

  lemma SortMember<T>(es: seq<Entry<T>>, le: Order, e: Entry<T>)
    ensures e in Sort(es, le) <==> e in es
  {
    SameElements(Sort(es, le), es);
  }

  /** Sorting moves entries and nothing else. */
  lemma SortMembers<T>(es: seq<Entry<T>>, le: Order)
    ensures |Sort(es, le)| == |es|
    ensures forall e :: e in Sort(es, le) <==> e in es
    ensures forall k: Text :: HasKey(Sort(es, le), k) <==> HasKey(es, k)
  {
    var r := Sort(es, le);
    SameElements(r, es);
    forall k: Text ensures HasKey(r, k) <==> HasKey(es, k) {
      if HasKey(r, k) {
        var i :| 0 <= i < |r| && r[i].key == k;
        assert r[i] in es;
      }
      if HasKey(es, k) {
        var i :| 0 <= i < |es| && es[i].key == k;
        assert es[i] in r;
      }
    }
  }
}
