/** The sizes of finite sets and maps. */
module Sets {

  lemma {:induction false} SmallerSet<T>(a: set<T>, b: set<T>)
    requires a <= b
    ensures |a| <= |b|
  {
    if a != {} {
      var x :| x in a;
      SmallerSet(a - {x}, b - {x});
    }
  }

  lemma SmallerMap<K, V>(a: map<K, V>, b: map<K, V>)
    requires a.Keys <= b.Keys
    ensures |a| <= |b| && (a.Keys == b.Keys ==> |a| == |b|)
  {
    SmallerSet(a.Keys, b.Keys);
  }
}
