/**
 * Python's built-in `dict`: a finite map that remembers the order in which
 * its keys were first inserted. Iterating a dict (`for k in d`, `d.items()`)
 * visits `keys` from first to last.
 */
module PyDict {

  /** No element occurs twice. */
  ghost predicate Distinct<T>(s: seq<T>) {
    forall i, j :: 0 <= i < j < |s| ==> s[i] != s[j]
  }

  datatype Dict<K(!new), V> = Dict(keys: seq<K>, entries: map<K, V>)
  {
    /** The insertion order lists every key of the map exactly once. */
    ghost predicate Valid() {
      && Distinct(keys)
      && (forall k :: k in entries <==> k in keys)
    }
  }

  /** `{}` */
  function Empty<K(!new), V>(): (d: Dict<K, V>)
    ensures d.Valid() && d.keys == [] && d.entries == map[]
  {
    Dict([], map[])
  }

  /**
   * `d[k] = v`: a present key keeps its position and gets the new value, a
   * new key is appended to the iteration order.
   */
  function Put<K(!new), V>(d: Dict<K, V>, k: K, v: V): (r: Dict<K, V>)
    requires d.Valid()
    ensures r.Valid()
    ensures r.entries == d.entries[k := v]
    ensures k in d.entries ==> r.keys == d.keys
    ensures k !in d.entries ==> r.keys == d.keys + [k]
  {
    if k in d.entries then Dict(d.keys, d.entries[k := v])
    else Dict(d.keys + [k], d.entries[k := v])
  }

  /**
   * The elements of `s` in the order of their first occurrence, each once:
   * the key order of a dict built by storing the elements of `s` one by one.
   */
  function FirstOccurrences<T(==,!new)>(s: seq<T>): (r: seq<T>)
    ensures forall x :: x in r <==> x in s
    ensures Distinct(r)
    decreases |s|
  {
    if s == [] then []
    else
      var p := FirstOccurrences(s[..|s| - 1]);
      var x := s[|s| - 1];
      assert forall y :: y in s <==> y in s[..|s| - 1] || y == x by {
        assert s == s[..|s| - 1] + [x];
      }
      if x in p then p else p + [x]
  }

  /** Of two elements of `r`, the one listed first occurs in `s` before the other occurs at all. */
  ghost predicate InFirstOccurrenceOrder<T>(s: seq<T>, r: seq<T>) {
    forall i, j :: 0 <= i < j < |r| ==> exists a :: 0 <= a < |s| && s[a] == r[i] && r[j] !in s[..a]
  }

  /** `FirstOccurrences` lists the elements in the order of their first occurrence. */
  lemma {:induction false} FirstOccurrencesInOrder<T(!new)>(s: seq<T>)
    ensures InFirstOccurrenceOrder(s, FirstOccurrences(s))
    decreases |s|
  {
    if s != [] {
      var init, x := s[..|s| - 1], s[|s| - 1];
      var p, r := FirstOccurrences(init), FirstOccurrences(s);
      FirstOccurrencesInOrder(init);
      assert InFirstOccurrenceOrder(init, p);
      assert s == init + [x];
      assert r == if x in p then p else p + [x];
      forall i, j | 0 <= i < j < |r|
        ensures exists a :: 0 <= a < |s| && s[a] == r[i] && r[j] !in s[..a]
      {
        var a;
        if j < |p| {
          assert 0 <= i < j < |p|;
          a :| 0 <= a < |init| && init[a] == p[i] && p[j] !in init[..a];
        } else {
          assert p[i] in init;
          a :| 0 <= a < |init| && init[a] == p[i];
          assert r[j] == x && x !in init;
        }
        assert s[..a] == init[..a];
      }
    }
  }
}
