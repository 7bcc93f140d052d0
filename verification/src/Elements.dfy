/** The linked elements that uthash and utlist work on. */
module Elements {
  /** An element of a table or of a list: its key, its place in the list of all elements, and its place in
      a chain. The lists of utlist.h use `next` and `prev` only. */
  class Elem<K(==)> {
    const key: K
    const hashv: nat
    var next: Elem?<K>
    var prev: Elem?<K>
    var hhNext: Elem?<K>
    var hhPrev: Elem?<K>

    constructor (k: K, h: nat)
      ensures key == k && hashv == h
    {
      key, hashv, next, prev, hhNext, hhPrev := k, h, null, null, null, null;
    }
  }

  function At<K>(s: seq<Elem<K>>, i: nat): Elem?<K> {
    if i < |s| then s[i] else null
  }

  function Last<K>(s: seq<Elem<K>>): Elem?<K> {
    if s == [] then null else s[|s| - 1]
  }

  ghost predicate Distinct<K>(s: seq<Elem<K>>) {
    forall i, j :: 0 <= i < j < |s| ==> s[i] != s[j]
  }

  /** The app-order list: linked both ways by `next` and `prev`. */
  ghost predicate AppList<K>(s: seq<Elem<K>>, head: Elem?<K>, tail: Elem?<K>)
    reads s
  {
    Distinct(s) && head == At(s, 0) && tail == Last(s) &&
    (forall i {:trigger s[i].next} :: 0 <= i < |s| ==> s[i].next == At(s, i + 1)) &&
    (s != [] ==> s[0].prev == null) &&
    (forall i {:trigger s[i].prev} :: 0 < i < |s| ==> s[i].prev == s[i - 1])
  }
}
