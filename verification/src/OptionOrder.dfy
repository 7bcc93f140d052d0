/** Stable insertion into a list of options sorted by number, and the stable sort it builds. */
module OptionOrder {
  import opened Wire

  ghost predicate Sorted(opts: seq<Option>) {
    forall i, j :: 0 <= i < j < |opts| ==> opts[i].number <= opts[j].number
  }

  /** The first position whose option has a number above `n`. */
  function Position(opts: seq<Option>, n: nat): (k: nat)
    ensures k <= |opts|
    ensures forall i :: 0 <= i < k ==> opts[i].number <= n
    ensures k < |opts| ==> opts[k].number > n
  {
    if opts == [] || opts[0].number > n then 0 else 1 + Position(opts[1..], n)
  }

  function Insert(opts: seq<Option>, o: Option): seq<Option> {
    var k := Position(opts, o.number);
    opts[..k] + [o] + opts[k..]
  }

  /** The list after inserting `adds` one by one. */
  function InsertAll(adds: seq<Option>): seq<Option> {
    if adds == [] then []
    else Insert(InsertAll(adds[..|adds| - 1]), adds[|adds| - 1])
  }

  /** The options numbered `n`, in list order. */
  function Numbered(opts: seq<Option>, n: nat): seq<Option> {
    if opts == [] then []
    else (if opts[0].number == n then [opts[0]] else []) + Numbered(opts[1..], n)
  }

  /** `sorted` is a stable sort of `adds`: in order, and for every number the same options
      in the same order (so the same options altogether). */
  ghost predicate StableSortOf(sorted: seq<Option>, adds: seq<Option>) {
    Sorted(sorted) && forall n :: Numbered(sorted, n) == Numbered(adds, n)
  }

  lemma NumberedFirst(s: seq<Option>, n: nat)
    requires s != []
    ensures Numbered(s, n) == (if s[0].number == n then [s[0]] else []) + Numbered(s[1..], n)
  {
  }

  lemma {:induction false} NumberedConcat(a: seq<Option>, b: seq<Option>, n: nat)
    ensures Numbered(a + b, n) == Numbered(a, n) + Numbered(b, n)
    decreases |a|
  {
    hide Numbered;
    if a == [] {
      assert a + b == b;
      NumberedEmpty(n);
    } else {
      NumberedConcat(a[1..], b, n);
      NumberedFirst(a, n);
      NumberedFirst(a + b, n);
      assert (a + b)[1..] == a[1..] + b && (a + b)[0] == a[0];
    }
  }

  lemma NumberedEmpty(n: nat)
    ensures Numbered([], n) == []
  {
  }

  lemma {:induction false} NumberedNone(opts: seq<Option>, n: nat)
    requires forall i :: 0 <= i < |opts| ==> opts[i].number != n
    ensures Numbered(opts, n) == []
  {
    if opts != [] { NumberedNone(opts[1..], n); }
  }

  lemma InsertKeepsOrder(opts: seq<Option>, o: Option)
    requires Sorted(opts)
    ensures Sorted(Insert(opts, o))
  {
  }

  lemma NumberedMove(a: seq<Option>, o: Option, b: seq<Option>, n: nat)
    requires n == o.number ==> Numbered(b, n) == []
    ensures Numbered(a + [o] + b, n) == Numbered(a + b + [o], n)
  {
    assert n != o.number ==> Numbered([o], n) == [];
    hide Numbered;
    NumberedConcat(a + [o], b, n);
    NumberedConcat(a, [o], n);
    NumberedConcat(a + b, [o], n);
    NumberedConcat(a, b, n);
    var x, y, z := Numbered(a, n), Numbered([o], n), Numbered(b, n);
    if n == o.number {
      assert x + y + [] == x + [] + y;
    } else {
      assert x + [] + z == x + z + [];
    }
  }

  /** An inserted option becomes the last of its number, and no other number is touched. */
  lemma InsertNumbered(opts: seq<Option>, o: Option, n: nat)
    requires Sorted(opts)
    ensures Numbered(Insert(opts, o), n) == Numbered(opts + [o], n)
  {
    var k := Position(opts, o.number);
    if n == o.number { NumberedNone(opts[k..], n); }
    NumberedMove(opts[..k], o, opts[k..], n);
    assert opts[..k] + opts[k..] == opts;
  }

  /** Adding options in any order yields the stable sort of the options added. */
  lemma {:induction false} InsertAllSorts(adds: seq<Option>)
    ensures StableSortOf(InsertAll(adds), adds)
  {
    if adds != [] {
      var front, o := adds[..|adds| - 1], adds[|adds| - 1];
      InsertAllSorts(front);
      InsertKeepsOrder(InsertAll(front), o);
      forall n: nat
        ensures Numbered(InsertAll(adds), n) == Numbered(adds, n)
      {
        InsertNumbered(InsertAll(front), o, n);
        NumberedConcat(InsertAll(front), [o], n);
        NumberedConcat(front, [o], n);
        assert adds == front + [o];
      }
    }
  }

  lemma {:induction false} NumberedMembers(opts: seq<Option>, i: nat)
    requires i < |opts|
    ensures Numbered(opts, opts[i].number) != []
  {
    if i > 0 { NumberedMembers(opts[1..], i - 1); }
  }

  lemma {:induction false} NumberedWitness(opts: seq<Option>, n: nat)
    requires Numbered(opts, n) != []
    ensures exists i :: 0 <= i < |opts| && opts[i].number == n
  {
    if opts[0].number != n {
      NumberedWitness(opts[1..], n);
      var i :| 0 <= i < |opts[1..]| && opts[1..][i].number == n;
      assert opts[i + 1].number == n;
    }
  }

  lemma SameFirst(a: seq<Option>, b: seq<Option>, adds: seq<Option>)
    requires StableSortOf(a, adds) && StableSortOf(b, adds) && a != []
    ensures b != [] && a[0].number >= b[0].number
  {
    NumberedMembers(a, 0);
    assert Numbered(b, a[0].number) == Numbered(adds, a[0].number);
    NumberedWitness(b, a[0].number);
  }

  /** A list has only one stable sort, so `StableSortOf` determines its first argument. */
  lemma {:induction false} StableSortUnique(a: seq<Option>, b: seq<Option>, adds: seq<Option>)
    requires StableSortOf(a, adds) && StableSortOf(b, adds)
    ensures a == b
    decreases |a|
  {
    if a == [] {
      if b != [] { SameFirst(b, a, adds); }
    } else {
      SameFirst(a, b, adds);
      SameFirst(b, a, adds);
      var n := a[0].number;
      assert Numbered(a, n)[0] == a[0] && Numbered(b, n)[0] == b[0];
      assert Numbered(a, n) == Numbered(adds, n) == Numbered(b, n);
      forall m: nat
        ensures Numbered(a[1..], m) == Numbered(b[1..], m)
      {
        assert Numbered(a, m) == Numbered(adds, m) == Numbered(b, m);
        if m == n {
          assert Numbered(a[1..], m) == Numbered(a, m)[1..] && Numbered(b[1..], m) == Numbered(b, m)[1..];
        } else {
          assert Numbered(a[1..], m) == Numbered(a, m) && Numbered(b[1..], m) == Numbered(b, m);
        }
      }
      assert StableSortOf(a[1..], b[1..]) && StableSortOf(b[1..], b[1..]);
      StableSortUnique(a[1..], b[1..], b[1..]);
      assert a == [a[0]] + a[1..] && b == [b[0]] + b[1..];
    }
  }
}
