/** Whole runs of `addOption` on a fresh PDU. */
module CoapPduRuns {
  import opened Wire
  import opened OptionOrder
  import opened CoapPdu

  /** Every option of the run is added with small deltas and a short value. */
  ghost predicate SmallRun(adds: seq<Option>)
    decreases |adds|
  {
    adds == [] ||
    (SmallRun(adds[..|adds| - 1]) && Small(InsertAll(adds[..|adds| - 1]), adds[|adds| - 1]))
  }

  /** The options whose numbers and lengths a caller has to look at. */
  ghost predicate Below269(opts: seq<Option>) {
    forall i :: 0 <= i < |opts| ==> opts[i].number < 269 && |opts[i].value| < 269
  }

  lemma {:induction false} InsertAllBelow269(adds: seq<Option>)
    requires Below269(adds)
    ensures Below269(InsertAll(adds))
  {
    if adds != [] { InsertAllBelow269(adds[..|adds| - 1]); }
  }

  /** Numbers and lengths below 269 make every run small, in whatever order the options come. */
  lemma {:induction false} Below269IsSmall(adds: seq<Option>)
    requires Below269(adds)
    ensures SmallRun(adds)
  {
    if adds != [] {
      var front, o := adds[..|adds| - 1], adds[|adds| - 1];
      Below269IsSmall(front);
      InsertAllBelow269(front);
      var opts := InsertAll(front);
      var k := Position(opts, o.number);
      assert LastNumber(0, opts[..k]) <= o.number;
    }
  }

  lemma {:induction false} RunEncodable(adds: seq<Option>)
    requires SmallRun(adds)
    ensures Encodable(0, InsertAll(adds))
    decreases |adds|
  {
    if adds != [] {
      var front, o := adds[..|adds| - 1], adds[|adds| - 1];
      RunEncodable(front);
      var opts := InsertAll(front);
      hide Encodable, Encode, Small, SmallRun, Insert, LastNumber;
      if Position(opts, o.number) == |opts| {
        InsertLast(opts, o);
      } else {
        InsertMiddle(opts, o, Position(opts, o.number));
      }
    }
  }

  /** For a small run the octets after the token decode to the stable sort by number of the
      options added, and to nothing else. */
  lemma RunDecodesToStableSort(adds: seq<Option>, sorted: seq<Option>)
    requires SmallRun(adds)
    ensures Encodable(0, InsertAll(adds))
    ensures StableSortOf(sorted, adds) <==> Decode(0, Encode(0, InsertAll(adds))) == Decoded(sorted, [])
  {
    RunEncodable(adds);
    InsertAllSorts(adds);
    var s := Encode(0, InsertAll(adds));
    assert s + [] == s;
    hide Encode, Decode, StableSortOf, Encodable;
    DecodeEncode(0, InsertAll(adds), []);
    if StableSortOf(sorted, adds) {
      StableSortUnique(sorted, InsertAll(adds), adds);
    }
  }

  /** The number of options of the run that were added at the end, which is what the field
      `_numOptions` counts until the PDU is validated. */
  ghost function AddedAtEnd(adds: seq<Option>): nat
    decreases |adds|
  {
    if adds == [] then 0
    else
      var front, o := adds[..|adds| - 1], adds[|adds| - 1];
      AddedAtEnd(front) + if Position(InsertAll(front), o.number) == |InsertAll(front)| then 1 else 0
  }

  lemma {:induction false} InsertAllSize(adds: seq<Option>)
    ensures |InsertAll(adds)| == |adds|
    decreases |adds|
  {
    if adds != [] { InsertAllSize(adds[..|adds| - 1]); }
  }

  lemma {:induction false} SortedInsertAll(adds: seq<Option>)
    requires Sorted(adds)
    ensures InsertAll(adds) == adds
    decreases |adds|
  {
    if adds != [] {
      var front, o := adds[..|adds| - 1], adds[|adds| - 1];
      SortedInsertAll(front);
      assert front == InsertAll(front);
      assert adds == front + [o];
      assert Position(front, o.number) == |front|;
    }
  }

  lemma {:induction false} AddedAtEndBound(adds: seq<Option>)
    ensures AddedAtEnd(adds) <= |adds|
    decreases |adds|
  {
    if adds != [] { AddedAtEndBound(adds[..|adds| - 1]); }
  }

  /** The count kept while adding is right exactly for runs in non-decreasing order: an
      insertion in the middle is not counted. */
  lemma {:induction false} CountRightIffInOrder(adds: seq<Option>)
    ensures AddedAtEnd(adds) == |adds| <==> Sorted(adds)
    decreases |adds|
  {
    if adds != [] {
      var front, o := adds[..|adds| - 1], adds[|adds| - 1];
      CountRightIffInOrder(front);
      AddedAtEndBound(front);
      AddedAtEndUnfold(adds);
      SortedSnoc(front, o);
      assert adds == front + [o];
      if Sorted(front) { SortedInsertAll(front); }
      hide AddedAtEnd, InsertAll, Sorted, Position;
    }
  }

  lemma AddedAtEndUnfold(adds: seq<Option>)
    requires adds != []
    ensures var front, o := adds[..|adds| - 1], adds[|adds| - 1];
            AddedAtEnd(adds) ==
              AddedAtEnd(front) + if Position(InsertAll(front), o.number) == |InsertAll(front)| then 1 else 0
    ensures |InsertAll(adds[..|adds| - 1])| == |adds| - 1
  {
    InsertAllSize(adds[..|adds| - 1]);
  }

  lemma SortedSnoc(front: seq<Option>, o: Option)
    ensures Sorted(front + [o]) ==> Sorted(front)
    ensures Sorted(front) ==> (Sorted(front + [o]) <==> Position(front, o.number) == |front|)
  {
    var all, k := front + [o], Position(front, o.number);
    assert forall i :: 0 <= i < |front| ==> all[i] == front[i];
    if k < |front| { assert all[k].number > all[|front|].number; }
  }

  lemma {:induction false} SmallPrefix(adds: seq<Option>, k: nat)
    requires SmallRun(adds) && k <= |adds|
    ensures SmallRun(adds[..k])
    decreases |adds|
  {
    if k == |adds| {
      assert adds[..k] == adds;
    } else {
      SmallPrefix(adds[..|adds| - 1], k);
      assert adds[..|adds| - 1][..k] == adds[..k];
    }
  }

  lemma RunStep(adds: seq<Option>, i: nat)
    requires SmallRun(adds) && i < |adds|
    ensures var list := InsertAll(adds[..i]);
            Small(list, adds[i]) && InsertAll(adds[..i + 1]) == Insert(list, adds[i]) &&
            AddedAtEnd(adds[..i + 1]) ==
              AddedAtEnd(adds[..i]) + if Position(list, adds[i].number) == |list| then 1 else 0
  {
    hide SmallRun, InsertAll, AddedAtEnd, Small, Position, Insert;
    var next := adds[..i + 1];
    SmallPrefix(adds, i + 1);
    assert next[..|next| - 1] == adds[..i] && next[|next| - 1] == adds[i];
    SmallUnfold(next);
    AddedAtEndUnfold(next);
  }

  lemma SmallUnfold(adds: seq<Option>)
    requires SmallRun(adds) && adds != []
    ensures var front, o := adds[..|adds| - 1], adds[|adds| - 1];
            Small(InsertAll(front), o) && InsertAll(adds) == Insert(InsertAll(front), o)
  {
    hide Small, Insert;
  }

  lemma RunEmpty(adds: seq<Option>)
    ensures InsertAll(adds[..0]) == [] && AddedAtEnd(adds[..0]) == 0 && adds[..|adds|] == adds
  {
  }

  /** Header and token are the same. */
  ghost predicate SameHead(x: seq<byte>, z: seq<byte>, start: nat) {
    start <= |x| && start <= |z| && z[..start] == x[..start]
  }

  lemma SameHeadSelf(p: CoapPDU)
    requires p.Holds()
    ensures SameHead(p.Contents(), p.Contents(), p.OptionsStart())
  {
  }

  lemma AddedHead(m: seq<byte>, x: seq<byte>, z: seq<byte>, start: nat, opts: seq<Option>, o: Option)
    requires SameHead(m, x, start) && Added(x, z, start, opts, o)
    ensures SameHead(m, z, start)
  {
  }

  /** Adds the options of a run one after the other to a fresh PDU, stopping at a refusal. */
  method AddRun(p: CoapPDU, adds: seq<Option>) returns (ok: bool)
    requires p.Holds() && p.Options == [] && p.numOptions == 0 && SmallRun(adds)
    requires forall i :: 0 <= i < |adds| ==> adds[i].number < 65536 && |adds[i].value| <= 65530
    modifies p, p.pdu
    ensures p.pdu == old(p.pdu) || fresh(p.pdu)
    ensures ok ==> p.Holds() && p.Options == InsertAll(adds) && p.numOptions == AddedAtEnd(adds)
    ensures !p.constructedFromBuffer ==> ok
    ensures ok ==> SameHead(old(p.Contents()), p.Contents(), old(p.OptionsStart()))
    ensures ok ==> p.OptionsStart() == old(p.OptionsStart())
  {
    RunEmpty(adds);
    hide SmallRun, InsertAll, AddedAtEnd, Encodable, Encode, Added, Small, SameHead, NoRoom, Fits16, Insert, Position,
         LastNumber;
    ghost var m, start := p.Contents(), p.OptionsStart();
    SameHeadSelf(p);
    for i := 0 to |adds|
      invariant p.Holds() && p.Options == InsertAll(adds[..i]) && p.numOptions == AddedAtEnd(adds[..i])
      invariant p.pdu == old(p.pdu) || fresh(p.pdu)
      invariant p.OptionsStart() == start && SameHead(m, p.Contents(), start)
    {
      RunStep(adds, i);
      assert adds[i] == Option(adds[i].number, adds[i].value);
      ghost var x, opts := p.Contents(), p.Options;
      ghost var hole;
      ok, hole := p.AddOption(adds[i].number, adds[i].value);
      if !ok { return; }
      AddedHead(m, x, p.Contents(), start, opts, adds[i]);
    }
    ok := true;
  }
}
