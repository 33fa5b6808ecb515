/**
 * The adapter loop of `main` (src/main.rs): one device table is created
 * before the loop; for each adapter, every visible peripheral goes through
 * insert-if-absent, then the table is ranked and printed.
 *
 * The radio is not modelled: `adapters[a]` is the sequence of properties that
 * adapter `a` reports for its visible peripherals, in enumeration order, and
 * the printed tables are returned as `snapshots`.
 */
module Scanner {
  import opened Devices
  import opened Ranking
  import opened Registry

  /** The table after the given adapters, in order: absorb each one's peripherals, then rank. */
  function Table(adapters: seq<seq<Observation>>): seq<Device> {
    if adapters == [] then []
    else SortByTx(Absorb(Table(adapters[..|adapters| - 1]), adapters[|adapters| - 1]))
  }

  /** All peripherals of all adapters, in the order the loop visits them. */
  function Flatten(adapters: seq<seq<Observation>>): seq<Observation> {
    if adapters == [] then []
    else Flatten(adapters[..|adapters| - 1]) + adapters[|adapters| - 1]
  }

  /** Distinct addresses hold after every adapter. */
  lemma {:induction false} TableUnique(adapters: seq<seq<Observation>>)
    ensures Unique(Table(adapters))
  {
    if adapters != [] {
      var init := adapters[..|adapters| - 1];
      TableUnique(init);
      AbsorbKeepsUnique(Table(init), adapters[|adapters| - 1]);
      SortByTxKeepsUnique(Absorb(Table(init), adapters[|adapters| - 1]));
    }
  }

  /** After any adapter, the table is ranked by transmit power, `None` last. */
  lemma TableSorted(adapters: seq<seq<Observation>>)
    requires adapters != []
    ensures SortedDesc(Table(adapters))
  {
    SortByTxSorted(Absorb(Table(adapters[..|adapters| - 1]), adapters[|adapters| - 1]));
  }

  /**
   * Every peripheral of every adapter processed so far has a record: the
   * table spans all adapters.
   */
  lemma {:induction false} TableCovers(adapters: seq<seq<Observation>>)
    ensures forall a, p :: 0 <= a < |adapters| && 0 <= p < |adapters[a]| ==>
      HasAddr(Table(adapters), adapters[a][p].addr)
  {
    if adapters != [] {
      var init, last := adapters[..|adapters| - 1], adapters[|adapters| - 1];
      var absorbed := Absorb(Table(init), last);
      TableCovers(init);
      AbsorbCovers(Table(init), last);
      SortByTxPermutation(absorbed);
      forall a, p | 0 <= a < |adapters| && 0 <= p < |adapters[a]|
        ensures HasAddr(Table(adapters), adapters[a][p].addr)
      {
        if a < |adapters| - 1 {
          assert init[a] == adapters[a];
        }
        HasAddrMultiset(absorbed, Table(adapters), adapters[a][p].addr);
      }
    }
  }

  /**
   * The table after all adapters is the one a single run over all their
   * peripherals would build, ranked once: since every ranking is stable and
   * new rows go at the end, rows of equal power stand in the order their
   * addresses were first seen, over all adapters.
   */
  lemma {:induction false} TableIsAbsorbOfAll(adapters: seq<seq<Observation>>)
    ensures Table(adapters) == SortByTx(Absorb([], Flatten(adapters)))
    ensures multiset(Table(adapters)) == multiset(Absorb([], Flatten(adapters)))
  {
    if adapters != [] {
      var init, last := adapters[..|adapters| - 1], adapters[|adapters| - 1];
      var all := Absorb([], Flatten(init));
      TableIsAbsorbOfAll(init);
      SortByTxPermutation(all);
      // the rows the last adapter adds do not depend on the order of the table
      AbsorbAppends(all, last);
      var added := Absorb(all, last)[|all|..];
      AbsorbSuffix(all, Table(init), last);
      assert Absorb(all, last) == all + added;
      SortByTxAppend(all, added);
      AbsorbConcat([], Flatten(init), last);
    }
    SortByTxPermutation(Absorb([], Flatten(adapters)));
  }

  /**
   * First observation wins across all adapters: the record for an address is
   * the one built from the first peripheral, over all adapters in order, that
   * reported it.
   */
  lemma TableFirstWins(adapters: seq<seq<Observation>>, i: nat)
    requires i < |Flatten(adapters)|
    requires forall j :: 0 <= j < i ==> Flatten(adapters)[j].addr != Flatten(adapters)[i].addr
    ensures NewDevice(Flatten(adapters)[i]) in Table(adapters)
    ensures forall d :: d in Table(adapters) && d.macAddr == Flatten(adapters)[i].addr ==>
      d == NewDevice(Flatten(adapters)[i])
  {
    var all := Flatten(adapters);
    AbsorbFirstWins([], all, i);
    TableIsAbsorbOfAll(adapters);
    assert NewDevice(all[i]) in multiset(Absorb([], all));
    forall d | d in Table(adapters) && d.macAddr == all[i].addr ensures d == NewDevice(all[i]) {
      assert d in multiset(Table(adapters));
    }
  }

  /**
   * `main`'s adapter loop: one table for all adapters; each adapter's
   * peripherals are inserted if absent, then the table is ranked and
   * recorded (the `println!` after each adapter).
   */
  method Scan(adapters: seq<seq<Observation>>) returns (snapshots: seq<seq<Device>>)
    ensures |snapshots| == |adapters|
    ensures forall a :: 0 <= a < |adapters| ==> snapshots[a] == Table(adapters[..a + 1])
    ensures forall a :: 0 <= a < |adapters| ==> Unique(snapshots[a]) && SortedDesc(snapshots[a])
  {
    var table := new DeviceTable();
    snapshots := [];
    var a := 0;
    while a < |adapters|
      invariant 0 <= a <= |adapters|
      invariant table.Valid()
      invariant table.devices == Table(adapters[..a])
      invariant |snapshots| == a
      invariant forall b :: 0 <= b < a ==> snapshots[b] == Table(adapters[..b + 1])
    {
      ghost var before := table.devices;
      var peripherals := adapters[a];
      var p := 0;
      while p < |peripherals|
        invariant 0 <= p <= |peripherals|
        invariant table.Valid()
        invariant table.devices == Absorb(before, peripherals[..p])
      {
        assert peripherals[..p + 1][..p] == peripherals[..p];
        table.InsertIfAbsent(peripherals[p]);
        p := p + 1;
      }
      assert peripherals[..p] == peripherals;
      table.Rank();
      assert table.devices == Table(adapters[..a + 1]) by {
        assert adapters[..a + 1][..a] == adapters[..a];
        assert adapters[..a + 1][a] == peripherals;
      }
      ghost var earlier := snapshots;
      snapshots := snapshots + [table.devices];
      forall b | 0 <= b < a + 1 ensures snapshots[b] == Table(adapters[..b + 1]) {
        if b < a {
          assert snapshots[b] == earlier[b];
        }
      }
      a := a + 1;
    }
    forall b | 0 <= b < |adapters| ensures Unique(snapshots[b]) && SortedDesc(snapshots[b]) {
      TableUnique(adapters[..b + 1]);
      TableSorted(adapters[..b + 1]);
    }
  }

  /**
   * Two adapters both see address X, first without a name, then as "Foo" with
   * a power level: the table keeps the first record.
   */
  lemma FirstSeenExample()
    ensures
      var x: MacAddr := [0xAA, 0xBB, 0xCC, 0x11, 0x22, 0x33];
      Table([[Observation(x, None, None)], [Observation(x, Some("Foo"), Some(4))]])
        == [Device(x, "", None)]
  {
    var x: MacAddr := [0xAA, 0xBB, 0xCC, 0x11, 0x22, 0x33];
    var first: seq<Observation> := [Observation(x, None, None)];
    var second: seq<Observation> := [Observation(x, Some("Foo"), Some(4))];
    var one: seq<seq<Observation>> := [first];
    var both: seq<seq<Observation>> := [first, second];
    assert one[..0] == [] && one[0] == first;
    assert first[..0] == [] && |first| == 1 && first[0] == Observation(x, None, None);
    assert Absorb([], first) == [Device(x, "", None)];
    assert SortByTx([Device(x, "", None)]) == [Device(x, "", None)];
    assert Table(one) == [Device(x, "", None)];
    assert second[..0] == [] && |second| == 1;
    assert Device(x, "", None) in Table(one);
    assert Absorb(Table(one), second) == Table(one);
    assert both[..1] == one && both[1] == second;
    assert Table(both) == SortByTx(Table(one));
  }
}
