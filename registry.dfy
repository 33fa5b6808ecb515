/**
 * The device table of src/main.rs: a `Vec<Device>` that grows by
 * insert-if-absent, keyed by address, and is re-ranked in place after each
 * adapter's peripherals have been processed.
 *
 * `Observe` and `Absorb` say on values what one peripheral, and a run of
 * peripherals, do to the table; `DeviceTable` is the mutable table whose
 * methods are proved against them.
 */
module Registry {
  import opened Devices
  import opened Ranking

  /** The effect of one peripheral: append a new record unless its address is already present. */
  function Observe(t: seq<Device>, o: Observation): seq<Device> {
    if HasAddr(t, o.addr) then t else t + [NewDevice(o)]
  }

  /** The effect of processing `obs` in order, starting from table `t`. */
  function Absorb(t: seq<Device>, obs: seq<Observation>): (r: seq<Device>)
    ensures |t| <= |r| <= |t| + |obs|
  {
    if obs == [] then t else Observe(Absorb(t, obs[..|obs| - 1]), obs[|obs| - 1])
  }

  /** A known address leaves the table exactly as it was: the first record seen is kept. */
  lemma ObserveKnown(t: seq<Device>, o: Observation)
    requires HasAddr(t, o.addr)
    ensures Observe(t, o) == t
  {
  }

  /** A new address appends exactly one record at the end and changes nothing before it. */
  lemma ObserveNew(t: seq<Device>, o: Observation)
    requires !HasAddr(t, o.addr)
    ensures |Observe(t, o)| == |t| + 1
    ensures Observe(t, o)[..|t|] == t
    ensures Observe(t, o)[|t|] == NewDevice(o)
  {
  }

  /** One peripheral keeps addresses distinct and leaves its address in the table. */
  lemma ObserveKeepsUnique(t: seq<Device>, o: Observation)
    requires Unique(t)
    ensures Unique(Observe(t, o))
    ensures HasAddr(Observe(t, o), o.addr)
  {
  }

  /** Processing peripherals keeps addresses distinct. */
  lemma {:induction false} AbsorbKeepsUnique(t: seq<Device>, obs: seq<Observation>)
    requires Unique(t)
    ensures Unique(Absorb(t, obs))
  {
    if obs != [] {
      AbsorbKeepsUnique(t, obs[..|obs| - 1]);
      ObserveKeepsUnique(Absorb(t, obs[..|obs| - 1]), obs[|obs| - 1]);
    }
  }

  /** Processing only appends, at most one record per peripheral. */
  lemma {:induction false} AbsorbAppends(t: seq<Device>, obs: seq<Observation>)
    ensures |t| <= |Absorb(t, obs)| <= |t| + |obs|
    ensures Absorb(t, obs)[..|t|] == t
  {
    if obs != [] {
      var prev := Absorb(t, obs[..|obs| - 1]);
      AbsorbAppends(t, obs[..|obs| - 1]);
      if !HasAddr(prev, obs[|obs| - 1].addr) {
        ObserveNew(prev, obs[|obs| - 1]);
        assert Absorb(t, obs)[..|t|] == prev[..|t|];
      }
    }
  }

  /** Every address already present, and every address processed, is in the table afterwards. */
  lemma {:induction false} AbsorbCovers(t: seq<Device>, obs: seq<Observation>)
    ensures forall a :: HasAddr(t, a) ==> HasAddr(Absorb(t, obs), a)
    ensures forall i :: 0 <= i < |obs| ==> HasAddr(Absorb(t, obs), obs[i].addr)
  {
    if obs != [] {
      var init := obs[..|obs| - 1];
      var prev := Absorb(t, init);
      AbsorbCovers(t, init);
      AbsorbAppends(prev, [obs[|obs| - 1]]);
      assert Absorb(prev, [obs[|obs| - 1]]) == Absorb(t, obs) by {
        assert [obs[|obs| - 1]][..0] == [];
      }
      forall a | HasAddr(prev, a) ensures HasAddr(Absorb(t, obs), a) {
        var d :| d in prev && d.macAddr == a;
        assert d in Absorb(t, obs)[..|prev|];
      }
      forall i | 0 <= i < |obs| ensures HasAddr(Absorb(t, obs), obs[i].addr) {
        if i < |obs| - 1 {
          assert init[i] == obs[i];
        } else {
          if !HasAddr(prev, obs[i].addr) {
            assert NewDevice(obs[i]) in prev + [NewDevice(obs[i])];
          }
        }
      }
    }
  }

  /**
   * Nothing is invented: every record of the table was already in it or was
   * built from one of the processed peripherals.
   */
  lemma {:induction false} AbsorbOnlyObserved(t: seq<Device>, obs: seq<Observation>)
    ensures forall d :: d in Absorb(t, obs) ==>
      d in t || exists i :: 0 <= i < |obs| && d == NewDevice(obs[i])
  {
    if obs != [] {
      var init := obs[..|obs| - 1];
      AbsorbOnlyObserved(t, init);
      forall d | d in Absorb(t, obs)
        ensures d in t || exists i :: 0 <= i < |obs| && d == NewDevice(obs[i])
      {
        if d in Absorb(t, init) {
          if d !in t {
            var i :| 0 <= i < |init| && d == NewDevice(init[i]);
            assert d == NewDevice(obs[i]);
          }
        } else {
          assert d == NewDevice(obs[|obs| - 1]);
        }
      }
    }
  }

  /**
   * The first peripheral with a given address decides its record: when the
   * address was not in the table and no earlier peripheral had it, the record
   * built from `obs[i]` is in the table, and no other record has its address.
   */
  lemma {:induction false} AbsorbFirstWins(t: seq<Device>, obs: seq<Observation>, i: nat)
    requires Unique(t)
    requires i < |obs|
    requires !HasAddr(t, obs[i].addr)
    requires forall j :: 0 <= j < i ==> obs[j].addr != obs[i].addr
    ensures NewDevice(obs[i]) in Absorb(t, obs)
    ensures forall d :: d in Absorb(t, obs) && d.macAddr == obs[i].addr ==> d == NewDevice(obs[i])
  {
    var init, last := obs[..|obs| - 1], obs[|obs| - 1];
    var prev := Absorb(t, init);
    if i == |obs| - 1 {
      AbsorbOnlyObserved(t, init);
      assert !HasAddr(prev, last.addr) by {
        forall d | d in prev ensures d.macAddr != last.addr {
          if d !in t {
            var j :| 0 <= j < |init| && d == NewDevice(init[j]);
            assert init[j] == obs[j];
          }
        }
      }
      assert Absorb(t, obs) == prev + [NewDevice(last)];
    } else {
      assert init[i] == obs[i];
      AbsorbFirstWins(t, init, i);
      assert Absorb(t, obs) == prev || Absorb(t, obs) == prev + [NewDevice(last)];
    }
    AbsorbKeepsUnique(t, obs);
    UniqueRecordFor(Absorb(t, obs), NewDevice(obs[i]));
  }

  /** Processing two runs of peripherals is processing their concatenation. */
  lemma {:induction false} AbsorbConcat(t: seq<Device>, xs: seq<Observation>, ys: seq<Observation>)
    ensures Absorb(t, xs + ys) == Absorb(Absorb(t, xs), ys)
    decreases |ys|
  {
    if ys == [] {
      assert xs + ys == xs;
    } else {
      var zs := xs + ys;
      assert zs[..|zs| - 1] == xs + ys[..|ys| - 1];
      assert zs[|zs| - 1] == ys[|ys| - 1];
      AbsorbConcat(t, xs, ys[..|ys| - 1]);
    }
  }

  /** Insert-if-absent only looks at which records are present, not at their order. */
  lemma {:induction false} AbsorbPermutation(t: seq<Device>, u: seq<Device>, obs: seq<Observation>)
    requires multiset(t) == multiset(u)
    ensures multiset(Absorb(t, obs)) == multiset(Absorb(u, obs))
  {
    if obs != [] {
      var init, last := obs[..|obs| - 1], obs[|obs| - 1];
      AbsorbPermutation(t, u, init);
      HasAddrMultiset(Absorb(t, init), Absorb(u, init), last.addr);
    }
  }

  /**
   * The rows a run of peripherals appends depend only on which rows the table
   * already holds, not on their order.
   */
  lemma {:induction false} AbsorbSuffix(t: seq<Device>, u: seq<Device>, obs: seq<Observation>)
    requires multiset(t) == multiset(u)
    ensures Absorb(u, obs) == u + Absorb(t, obs)[|t|..]
  {
    assert |t| == |multiset(t)| == |multiset(u)| == |u|;
    AbsorbAppends(t, obs);
    if obs != [] {
      var init, last := obs[..|obs| - 1], obs[|obs| - 1];
      var pt, pu := Absorb(t, init), Absorb(u, init);
      AbsorbSuffix(t, u, init);
      AbsorbAppends(t, init);
      AbsorbPermutation(t, u, init);
      HasAddrMultiset(pt, pu, last.addr);
      assert pt == t + pt[|t|..];
      if !HasAddr(pt, last.addr) {
        assert (pt + [NewDevice(last)])[|t|..] == pt[|t|..] + [NewDevice(last)];
      }
    }
  }

  /** In a table with distinct addresses, a record is the only one with its address. */
  lemma UniqueRecordFor(s: seq<Device>, e: Device)
    requires Unique(s)
    requires e in s
    ensures forall d :: d in s && d.macAddr == e.macAddr ==> d == e
  {
  }

  /** The device table of one scanning run, created empty before the adapter loop. */
  class DeviceTable {
    var devices: seq<Device>

    /** The table never holds two records with the same address. */
    ghost predicate Valid()
      reads this
    {
      Unique(devices)
    }

    constructor ()
      ensures Valid()
      ensures devices == []
    {
      devices := [];
    }

    /** `device_table.iter().any(|d| d.mac_addr == addr)`: a linear scan. */
    method Contains(addr: MacAddr) returns (found: bool)
      ensures found <==> exists i :: 0 <= i < |devices| && devices[i].macAddr == addr
    {
      var i := 0;
      found := false;
      while i < |devices|
        invariant 0 <= i <= |devices|
        invariant forall m :: 0 <= m < i ==> devices[m].macAddr != addr
      {
        if devices[i].macAddr == addr {
          found := true;
          return;
        }
        i := i + 1;
      }
    }

    /**
     * One peripheral: push a new record unless a record with the same address
     * is already there, in which case the table is left exactly as it was.
     */
    method InsertIfAbsent(o: Observation)
      requires Valid()
      modifies this
      ensures Valid()
      ensures devices == Observe(old(devices), o)
      ensures HasAddr(old(devices), o.addr) ==> devices == old(devices)
      ensures !HasAddr(old(devices), o.addr) ==> devices == old(devices) + [NewDevice(o)]
    {
      var present := Contains(o.addr);
      assert present == HasAddr(devices, o.addr) by {
        if HasAddr(devices, o.addr) {
          var d :| d in devices && d.macAddr == o.addr;
        }
      }
      if !present {
        UniqueSnoc(devices, NewDevice(o));
        devices := devices + [NewDevice(o)];
      }
    }

    /**
     * `device_table.sort_by(|a, b| b.tx.cmp(&a.tx))`: a stable in-place
     * sort, highest transmit power first, here by insertion with adjacent swaps.
     */
    method Rank()
      requires Valid()
      modifies this
      ensures Valid()
      ensures devices == SortByTx(old(devices))
      ensures multiset(devices) == multiset(old(devices))
    {
      ghost var input := devices;
      var n := |devices|;
      var i := 0;
      while i < n
        invariant 0 <= i <= n && |devices| == n
        invariant forall a, b :: 0 <= a < b < i ==> TxLe(devices[b].tx, devices[a].tx)
        invariant Stable(input, devices)
      {
        var j := i;
        while j > 0 && TxLt(devices[j - 1].tx, devices[j].tx)
          invariant 0 <= j <= i && |devices| == n
          invariant forall a, b :: 0 <= a < b <= i && a != j && b != j ==> TxLe(devices[b].tx, devices[a].tx)
          invariant forall b :: j < b <= i ==> TxLt(devices[b].tx, devices[j].tx)
          invariant Stable(input, devices)
        {
          SwapKeepsWithTx(devices, j);
          devices := devices[j - 1 := devices[j]][j := devices[j - 1]];
          j := j - 1;
        }
        i := i + 1;
      }
      StableSortIsSortByTx(input, devices);
      SortByTxPermutation(input);
      SortByTxKeepsUnique(input);
    }
  }
}
