/**
 * Ranking of the device table: `device_table.sort_by(|a, b| b.tx.cmp(&a.tx))`
 * (src/main.rs). The table is ordered by transmit power, highest first, under
 * Rust's order on `Option<i16>`, and the sort is stable.
 *
 * `SortByTx` is a reference stable sort (insertion from the front). The
 * lemmas show that it is descending, a permutation, stable, and the only
 * arrangement that is both descending and stable, so any stable sort with
 * this comparator, in place or not, produces exactly `SortByTx`.
 */
module Ranking {
  import opened Devices

  /** Rust's derived `Ord` on `Option<i16>`: `None` is below every `Some`. */
  predicate TxLe(a: Option<I16>, b: Option<I16>) {
    a.None? || (b.Some? && a.value <= b.value)
  }

  /** Strictly below in the same order. */
  predicate TxLt(a: Option<I16>, b: Option<I16>) {
    !TxLe(b, a)
  }

  /** Non-increasing transmit power from front to back. */
  predicate SortedDesc(s: seq<Device>) {
    forall i, j :: 0 <= i < j < |s| ==> TxLe(s[j].tx, s[i].tx)
  }

  /** The devices of `s` whose transmit power is `k`, in the order of `s`. */
  function WithTx(s: seq<Device>, k: Option<I16>): seq<Device> {
    if s == [] then []
    else (if s[0].tx == k then [s[0]] else []) + WithTx(s[1..], k)
  }

  /** `r` keeps, for every transmit power, the relative order of those devices in `s`. */
  ghost predicate Stable(s: seq<Device>, r: seq<Device>) {
    forall k :: WithTx(r, k) == WithTx(s, k)
  }

  /** Places `x` before the first device whose power is not above its own. */
  function InsertByTx(x: Device, s: seq<Device>): seq<Device> {
    if s == [] || TxLe(s[0].tx, x.tx) then [x] + s
    else [s[0]] + InsertByTx(x, s[1..])
  }

  /** The reference stable descending sort by transmit power. */
  function SortByTx(s: seq<Device>): seq<Device> {
    if s == [] then [] else InsertByTx(s[0], SortByTx(s[1..]))
  }

  /** `Option<i16>` order is total and transitive. */
  lemma TxLeTotalOrder(a: Option<I16>, b: Option<I16>, c: Option<I16>)
    ensures TxLe(a, a)
    ensures TxLe(a, b) || TxLe(b, a)
    ensures TxLe(a, b) && TxLe(b, a) ==> a == b
    ensures TxLe(a, b) && TxLe(b, c) ==> TxLe(a, c)
  {
  }

  /** In a descending table, every device without a power comes after every device with one. */
  lemma SortedDescNoneLast(s: seq<Device>, i: nat, j: nat)
    requires SortedDesc(s)
    requires i < j < |s|
    ensures s[i].tx.None? ==> s[j].tx.None?
    ensures s[i].tx.Some? && s[j].tx.Some? ==> s[j].tx.value <= s[i].tx.value
  {
  }

  lemma {:induction false} WithTxAppend(s: seq<Device>, t: seq<Device>, k: Option<I16>)
    ensures WithTx(s + t, k) == WithTx(s, k) + WithTx(t, k)
  {
    if s == [] {
      assert s + t == t;
    } else {
      assert (s + t)[0] == s[0];
      assert (s + t)[1..] == s[1..] + t;
      WithTxAppend(s[1..], t, k);
    }
  }

  /** `WithTx` picks out exactly the devices of `s` with power `k`. */
  lemma {:induction false} WithTxMembers(s: seq<Device>, k: Option<I16>)
    ensures forall e :: e in WithTx(s, k) <==> e in s && e.tx == k
  {
    if s != [] {
      WithTxMembers(s[1..], k);
      assert forall e :: e in s <==> e == s[0] || e in s[1..];
    }
  }

  /** Exchanging two neighbours with different powers keeps every `WithTx` subsequence. */
  lemma SwapKeepsWithTx(s: seq<Device>, j: nat)
    requires 0 < j < |s|
    requires s[j - 1].tx != s[j].tx
    ensures Stable(s, s[j - 1 := s[j]][j := s[j - 1]])
  {
    var r := s[j - 1 := s[j]][j := s[j - 1]];
    var pre, post := s[..j - 1], s[j + 1..];
    assert s == pre + [s[j - 1], s[j]] + post;
    assert r == pre + [s[j], s[j - 1]] + post;
    forall k ensures WithTx(r, k) == WithTx(s, k) {
      WithTxAppend(pre + [s[j - 1], s[j]], post, k);
      WithTxAppend(pre, [s[j - 1], s[j]], k);
      WithTxAppend(pre + [s[j], s[j - 1]], post, k);
      WithTxAppend(pre, [s[j], s[j - 1]], k);
      WithTxAppend([s[j - 1]], [s[j]], k);
      WithTxAppend([s[j]], [s[j - 1]], k);
    }
  }

  lemma {:induction false} InsertByTxMultiset(x: Device, s: seq<Device>)
    ensures multiset(InsertByTx(x, s)) == multiset(s) + multiset{x}
  {
    if s != [] && !TxLe(s[0].tx, x.tx) {
      InsertByTxMultiset(x, s[1..]);
      assert s == [s[0]] + s[1..];
    }
  }

  /** Inserting into a descending sequence keeps it descending. */
  lemma {:induction false} InsertByTxSorted(x: Device, s: seq<Device>)
    requires SortedDesc(s)
    ensures SortedDesc(InsertByTx(x, s))
  {
    if s != [] && !TxLe(s[0].tx, x.tx) {
      var rest := InsertByTx(x, s[1..]);
      InsertByTxSorted(x, s[1..]);
      InsertByTxMultiset(x, s[1..]);
      var r := [s[0]] + rest;
      forall i, j | 0 <= i < j < |r| ensures TxLe(r[j].tx, r[i].tx) {
        if i == 0 {
          assert r[j] == rest[j - 1];
          assert r[j] in multiset(rest);
          if r[j] != x {
            assert r[j] in s[1..];
            var m :| 0 <= m < |s[1..]| && s[1..][m] == r[j];
            assert s[m + 1] == r[j];
          }
        } else {
          assert r[i] == rest[i - 1] && r[j] == rest[j - 1];
        }
      }
    }
  }

  /**
   * The device inserted by `InsertByTx` comes after none of the devices with its
   * own power: it heads their subsequence, and the others are untouched.
   */
  lemma {:induction false} InsertByTxWithTx(x: Device, s: seq<Device>, k: Option<I16>)
    ensures WithTx(InsertByTx(x, s), k) == (if x.tx == k then [x] else []) + WithTx(s, k)
  {
    var r := InsertByTx(x, s);
    if s == [] || TxLe(s[0].tx, x.tx) {
      assert r[0] == x && r[1..] == s;
    } else {
      InsertByTxWithTx(x, s[1..], k);
      assert r[0] == s[0] && r[1..] == InsertByTx(x, s[1..]);
      assert s[0].tx != x.tx;
    }
  }

  /** The reference sort is descending by transmit power. */
  lemma {:induction false} SortByTxSorted(s: seq<Device>)
    ensures SortedDesc(SortByTx(s))
  {
    if s != [] {
      SortByTxSorted(s[1..]);
      InsertByTxSorted(s[0], SortByTx(s[1..]));
    }
  }

  /** The reference sort is a permutation of its input. */
  lemma {:induction false} SortByTxPermutation(s: seq<Device>)
    ensures multiset(SortByTx(s)) == multiset(s)
  {
    if s != [] {
      SortByTxPermutation(s[1..]);
      InsertByTxMultiset(s[0], SortByTx(s[1..]));
      assert s == [s[0]] + s[1..];
    }
  }

  /** The reference sort is stable: devices of equal power keep their order. */
  lemma {:induction false} SortByTxStable(s: seq<Device>)
    ensures Stable(s, SortByTx(s))
  {
    if s != [] {
      SortByTxStable(s[1..]);
      forall k ensures WithTx(SortByTx(s), k) == WithTx(s, k) {
        InsertByTxWithTx(s[0], SortByTx(s[1..]), k);
      }
    }
  }

  /** Inserting a device whose address is new keeps addresses distinct. */
  lemma {:induction false} InsertByTxKeepsUnique(x: Device, s: seq<Device>)
    requires Unique(s) && !HasAddr(s, x.macAddr)
    ensures Unique(InsertByTx(x, s))
  {
    if s == [] || TxLe(s[0].tx, x.tx) {
      UniqueCons(x, s);
    } else {
      var rest := InsertByTx(x, s[1..]);
      assert s == [s[0]] + s[1..];
      UniqueCons(s[0], s[1..]);
      assert !HasAddr(s[1..], x.macAddr);
      InsertByTxKeepsUnique(x, s[1..]);
      InsertByTxMultiset(x, s[1..]);
      assert multiset(rest) == multiset([x] + s[1..]);
      HasAddrMultiset(rest, [x] + s[1..], s[0].macAddr);
      assert !HasAddr([x] + s[1..], s[0].macAddr);
      UniqueCons(s[0], rest);
    }
  }

  /** Ranking keeps addresses distinct. */
  lemma {:induction false} SortByTxKeepsUnique(s: seq<Device>)
    requires Unique(s)
    ensures Unique(SortByTx(s))
  {
    if s != [] {
      assert s == [s[0]] + s[1..];
      UniqueCons(s[0], s[1..]);
      SortByTxKeepsUnique(s[1..]);
      SortByTxPermutation(s[1..]);
      HasAddrMultiset(SortByTx(s[1..]), s[1..], s[0].macAddr);
      InsertByTxKeepsUnique(s[0], SortByTx(s[1..]));
    }
  }

  /** The head of a descending sequence is not below any of its devices. */
  lemma SortedHeadIsMax(s: seq<Device>, e: Device)
    requires SortedDesc(s)
    requires e in s
    ensures TxLe(e.tx, s[0].tx)
  {
  }

  /**
   * A descending, stable arrangement is unique: two descending sequences with
   * the same subsequence for every transmit power are equal.
   */
  lemma {:induction false} SortedStableUnique(a: seq<Device>, b: seq<Device>)
    requires SortedDesc(a) && SortedDesc(b)
    requires forall k :: WithTx(a, k) == WithTx(b, k)
    ensures a == b
    decreases |a|
  {
    if a == [] || b == [] {
      assert a != [] ==> WithTx(a, a[0].tx) != [];
      assert b != [] ==> WithTx(b, b[0].tx) != [];
    } else {
      var ka, kb := a[0].tx, b[0].tx;
      // each head occurs in the other sequence, so neither is above the other
      WithTxMembers(a, kb);
      WithTxMembers(b, ka);
      assert b[0] in WithTx(b, kb);
      assert a[0] in WithTx(a, ka);
      SortedHeadIsMax(a, b[0]);
      SortedHeadIsMax(b, a[0]);
      TxLeTotalOrder(ka, kb, ka);
      assert ka == kb;
      assert WithTx(a, ka) == [a[0]] + WithTx(a[1..], ka);
      assert WithTx(b, ka) == [b[0]] + WithTx(b[1..], ka);
      assert a[0] == WithTx(a, ka)[0] == WithTx(b, ka)[0] == b[0];
      forall k ensures WithTx(a[1..], k) == WithTx(b[1..], k) {
        var head := if a[0].tx == k then [a[0]] else [];
        assert WithTx(a, k) == head + WithTx(a[1..], k);
        assert WithTx(b, k) == head + WithTx(b[1..], k);
        assert WithTx(a[1..], k) == WithTx(a, k)[|head|..];
        assert WithTx(b[1..], k) == WithTx(b, k)[|head|..];
      }
      SortedStableUnique(a[1..], b[1..]);
      assert a == [a[0]] + a[1..] && b == [b[0]] + b[1..];
    }
  }

  /** Every stable, descending rearrangement of `s` is the reference sort of `s`. */
  lemma StableSortIsSortByTx(s: seq<Device>, r: seq<Device>)
    requires SortedDesc(r)
    requires Stable(s, r)
    ensures r == SortByTx(s)
  {
    SortByTxSorted(s);
    SortByTxStable(s);
    SortedStableUnique(r, SortByTx(s));
  }
  /**
   * Ranking a ranked table with rows appended is ranking the original rows and
   * the appended ones at once.
   */
  lemma SortByTxAppend(s: seq<Device>, t: seq<Device>)
    ensures SortByTx(SortByTx(s) + t) == SortByTx(s + t)
  {
    var r := SortByTx(SortByTx(s) + t);
    SortByTxSorted(SortByTx(s) + t);
    SortByTxStable(SortByTx(s) + t);
    SortByTxStable(s);
    forall k ensures WithTx(r, k) == WithTx(s + t, k) {
      WithTxAppend(SortByTx(s), t, k);
      WithTxAppend(s, t, k);
    }
    StableSortIsSortByTx(s + t, r);
  }


  /**
   * Devices at -70, -70, -90 dBm and one without a power level, given in the
   * order D, B, C, A: the two at -70 keep their order, D goes last.
   */
  lemma RankingExample()
    ensures
      var a := Device([0, 0, 0, 0, 0, 1], "A", Some(-70));
      var b := Device([0, 0, 0, 0, 0, 2], "B", Some(-70));
      var c := Device([0, 0, 0, 0, 0, 3], "C", Some(-90));
      var d := Device([0, 0, 0, 0, 0, 4], "D", None);
      SortByTx([d, b, c, a]) == [b, a, c, d]
  {
    var a := Device([0, 0, 0, 0, 0, 1], "A", Some(-70));
    var b := Device([0, 0, 0, 0, 0, 2], "B", Some(-70));
    var c := Device([0, 0, 0, 0, 0, 3], "C", Some(-90));
    var d := Device([0, 0, 0, 0, 0, 4], "D", None);
    assert [d, b, c, a][1..] == [b, c, a] && [b, c, a][1..] == [c, a] && [c, a][1..] == [a];
    assert SortByTx([a]) == [a];
    assert [a][1..] == [];
    assert InsertByTx(c, []) == [c];
    assert InsertByTx(c, [a]) == [a, c];
    assert SortByTx([c, a]) == [a, c];
    assert SortByTx([b, c, a]) == [b, a, c];
    assert [b, a, c][1..] == [a, c] && [a, c][1..] == [c] && [c][1..] == [];
    assert InsertByTx(d, [c]) == [c, d];
    assert InsertByTx(d, [a, c]) == [a, c, d];
  }
}
