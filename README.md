# whosaround: the device table, in Dafny

`whosaround` scans for Bluetooth Low Energy peripherals on every adapter of the
host. It keeps one table of the devices it has seen. Each row holds the
device's hardware address, its advertised local name and its advertised
transmit power level. This project models that table and proves its
properties:

- **Insert-if-absent, keyed by address.** For each visible peripheral, a new
  row is pushed only when no row has the same address. The first
  observation wins: a later observation of a known address changes nothing.
  A missing name becomes `""`. The transmit power is kept as advertised,
  `None` included.
- **One table for all adapters.** The table is created once, before the
  adapter loop. Deduplication therefore spans all adapters.
- **Ranking.** After each adapter, the table is sorted in place by transmit
  power, highest first, by a stable sort. The comparator is
  `b.tx.cmp(&a.tx)` on `Option<i16>`. In Rust's order on `Option`, `None` is
  below every `Some`, so rows without a power level come last.

Files (one module each):

- `devices.dfy` (`Devices`): the address, `i16` and `Option` types, the
  `Device` record, the adapter's `Observation` of a peripheral,
  `NewDevice`, and the predicates `HasAddr` and `Unique` (no two rows share an
  address).
- `ranking.dfy` (`Ranking`): the `Option<i16>` order (`TxLe`), "descending"
  (`SortedDesc`), stability, stated as "for every power `k`, the
  subsequence of rows with power `k` is unchanged" (`WithTx`, `Stable`), and
  a reference stable sort `SortByTx`. `SortedStableUnique` proves that only
  one arrangement is both descending and stable. So every stable sort with
  this comparator gives `SortByTx`, whichever algorithm it uses.
- `registry.dfy` (`Registry`): `Observe` and `Absorb` give, as values, the
  effect of one peripheral and of a run of peripherals. The class
  `DeviceTable` is the mutable `Vec`:
  - `Contains` is the linear `any` scan.
  - `InsertIfAbsent` is the check and the push.
  - `Rank` is the in-place sort, done by insertion with adjacent swaps and
    proved equal to `SortByTx`.
- `scanner.dfy` (`Scanner`): `Table` gives, as a value, the table after a
  sequence of adapters. `Scan` is `main`'s adapter loop, built on a
  `DeviceTable`. It returns the table printed after each adapter.

The radio is not modelled. `Scan` receives, for each adapter in the order
btleplug lists them, the sequence of observations of its visible peripherals
in enumeration order. Each observation holds the peripheral's address and its
already-fetched `local_name` and `tx_power_level`.

A later observation of a known address changes nothing. There is no vendor
or service lookup, and ranking uses the advertised transmit power. The
program makes a single pass over the adapters and does not repeat the scan.

## Model

| member | source | states |
|---|---|---|
| `Devices.NewDeviceFields` | src/main.rs:39-45 | a new row has the peripheral's address, the advertised name or `""` when none was advertised, and the advertised transmit power unchanged |
| `Ranking.TxLeTotalOrder` | src/main.rs:51 | the `Option<i16>` order the comparator uses (`None` below every `Some`) is reflexive, total, antisymmetric and transitive |
| `Ranking.SortedDescNoneLast` | src/main.rs:51 | in a ranked table, every row without a power level comes after every row with one, and the `Some` values are non-increasing |
| `Ranking.SortByTxSorted` | src/main.rs:51 | the sort's output is non-increasing in transmit power under `Option` order |
| `Ranking.SortByTxPermutation` | src/main.rs:51 | the sort's output is a permutation of its input (same multiset of rows) |
| `Ranking.SortByTxStable` | src/main.rs:51 | the sort is stable: for every power level, including `None`, the rows with that power keep their relative order |
| `Ranking.SortByTxKeepsUnique` | src/main.rs:51 | sorting a table whose addresses are distinct leaves them distinct |
| `Ranking.SortedStableUnique` | src/main.rs:51 | two descending sequences with the same rows, in the same order, for every power level are equal, so the stable descending order is unique |
| `Ranking.StableSortIsSortByTx` | src/main.rs:51 | any descending, stable rearrangement of a table is the reference sort of that table |
| `Ranking.SortByTxAppend` | src/main.rs:46-51 | ranking a ranked table with rows pushed at its end gives the same table as ranking the original rows and the pushed ones at once |
| `Ranking.RankingExample` | src/main.rs:51 | rows at -70, -70, -90 dBm and one without power, given as D, B, C, A, rank as B, A, C, D |
| `Registry.ObserveKnown` | src/main.rs:43 | a peripheral whose address is already in the table leaves the table exactly unchanged, so the first name and power seen are kept |
| `Registry.ObserveNew` | src/main.rs:43-46 | a peripheral with a new address appends exactly one row, its own, at the end, and every earlier row is unchanged |
| `Registry.ObserveKeepsUnique` | src/main.rs:43-46 | one peripheral keeps addresses distinct, and its address is in the table afterwards |
| `Registry.AbsorbKeepsUnique` | src/main.rs:38-47 | after any sequence of peripherals, no two rows share an address |
| `Registry.AbsorbAppends` | src/main.rs:38-47 | processing peripherals only appends: the old table is a prefix of the new one, which is at most one row per peripheral longer |
| `Registry.AbsorbCovers` | src/main.rs:38-47 | every address already present and every address processed is in the table afterwards |
| `Registry.AbsorbOnlyObserved` | src/main.rs:38-47 | every row afterwards was already in the table or was built from one of the processed peripherals |
| `Registry.AbsorbFirstWins` | src/main.rs:38-47 | the first peripheral with a new address decides that address's row, and no other row has that address |
| `Registry.DeviceTable.constructor` | src/main.rs:28 | the table starts empty, with distinct addresses trivially |
| `Registry.DeviceTable.Contains` | src/main.rs:43 | the linear scan answers true exactly when some row has the given address |
| `Registry.DeviceTable.InsertIfAbsent` | src/main.rs:40-47 | a known address leaves the table unchanged; a new one pushes the row built from the peripheral; distinct addresses are kept |
| `Registry.DeviceTable.Rank` | src/main.rs:51 | the in-place sort leaves the table equal to the reference stable descending sort of its old contents, a permutation with distinct addresses |
| `Registry.AbsorbConcat` | src/main.rs:30-50 | processing two runs of peripherals, one after the other, is processing their concatenation |
| `Registry.AbsorbPermutation` | src/main.rs:43-46 | insert-if-absent depends only on which rows are present, not on their order |
| `Registry.AbsorbSuffix` | src/main.rs:38-47 | the rows a run of peripherals appends depend only on which rows the table already holds, not on their order |
| `Scanner.TableUnique` | src/main.rs:28-51 | after any number of adapters, no two rows share an address |
| `Scanner.TableSorted` | src/main.rs:51 | after each adapter, the table is ranked by transmit power, `None` last |
| `Scanner.TableCovers` | src/main.rs:28-47 | every peripheral of every adapter processed so far has a row: deduplication spans all adapters |
| `Scanner.TableIsAbsorbOfAll` | src/main.rs:28-51 | the table after all adapters equals one run over all their peripherals, ranked once, so rows of equal power stand in first-seen order across all adapters |
| `Scanner.TableFirstWins` | src/main.rs:28-47 | across all adapters, the row for an address is the one built from the first peripheral that reported it |
| `Scanner.FirstSeenExample` | src/main.rs:38-51 | an address first seen without name or power, then seen again as "Foo" on a second adapter, keeps its first row |
| `Scanner.Scan` | src/main.rs:28-56 | the adapter loop yields one table per adapter, equal to `Table` of the adapters so far; each has distinct addresses and is ranked |

## Left out

- Manager creation, adapter enumeration, `adapter_info`, `start_scan`, `peripherals()` and `properties()` are calls into btleplug's radio transport. Their results are the input sequence of `Scan`.
- The `?` early returns and the `expect` and `unwrap` panics are not modelled. In the source, a failing transport call or a peripheral without properties ends the whole program. The model assumes every call succeeds and every peripheral has properties.
- The tokio runtime, the ten-second `time::sleep` after `start_scan`, and `pretty_env_logger` are left out. They have no logical content.
- The `println!` and `eprintln!` output is not modelled as text. The table printed after each adapter is returned by `Scan` as `snapshots`.
- `DeviceTable.Rank` is an insertion sort. Rust's `sort_by` is a stable sort whose algorithm is the library's choice. `StableSortIsSortByTx` shows that every stable sort with this comparator gives the same result. The model does not capture the library's memory use or its comparison count.
- The `Vec`'s buffer and reallocation are not modelled. The table is a `seq` field that the methods reassign.
