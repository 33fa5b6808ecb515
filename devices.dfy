/**
 * The data model of the scanner: Bluetooth device addresses, advertised
 * properties as the adapter reports them, and the `Device` record that the
 * device table holds (src/main.rs, `struct Device`).
 */
module Devices {

  /** Rust's `Option`. */
  datatype Option<T> = None | Some(value: T)

  /** One octet of a device address. */
  type Octet = x: int | 0 <= x < 0x100

  /** A 48-bit Bluetooth device address (btleplug's `BDAddr`, six octets). */
  type MacAddr = s: seq<Octet> | |s| == 6 witness [0, 0, 0, 0, 0, 0]

  /** Rust's `i16`, the type of an advertised transmit power level. */
  type I16 = x: int | -0x8000 <= x < 0x8000

  /** One row of the device table: address, advertised name, transmit power. */
  datatype Device = Device(macAddr: MacAddr, localName: string, tx: Option<I16>)

  /**
   * What the adapter reports for one visible peripheral: its address and the
   * two advertised properties the table keeps (`local_name`, `tx_power_level`).
   */
  datatype Observation = Observation(addr: MacAddr, localName: Option<string>, txPowerLevel: Option<I16>)

  /** `Option<String>::unwrap_or_default`: a missing name is the empty string. */
  function NameOrDefault(name: Option<string>): string {
    match name
    case Some(n) => n
    case None => ""
  }

  /** The record built for a newly seen peripheral. */
  function NewDevice(o: Observation): Device {
    Device(o.addr, NameOrDefault(o.localName), o.txPowerLevel)
  }

  /** Some entry of `s` has address `a`. */
  predicate HasAddr(s: seq<Device>, a: MacAddr) {
    exists d :: d in s && d.macAddr == a
  }

  /** No two entries of `s` share an address. */
  predicate Unique(s: seq<Device>) {
    forall i, j :: 0 <= i < j < |s| ==> s[i].macAddr != s[j].macAddr
  }

  /** The advertised name, or "" when there is none, and the transmit power unchanged. */
  lemma NewDeviceFields(o: Observation)
    ensures NewDevice(o).macAddr == o.addr
    ensures o.localName.Some? ==> NewDevice(o).localName == o.localName.value
    ensures o.localName.None? ==> NewDevice(o).localName == ""
    ensures NewDevice(o).tx == o.txPowerLevel
  {
  }

  /** Prepending a device keeps addresses distinct exactly when its address is new. */
  lemma UniqueCons(d: Device, s: seq<Device>)
    ensures Unique([d] + s) <==> !HasAddr(s, d.macAddr) && Unique(s)
  {
    var r := [d] + s;
    if Unique(r) {
      forall e | e in s ensures e.macAddr != d.macAddr {
        var j :| 0 <= j < |s| && s[j] == e;
        assert r[0] == d && r[j + 1] == e;
      }
      forall i, j | 0 <= i < j < |s| ensures s[i].macAddr != s[j].macAddr {
        assert r[i + 1] == s[i] && r[j + 1] == s[j];
      }
    }
    if !HasAddr(s, d.macAddr) && Unique(s) {
      forall i, j | 0 <= i < j < |r| ensures r[i].macAddr != r[j].macAddr {
        assert r[j] == s[j - 1];
        if i == 0 {
          assert r[j] in s;
        } else {
          assert r[i] == s[i - 1];
        }
      }
    }
  }

  /** Appending a device keeps addresses distinct exactly when its address is new. */
  lemma UniqueSnoc(s: seq<Device>, d: Device)
    ensures Unique(s + [d]) <==> Unique(s) && !HasAddr(s, d.macAddr)
  {
    var r := s + [d];
    if Unique(r) {
      forall e | e in s ensures e.macAddr != d.macAddr {
        var i :| 0 <= i < |s| && s[i] == e;
        assert r[i] == e && r[|s|] == d;
      }
      forall i, j | 0 <= i < j < |s| ensures s[i].macAddr != s[j].macAddr {
        assert r[i] == s[i] && r[j] == s[j];
      }
    }
    if Unique(s) && !HasAddr(s, d.macAddr) {
      forall i, j | 0 <= i < j < |r| ensures r[i].macAddr != r[j].macAddr {
        assert r[i] == s[i];
        if j == |s| {
          assert r[i] in s;
        } else {
          assert r[j] == s[j];
        }
      }
    }
  }

  /** Entries that agree as a multiset have the same addresses. */
  lemma HasAddrMultiset(s: seq<Device>, t: seq<Device>, a: MacAddr)
    requires multiset(s) == multiset(t)
    ensures HasAddr(s, a) <==> HasAddr(t, a)
  {
    if HasAddr(s, a) {
      var d :| d in s && d.macAddr == a;
      assert d in multiset(s);
    }
    if HasAddr(t, a) {
      var d :| d in t && d.macAddr == a;
      assert d in multiset(t);
    }
  }
}
