/** The working buffer of content objects in src/lib/cef_csmgr.c: a direct-mapped table
    (src/lib/cef_hash.c) where a new object evicts whatever shares its slot. */
module CobBuffer {
  import opened Bytes
  import opened Constants
  import opened OpenTable

  type Version = seq<byte>      // empty: no version

  datatype Order = Inconsistent | Same | Newest1 | Newest2

  /** memcmp on strings of one length: `a` comes before `b`. */
  predicate Less(a: Version, b: Version) {
    a != [] && b != [] && (a[0] < b[0] || (a[0] == b[0] && Less(a[1..], b[1..])))
  }

  /** Versions that can be compared without reading past the end of the shorter one. */
  predicate Comparable(a: Version, b: Version) {
    |a| == |b| || a == [] || b == []
  }

  function Compare(a: Version, b: Version): (r: Order)
    requires Comparable(a, b)
  {
    if (a == []) != (b == []) then Inconsistent
    else if a == b then Same
    else if Less(b, a) then Newest1
    else Newest2
  }

  /** On strings of one length memcmp orders the numbers they stand for. */
  lemma {:induction false} LessValue(a: Version, b: Version)
    requires |a| == |b|
    ensures Less(a, b) <==> Value(a) < Value(b)
  {
    if a != [] {
      ValueOrder(a, b);
      if b[0] < a[0] {
        ValueOrder(b, a);
      } else if a[0] == b[0] {
        LessValue(a[1..], b[1..]);
      }
    }
  }

  /** The answers of a comparison: inconsistent exactly when one version is empty, and otherwise the
      version that stands for the larger number is the newer one. */
  lemma CompareOrders(a: Version, b: Version)
    requires Comparable(a, b)
    ensures Compare(a, b) == Inconsistent <==> |a| != |b|
    ensures Compare(a, b) == Newest1 <==> |a| == |b| && Value(a) > Value(b)
    ensures Compare(a, b) == Same <==> |a| == |b| && Value(a) == Value(b)
    ensures Compare(a, b) == Newest2 <==> |a| == |b| && Value(a) < Value(b)
  {
    if |a| == |b| {
      LessValue(a, b);
      LessValue(b, a);
      if Value(a) == Value(b) {
        ValueUnique(a, b);
      }
    }
  }

  datatype Cob = Cob(msg: seq<byte>, version: Version, expiry: nat)

  class CobBuffer {
    const h: Key -> nat
    const tbl: array<Slot<Cob>>
    const cacheTime: nat                       // buffer_cache_time
    const versionLen: nat                      // the length of every version that is not empty
    ghost var accepted: map<Key, Cob>          // the last object accepted for each name
    ghost var line: map<Key, seq<Version>>     // its versions since the name became resident

    ghost predicate Valid()
      reads this, tbl
    {
      && 0 < tbl.Length
      && forall q | 0 <= q < tbl.Length && tbl[q].Live? ::
           var k := tbl[q].key;
           && tbl[q].hash == h(k) && Home(h, k, tbl.Length) == q
           && k in accepted && accepted[k] == tbl[q].elem
           && k in line && InLine(line[k], tbl[q].elem.version)
    }

    /** The versions never went backwards, and the last is the current one. */
    static ghost predicate InLine(vs: seq<Version>, current: Version)
    {
      && vs != [] && vs[|vs| - 1] == current
      && (forall i | 0 <= i < |vs| :: |vs[i]| == |current|)
      && (forall i, j | 0 <= i < j < |vs| :: Value(vs[i]) <= Value(vs[j]))
    }

    ghost predicate Resident(name: Key)
      reads this, tbl
      requires 0 < tbl.Length
    {
      var s := tbl[Home(h, name, tbl.Length)];
      s.Live? && s.key == name
    }

    predicate VersionOk(v: Version) {
      v == [] || |v| == versionLen
    }

    constructor (h: Key -> nat, size: nat, cacheTime: nat, versionLen: nat)
      requires 0 < size
      ensures Valid() && fresh(tbl) && tbl.Length == size && this.versionLen == versionLen
      ensures accepted == map[]
    {
      this.h, this.cacheTime, this.versionLen := h, cacheTime, versionLen;
      tbl := new Slot<Cob>[size](_ => Empty);
      accepted, line := map[], map[];
    }

    /** `cef_hash_tbl_item_get_prg`. */
    method GetPrg(name: Key) returns (r: Option<Cob>)
      requires Valid()
      ensures r == if |name| <= MAX_KLEN && Resident(name) then Some(accepted[name]) else None
    {
      if |name| > MAX_KLEN {
        return None;
      }
      var hash := h(name);
      var index := hash % tbl.Length;
      if tbl[index].Live? && tbl[index].hash == hash && tbl[index].key == name {
        return Some(tbl[index].elem);
      }
      return None;
    }

    /** Inserts an object.  Objects past their cache time, with a zero expiry, with an older version
        than the resident one or mixing versioned and unversioned are not accepted. */
    method Insert(name: Key, msg: seq<byte>, version: Version, until: Option<nat>, expiry: Option<nat>, now: nat)
      returns (ghost taken: bool)
      requires Valid() && VersionOk(version)
      requires forall k <- accepted :: VersionOk(accepted[k].version)
      modifies this, tbl
      ensures Valid() && forall k <- accepted :: VersionOk(accepted[k].version)
      ensures taken <==>
        && |name| <= MAX_KLEN && !(until.Some? && until.value < now) && expiry != Some(0)
        && (old(Resident(name)) ==>
              && |old(accepted)[name].version| == |version|
              && Value(old(accepted)[name].version) <= Value(version))
      ensures accepted == if taken then old(accepted)[name := Cob(msg, version, now + cacheTime)] else old(accepted)
      ensures forall k :: Resident(k) <==>
        if taken then k == name || (old(Resident(k)) && Home(h, k, tbl.Length) != Home(h, name, tbl.Length))
        else old(Resident(k))
      ensures taken ==> name in line
      ensures taken ==> line[name] == (if old(Resident(name)) then old(line)[name] else []) + [version]
    {
      if until.Some? && until.value < now {
        return false;
      }
      if expiry.Some? && expiry.value == 0 {
        return false;
      }
      var oldEntry := GetPrg(name);
      if oldEntry.Some? {
        CompareOrders(oldEntry.value.version, version);
        var rc := Compare(oldEntry.value.version, version);
        if rc == Inconsistent || rc == Newest1 {
          return false;
        }
      }
      if |name| > MAX_KLEN {
        return false;
      }
      hide Value, Compare, InLine;
      ghost var before := if Resident(name) then line[name] else [];
      LineStarts(version);
      if Resident(name) {
        ResidentLine(name);
        LineGrows(before, accepted[name].version, version);
      }
      SetPrg(name, Cob(msg, version, now + cacheTime), before + [version]);
      taken := true;
    }

    /** `cef_hash_tbl_item_set_prg`: whatever was in the slot is gone. */
    method SetPrg(name: Key, entry: Cob, ghost versions: seq<Version>)
      requires Valid() && |name| <= MAX_KLEN && InLine(versions, entry.version)
      modifies this, tbl
      ensures Valid() && accepted == old(accepted)[name := entry] && line == old(line)[name := versions]
      ensures forall k :: Resident(k) <==>
        k == name || (old(Resident(k)) && Home(h, k, tbl.Length) != Home(h, name, tbl.Length))
    {
      hide InLine;
      var hash := h(name);
      tbl[hash % tbl.Length] := Live(hash, name, entry);
      accepted := accepted[name := entry];
      line := line[name := versions];
    }

    lemma ResidentLine(name: Key)
      requires Valid() && Resident(name)
      ensures name in line && name in accepted && InLine(line[name], accepted[name].version)
    {
    }

    lemma LineStarts(v: Version)
      ensures InLine([] + [v], v)
    {
    }

    lemma LineGrows(vs: seq<Version>, current: Version, next: Version)
      requires InLine(vs, current) && |current| == |next| && Value(current) <= Value(next)
      ensures InLine(vs + [next], next)
    {
      hide Value;
      var all := vs + [next];
      forall i, j | 0 <= i < j < |all| ensures Value(all[i]) <= Value(all[j]) {
        assert all[i] == vs[i] && (i < |vs| - 1 ==> Value(vs[i]) <= Value(vs[|vs| - 1]));
      }
    }

    /** Looks an object up.  Whatever was evicted in between, a hit is the last object accepted for
        exactly this name, unexpired, in the requested version. */
    method Lookup(name: Key, version: Version, now: nat, leftToCsmgrd: bool) returns (r: Option<seq<byte>>)
      requires Valid() && VersionOk(version)
      requires forall k <- accepted :: VersionOk(accepted[k].version)
      ensures r == if !leftToCsmgrd && |name| <= MAX_KLEN && Resident(name) && now < accepted[name].expiry
                      && (version == [] || version == accepted[name].version)
                   then Some(accepted[name].msg) else None
    {
      if leftToCsmgrd {
        return None;
      }
      var entry := GetPrg(name);
      if entry.Some? && now < entry.value.expiry {
        var rc := Compare(entry.value.version, version);
        if rc == Inconsistent {
          if !(version == [] && entry.value.version != []) {
            return None;
          }
        } else if rc != Same {
          return None;
        }
        return Some(entry.value.msg);
      }
      return None;
    }
  }
}
