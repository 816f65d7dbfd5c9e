/** Vocabulary shared by every module: bytes, 16-bit fields and optional values. */
module Bytes {

  type byte = x: int | 0 <= x < 256
  type Key = seq<byte>

  datatype Option<+T> = None | Some(value: T)

  /** A big-endian 16-bit field, as `ntohs` reads it. */
  function U16(hi: byte, lo: byte): (r: nat)
    ensures r < 0x1_0000
  {
    hi * 256 + lo
  }

  /** The concatenation of a sequence of byte strings. */
  function Flat<T>(parts: seq<seq<T>>): seq<T> {
    if parts == [] then [] else parts[0] + Flat(parts[1..])
  }

  lemma {:induction false} FlatAppend<T>(a: seq<seq<T>>, b: seq<seq<T>>)
    ensures Flat(a + b) == Flat(a) + Flat(b)
  {
    if a == [] {
      assert a + b == b;
    } else {
      var s := a + b;
      assert s != [] && s[0] == a[0] && s[1..] == a[1..] + b;
      assert Flat(s) == a[0] + Flat(a[1..] + b);
      FlatAppend(a[1..], b);
      Assoc(a[0], Flat(a[1..]), Flat(b));
    }
  }

  lemma Assoc<T>(x: seq<T>, y: seq<T>, z: seq<T>)
    ensures x + (y + z) == (x + y) + z
  {
  }

  lemma Snoc<T>(s: seq<T>, i: nat)
    requires i < |s|
    ensures s[..i + 1] == s[..i] + [s[i]]
  {
  }

  lemma Slices<T>(s: seq<T>, i: nat, j: nat, k: nat)
    requires i <= j <= k <= |s|
    ensures s[i..j] + s[j..k] == s[i..k]
  {
  }

  lemma FlatSnoc<T>(a: seq<seq<T>>, x: seq<T>)
    ensures Flat(a + [x]) == Flat(a) + x
  {
    FlatAppend(a, [x]);
    assert Flat([x]) == x + Flat([]);
  }

  // ---------------------------------------------------------------- big-endian numbers

  /** 256 to the power of `k`. */
  function Pow(k: nat): (r: nat)
    ensures r > 0
  {
    if k == 0 then 1 else 256 * Pow(k - 1)
  }

  /** The number a byte string stands for, most significant byte first. */
  function Value(s: seq<byte>): nat {
    if s == [] then 0 else 256 * Value(s[..|s| - 1]) + s[|s| - 1]
  }

  lemma {:induction false} ValueCons(x: byte, s: seq<byte>)
    ensures Value([x] + s) == x * Pow(|s|) + Value(s)
  {
    if s == [] {
      assert [x] + s == [x] && Value([x]) == 256 * Value([]) + x;
    } else {
      var last := |s| - 1;
      ValueCons(x, s[..last]);
      assert ([x] + s)[..|s|] == [x] + s[..last];
      assert x * Pow(|s|) == 256 * (x * Pow(last));
    }
  }

  lemma {:induction false} ValueBound(s: seq<byte>)
    ensures Value(s) < Pow(|s|)
  {
    if s != [] {
      ValueBound(s[..|s| - 1]);
    }
  }

  lemma DigitDecides(x: nat, y: nat, p: nat, low: nat)
    requires x < y && low < p
    ensures x * p + low < y * p
  {
    var d := y - x - 1;
    assert y * p == x * p + p + d * p;
  }

  /** For strings of one length, the order of the numbers is decided by the first byte that differs. */
  lemma {:induction false} ValueOrder(a: seq<byte>, b: seq<byte>)
    requires |a| == |b| > 0
    ensures a[0] < b[0] ==> Value(a) < Value(b)
    ensures a[0] == b[0] ==> (Value(a) < Value(b) <==> Value(a[1..]) < Value(b[1..]))
  {
    hide Value, Pow;
    var p := Pow(|a| - 1);
    assert a == [a[0]] + a[1..] && b == [b[0]] + b[1..];
    ValueCons(a[0], a[1..]);
    ValueCons(b[0], b[1..]);
    ValueBound(a[1..]);
    if a[0] < b[0] {
      DigitDecides(a[0], b[0], p, Value(a[1..]));
    }
  }

  lemma {:induction false} ValueUnique(a: seq<byte>, b: seq<byte>)
    requires |a| == |b| && Value(a) == Value(b)
    ensures a == b
  {
    if a != [] {
      var last := |a| - 1;
      ValueUnique(a[..last], b[..last]);
      assert a == a[..last] + [a[last]] && b == b[..last] + [b[last]];
    }
  }

  /** A 16-bit field is the number its two bytes stand for. */
  lemma ValueTwo(hi: byte, lo: byte)
    ensures Value([hi, lo]) == U16(hi, lo)
  {
    assert [hi, lo][..1] == [hi];
    assert Value([hi]) == 256 * Value([]) + hi;
  }
}
