/** The order of byte strings in the key-value store and in sortable encodings. Bytes are written as characters. */
module ByteOrder {
  import opened Prelude

  type Byte = c: char | (c as int) < 256

  type Bytes = seq<Byte>

  /** bytes.Compare(a, b) < 0. */
  predicate Less(a: string, b: string) {
    b != [] && (a == [] || a[0] < b[0] || (a[0] == b[0] && Less(a[1..], b[1..])))
  }

  lemma {:induction false} LessIrreflexive(a: string)
    ensures !Less(a, a)
  {
    if a == [] {
    } else {
      LessIrreflexive(a[1..]);
    }
  }

  lemma {:induction false} LessAsymmetric(a: string, b: string)
    requires Less(a, b)
    ensures !Less(b, a)
  {
    if a == [] || a[0] != b[0] {
    } else {
      LessAsymmetric(a[1..], b[1..]);
    }
  }

  /** A difference inside strings of equal length decides, whatever follows. */
  lemma {:induction false} LessExtends(x: string, y: string, u: string, v: string)
    requires |x| == |y| && Less(x, y)
    ensures Less(x + u, y + v)
  {
    assert (x + u)[0] == x[0] && (y + v)[0] == y[0];
    if x[0] == y[0] {
      LessExtends(x[1..], y[1..], u, v);
      assert (x + u)[1..] == x[1..] + u && (y + v)[1..] == y[1..] + v;
    }
  }

  lemma {:induction false} LessAfterPrefix(x: string, u: string, v: string)
    requires Less(u, v)
    ensures Less(x + u, x + v)
  {
    if x == [] {
      assert x + u == u && x + v == v;
    } else {
      LessAfterPrefix(x[1..], u, v);
      assert (x + u)[1..] == x[1..] + u && (x + v)[1..] == x[1..] + v;
    }
  }

  lemma {:induction false} LessTotal(a: string, b: string)
    ensures a == b || Less(a, b) || Less(b, a)
  {
    if a == [] || b == [] || a[0] != b[0] {
    } else {
      LessTotal(a[1..], b[1..]);
      if a[1..] == b[1..] { assert a == [a[0]] + a[1..] && b == [b[0]] + b[1..]; }
    }
  }

  lemma {:induction false} LessTransitive(a: string, b: string, c: string)
    requires Less(a, b) && Less(b, c)
    ensures Less(a, c)
  {
    if a == [] || a[0] != b[0] || b[0] != c[0] {
    } else {
      LessTransitive(a[1..], b[1..], c[1..]);
    }
  }

  /** Every non-empty finite set of keys has a greatest one, where a reverse iterator starts. */
  lemma {:induction false} GreatestExists(keys: set<Bytes>) returns (top: Bytes)
    requires keys != {}
    ensures top in keys && forall k :: k in keys && k != top ==> Less(k, top)
    decreases |keys|
  {
    var x :| x in keys;
    var rest := keys - {x};
    if rest == {} {
      assert keys == {x};
      return x;
    }
    var y := GreatestExists(rest);
    LessTotal(x, y);
    if Less(y, x) {
      forall k | k in keys && k != x
        ensures Less(k, x)
      {
        if k != y { LessTransitive(k, y, x); }
      }
      return x;
    }
    return y;
  }

  // ---------- big-endian integers ----------

  /** The n low bytes of x, most significant first. */
  function BigEndian(x: nat, n: nat): (b: Bytes)
    ensures |b| == n
    decreases n
  {
    if n == 0 then [] else BigEndian(x / 256, n - 1) + [(x % 256) as char]
  }

  function FromBigEndian(b: Bytes): nat {
    if b == [] then 0 else 256 * FromBigEndian(b[..|b| - 1]) + (b[|b| - 1] as int)
  }

  function Capacity(n: nat): nat {
    if n == 0 then 1 else 256 * Capacity(n - 1)
  }

  lemma EightBytes()
    ensures Capacity(8) == TWO_64
  {
    assert Capacity(4) == 0x1_0000_0000;
  }

  lemma {:induction false} FromBigEndianOf(x: nat, n: nat)
    requires x < Capacity(n)
    ensures FromBigEndian(BigEndian(x, n)) == x
    decreases n
  {
    if n == 0 {
    } else {
      FromBigEndianOf(x / 256, n - 1);
      var b := BigEndian(x, n);
      assert b[..n - 1] == BigEndian(x / 256, n - 1);
    }
  }

  lemma {:induction false} BigEndianOf(b: Bytes)
    ensures FromBigEndian(b) < Capacity(|b|) && BigEndian(FromBigEndian(b), |b|) == b
    decreases |b|
  {
    if b == [] {
    } else {
      BigEndianOf(b[..|b| - 1]);
      assert b == b[..|b| - 1] + [b[|b| - 1]];
    }
  }

  /** Big-endian integers of one width sort as numbers. */
  lemma {:induction false} BigEndianOrder(x: nat, y: nat, n: nat)
    requires x < y < Capacity(n)
    ensures Less(BigEndian(x, n), BigEndian(y, n))
    decreases n
  {
    if x / 256 < y / 256 {
      BigEndianOrder(x / 256, y / 256, n - 1);
      LessExtends(BigEndian(x / 256, n - 1), BigEndian(y / 256, n - 1), [(x % 256) as char], [(y % 256) as char]);
    } else {
      LessAfterPrefix(BigEndian(x / 256, n - 1), [(x % 256) as char], [(y % 256) as char]);
    }
  }
}
