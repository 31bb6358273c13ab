/** Bytes, machine integers, status codes and the byte-level helpers of src/core/fce_hash.c. */
module Bytes {

  type byte = b: int | 0 <= b < 0x100
  type Bytes = seq<byte>

  const U32_MAX := 0xffff_ffff
  const INT32_MAX := 0x7fff_ffff
  const TWO32 := 0x1_0000_0000
  const TWO64 := 0x1_0000_0000_0000_0000

  /** The largest file (off_t): writing past it is the fwrite failure reported as Io. */
  const MAX_FILE := 0x7fff_ffff_ffff_ffff

  type u32 = n: int | 0 <= n < 0x1_0000_0000
  type u64 = n: int | 0 <= n < 0x1_0000_0000_0000_0000

  /** A cast to uint32_t. */
  function ToU32(n: nat): (u: u32)
    ensures n <= U32_MAX ==> u == n
  {
    n % 0x1_0000_0000
  }

  /** Products and sums of uint64_t. */
  function Mul64(a: nat, b: nat): (u: u64)
    ensures a * b < TWO64 ==> u == a * b
  {
    (a * b) % 0x1_0000_0000_0000_0000
  }

  function Add64(a: nat, b: nat): (u: u64)
    ensures a + b < TWO64 ==> u == a + b
  {
    (a + b) % 0x1_0000_0000_0000_0000
  }

  datatype Status =
    | InvalidArgument
    | Io
    | Corrupt
    | NotFound
    | Unsupported
    | OutOfMemory

  datatype Option<+T> = None | Some(value: T)

  datatype Result<+T> = Ok(value: T) | Err(status: Status) {
    predicate IsFailure() { Err? }

    function PropagateFailure<U>(): Result<U>
      requires Err?
    {
      Err(status)
    }

    function Extract(): T
      requires Ok?
    {
      value
    }
  }

  // ---- Shifts ----

  /** x >> b. */
  function Shr(x: nat, b: nat): nat {
    if b == 0 then x else Shr(x / 2, b - 1)
  }

  /** (x >> b) & 1. */
  predicate Bit(x: nat, b: nat) {
    Shr(x, b) % 2 == 1
  }

  lemma {:induction false} ShrNext(x: nat, b: nat)
    ensures Shr(x, b + 1) == Shr(x, b) / 2
  {
    if b > 0 {
      ShrNext(x / 2, b - 1);
    }
  }

  // ---- Little-endian integers (rd64, wr64 and the native struct fields) ----

  function Pow256(w: nat): (p: nat)
    ensures p > 0
  {
    if w == 0 then 1 else 256 * Pow256(w - 1)
  }

  lemma {:induction false} Pow256Values()
    ensures Pow256(1) == 0x100 && Pow256(4) == TWO32 && Pow256(8) == TWO64
  {
    assert Pow256(2) == 0x1_0000;
    assert Pow256(4) == TWO32;
    assert Pow256(6) == 256 * (256 * Pow256(4));
    assert Pow256(8) == 256 * (256 * Pow256(6));
  }

  function Le(n: nat, w: nat): (b: Bytes)
    ensures |b| == w
  {
    if w == 0 then [] else [n % 256] + Le(n / 256, w - 1)
  }

  function UnLe(b: Bytes): (n: nat)
    ensures n < Pow256(|b|)
  {
    if b == [] then 0 else b[0] + 256 * UnLe(b[1..])
  }

  /** Byte i counts 256 to the i: the fields of 1, 2, 4 and 8 bytes are little-endian numbers. */
  lemma {:induction false} UnLeTwo(b: Bytes)
    requires |b| == 2
    ensures UnLe(b) == b[0] as nat + 0x100 * (b[1] as nat)
  {
    assert b[1..] == [b[1]] && b[1..][1..] == [];
  }

  lemma {:induction false} UnLeFour(b: Bytes)
    requires |b| == 4
    ensures UnLe(b) == b[0] as nat + 0x100 * (b[1] as nat) + 0x1_0000 * (b[2] as nat) + 0x100_0000 * (b[3] as nat)
  {
    UnLeTwo(b[2..]);
    assert b[1..][1..] == b[2..] && UnLe(b[1..]) == b[1] + 256 * UnLe(b[2..]);
  }

  lemma {:induction false} UnLeEight(b: Bytes)
    requires |b| == 8
    ensures UnLe(b) == b[0] as nat + 0x100 * (b[1] as nat) + 0x1_0000 * (b[2] as nat) + 0x100_0000 * (b[3] as nat)
      + 0x1_0000_0000 * (b[4] as nat) + 0x100_0000_0000 * (b[5] as nat) + 0x1_0000_0000_0000 * (b[6] as nat)
      + 0x100_0000_0000_0000 * (b[7] as nat)
  {
    UnLeFour(b[4..]);
    assert b[3..][1..] == b[4..] && UnLe(b[3..]) == b[3] + 256 * UnLe(b[4..]);
    assert b[2..][1..] == b[3..] && UnLe(b[2..]) == b[2] + 256 * UnLe(b[3..]);
    assert b[1..][1..] == b[2..] && UnLe(b[1..]) == b[1] + 256 * UnLe(b[2..]);
  }

  lemma {:induction false} LeRoundTrip(n: nat, w: nat)
    requires n < Pow256(w)
    ensures UnLe(Le(n, w)) == n
  {
    if w > 0 {
      assert n / 256 < Pow256(w - 1);
      LeRoundTrip(n / 256, w - 1);
      assert Le(n, w)[1..] == Le(n / 256, w - 1);
    }
  }

  lemma {:induction false} UnLeRoundTrip(b: Bytes)
    ensures Le(UnLe(b), |b|) == b
  {
    if b != [] {
      UnLeRoundTrip(b[1..]);
      var n := UnLe(b);
      assert n % 256 == b[0] && n / 256 == UnLe(b[1..]);
      assert b == [b[0]] + b[1..];
    }
  }

  // ---- range_ok, key_equal, key_bytes_cmp ----

  /** Compared by subtraction so that the sum cannot wrap. */
  predicate RangeOk(off: nat, len: nat, size: nat) {
    off <= size && len <= size - off
  }

  predicate KeyEqual(base: Bytes, off: nat, len: nat, key: Bytes) {
    |key| == len && RangeOk(off, len, |base|) && (len == 0 || base[off..off + len] == key)
  }

  /** memcmp over two buffers of equal length: the sign of the first difference. */
  function MemCmp(a: Bytes, b: Bytes): int
    requires |a| == |b|
  {
    if a == [] then 0
    else if a[0] != b[0] then a[0] - b[0]
    else MemCmp(a[1..], b[1..])
  }

  function KeyBytesCmp(a: Bytes, b: Bytes): int {
    var n := if |a| < |b| then |a| else |b|;
    var c := MemCmp(a[..n], b[..n]);
    if c != 0 then c
    else if |a| == |b| then 0
    else if |a| < |b| then -1 else 1
  }

  /** Byte-wise lexicographic order with a proper prefix first. */
  predicate KeyLess(a: Bytes, b: Bytes) {
    b != [] && (a == [] || a[0] < b[0] || (a[0] == b[0] && KeyLess(a[1..], b[1..])))
  }

  /** Said without recursion: one key is a proper prefix of the other, or their first difference decides. */
  lemma {:induction false} KeyLessIff(a: Bytes, b: Bytes)
    ensures KeyLess(a, b) <==>
            (|a| < |b| && a == b[..|a|])
              || exists k :: 0 <= k < |a| && k < |b| && a[..k] == b[..k] && a[k] < b[k]
  {
    if KeyLess(a, b) {
      FirstDifference(a, b);
    } else if |a| < |b| && a == b[..|a|] {
      DifferenceOrders(a, b, |a|);
    } else if exists k :: 0 <= k < |a| && k < |b| && a[..k] == b[..k] && a[k] < b[k] {
      var k :| 0 <= k < |a| && k < |b| && a[..k] == b[..k] && a[k] < b[k];
      DifferenceOrders(a, b, k);
    }
  }

  lemma {:induction false} FirstDifference(a: Bytes, b: Bytes)
    requires KeyLess(a, b)
    ensures (|a| < |b| && a == b[..|a|]) || exists k :: 0 <= k < |a| && k < |b| && a[..k] == b[..k] && a[k] < b[k]
  {
    if a == [] {
      assert a == b[..0];
    } else if a[0] < b[0] {
      assert a[..0] == b[..0];
    } else {
      FirstDifference(a[1..], b[1..]);
      assert a == [a[0]] + a[1..] && b == [b[0]] + b[1..];
      if |a| < |b| && a[1..] == b[1..][..|a| - 1] {
        assert a == b[..|a|];
      } else {
        var k :| 0 <= k < |a[1..]| && k < |b[1..]| && a[1..][..k] == b[1..][..k] && a[1..][k] < b[1..][k];
        assert a[..k + 1] == [a[0]] + a[1..][..k] && b[..k + 1] == [b[0]] + b[1..][..k];
        assert a[k + 1] < b[k + 1];
      }
    }
  }

  lemma {:induction false} DifferenceOrders(a: Bytes, b: Bytes, k: nat)
    requires k <= |a| && k < |b| && a[..k] == b[..k] && (k < |a| ==> a[k] < b[k])
    ensures KeyLess(a, b)
  {
    if k > 0 {
      assert a[..k][0] == a[0] && b[..k][0] == b[0];
      assert a[1..][..k - 1] == a[..k][1..] && b[1..][..k - 1] == b[..k][1..];
      DifferenceOrders(a[1..], b[1..], k - 1);
    }
  }

  lemma {:induction false} KeyBytesCmpIsLexicographic(a: Bytes, b: Bytes)
    ensures KeyBytesCmp(a, b) < 0 <==> KeyLess(a, b)
    ensures KeyBytesCmp(a, b) == 0 <==> a == b
    ensures KeyBytesCmp(a, b) > 0 <==> KeyLess(b, a)
  {
    if a != [] && b != [] {
      var n := if |a| < |b| then |a| else |b|;
      assert a[..n][1..] == a[1..][..n - 1] && b[..n][1..] == b[1..][..n - 1];
      assert a == [a[0]] + a[1..] && b == [b[0]] + b[1..];
      KeyBytesCmpIsLexicographic(a[1..], b[1..]);
    }
  }

  lemma {:induction false} KeyLessTransitive(a: Bytes, b: Bytes, c: Bytes)
    requires KeyLess(a, b) && KeyLess(b, c)
    ensures KeyLess(a, c)
  {
    if a != [] && a[0] == b[0] && b[0] == c[0] {
      KeyLessTransitive(a[1..], b[1..], c[1..]);
    }
  }

  lemma {:induction false} KeyLessIrreflexive(a: Bytes)
    ensures !KeyLess(a, a)
  {
    KeyBytesCmpIsLexicographic(a, a);
  }
}
