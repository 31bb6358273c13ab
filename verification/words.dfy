/** Arrays of native 32-bit words, as src/codecs/fce_codecs.c reads and writes them. */
module Words {
  import opened Bytes

  type i32 = n: int | -0x8000_0000 <= n < 0x8000_0000

  /** The largest object a 64-bit address space can hold: any larger allocation fails. */
  const MAX_OBJECT := 0x100_0000_0000_0000

  predicate FitsI32(n: int) {
    -0x8000_0000 <= n < 0x8000_0000
  }

  /** The int32_t with the bits of a uint32_t, and back. */
  function Signed(u: u32): i32 {
    if u < 0x8000_0000 then u else u - 0x1_0000_0000
  }

  function Unsigned(n: i32): (u: u32)
    ensures Signed(u) == n
  {
    if n < 0 then n + 0x1_0000_0000 else n
  }

  function Word(b: Bytes): (u: u32)
    requires |b| == 4
    ensures u == UnLe(b)
  {
    Pow256Values();
    UnLe(b)
  }

  function ReadWords(b: Bytes): (ws: seq<u32>)
    requires |b| % 4 == 0
    ensures |b| == 4 * |ws|
    decreases |b|
  {
    if b == [] then [] else [Word(b[..4])] + ReadWords(b[4..])
  }

  function WriteWords(ws: seq<u32>): (b: Bytes)
    ensures |b| == 4 * |ws|
  {
    if ws == [] then [] else Le(ws[0], 4) + WriteWords(ws[1..])
  }

  lemma {:induction false} WriteReadWords(ws: seq<u32>)
    ensures ReadWords(WriteWords(ws)) == ws
  {
    if ws != [] {
      var b := WriteWords(ws);
      assert b[..4] == Le(ws[0], 4) && b[4..] == WriteWords(ws[1..]);
      Pow256Values();
      LeRoundTrip(ws[0], 4);
      WriteReadWords(ws[1..]);
    }
  }

  lemma {:induction false} ReadWriteWords(b: Bytes)
    requires |b| % 4 == 0
    ensures WriteWords(ReadWords(b)) == b
    decreases |b|
  {
    if b != [] {
      UnLeRoundTrip(b[..4]);
      ReadWriteWords(b[4..]);
      assert ReadWords(b)[1..] == ReadWords(b[4..]);
      assert b == b[..4] + b[4..];
    }
  }

  function ReadInts(b: Bytes): (xs: seq<i32>)
    requires |b| % 4 == 0
    ensures |b| == 4 * |xs|
  {
    var ws := ReadWords(b);
    seq(|ws|, i requires 0 <= i < |ws| => Signed(ws[i]))
  }

  function WriteInts(xs: seq<i32>): (b: Bytes)
    ensures |b| == 4 * |xs|
  {
    WriteWords(seq(|xs|, i requires 0 <= i < |xs| => Unsigned(xs[i])))
  }

  lemma {:induction false} WriteReadInts(xs: seq<i32>)
    ensures ReadInts(WriteInts(xs)) == xs
  {
    WriteReadWords(seq(|xs|, i requires 0 <= i < |xs| => Unsigned(xs[i])));
  }

  lemma {:induction false} ReadWriteInts(b: Bytes)
    requires |b| % 4 == 0
    ensures WriteInts(ReadInts(b)) == b
  {
    var ws := ReadWords(b);
    var xs := ReadInts(b);
    assert seq(|xs|, i requires 0 <= i < |xs| => Unsigned(xs[i])) == ws;
    ReadWriteWords(b);
  }

  // ---- What the words of an array are ----

  /** Word i as an unsigned number: four bytes, the least significant first. */
  function WordIn(b: Bytes, i: nat): nat
    requires 4 * i + 4 <= |b|
  {
    b[4 * i] as nat + 0x100 * (b[4 * i + 1] as nat) + 0x1_0000 * (b[4 * i + 2] as nat)
    + 0x100_0000 * (b[4 * i + 3] as nat)
  }

  /** And as a signed one: two's complement. */
  function IntIn(b: Bytes, i: nat): int
    requires 4 * i + 4 <= |b|
  {
    var u := WordIn(b, i);
    if u >= 0x8000_0000 then u - 0x1_0000_0000 else u
  }

  lemma {:induction false} ReadsWord(b: Bytes, i: nat)
    requires |b| % 4 == 0 && 4 * i + 4 <= |b|
    ensures ReadWords(b)[i] == WordIn(b, i) && ReadInts(b)[i] == IntIn(b, i)
    decreases i
  {
    if i == 0 {
      UnLeFour(b[..4]);
    } else {
      ReadsWord(b[4..], i - 1);
      assert ReadWords(b)[i] == ReadWords(b[4..])[i - 1];
      assert WordIn(b[4..], i - 1) == WordIn(b, i);
    }
  }

  lemma {:induction false} WritesInt(xs: seq<i32>, i: nat)
    requires i < |xs|
    ensures IntIn(WriteInts(xs), i) == xs[i]
  {
    WriteReadInts(xs);
    ReadsWord(WriteInts(xs), i);
  }

  lemma {:induction false} WritesWord(ws: seq<u32>, i: nat)
    requires i < |ws|
    ensures WordIn(WriteWords(ws), i) == ws[i]
  {
    WriteReadWords(ws);
    ReadsWord(WriteWords(ws), i);
  }
}
