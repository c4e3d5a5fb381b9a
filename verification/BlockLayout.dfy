/** eth_getBlock: one pass computes the size of a single allocation, a second one fills it. */
module BlockLayout {
  import opened Wrappers
  import opened Bytes

  /** sizeof(void*), sizeof(bytes_t), sizeof(eth_tx_t) and sizeof(eth_block_t) */
  datatype Sizes = Sizes(word: nat, bytes: nat, tx: nat, block: nat)

  /** The fields of the transaction struct, as they lie in memory, and its input data. */
  datatype Tx = Tx(fields: seq<byte>, input: seq<byte>)
  datatype Txs = Full(txs: seq<Tx>) | Hashes(hashes: seq<seq<byte>>)
  datatype Block = Block(extra: seq<byte>, sealed: seq<seq<byte>>, txs: Txs)

  const TWO_TO_THE_32: nat := 0x1_0000_0000

  /** A struct that holds pointers has a size that is a multiple of the pointer size. */
  predicate Sane(z: Sizes) { z.word > 0 && Aligned(z.tx, z.word) }

  predicate Aligned(v: nat, word: nat)
    requires word > 0
  {
    v % word == 0
  }

  predicate Fits(b: Block, z: Sizes) {
    b.txs.Full? ==> forall k :: 0 <= k < |b.txs.txs| ==> |b.txs.txs[k].fields| == z.tx
  }

  // ----- align and copy_fixed --------------------------------------------------------------

  function Align(v: nat, word: nat): nat
    requires word > 0
  {
    var add := v % word;
    if add != 0 then word - add + v else v
  }

  lemma MulStep(w: nat, a: nat, b: nat)
    requires a < b
    ensures w * a + w <= w * b
  {
    var d := b - a - 1;
    assert w * (a + 1 + d) == w * a + w + w * d;
    assert w * d >= 0;
  }

  lemma DivMod(v: nat, word: nat)
    requires word > 0
    ensures v == word * (v / word) + v % word && v % word < word
  {
  }

  lemma ModUnique(v: nat, word: nat, q: nat, r: nat)
    requires word > 0 && v == word * q + r && r < word
    ensures v % word == r
  {
    DivMod(v, word);
    var p := v / word;
    if p < q { MulStep(word, p, q); } else if q < p { MulStep(word, q, p); }
  }

  lemma SumMod(a: nat, d: nat, word: nat)
    requires word > 0 && Aligned(a, word)
    ensures (a + d) % word == d % word
    ensures Aligned(a + d, word) <==> Aligned(d, word)
  {
    DivMod(a, word);
    DivMod(d, word);
    assert word * (a / word + d / word) == word * (a / word) + word * (d / word);
    ModUnique(a + d, word, a / word + d / word, d % word);
  }

  lemma OneWord(word: nat)
    requires word > 0
    ensures Aligned(word, word) && Aligned(0, word)
  {
    ModUnique(word, word, 1, 0);
    ModUnique(0, word, 0, 0);
  }

  lemma SmallMod(d: nat, word: nat)
    requires 0 < d < word
    ensures !Aligned(d, word)
  {
    ModUnique(d, word, 0, d);
  }

  lemma AlignBounds(v: nat, word: nat)
    requires word > 0
    ensures Aligned(Align(v, word), word) && v <= Align(v, word) < v + word
    ensures Aligned(v, word) ==> Align(v, word) == v
  {
    DivMod(v, word);
    OneWord(word);
    if v % word != 0 {
      ModUnique(word * (v / word), word, v / word, 0);
      SumMod(word * (v / word), word, word);
    }
  }

  /** The least multiple of the pointer size that is not smaller. */
  lemma AlignMeans(v: nat, word: nat, m: nat)
    requires word > 0 && v <= m && Aligned(m, word)
    ensures v <= Align(v, word) <= m && Aligned(Align(v, word), word)
  {
    hide Aligned, Align;
    AlignBounds(v, word);
    if m < Align(v, word) {
      SumMod(m, Align(v, word) - m, word);
      SmallMod(Align(v, word) - m, word);
    }
  }

  /**
   * The two passes round a transaction differently; they agree exactly if the struct size is a multiple of the pointer
   * size.
   */
  lemma PassesAgreeOnTx(z: Sizes, n: nat)
    requires z.word > 0
    ensures Align(z.tx + n, z.word) == Align(n, z.word) + z.tx <==> Aligned(z.tx, z.word)
  {
    hide Aligned, Align;
    AlignBounds(n, z.word);
    AlignBounds(z.tx + n, z.word);
    SumMod(Align(n, z.word), z.tx, z.word);
    if Aligned(z.tx, z.word) {
      AlignMeans(z.tx + n, z.word, Align(n, z.word) + z.tx);
      SumMod(z.tx, Align(z.tx + n, z.word) - z.tx, z.word);
      AlignMeans(n, z.word, Align(z.tx + n, z.word) - z.tx);
    }
  }

  /** copy_fixed: the last len bytes, filled up with zeros on the left. */
  function CopyFixed(data: seq<byte>, len: nat): (r: seq<byte>)
    ensures |r| == len
  {
    if |data| >= len then data[|data| - len..] else Zeros(len - |data|) + data
  }

  /** That is the number the bytes denote, cut down to len bytes. */
  lemma CopyFixedIsNumber(data: seq<byte>, len: nat)
    ensures CopyFixed(data, len) == BE(ValueOf(data), len)
  {
    BEOfValue(data);
    LowBytes(data, Minimal(ValueOf(data)), len);
  }

  lemma LowBytes(data: seq<byte>, m: seq<byte>, len: nat)
    requires |m| <= |data| && data == Zeros(|data| - |m|) + m
    ensures CopyFixed(data, len) == if |m| <= len then Zeros(len - |m|) + m else m[|m| - len..]
  {
  }

  // ----- the memory image: one piece after the other ----------------------------------------

  function Pad(data: seq<byte>, word: nat): (r: seq<byte>)
    requires word > 0
    ensures |r| >= |data| && r[..|data|] == data
  {
    AlignBounds(|data|, word);
    data + Zeros(Align(|data|, word) - |data|)
  }

  function TxCount(b: Block): nat { if b.txs.Full? then |b.txs.txs| else |b.txs.hashes| }

  function PieceCount(b: Block): nat { 3 + |b.sealed| + TxCount(b) }

  /** The block struct, the extra data, the seal table, the seal fields, the transactions. */
  function Piece(b: Block, z: Sizes, k: nat): seq<byte>
    requires z.word > 0 && k < PieceCount(b)
  {
    if k == 0 then Zeros(Align(z.block, z.word))
    else if k == 1 then Pad(b.extra, z.word)
    else if k == 2 then Zeros(Align(z.bytes, z.word) * |b.sealed|)
    else if k - 3 < |b.sealed| then Pad(b.sealed[k - 3], z.word)
    else if b.txs.Full? then
      var t := b.txs.txs[k - 3 - |b.sealed|];
      t.fields + Pad(t.input, z.word)
    else CopyFixed(b.txs.hashes[k - 3 - |b.sealed|], 32)
  }

  function Image(b: Block, z: Sizes, k: nat): seq<byte>
    requires z.word > 0 && k <= PieceCount(b)
  {
    if k == 0 then [] else Image(b, z, k - 1) + Piece(b, z, k - 1)
  }

  /** Where piece k starts. */
  function Start(b: Block, z: Sizes, k: nat): nat
    requires z.word > 0 && k <= PieceCount(b)
  {
    |Image(b, z, k)|
  }

  /** Every piece lies in the image, behind the pieces before it. */
  lemma {:induction false} PieceLies(b: Block, z: Sizes, k: nat, n: nat)
    requires z.word > 0 && k < n <= PieceCount(b)
    ensures Start(b, z, k) + |Piece(b, z, k)| == Start(b, z, k + 1) <= Start(b, z, n)
    ensures Image(b, z, n)[Start(b, z, k)..Start(b, z, k + 1)] == Piece(b, z, k)
  {
    hide Piece;
    if n > k + 1 {
      PieceLies(b, z, k, n - 1);
      assert Image(b, z, n)[..Start(b, z, n - 1)] == Image(b, z, n - 1);
    }
  }

  /** So different pieces do not overlap. */
  lemma PiecesDisjoint(b: Block, z: Sizes, j: nat, k: nat)
    requires z.word > 0 && j < k < PieceCount(b)
    ensures Start(b, z, j) + |Piece(b, z, j)| <= Start(b, z, k)
    ensures Start(b, z, k) + |Piece(b, z, k)| <= Start(b, z, PieceCount(b))
  {
    PieceLies(b, z, j, k);
    PieceLies(b, z, k, PieceCount(b));
  }

  lemma Times(a: nat, n: nat, word: nat)
    requires word > 0 && Aligned(a, word)
    ensures Aligned(a * n, word)
  {
    DivMod(a, word);
    assert a * n == word * (a / word * n) by { assert (word * (a / word)) * n == word * (a / word * n); }
    ModUnique(a * n, word, a / word * n, 0);
  }

  lemma PieceAligned(b: Block, z: Sizes, k: nat)
    requires Sane(z) && Fits(b, z) && k < PieceCount(b) && (b.txs.Full? || k < 3 + |b.sealed|)
    ensures Aligned(|Piece(b, z, k)|, z.word)
  {
    hide Aligned, Align;
    if k == 0 {
      AlignBounds(z.block, z.word);
    } else if k == 1 {
      AlignBounds(|b.extra|, z.word);
    } else if k == 2 {
      AlignBounds(z.bytes, z.word);
      Times(Align(z.bytes, z.word), |b.sealed|, z.word);
    } else if k - 3 < |b.sealed| {
      AlignBounds(|b.sealed[k - 3]|, z.word);
    } else {
      var t := b.txs.txs[k - 3 - |b.sealed|];
      AlignBounds(|t.input|, z.word);
      SumMod(z.tx, Align(|t.input|, z.word), z.word);
    }
  }

  /** Every piece starts at a multiple of the pointer size, except that hashes follow each other without gaps. */
  lemma {:induction false} PiecesAligned(b: Block, z: Sizes, k: nat)
    requires Sane(z) && Fits(b, z) && k <= PieceCount(b) && (b.txs.Full? || k <= 3 + |b.sealed|)
    ensures Aligned(Start(b, z, k), z.word)
  {
    hide Aligned, Align, Piece;
    if k == 0 {
      OneWord(z.word);
    } else {
      PiecesAligned(b, z, k - 1);
      PieceAligned(b, z, k - 1);
      SumMod(Start(b, z, k - 1), |Piece(b, z, k - 1)|, z.word);
    }
  }

  // ----- the sizing pass ---------------------------------------------------------------------

  /** get_tx_size, or 32 for a hash */
  function TxRoom(b: Block, z: Sizes, k: nat): nat
    requires z.word > 0 && k < TxCount(b)
  {
    if b.txs.Full? then Align(|b.txs.txs[k].input|, z.word) + z.tx else 32
  }

  function TxRooms(b: Block, z: Sizes, n: nat): nat
    requires z.word > 0 && n <= TxCount(b)
  {
    if n == 0 then 0 else TxRooms(b, z, n - 1) + TxRoom(b, z, n - 1)
  }

  function SealRooms(b: Block, z: Sizes, n: nat): nat
    requires z.word > 0 && n <= |b.sealed|
  {
    if n == 0 then 0 else SealRooms(b, z, n - 1) + (Align(|b.sealed[n - 1]|, z.word) + Align(z.bytes, z.word))
  }

  /** What is needed, before it is cut down to 32 bits. */
  function Needed(b: Block, z: Sizes): nat
    requires z.word > 0
  {
    Align(z.block, z.word) + TxRooms(b, z, TxCount(b)) + Align(|b.extra|, z.word) + SealRooms(b, z, |b.sealed|)
  }

  function Low32(n: nat): nat { n % TWO_TO_THE_32 }

  function Add32(s: nat, n: nat): nat { Low32(s + n) }

  lemma Add32Low(a: nat, n: nat)
    ensures Add32(Low32(a), n) == Low32(a + n)
  {
  }

  lemma {:induction false} HashRooms(b: Block, z: Sizes, n: nat)
    requires z.word > 0 && n <= TxCount(b) && b.txs.Hashes?
    ensures TxRooms(b, z, n) == 32 * n
  {
    if n == 0 {
    } else {
      HashRooms(b, z, n - 1);
    }
  }

  /** `uint32_t s` and everything added to it. */
  method SizingPass(b: Block, z: Sizes) returns (s: nat)
    requires z.word > 0
    ensures s == Low32(Needed(b, z))
  {
    hide Align, Low32, Add32;
    ghost var total: nat := Align(z.block, z.word);
    s := Low32(Align(z.block, z.word));
    if b.txs.Full? {
      for k := 0 to |b.txs.txs|
        invariant total == Align(z.block, z.word) + TxRooms(b, z, k) && s == Low32(total)
      {
        Add32Low(total, TxRoom(b, z, k));
        s := Add32(s, TxRoom(b, z, k));
        total := total + TxRoom(b, z, k);
      }
    } else {
      HashRooms(b, z, |b.txs.hashes|);
      Add32Low(total, 32 * |b.txs.hashes|);
      s := Add32(s, 32 * |b.txs.hashes|);
      total := total + 32 * |b.txs.hashes|;
    }
    Add32Low(total, Align(|b.extra|, z.word));
    s := Add32(s, Align(|b.extra|, z.word));
    total := total + Align(|b.extra|, z.word);
    ghost var before := total;
    for k := 0 to |b.sealed|
      invariant total == before + SealRooms(b, z, k) && s == Low32(total)
    {
      var room := Align(|b.sealed[k]|, z.word) + Align(z.bytes, z.word);
      Add32Low(total, room);
      s := Add32(s, room);
      total := total + room;
    }
  }

  // ----- both passes agree ----------------------------------------------------------------------

  lemma {:induction false} SealsAgree(b: Block, z: Sizes, n: nat)
    requires z.word > 0 && n <= |b.sealed|
    ensures Start(b, z, 3 + n) == Start(b, z, 3) + SealRooms(b, z, n) - Align(z.bytes, z.word) * n
  {
    hide Align, Aligned;
    if n == 0 {
    } else {
      SealsAgree(b, z, n - 1);
      AlignBounds(|b.sealed[n - 1]|, z.word);
      assert Align(z.bytes, z.word) * n == Align(z.bytes, z.word) * (n - 1) + Align(z.bytes, z.word);
      assert |Piece(b, z, 2 + n)| == Align(|b.sealed[n - 1]|, z.word);
    }
  }

  lemma TxPieceSize(b: Block, z: Sizes, k: nat)
    requires z.word > 0 && Fits(b, z) && k < TxCount(b)
    ensures |Piece(b, z, 3 + |b.sealed| + k)| == TxRoom(b, z, k)
  {
    hide Align, Aligned;
    if b.txs.Full? { AlignBounds(|b.txs.txs[k].input|, z.word); }
  }

  lemma FirstPieces(b: Block, z: Sizes)
    requires z.word > 0
    ensures |Piece(b, z, 0)| == Align(z.block, z.word) && |Piece(b, z, 1)| == Align(|b.extra|, z.word)
    ensures |Piece(b, z, 2)| == Align(z.bytes, z.word) * |b.sealed|
  {
    hide Align, Aligned;
    AlignBounds(|b.extra|, z.word);
  }

  lemma StartNext(b: Block, z: Sizes, k: nat)
    requires z.word > 0 && k < PieceCount(b)
    ensures Start(b, z, k + 1) == Start(b, z, k) + |Piece(b, z, k)|
  {
  }

  lemma {:induction false} TxsAgree(b: Block, z: Sizes, n: nat)
    requires z.word > 0 && Fits(b, z) && n <= TxCount(b)
    ensures Start(b, z, 3 + |b.sealed| + n) == Start(b, z, 3 + |b.sealed|) + TxRooms(b, z, n)
  {
    hide Align, Aligned, Piece, TxRoom;
    if n == 0 {
    } else {
      TxsAgree(b, z, n - 1);
      TxPieceSize(b, z, n - 1);
    }
  }

  lemma SizeIsImage(b: Block, z: Sizes)
    requires z.word > 0 && Fits(b, z)
    ensures Start(b, z, PieceCount(b)) == Needed(b, z)
  {
    hide Align, Aligned, TxRooms, SealRooms, Piece, Start;
    SealsAgree(b, z, |b.sealed|);
    TxsAgree(b, z, TxCount(b));
    FirstPieces(b, z);
    StartNext(b, z, 0);
    StartNext(b, z, 1);
    StartNext(b, z, 2);
    NoStart(b, z);
  }

  lemma NoStart(b: Block, z: Sizes)
    requires z.word > 0
    ensures Start(b, z, 0) == 0
  {
  }
}
