/** The copying pass of eth_getBlock, and the whole function: the memory it returns is the image of the block. */
module BlockCopy {
  import opened Wrappers
  import opened Bytes
  import opened BlockLayout

  /** The allocation and the pointers into it. */
  datatype Placed = Placed(mem: seq<byte>, extraAt: nat, tableAt: nat, sealAt: seq<nat>, txAt: seq<nat>, end: nat)

  /** Memory that starts with `image` and is still zero behind it. */
  predicate Filled(m: seq<byte>, image: seq<byte>) {
    image <= m && forall j :: |image| <= j < |m| ==> m[j] == 0
  }

  predicate Stored(m: seq<byte>, n: seq<byte>, p: nat, data: seq<byte>) {
    && |n| == |m| && p + |data| <= |m|
    && forall j :: 0 <= j < |m| ==> n[j] == if p <= j < p + |data| then data[j - p] else m[j]
  }

  lemma StoredFills(m: seq<byte>, n: seq<byte>, image: seq<byte>, data: seq<byte>, room: nat)
    requires Filled(m, image) && Stored(m, n, |image|, data) && |data| <= room && |image| + room <= |m|
    ensures Filled(n, image + (data + Zeros(room - |data|)))
  {
  }

  lemma FilledNext(b: Block, z: Sizes, k: nat, m: seq<byte>)
    requires z.word > 0 && k < PieceCount(b) && Filled(m, Image(b, z, k) + Piece(b, z, k))
    ensures Filled(m, Image(b, z, k + 1)) && Start(b, z, k + 1) == Start(b, z, k) + |Piece(b, z, k)|
  {
  }

  /** memcpy into the allocation */
  method Store(mem: array<byte>, p: nat, data: seq<byte>)
    requires p + |data| <= mem.Length
    modifies mem
    ensures Stored(old(mem[..]), mem[..], p, data)
  {
    for i := 0 to |data|
      invariant forall j :: 0 <= j < mem.Length ==> mem[j] == if p <= j < p + i then data[j - p] else old(mem[j])
    {
      mem[p + i] := data[i];
    }
  }

  lemma {:induction false} StartsBelow(b: Block, z: Sizes, k: nat, n: nat)
    requires z.word > 0 && k <= n <= PieceCount(b)
    ensures Start(b, z, k) <= Start(b, z, n)
    decreases n - k
  {
    hide Start;
    if k == n {
    } else {
      StartNext(b, z, k);
      StartsBelow(b, z, k + 1, n);
    }
  }

  /** No room for piece k: then the allocation is too small for the whole block. */
  lemma TooSmall(b: Block, z: Sizes, k: nat, size: nat)
    requires z.word > 0 && Fits(b, z) && k < PieceCount(b) && size < Start(b, z, k) + |Piece(b, z, k)|
    ensures size < Needed(b, z)
  {
    hide Start, Needed, Piece;
    StartNext(b, z, k);
    StartsBelow(b, z, k + 1, PieceCount(b));
    SizeIsImage(b, z);
  }

  /** Copies data to the cursor p, if there is room, and advances the cursor. */
  method Lay(mem: array<byte>, p: nat, data: seq<byte>, room: nat, ghost b: Block, ghost z: Sizes, ghost k: nat)
    returns (ok: bool, q: nat)
    requires z.word > 0 && Fits(b, z) && k < PieceCount(b) && Start(b, z, k) == p <= mem.Length
             && Filled(mem[..], Image(b, z, k))
    requires |data| <= room && Piece(b, z, k) == data + Zeros(room - |data|)
    modifies mem
    ensures ok ==> q == Start(b, z, k + 1) <= mem.Length && Filled(mem[..], Image(b, z, k + 1))
    ensures !ok ==> mem.Length < Needed(b, z)
  {
    hide Piece, Needed;
    if mem.Length < p + room {
      TooSmall(b, z, k, mem.Length);
      return false, p;
    }
    Store(mem, p, data);
    StoredFills(old(mem[..]), mem[..], Image(b, z, k), data, room);
    FilledNext(b, z, k, mem[..]);
    return true, p + room;
  }

  lemma EmptyPieces(b: Block, z: Sizes)
    requires z.word > 0
    ensures Start(b, z, 0) == 0 && Image(b, z, 0) == []
    ensures Piece(b, z, 0) == [] + Zeros(Align(z.block, z.word))
            && Piece(b, z, 2) == [] + Zeros(Align(z.bytes, z.word) * |b.sealed|)
  {
  }

  lemma PaddedPiece(data: seq<byte>, word: nat)
    requires word > 0
    ensures |data| <= Align(|data|, word) && Pad(data, word) == data + Zeros(Align(|data|, word) - |data|)
  {
    AlignBounds(|data|, word);
  }

  /** write_tx rounds up the struct and its data together; the sizing pass only the data. */
  lemma TxPiece(b: Block, z: Sizes, k: nat)
    requires Sane(z) && Fits(b, z) && b.txs.Full? && k < |b.txs.txs|
    ensures var t, room := b.txs.txs[k], Align(z.tx + |b.txs.txs[k].input|, z.word);
            && |t.fields + t.input| <= room
            && Piece(b, z, 3 + |b.sealed| + k) == (t.fields + t.input) + Zeros(room - |t.fields + t.input|)
  {
    hide Align, Aligned;
    var t := b.txs.txs[k];
    PassesAgreeOnTx(z, |t.input|);
    PaddedPiece(t.input, z.word);
  }

  lemma HashPiece(b: Block, z: Sizes, k: nat)
    requires z.word > 0 && b.txs.Hashes? && k < |b.txs.hashes|
    ensures Piece(b, z, 3 + |b.sealed| + k) == CopyFixed(b.txs.hashes[k], 32) + Zeros(0)
  {
  }

  /**
   * Everything that is copied behind the block struct, in the order of the source; None where it would leave the
   * allocation.
   */
  method CopyPass(b: Block, z: Sizes, size: nat) returns (r: Option<Placed>)
    requires Sane(z) && Fits(b, z)
    ensures r.Some? <==> Needed(b, z) <= size
    ensures r.Some? ==> |r.value.mem| == size && PlacedWell(b, z, r.value)
  {
    hide Align, Aligned, Piece, Image, Start, Needed, Filled, Pad;
    SizeIsImage(b, z);
    EmptyPieces(b, z);
    var mem := new byte[size](_ => 0);
    assert Filled(mem[..], []) by { ZeroFilled(mem[..]); }
    var ok, p := Lay(mem, 0, [], Align(z.block, z.word), b, z, 0);
    if !ok { return None; }
    var extraAt := p;
    PaddedPiece(b.extra, z.word);
    assert Piece(b, z, 1) == Pad(b.extra, z.word) by { ExtraPiece(b, z); }
    ok, p := Lay(mem, p, b.extra, Align(|b.extra|, z.word), b, z, 1);
    if !ok { return None; }
    var tableAt := p;
    ok, p := Lay(mem, p, [], Align(z.bytes, z.word) * |b.sealed|, b, z, 2);
    if !ok { return None; }
    var sealAt := [];
    for k := 0 to |b.sealed|
      invariant Start(b, z, 3 + k) == p <= mem.Length && Filled(mem[..], Image(b, z, 3 + k))
      invariant |sealAt| == k && forall j :: 0 <= j < k ==> sealAt[j] == Start(b, z, 3 + j)
    {
      SealPiece(b, z, k);
      PaddedPiece(b.sealed[k], z.word);
      sealAt := sealAt + [p];
      ok, p := Lay(mem, p, b.sealed[k], Align(|b.sealed[k]|, z.word), b, z, 3 + k);
      if !ok { return None; }
    }
    var txAt := [];
    for k := 0 to TxCount(b)
      invariant Start(b, z, 3 + |b.sealed| + k) == p <= mem.Length && Filled(mem[..], Image(b, z, 3 + |b.sealed| + k))
      invariant |txAt| == k && forall j :: 0 <= j < k ==> txAt[j] == Start(b, z, 3 + |b.sealed| + j)
    {
      txAt := txAt + [p];
      if b.txs.Full? {
        TxPiece(b, z, k);
        var t := b.txs.txs[k];
        ok, p := Lay(mem, p, t.fields + t.input, Align(z.tx + |t.input|, z.word), b, z, 3 + |b.sealed| + k);
      } else {
        HashPiece(b, z, k);
        ok, p := Lay(mem, p, CopyFixed(b.txs.hashes[k], 32), 32, b, z, 3 + |b.sealed| + k);
      }
      if !ok { return None; }
    }
    return Some(Placed(mem[..], extraAt, tableAt, sealAt, txAt, p));
  }

  lemma ZeroFilled(m: seq<byte>)
    requires forall j :: 0 <= j < |m| ==> m[j] == 0
    ensures Filled(m, [])
  {
  }

  lemma ExtraPiece(b: Block, z: Sizes)
    requires z.word > 0
    ensures Piece(b, z, 1) == Pad(b.extra, z.word)
  {
  }

  lemma SealPiece(b: Block, z: Sizes, k: nat)
    requires z.word > 0 && k < |b.sealed|
    ensures Piece(b, z, 3 + k) == Pad(b.sealed[k], z.word)
  {
  }

  /** All pieces are where the pointers say, and the cursor ends at the computed size. */
  predicate PlacedWell(b: Block, z: Sizes, r: Placed)
    requires z.word > 0
  {
    && Filled(r.mem, Image(b, z, PieceCount(b)))
    && r.extraAt == Start(b, z, 1) && r.tableAt == Start(b, z, 2) && r.end == Needed(b, z)
    && |r.sealAt| == |b.sealed| && (forall k :: 0 <= k < |b.sealed| ==> r.sealAt[k] == Start(b, z, 3 + k))
    && |r.txAt| == TxCount(b) && (forall k :: 0 <= k < TxCount(b) ==> r.txAt[k] == Start(b, z, 3 + |b.sealed| + k))
  }

  /** eth_getBlock: the copy cursor ends exactly at the computed size, unless that size does not fit in 32 bits. */
  method GetBlock(b: Block, z: Sizes) returns (r: Option<Placed>)
    requires Sane(z) && Fits(b, z)
    ensures r.Some? <==> Needed(b, z) < TWO_TO_THE_32
    ensures r.Some? ==> PlacedWell(b, z, r.value) && r.value.end == |r.value.mem|
  {
    hide Needed, PlacedWell;
    var s := SizingPass(b, z);
    r := CopyPass(b, z, s);
    if r.Some? { EndOf(b, z, r.value); }
  }

  lemma EndOf(b: Block, z: Sizes, r: Placed)
    requires z.word > 0 && PlacedWell(b, z, r)
    ensures r.end == Needed(b, z)
  {
  }

  lemma PieceRead(b: Block, z: Sizes, m: seq<byte>, k: nat, i: nat, j: nat)
    requires z.word > 0 && Filled(m, Image(b, z, PieceCount(b))) && k < PieceCount(b) && i <= j <= |Piece(b, z, k)|
    ensures Start(b, z, k) + j <= |m| && m[Start(b, z, k) + i..Start(b, z, k) + j] == Piece(b, z, k)[i..j]
  {
    hide Piece, Image;
    PieceLies(b, z, k, PieceCount(b));
    var image := Image(b, z, PieceCount(b));
    assert image[Start(b, z, k)..Start(b, z, k + 1)][i..j] == image[Start(b, z, k) + i..Start(b, z, k) + j];
    assert m[..|image|] == image;
    assert m[..|image|][Start(b, z, k) + i..Start(b, z, k) + j] == m[Start(b, z, k) + i..Start(b, z, k) + j];
  }

  lemma TxRead(b: Block, z: Sizes, m: seq<byte>, k: nat)
    requires Sane(z) && Fits(b, z) && Filled(m, Image(b, z, PieceCount(b))) && b.txs.Full? && k < |b.txs.txs|
    ensures var t, at := b.txs.txs[k], Start(b, z, 3 + |b.sealed| + k);
            && at + z.tx + |t.input| <= |m|
            && m[at..at + z.tx] == t.fields && m[at + z.tx..at + z.tx + |t.input|] == t.input
  {
    hide Image, Start, Filled, Align, Aligned;
    var t := b.txs.txs[k];
    var q := Piece(b, z, 3 + |b.sealed| + k);
    assert q == t.fields + Pad(t.input, z.word);
    assert q[0..z.tx] == t.fields;
    assert q[z.tx..z.tx + |t.input|] == Pad(t.input, z.word)[..|t.input|] == t.input;
    PieceRead(b, z, m, 3 + |b.sealed| + k, 0, z.tx);
    PieceRead(b, z, m, 3 + |b.sealed| + k, z.tx, z.tx + |t.input|);
  }

  /** What a reader of the returned block finds behind its pointers. */
  lemma ReadBack(b: Block, z: Sizes, r: Placed, k: nat)
    requires Sane(z) && Fits(b, z) && PlacedWell(b, z, r)
    ensures r.extraAt + |b.extra| <= |r.mem| && r.mem[r.extraAt..r.extraAt + |b.extra|] == b.extra
    ensures k < |b.sealed| ==>
              && r.sealAt[k] + |b.sealed[k]| <= |r.mem|
              && r.mem[r.sealAt[k]..r.sealAt[k] + |b.sealed[k]|] == b.sealed[k]
    ensures b.txs.Full? && k < |b.txs.txs| ==>
              var t, at := b.txs.txs[k], r.txAt[k];
              && at + z.tx + |t.input| <= |r.mem|
              && r.mem[at..at + z.tx] == t.fields && r.mem[at + z.tx..at + z.tx + |t.input|] == t.input
    ensures b.txs.Hashes? && k < |b.txs.hashes| ==>
              && r.txAt[k] + 32 <= |r.mem|
              && r.mem[r.txAt[k]..r.txAt[k] + 32] == CopyFixed(b.txs.hashes[k], 32)
  {
    hide Align, Aligned, Image, Start, Filled;
    PieceRead(b, z, r.mem, 1, 0, |b.extra|);
    if k < |b.sealed| { PieceRead(b, z, r.mem, 3 + k, 0, |b.sealed[k]|); }
    if b.txs.Full? && k < |b.txs.txs| { TxRead(b, z, r.mem, k); }
    if b.txs.Hashes? && k < |b.txs.hashes| {
      PieceRead(b, z, r.mem, 3 + |b.sealed| + k, 0, 32);
      assert Piece(b, z, 3 + |b.sealed| + k)[0..32] == Piece(b, z, 3 + |b.sealed| + k);
    }
  }
}
