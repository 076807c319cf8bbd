/** What a closed block file holds, byte by byte. */
module FileMeaning {
  import opened BlockFiles
  import opened BlockFormat
  import opened Positional

  /** A number of k bytes: byte i is its digit of 256 to the i. */
  lemma {:induction false} LeMeans(n: nat, k: nat, i: nat)
    requires i < k
    ensures Le(n, k)[i] == n / Pow(256, i) % 256
  {
    if i == 0 {
      assert n / 1 == n;
    } else {
      LeMeans(n / 256, k - 1, i - 1);
      DivideTwice(n, Pow(256, i - 1));
    }
  }

  lemma DivideTwice(n: nat, p: nat)
    requires 1 <= p
    ensures n / 256 / p == n / (256 * p)
  {
    var q, r := n / 256 / p, n / 256 % p;
    assert n / 256 == q * p + r;
    assert n == q * (256 * p) + (256 * r + n % 256);
    DivMod(256 * p, q, 256 * r + n % 256);
  }

  /** The file is the items, each one behind its length, then the block infos and 64 bytes of header. */
  lemma FileMeans(items: seq<Data>, item: Data, bs: seq<BlockInfo>, h: Header, f: Data)
    requires f == FileBytes(items, bs, h) && |h.dataHash| == 32
    ensures Packed([]) == [] && Packed(items + [item]) == Packed(items) + Le(|item|, 8) + item
    ensures |f| == |Packed(items)| + 32 * |bs| + 64 && f[..|Packed(items)|] == Packed(items)
    ensures f[|Packed(items)|..|Packed(items)| + 32 * |bs|] == InfosBytes(bs)
    ensures f[|f| - 64..] == HeaderBytes(h)
  {
    hide Le, InfosBytes, HeaderBytes;
    PackedNext(items, item);
    NoItems();
    HeaderSize(h);
  }

  lemma HeaderSize(h: Header)
    requires |h.dataHash| == 32
    ensures |HeaderBytes(h)| == 64
  {
  }

  /** The header: magic number, version, number of blocks, number of items and hash. */
  lemma HeaderMeans(h: Header, s: Data)
    requires s == HeaderBytes(h) && |h.dataHash| == 32
    ensures s[..8] == Le(h.magic, 8) && s[8..16] == Le(h.version, 8)
    ensures s[16..24] == Le(h.blockNumber, 8) && s[24..32] == Le(h.itemNumber, 8) && s[32..] == h.dataHash
  {
    hide Le;
    Fields(Le(h.magic, 8), Le(h.version, 8), Le(h.blockNumber, 8), Le(h.itemNumber, 8), h.dataHash);
  }

  /** A block info: first item, item behind the last, first byte, byte behind the last. */
  lemma InfoMeans(bs: seq<BlockInfo>, k: nat, s: Data)
    requires k < |bs| && s == InfosBytes(bs)[32 * k..32 * k + 32]
    ensures s[..8] == Le(bs[k].startItem, 8) && s[8..16] == Le(bs[k].endItem, 8)
    ensures s[16..24] == Le(bs[k].startPos, 8) && s[24..32] == Le(bs[k].endPos, 8)
  {
    hide Le;
    var b := bs[k];
    InfoAt(bs, k);
    Fields(Le(b.startItem, 8), Le(b.endItem, 8), Le(b.startPos, 8), Le(b.endPos, 8), []);
    assert InfoBytes(b) + [] == InfoBytes(b);
  }

  /** The blocks: block k holds the items from k * perBlock on, perBlock of them or up to the end. */
  lemma TilesMean(bs: seq<BlockInfo>, items: seq<Data>, perBlock: nat, k: nat)
    requires Tiles(bs, items, perBlock) && k < |bs|
    ensures bs[k].startItem == k * perBlock < |items|
    ensures bs[k].endItem == if k < |bs| - 1 then k * perBlock + perBlock else |items|
    ensures bs[k].endItem <= |items|
    ensures k == |bs| - 1 ==> |items| <= k * perBlock + perBlock
    ensures bs[k].startPos == |Packed(items[..bs[k].startItem])| && bs[k].endPos == |Packed(items[..bs[k].endItem])|
  {
    StartsAt(bs, items, perBlock, k);
    assert TileOk(bs, items, perBlock, k);
    if k < |bs| - 1 { assert TileOk(bs, items, perBlock, k + 1); }
  }

  lemma {:induction false} StartsAt(bs: seq<BlockInfo>, items: seq<Data>, perBlock: nat, k: nat)
    requires Tiles(bs, items, perBlock) && k < |bs|
    ensures bs[k].startItem == k * perBlock
  {
    if k != 0 {
      StartsAt(bs, items, perBlock, k - 1);
      assert TileOk(bs, items, perBlock, k);
      assert k * perBlock == (k - 1) * perBlock + perBlock;
    }
  }

  /** What close writes for a file of these items: their header. */
  lemma HeaderForMeans(f: BlockFile, items: seq<Data>, bs: seq<BlockInfo>)
    ensures f.HeaderFor(items, bs).magic == f.magic && f.HeaderFor(items, bs).version == f.version
    ensures f.HeaderFor(items, bs).blockNumber == |bs| && f.HeaderFor(items, bs).itemNumber == |items|
    ensures |f.HeaderFor(items, bs).dataHash| == 32
    ensures forall i :: 0 <= i < 32 ==> f.HeaderFor(items, bs).dataHash[i] == 0
  {
  }
}
