/** The layout of a block file of blockfile_base_r.h with the header of blockfile_v2.h: the items, each
    behind its length, then the block infos, then the header. */
module BlockFormat {
  import opened OctetStrings
  import opened Positional

  type Data = Octets

  // ----- unsigned integers of k bytes, least significant byte first -----

  function Le(n: nat, k: nat): (s: Data)
    ensures |s| == k
  {
    if k == 0 then [] else [n % 256] + Le(n / 256, k - 1)
  }

  function OfLe(s: Data): nat {
    if s == [] then 0 else s[0] + 256 * OfLe(s[1..])
  }

  lemma {:induction false} LeRoundTrip(n: nat, k: nat)
    requires n < Pow(256, k)
    ensures OfLe(Le(n, k)) == n
  {
    if k != 0 {
      assert n / 256 < Pow(256, k - 1);
      LeRoundTrip(n / 256, k - 1);
      assert Le(n, k)[1..] == Le(n / 256, k - 1);
    }
  }

  const LIMIT: nat := Pow(256, 8)

  lemma Uint64(n: nat)
    requires n < LIMIT
    ensures OfLe(Le(n, 8)) == n
  {
    LeRoundTrip(n, 8);
  }

  // ----- items -----

  function ItemBytes(item: Data): Data { Le(|item|, 8) + item }

  /** The data part of a file. */
  function Packed(items: seq<Data>): Data {
    if items == [] then [] else Packed(items[..|items| - 1]) + ItemBytes(items[|items| - 1])
  }

  lemma PackedNext(items: seq<Data>, item: Data)
    ensures Packed(items + [item]) == Packed(items) + ItemBytes(item)
  {
    assert (items + [item])[..|items|] == items;
  }

  /** Item i starts behind the first i items. */
  lemma {:induction false} ItemAt(items: seq<Data>, i: nat)
    requires i < |items|
    ensures var p := |Packed(items[..i])|;
      && |Packed(items[..i + 1])| == p + 8 + |items[i]| <= |Packed(items)|
      && Packed(items)[p..p + 8] == Le(|items[i]|, 8)
      && Packed(items)[p + 8..p + 8 + |items[i]|] == items[i]
  {
    assert items[..i + 1][..i] == items[..i];
    if i == |items| - 1 {
      assert items[..i + 1] == items;
      LastItem(Packed(items[..i]), items[i]);
    } else {
      var front := items[..|items| - 1];
      ItemAt(front, i);
      assert front[..i] == items[..i] && front[..i + 1] == items[..i + 1];
      InFront(Packed(front), ItemBytes(items[|items| - 1]), |Packed(items[..i])|, |items[i]|);
    }
  }

  lemma LastItem(a: Data, item: Data)
    ensures (a + ItemBytes(item))[|a|..|a| + 8] == Le(|item|, 8)
    ensures (a + ItemBytes(item))[|a| + 8..|a| + 8 + |item|] == item
  {
    hide Le;
    var n := Le(|item|, 8);
    assert a + ItemBytes(item) == a + n + item;
  }

  lemma InFront(a: Data, b: Data, p: nat, n: nat)
    requires p + 8 + n <= |a|
    ensures (a + b)[p..p + 8] == a[p..p + 8] && (a + b)[p + 8..p + 8 + n] == a[p + 8..p + 8 + n]
  {
  }

  // ----- block infos -----

  datatype BlockInfo = BlockInfo(startItem: nat, endItem: nat, startPos: nat, endPos: nat)

  function InfoBytes(b: BlockInfo): (r: Data)
    ensures |r| == 32
  {
    Le(b.startItem, 8) + Le(b.endItem, 8) + Le(b.startPos, 8) + Le(b.endPos, 8)
  }

  function InfoOf(s: Data): BlockInfo
    requires |s| == 32
  {
    BlockInfo(OfLe(s[..8]), OfLe(s[8..16]), OfLe(s[16..24]), OfLe(s[24..32]))
  }

  function InfosBytes(bs: seq<BlockInfo>): (r: Data)
    ensures |r| == 32 * |bs|
  {
    if bs == [] then [] else InfosBytes(bs[..|bs| - 1]) + InfoBytes(bs[|bs| - 1])
  }

  predicate Small(b: BlockInfo) { b.startItem < LIMIT && b.endItem < LIMIT && b.startPos < LIMIT && b.endPos < LIMIT }

  lemma InfoRoundTrip(b: BlockInfo)
    requires Small(b)
    ensures InfoOf(InfoBytes(b)) == b
  {
    Uint64(b.startItem);
    Uint64(b.endItem);
    Uint64(b.startPos);
    Uint64(b.endPos);
    hide Le, OfLe;
    Fields(Le(b.startItem, 8), Le(b.endItem, 8), Le(b.startPos, 8), Le(b.endPos, 8), []);
    assert InfoBytes(b) + [] == InfoBytes(b);
  }

  lemma Fields(a: Data, b: Data, c: Data, d: Data, e: Data)
    requires |a| == |b| == |c| == |d| == 8
    ensures var s := a + b + c + d + e; s[..8] == a && s[8..16] == b && s[16..24] == c && s[24..32] == d && s[32..] == e
  {
  }

  lemma {:induction false} InfoAt(bs: seq<BlockInfo>, i: nat)
    requires i < |bs|
    ensures InfosBytes(bs)[32 * i..32 * i + 32] == InfoBytes(bs[i])
  {
    var front := bs[..|bs| - 1];
    if i < |front| {
      InfoAt(front, i);
      assert InfosBytes(bs)[32 * i..32 * i + 32] == InfosBytes(front)[32 * i..32 * i + 32];
    }
  }

  /** The blocks tile the items and their bytes, without gaps; all but the last are exactly full. */
  ghost predicate Tiles(bs: seq<BlockInfo>, items: seq<Data>, perBlock: nat) {
    && |bs| > 0 && bs[0].startItem == 0 && bs[|bs| - 1].endItem == |items|
    && (forall k :: 0 <= k < |bs| ==> TileOk(bs, items, perBlock, k))
  }

  ghost predicate TileOk(bs: seq<BlockInfo>, items: seq<Data>, perBlock: nat, k: nat)
    requires k < |bs|
  {
    && bs[k].startItem < bs[k].endItem <= |items|
    && bs[k].startPos == |Packed(items[..bs[k].startItem])| && bs[k].endPos == |Packed(items[..bs[k].endItem])|
    && (0 < k ==> bs[k].startItem == bs[k - 1].endItem && bs[k - 1].endItem - bs[k - 1].startItem == perBlock)
    && (k == |bs| - 1 ==> bs[k].endItem - bs[k].startItem <= perBlock)
  }

  /** What append_item does to the block infos. */
  function Extended(bs: seq<BlockInfo>, size: nat, perBlock: nat): (r: seq<BlockInfo>)
    ensures |r| > 0
  {
    if bs == [] then [BlockInfo(0, 1, 0, size)]
    else
      var b := bs[|bs| - 1];
      if b.endItem >= b.startItem + perBlock then bs + [BlockInfo(b.endItem, b.endItem + 1, b.endPos, b.endPos + size)]
      else bs[|bs| - 1 := b.(endItem := b.endItem + 1, endPos := b.endPos + size)]
  }

  lemma TilesStart(item: Data, perBlock: nat)
    requires perBlock > 0
    ensures Tiles(Extended([], 8 + |item|, perBlock), [item], perBlock)
  {
    assert [item][..1] == [item] && [item][..0] == [];
    PackedNext([], item);
    assert [] + [item] == [item];
  }

  lemma TilesGrow(bs: seq<BlockInfo>, items: seq<Data>, item: Data, perBlock: nat)
    requires Tiles(bs, items, perBlock) && perBlock > 0
    ensures Tiles(Extended(bs, 8 + |item|, perBlock), items + [item], perBlock)
    ensures bs[|bs| - 1].endPos == |Packed(items)|
  {
    var next, all := Extended(bs, 8 + |item|, perBlock), items + [item];
    PackedNext(items, item);
    assert items[..|items|] == items && all[..|all|] == all;
    assert TileOk(bs, items, perBlock, |bs| - 1);
    forall k | 0 <= k < |next| ensures TileOk(next, all, perBlock, k) {
      if k < |bs| {
        assert TileOk(bs, items, perBlock, k);
        assert all[..bs[k].startItem] == items[..bs[k].startItem] && all[..bs[k].endItem] == items[..bs[k].endItem];
      } else {
        assert all[..|items|] == items;
      }
    }
  }

  // ----- the header -----

  datatype Header = Header(magic: nat, version: nat, blockNumber: nat, itemNumber: nat, dataHash: Data)

  const HEADER_SIZE: nat := 64

  predicate GoodHeader(h: Header) {
    h.magic < LIMIT && h.version < LIMIT && h.blockNumber < LIMIT && h.itemNumber < LIMIT && |h.dataHash| == 32
  }

  function HeaderBytes(h: Header): (r: Data)
    ensures |h.dataHash| == 32 ==> |r| == HEADER_SIZE
  {
    Le(h.magic, 8) + Le(h.version, 8) + Le(h.blockNumber, 8) + Le(h.itemNumber, 8) + h.dataHash
  }

  function HeaderOf(s: Data): Header
    requires |s| == HEADER_SIZE
  {
    Header(OfLe(s[..8]), OfLe(s[8..16]), OfLe(s[16..24]), OfLe(s[24..32]), s[32..])
  }

  lemma HeaderRoundTrip(h: Header)
    requires GoodHeader(h)
    ensures HeaderOf(HeaderBytes(h)) == h
  {
    Uint64(h.magic);
    Uint64(h.version);
    Uint64(h.blockNumber);
    Uint64(h.itemNumber);
    hide Le, OfLe;
    Fields(Le(h.magic, 8), Le(h.version, 8), Le(h.blockNumber, 8), Le(h.itemNumber, 8), h.dataHash);
  }

  /** A closed file. */
  function FileBytes(items: seq<Data>, bs: seq<BlockInfo>, h: Header): Data {
    Packed(items) + InfosBytes(bs) + HeaderBytes(h)
  }
}
