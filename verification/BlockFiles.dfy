/** The block file of blockfile_base_r.h: appending items, closing, and reading them back. */
module BlockFiles {
  import opened BlockFormat
  import opened Lists

  /** A file with a cursor and the two state bits of a stream. */
  class ByteFile {
    var data: Data
    var pos: nat
    var eof: bool
    var fail: bool

    constructor (data: Data)
      ensures this.data == data && pos == 0 && !eof && !fail
    {
      this.data, pos, eof, fail := data, 0, false, false;
    }

    method Clear()
      modifies this`eof, this`fail
      ensures !eof && !fail
    {
      eof, fail := false, false;
    }

    /** seekg to a distance from the beginning; it fails before the beginning, or in a failed stream. */
    method SeekG(target: int)
      modifies this`pos, this`eof, this`fail
      ensures !eof && (fail <==> old(fail) || target < 0) && pos == if fail then old(pos) else target
    {
      eof := false;
      if !fail {
        if target < 0 { fail := true; } else { pos := target; }
      }
    }

    method SeekP(target: int)
      modifies this`pos, this`fail
      ensures (fail <==> old(fail) || target < 0) && pos == if fail then old(pos) else target
    {
      if !fail {
        if target < 0 { fail := true; } else { pos := target; }
      }
    }

    method Read(n: nat) returns (s: Data)
      modifies this`pos, this`eof, this`fail
      ensures old(!eof && !fail && pos + n <= |data|) ==>
        s == data[old(pos)..old(pos) + n] && pos == old(pos) + n && !eof && !fail
      ensures old(!eof && !fail && pos + n > |data|) ==> (n > 0 ==> |s| < n) && pos >= old(pos) && eof && fail
      ensures old(eof || fail) ==> s == [] && pos == old(pos) && eof == old(eof) && fail
    {
      if eof || fail {
        fail, s := true, [];
      } else if pos + n <= |data| {
        s := data[pos..pos + n];
        pos := pos + n;
      } else if pos <= |data| {
        s := data[pos..];
        pos, eof, fail := |data|, true, true;
      } else {
        s, eof, fail := [], true, true;
      }
    }

    /** write, over what is there or behind the end */
    method Write(s: Data)
      requires pos <= |data|
      modifies this`data, this`pos
      ensures fail ==> data == old(data) && pos == old(pos)
      ensures !fail ==>
        pos == old(pos) + |s| && data == old(data)[..old(pos)] + s + if pos <= old(|data|) then old(data)[pos..] else []
      ensures pos <= |data|
    {
      if !fail {
        data := data[..pos] + s + if pos + |s| <= |data| then data[pos + |s|..] else [];
        pos := pos + |s|;
      }
    }
  }

  /** succ, eof, invalid_buf, small_buf; the size is the value of out_size where it is set. */
  datatype ReadResult = Succ(item: Data) | Eof | InvalidBuf | SmallBuf(size: nat)

  const ZEROS: Data := [0, 0, 0, 0, 0, 0, 0, 0, 0, 0, 0, 0, 0, 0, 0, 0, 0, 0, 0, 0, 0, 0, 0, 0, 0, 0, 0, 0, 0, 0, 0, 0]

  class BlockFile {
    const magic: nat
    const version: nat
    const perBlock: nat
    const file: ByteFile
    var isOpen: bool
    var header: Header
    var isHeaderValid: bool
    var isBlockInfoValid: bool
    var blockInfos: seq<BlockInfo>

    constructor (magic: nat, version: nat, perBlock: nat)
      requires 0 < magic < LIMIT && version < LIMIT && perBlock > 0
      ensures this.magic == magic && this.version == version && this.perBlock == perBlock
      ensures Fresh() && !isOpen && fresh(file)
    {
      this.magic, this.version, this.perBlock := magic, version, perBlock;
      file := new ByteFile([]);
      isOpen, header, isHeaderValid, isBlockInfoValid, blockInfos := false, Header(0, 0, 0, 0, ZEROS), false, false, [];
    }

    predicate Params() { 0 < magic < LIMIT && version < LIMIT && perBlock > 0 }

    /** Nothing has been written or read yet. */
    predicate Fresh()
      reads this
    {
      Params() && header == Header(0, 0, 0, 0, ZEROS) && !isHeaderValid && !isBlockInfoValid && blockInfos == []
    }

    function HeaderFor(items: seq<Data>, bs: seq<BlockInfo>): Header {
      Header(magic, version, |bs|, |items|, ZEROS)
    }

    /** Open for writing, with these items appended so far. */
    ghost predicate Writing(items: seq<Data>)
      reads this, file
    {
      && Params() && isOpen && !file.fail && file.data == Packed(items) && file.pos <= |file.data|
      && (items == [] ==> Fresh())
      && (items != [] ==>
         isHeaderValid && isBlockInfoValid && header == HeaderFor(items, blockInfos)
         && Tiles(blockInfos, items, perBlock))
    }

    /** Open for reading; the cursor is before item `next`, or behind the last. */
    ghost predicate Reading(items: seq<Data>, bs: seq<BlockInfo>, next: nat)
      reads this, file
    {
      && Params() && isOpen && isHeaderValid && isBlockInfoValid && items != [] && next <= |items|
      && Tiles(bs, items, perBlock) && WellSized(items, bs)
      && header == HeaderFor(items, bs) && blockInfos == bs && file.data == FileBytes(items, bs, header)
      && file.pos == |Packed(items[..next])| && !file.eof && !file.fail
    }

    /** All numbers fit in 64 bits. */
    ghost predicate WellSized(items: seq<Data>, bs: seq<BlockInfo>) {
      && |items| < LIMIT && |bs| < LIMIT && |Packed(items)| < LIMIT
      && (forall i :: 0 <= i < |items| ==> |items[i]| < LIMIT) && forall k :: 0 <= k < |bs| ==> Small(bs[k])
    }

    method OpenForWrite() returns (ok: bool)
      requires Fresh()
      modifies this`isOpen, file
      ensures ok <==> !old(isOpen)
      ensures ok ==> Writing([])
    {
      ok := !isOpen;
      if ok {
        file.data, file.pos, file.eof, file.fail := [], 0, false, false;
        isOpen := true;
      }
    }

    /** read_header; false stands for the exception invalid_blockfile. */
    method ReadHeader() returns (ok: bool)
      requires !file.fail
      modifies this`header, this`isHeaderValid, file`pos, file`eof, file`fail
      ensures old(isHeaderValid) ==>
        ok && isHeaderValid && header == old(header) && !file.fail && file.pos == old(file.pos)
      ensures !old(isHeaderValid) ==> (ok <==> isHeaderValid)
      ensures !old(isHeaderValid) && |file.data| == 0 ==>
        ok && header == old(header) && file.pos == old(file.pos) && !file.fail
      ensures !old(isHeaderValid) && 0 < |file.data| < HEADER_SIZE ==> (ok <==> old(header).magic == magic)
      ensures !old(isHeaderValid) && |file.data| >= HEADER_SIZE ==>
        && header == HeaderOf(file.data[|file.data| - HEADER_SIZE..]) && (ok <==> header.magic == magic)
        && (ok ==> file.pos == old(file.pos) && !file.fail && !file.eof)
    {
      ok := true;
      if isHeaderValid { return; }
      var prev := file.pos;
      file.SeekG(|file.data|);
      var len := file.pos;
      if len == 0 {
        isHeaderValid := true;
        file.SeekG(prev);
        return;
      }
      file.SeekG(|file.data| - HEADER_SIZE);
      var s := file.Read(HEADER_SIZE);
      assert |file.data| >= HEADER_SIZE ==> s == file.data[|file.data| - HEADER_SIZE..];
      if |s| == HEADER_SIZE { header := HeaderOf(s); }
      if header.magic != magic {
        ok := false;
        return;
      }
      isHeaderValid := true;
      file.SeekG(prev);
    }

    /** read_all_block_info, once the header is there */
    method ReadAllBlockInfo()
      requires isHeaderValid
      modifies this`isBlockInfoValid, this`blockInfos, file`pos, file`eof, file`fail
      ensures isBlockInfoValid
      ensures old(isBlockInfoValid) ==>
        blockInfos == old(blockInfos) && file.pos == old(file.pos) && file.fail == old(file.fail)
        && file.eof == old(file.eof)
      ensures !old(isBlockInfoValid) && header.blockNumber == 0 ==> blockInfos == old(blockInfos)
      ensures !old(isBlockInfoValid) && !old(file.fail) && |file.data| >= HEADER_SIZE + 32 * header.blockNumber ==>
        && !file.fail && !file.eof && file.pos == old(file.pos)
        && blockInfos == old(blockInfos) + InfosOf(file.data, |file.data| - HEADER_SIZE - 32 * header.blockNumber,
           header.blockNumber)
    {
      hide InfoOf;
      if isBlockInfoValid { return; }
      var prev := file.pos;
      ghost var at := |file.data| - (HEADER_SIZE + header.blockNumber * 32);
      file.SeekG(|file.data| - (HEADER_SIZE + header.blockNumber * 32));
      for i := 0 to header.blockNumber
        invariant i == 0 ==> blockInfos == old(blockInfos)
        invariant !old(file.fail) && at >= 0 ==> !file.fail && !file.eof && file.pos == at + 32 * i
        invariant !old(file.fail) && at >= 0 ==> blockInfos == old(blockInfos) + InfosOf(file.data, at, i)
      {
        var s := file.Read(32);
        var bi := if |s| == 32 then InfoOf(s) else BlockInfo(0, 0, 0, 0);
        blockInfos := blockInfos + [bi];
      }
      isBlockInfoValid := true;
      file.SeekG(prev);
    }

    /** The block infos count the new item: in the last block, or in a new one. */
    method CountItem(size: nat)
      modifies this`header, this`blockInfos
      ensures blockInfos == Extended(old(blockInfos), size, perBlock)
      ensures header == old(header).(blockNumber := old(header).blockNumber + |blockInfos| - old(|blockInfos|))
    {
      if |blockInfos| == 0 {
        blockInfos := blockInfos + [BlockInfo(0, 1, 0, size)];
        header := header.(blockNumber := header.blockNumber + 1);
      } else {
        var bi := blockInfos[|blockInfos| - 1];
        if bi.endItem - bi.startItem >= perBlock {
          blockInfos := blockInfos + [BlockInfo(bi.endItem, bi.endItem + 1, bi.endPos, bi.endPos + size)];
          header := header.(blockNumber := header.blockNumber + 1);
        } else {
          blockInfos := blockInfos[|blockInfos| - 1 := bi.(endItem := bi.endItem + 1, endPos := bi.endPos + size)];
        }
      }
    }

    method WriteItem(at: int, data: Data)
      requires !file.fail && at == |file.data|
      modifies file`data, file`pos, file`fail
      ensures file.data == old(file.data) + ItemBytes(data) && !file.fail && file.pos == |file.data|
    {
      hide Le;
      file.SeekP(at);
      file.Write(Le(|data|, 8));
      file.Write(data);
    }

    /** append_item on a file being written */
    method AppendItem(data: Data, ghost items: seq<Data>)
      requires Writing(items)
      modifies this`header, this`isHeaderValid, this`isBlockInfoValid, this`blockInfos, file
      ensures Writing(items + [data])
    {
      hide TileOk, Tiles, Extended, ItemBytes, Packed;
      NoItems();
      var ok := ReadHeader();
      ReadAllBlockInfo();
      file.Clear();
      header := header.(itemNumber := header.itemNumber + 1, magic := magic, version := version);
      if items == [] { TilesStart(data, perBlock); } else { TilesGrow(blockInfos, items, data, perBlock); }
      CountItem(|data| + 8);
      PackedNext(items, data);
      EndIs(blockInfos, items + [data], perBlock);
      ItemSize(data);
      assert [] + [data] == [data];
      WriteItem(blockInfos[|blockInfos| - 1].endPos - 8 - |data|, data);
    }

    /** close: the block infos and the header behind the data */
    method Close(ghost items: seq<Data>)
      requires Writing(items) && items != []
      modifies this`isOpen, this`isHeaderValid, this`isBlockInfoValid, this`blockInfos, file
      ensures !isOpen && !isHeaderValid && !isBlockInfoValid && blockInfos == []
      ensures file.data == FileBytes(items, old(blockInfos), HeaderFor(items, old(blockInfos)))
    {
      hide Le, TileOk;
      ghost var bs := blockInfos;
      EndIs(blockInfos, items, perBlock);
      file.SeekP(blockInfos[|blockInfos| - 1].endPos);
      for i := 0 to |blockInfos|
        invariant blockInfos == bs
        invariant !file.fail && file.data == Packed(items) + InfosBytes(bs[..i]) && file.pos == |file.data|
      {
        assert bs[..i + 1][..i] == bs[..i];
        file.Write(InfoBytes(blockInfos[i]));
      }
      assert bs[..|bs|] == bs;
      file.Write(HeaderBytes(header));
      isHeaderValid, isBlockInfoValid, blockInfos := false, false, [];
      isOpen := false;
    }

    /** reset_read_item */
    method ResetReadItem() returns (ok: bool)
      requires Params()
      modifies this`header, this`isHeaderValid, this`isBlockInfoValid, this`blockInfos, file`pos, file`eof, file`fail
      ensures !old(isHeaderValid) && |file.data| > HEADER_SIZE ==>
        (ok <==> HeaderOf(file.data[|file.data| - HEADER_SIZE..]).magic == magic)
      ensures ok && !old(isHeaderValid) && !old(isBlockInfoValid) && |file.data| > HEADER_SIZE ==>
        && isHeaderValid && isBlockInfoValid && header == HeaderOf(file.data[|file.data| - HEADER_SIZE..])
        && (|file.data| >= HEADER_SIZE + 32 * header.blockNumber ==>
          && file.pos == 0 && !file.eof && !file.fail
          && blockInfos == old(blockInfos) + InfosOf(file.data, |file.data| - HEADER_SIZE - 32 * header.blockNumber,
             header.blockNumber))
      ensures ok && old(isHeaderValid && isBlockInfoValid) ==>
        header == old(header) && blockInfos == old(blockInfos) && file.pos == 0 && !file.eof && !file.fail
          && isHeaderValid && isBlockInfoValid
      ensures old(isHeaderValid) ==> ok
    {
      file.Clear();
      ok := ReadHeader();
      if !ok { return; }
      ReadAllBlockInfo();
      file.SeekG(0);
    }

    /** open_for_read: reopening what close has written restores the header and the block infos. */
    method OpenForRead(content: Data, ghost items: seq<Data>, ghost bs: seq<BlockInfo>) returns (ok: bool)
      requires Params() && !isOpen && !isHeaderValid && !isBlockInfoValid && blockInfos == [] && items != []
      requires content == FileBytes(items, bs, HeaderFor(items, bs)) && Tiles(bs, items, perBlock)
        && WellSized(items, bs)
      modifies this, file
      ensures ok && Reading(items, bs, 0)
    {
      file.data, file.pos, file.eof, file.fail := content, 0, false, false;
      isOpen := true;
      Restored(items, bs);
      ok := ResetReadItem();
    }

    lemma Restored(items: seq<Data>, bs: seq<BlockInfo>)
      requires Params() && Tiles(bs, items, perBlock) && WellSized(items, bs)
      ensures var h := HeaderFor(items, bs); var content := FileBytes(items, bs, h);
        && |content| > HEADER_SIZE + 32 * |bs| && HeaderOf(content[|content| - HEADER_SIZE..]) == h
        && InfosOf(content, |content| - HEADER_SIZE - 32 * |bs|, |bs|) == bs
    {
      var h := HeaderFor(items, bs);
      var content := FileBytes(items, bs, h);
      hide Le, TileOk, Tiles;
      HeaderRoundTrip(h);
      assert content[|content| - HEADER_SIZE..] == HeaderBytes(h);
      InfosBack(content, |Packed(items)|, bs);
      HasData(items, bs, perBlock);
    }

    /** next_item: the next item, or its size when the buffer is too small for it; then the cursor stays
        before the item. Behind the last item the first word of the block infos reads as an empty item. */
    method NextItem(hasBuf: bool, capacity: nat, ghost items: seq<Data>, ghost bs: seq<BlockInfo>, ghost next: nat)
      returns (r: ReadResult)
      requires Reading(items, bs, next)
      modifies file`pos, file`eof, file`fail
      ensures !hasBuf ==> r == InvalidBuf && Reading(items, bs, next)
      ensures hasBuf && next < |items| && capacity < |items[next]| ==>
        r == SmallBuf(|items[next]|) && Reading(items, bs, next)
      ensures hasBuf && next < |items| && capacity >= |items[next]| ==>
        r == Succ(items[next]) && Reading(items, bs, next + 1)
      ensures hasBuf && next == |items| ==> r == Succ([])
    {
      hide Le, OfLe, TileOk, Tiles, WellSized;
      if file.eof { return Eof; }
      WordAt(items, bs, next);
      var s := file.Read(8);
      if file.eof { return Eof; }
      var len := OfLe(s);
      if !hasBuf {
        file.SeekP(file.pos - 8);
        return InvalidBuf;
      }
      if capacity < len {
        file.SeekP(file.pos - 8);
        return SmallBuf(len);
      }
      var buf := file.Read(len);
      r := Succ(buf);
    }

    lemma WordAt(items: seq<Data>, bs: seq<BlockInfo>, next: nat)
      requires items != [] && next <= |items| && Tiles(bs, items, perBlock) && WellSized(items, bs)
      ensures var content := FileBytes(items, bs, HeaderFor(items, bs)); var p := |Packed(items[..next])|;
        && p + 8 <= |content|
        && OfLe(content[p..p + 8]) == (if next < |items| then |items[next]| else 0)
        && (next < |items| ==>
           p + 8 + |items[next]| <= |content| && |Packed(items[..next + 1])| == p + 8 + |items[next]|)
        && (next < |items| ==> content[p + 8..p + 8 + |items[next]|] == items[next])
    {
      hide Le, OfLe, Packed, Tiles, FileBytes;
      if next < |items| { WordOfItem(items, bs, next); } else { WordBehind(items, bs); }
    }

    lemma WordOfItem(items: seq<Data>, bs: seq<BlockInfo>, next: nat)
      requires next < |items| && WellSized(items, bs)
      ensures var content := FileBytes(items, bs, HeaderFor(items, bs)); var p := |Packed(items[..next])|;
        && p + 8 + |items[next]| <= |content| && |Packed(items[..next + 1])| == p + 8 + |items[next]|
        && OfLe(content[p..p + 8]) == |items[next]| && content[p + 8..p + 8 + |items[next]|] == items[next]
    {
      hide Le, OfLe, InfosBytes, HeaderBytes, Packed;
      var h := HeaderFor(items, bs);
      ItemAt(items, next);
      Uint64(|items[next]|);
      InFront(Packed(items), InfosBytes(bs) + HeaderBytes(h), |Packed(items[..next])|, |items[next]|);
      assert FileBytes(items, bs, h) == Packed(items) + (InfosBytes(bs) + HeaderBytes(h));
    }

    lemma WordBehind(items: seq<Data>, bs: seq<BlockInfo>)
      requires items != [] && Tiles(bs, items, perBlock)
      ensures var content := FileBytes(items, bs, HeaderFor(items, bs)); var p := |Packed(items[..|items|])|;
        p + 8 <= |content| && OfLe(content[p..p + 8]) == 0
    {
      hide Le, OfLe, TileOk, InfosBytes, HeaderBytes, InfoBytes, Packed;
      assert items[..|items|] == items;
      InfoAt(bs, 0);
      Uint64(0);
      FirstWord(Packed(items), InfosBytes(bs), HeaderBytes(HeaderFor(items, bs)), bs[0]);
    }

    /** item_number */
    function ItemNumber(): nat
      requires isHeaderValid
      reads this
    {
      header.itemNumber
    }
  }

  /** A client that asks for item_number() items gets all of them, in order. */
  method ReadItems(file: BlockFile, capacity: nat, ghost items: seq<Data>, ghost bs: seq<BlockInfo>)
    returns (got: seq<Data>)
    requires file.Reading(items, bs, 0) && forall i :: 0 <= i < |items| ==> |items[i]| <= capacity
    modifies file.file`pos, file.file`eof, file.file`fail
    ensures got == items && file.Reading(items, bs, |items|)
  {
    hide FileBytes, Tiles, BlockFile.WellSized;
    var n := file.ItemNumber();
    got := [];
    for i := 0 to n
      invariant n == |items| && file.Reading(items, bs, i) && got == items[..i]
    {
      var r := file.NextItem(true, capacity, items, bs, i);
      got := got + [r.item];
    }
  }

  /** Items appended to a fresh file, which is closed and opened again, are read back as they were. The file has
      to stay below 2^64 bytes. */
  method WriteThenRead(magic: nat, version: nat, perBlock: nat, items: seq<Data>, capacity: nat)
    returns (ok: bool, got: seq<Data>)
    requires 0 < magic < LIMIT && version < LIMIT && perBlock > 0 && items != []
    requires forall i :: 0 <= i < |items| ==> |items[i]| <= capacity
    ensures ok <==> |Packed(items)| < LIMIT
    ensures ok ==> got == items
  {
    hide BlockFile.Writing, BlockFile.Reading, Packed, Tiles, FileBytes;
    var file := new BlockFile(magic, version, perBlock);
    ok := file.OpenForWrite();
    for i := 0 to |items|
      invariant fresh(file) && fresh(file.file) && file.Writing(items[..i]) && file.perBlock == perBlock
    {
      assert items[..i + 1] == items[..i] + [items[i]];
      file.AppendItem(items[i], items[..i]);
    }
    assert items[..|items|] == items;
    got := [];
    WrittenIs(file, items);
    ok := |file.file.data| < LIMIT;
    if !ok { return; }
    ghost var bs := file.blockInfos;
    file.Close(items);
    var again := new BlockFile(magic, version, perBlock);
    SizesFit(again, items, bs);
    var _ := again.OpenForRead(file.file.data, items, bs);
    got := ReadItems(again, capacity, items, bs);
  }

  lemma WrittenIs(f: BlockFile, items: seq<Data>)
    requires f.Writing(items)
    ensures f.file.data == Packed(items) && (items != [] ==> Tiles(f.blockInfos, items, f.perBlock))
  {
  }

  lemma {:induction false} SizeOf(items: seq<Data>, i: nat)
    requires i <= |items|
    ensures |Packed(items[..i])| >= 8 * i && |Packed(items[..i])| <= |Packed(items)|
    ensures i < |items| ==> |items[i]| <= |Packed(items)|
    decreases |items| - i
  {
    if i < |items| {
      SizeOf(items, i + 1);
      ItemAt(items, i);
      SizeFront(items[..i]);
    } else {
      assert items[..i] == items;
      SizeFront(items);
    }
  }

  lemma {:induction false} SizeFront(items: seq<Data>)
    ensures |Packed(items)| >= 8 * |items|
  {
    hide Le;
    if items != [] { SizeFront(items[..|items| - 1]); }
  }

  lemma {:induction false} BlockHasItems(bs: seq<BlockInfo>, items: seq<Data>, perBlock: nat, k: nat)
    requires Tiles(bs, items, perBlock) && k < |bs|
    ensures k < bs[k].endItem <= |items|
  {
    assert TileOk(bs, items, perBlock, k);
    if k > 0 { BlockHasItems(bs, items, perBlock, k - 1); }
  }

  /** Files below 2^64 bytes keep all numbers in their 64 bits. */
  lemma SizesFit(file: BlockFile, items: seq<Data>, bs: seq<BlockInfo>)
    requires Tiles(bs, items, file.perBlock) && |Packed(items)| < LIMIT
    ensures file.WellSized(items, bs)
  {
    SizeFront(items);
    BlockHasItems(bs, items, file.perBlock, |bs| - 1);
    forall i | 0 <= i < |items| ensures |items[i]| < LIMIT { SizeOf(items, i); }
    forall k | 0 <= k < |bs| ensures Small(bs[k]) {
      assert TileOk(bs, items, file.perBlock, k);
      SizeOf(items, bs[k].startItem);
      SizeOf(items, bs[k].endItem);
    }
  }

  lemma FirstWord(a: Data, infos: Data, h: Data, b: BlockInfo)
    requires |infos| >= 32 && infos[0..32] == InfoBytes(b)
    ensures (a + infos + h)[|a|..|a| + 8] == Le(b.startItem, 8)
  {
    hide Le;
    assert (a + infos + h)[|a|..|a| + 8] == infos[0..32][..8];
    Fields(Le(b.startItem, 8), Le(b.endItem, 8), Le(b.startPos, 8), Le(b.endPos, 8), []);
    assert InfoBytes(b) + [] == InfoBytes(b);
  }

  /** The n block infos from position at on. */
  function InfosOf(data: Data, at: nat, n: nat): seq<BlockInfo>
    requires at + 32 * n <= |data|
  {
    if n == 0 then [] else InfosOf(data, at, n - 1) + [InfoOf(data[at + 32 * (n - 1)..at + 32 * n])]
  }

  lemma {:induction false} InfosBackTo(data: Data, at: nat, bs: seq<BlockInfo>, n: nat)
    requires n <= |bs| && at + 32 * |bs| <= |data| && data[at..at + 32 * |bs|] == InfosBytes(bs)
    requires forall k :: 0 <= k < |bs| ==> Small(bs[k])
    ensures InfosOf(data, at, n) == bs[..n]
  {
    if n != 0 {
      InfosBackTo(data, at, bs, n - 1);
      var k := n - 1;
      InfoAt(bs, k);
      InfoRoundTrip(bs[k]);
      SliceOfSlice(data, at, 32 * |bs|, 32 * k, 32 * k + 32);
      assert bs[..n] == bs[..k] + [bs[k]];
    }
  }

  lemma NoItems()
    ensures Packed([]) == []
  {
  }

  lemma ItemSize(data: Data)
    ensures |ItemBytes(data)| == 8 + |data|
  {
  }

  lemma InfosBack(content: Data, at: nat, bs: seq<BlockInfo>)
    requires at + 32 * |bs| <= |content| && content[at..at + 32 * |bs|] == InfosBytes(bs)
    requires forall k :: 0 <= k < |bs| ==> Small(bs[k])
    ensures InfosOf(content, at, |bs|) == bs
  {
    InfosBackTo(content, at, bs, |bs|);
    assert bs[..|bs|] == bs;
  }

  lemma EndIs(bs: seq<BlockInfo>, items: seq<Data>, perBlock: nat)
    requires Tiles(bs, items, perBlock)
    ensures bs[|bs| - 1].endPos == |Packed(items)|
  {
    assert TileOk(bs, items, perBlock, |bs| - 1);
    assert items[..|items|] == items;
  }

  lemma HasData(items: seq<Data>, bs: seq<BlockInfo>, perBlock: nat)
    requires Tiles(bs, items, perBlock)
    ensures |Packed(items)| > 0 && items != []
  {
    hide Le;
    assert TileOk(bs, items, perBlock, |bs| - 1);
  }
}
