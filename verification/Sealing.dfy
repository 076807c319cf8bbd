/** Sealing items into batches (datahub/main.cpp), handing out batches (parser.cpp) and unpacking them
    in the enclave (sealed_data_provider.h). */
module Sealing {
  import opened BlockFormat
  import opened BlockFiles
  import opened Lists
  import opened Options

  /** The library functions the pipeline needs. An encryption takes its randomness as a number. */
  datatype Crypto = Crypto(
    hash: Data -> Data,
    encrypt: (Data, nat) -> Data,
    decrypt: Data -> Option<Data>,
    marshal: seq<Data> -> Data,
    unmarshal: Data -> Option<seq<Data>>)

  /** Decryption undoes encryption, and unmarshalling marshalling. */
  ghost predicate Inverse(c: Crypto) {
    && (forall m: Data, nonce: nat :: c.decrypt(c.encrypt(m, nonce)) == Some(m))
    && (forall b: seq<Data> :: c.unmarshal(c.marshal(b)) == Some(b))
  }

  const MAX_ITEM_SIZE: nat := 0x10000

  // ----- the hash chain -----

  /** bytes("Fidelius") */
  const FIDELIUS: Data := [0x46, 0x69, 0x64, 0x65, 0x6c, 0x69, 0x75, 0x73]

  function Chain(c: Crypto, h: Data, items: seq<Data>): Data {
    if items == [] then h else c.hash(Chain(c, h, items[..|items| - 1]) + items[|items| - 1])
  }

  lemma {:induction false} ChainParts(c: Crypto, h: Data, a: seq<Data>, b: seq<Data>)
    ensures Chain(c, h, a + b) == Chain(c, Chain(c, h, a), b)
  {
    if b == [] {
      assert a + b == a;
    } else {
      assert (a + b)[..|a + b| - 1] == a + b[..|b| - 1];
      ChainParts(c, h, a, b[..|b| - 1]);
    }
  }

  /** The hash of some batches, extended by the items of the others */
  lemma HashExtends(c: Crypto, h: Data, batches: seq<seq<Data>>, k: nat)
    requires k <= |batches|
    ensures Chain(c, h, Flatten(batches)) == Chain(c, Chain(c, h, Flatten(batches[..k])), Flatten(batches[k..]))
  {
    hide Chain, Flatten;
    FlattenSplit(batches[..k], batches[k..]);
    assert batches[..k] + batches[k..] == batches;
    ChainParts(c, h, Flatten(batches[..k]), Flatten(batches[k..]));
  }

  // ----- batches -----

  function Total(batch: seq<Data>): nat {
    if batch == [] then 0 else Total(batch[..|batch| - 1]) + |batch[|batch| - 1]|
  }

  lemma TotalNext(batch: seq<Data>, item: Data)
    ensures Total(batch + [item]) == Total(batch) + |item|
  {
    assert (batch + [item])[..|batch|] == batch;
  }

  /** Every batch holds something, and was below the limit before its last item, which is no longer than the limit
      itself; every batch but the last has reached it. */
  predicate Batched(batches: seq<seq<Data>>) {
    forall k :: 0 <= k < |batches| ==> BatchOk(batches[k]) && (k < |batches| - 1 ==> Total(batches[k]) >= MAX_ITEM_SIZE)
  }

  predicate BatchOk(b: seq<Data>) {
    b != [] && Total(b[..|b| - 1]) < MAX_ITEM_SIZE && |b[|b| - 1]| <= MAX_ITEM_SIZE
  }

  predicate Full(batches: seq<seq<Data>>) {
    forall k :: 0 <= k < |batches| ==> BatchOk(batches[k]) && Total(batches[k]) >= MAX_ITEM_SIZE
  }

  /** The file item is a ciphertext of the batch. */
  ghost predicate Seals(c: Crypto, cipher: Data, batch: seq<Data>) {
    c.decrypt(cipher) == Some(c.marshal(batch))
  }

  ghost predicate AllSeal(c: Crypto, ciphers: seq<Data>, batches: seq<seq<Data>>) {
    |ciphers| == |batches| && forall k :: 0 <= k < |ciphers| ==> Seals(c, ciphers[k], batches[k])
  }

  // ----- what seal_file takes from its source -----

  function Less(limit: Option<nat>): Option<nat>
    requires limit != Some(0)
  {
    if limit.Some? then Some(limit.value - 1) else None
  }

  /** The items before the first empty one or the end, at most limit of them. */
  function Taken(source: seq<Data>, limit: Option<nat>): seq<Data> {
    if source == [] || source[0] == [] || limit == Some(0) then []
    else [source[0]] + Taken(source[1..], Less(limit))
  }

  /** The 32-bit counter of the loop stops it only at numbers it can reach. */
  function Limit(itemNumber: nat): Option<nat> {
    if itemNumber < 0x1_0000_0000 then Some(itemNumber) else None
  }

  /** An item too long for the limit is met before the loop ends. */
  predicate Oversize(source: seq<Data>, limit: Option<nat>) {
    source != [] && (|source[0]| > MAX_ITEM_SIZE
      || (source[0] != [] && limit != Some(0) && Oversize(source[1..], Less(limit))))
  }

  /** privacy_data_reader over the items of its plugin */
  class DataReader {
    var rest: seq<Data>
    const itemNumber: nat

    constructor (source: seq<Data>, itemNumber: nat)
      ensures rest == source && this.itemNumber == itemNumber
    {
      rest, this.itemNumber := source, itemNumber;
    }

    method ReadItemData() returns (item: Data)
      modifies this`rest
      ensures old(rest) == [] ==> item == [] && rest == []
      ensures old(rest) != [] ==> item == old(rest)[0] && rest == old(rest)[1..]
    {
      if rest == [] { return []; }
      item := rest[0];
      rest := rest[1..];
    }
  }

  /** write_batch */
  method WriteBatch(c: Crypto, sf: BlockFile, batch: seq<Data>, ghost ciphers: seq<Data>, ghost batches: seq<seq<Data>>)
    returns (ghost cipher: Data)
    requires Inverse(c) && sf.Writing(ciphers) && AllSeal(c, ciphers, batches)
    modifies sf, sf.file
    ensures sf.Writing(ciphers + [cipher]) && AllSeal(c, ciphers + [cipher], batches + [batch])
  {
    var nonce: nat :| true;
    var s := c.encrypt(c.marshal(batch), nonce);
    sf.AppendItem(s, ciphers);
    cipher := s;
  }

  /** The first part of the loop of seal_file: a batch that has become full is written. */
  method AddToBatch(c: Crypto, sf: BlockFile, batch: seq<Data>, batchSize: nat, item: Data, ghost ciphers: seq<Data>,
                    ghost batches: seq<seq<Data>>)
    returns (next: seq<Data>, nextSize: nat, ghost nextCiphers: seq<Data>, ghost nextBatches: seq<seq<Data>>)
    requires Inverse(c) && sf.Writing(ciphers) && AllSeal(c, ciphers, batches) && Full(batches)
    requires batchSize == Total(batch) < MAX_ITEM_SIZE && |item| <= MAX_ITEM_SIZE
    modifies sf, sf.file
    ensures sf.Writing(nextCiphers) && AllSeal(c, nextCiphers, nextBatches) && Full(nextBatches)
    ensures nextSize == Total(next) < MAX_ITEM_SIZE && Flatten(nextBatches) + next == Flatten(batches) + batch + [item]
  {
    hide Inverse, AllSeal, Total, Flatten, Full, BlockFile.Writing;
    nextCiphers, nextBatches := ciphers, batches;
    TotalNext(batch, item);
    next := batch + [item];
    nextSize := batchSize + |item|;
    if nextSize >= MAX_ITEM_SIZE {
      FlattenNext(batches, next);
      FullNext(batches, next);
      ghost var cipher := WriteBatch(c, sf, next, ciphers, batches);
      nextCiphers, nextBatches := ciphers + [cipher], batches + [next];
      next, nextSize := [], 0;
      NoBytes();
    }
  }

  lemma NoBytes()
    ensures Total([]) == 0
  {
  }

  method ReadNext(reader: DataReader, ghost left: Option<nat>) returns (item: Data)
    modifies reader
    ensures |item| <= MAX_ITEM_SIZE ==>
      && Taken(Ahead(item, reader.rest), left) == Taken(old(reader.rest), left)
      && Oversize(Ahead(item, reader.rest), left) == Oversize(old(reader.rest), left)
    ensures |item| > MAX_ITEM_SIZE ==> Oversize(old(reader.rest), left)
    ensures |reader.rest| < old(|reader.rest|) || item == []
    ensures |reader.rest| <= old(|reader.rest|)
  {
    NextRead(reader.rest, left);
    item := reader.ReadItemData();
  }

  /** seal_file: status 1 for an item that is too long. The caller's file object is closed by its
      destructor, which is the call of Close here. */
  method SealFile(c: Crypto, reader: DataReader, sf: BlockFile)
    returns (status: nat, dataHash: Data, ghost ciphers: seq<Data>, ghost batches: seq<seq<Data>>)
    requires Inverse(c) && sf.Writing([])
    modifies reader, sf, sf.file
    ensures var limit, items := Limit(reader.itemNumber), Taken(old(reader.rest), Limit(reader.itemNumber));
      && (status == 0 <==> !Oversize(old(reader.rest), limit)) && status <= 1
      && (status == 0 ==>
         Flatten(batches) == items && Batched(batches) && dataHash == Chain(c, c.hash(FIDELIUS), items))
    ensures AllSeal(c, ciphers, batches) && sf.Writing(ciphers)
  {
    hide Inverse, Chain, AllSeal, Taken, Oversize, Total, Flatten, Full, Batched, Limit, Ahead, BlockFile.Writing;
    ghost var source, limit := reader.rest, Limit(reader.itemNumber);
    Starting(c, source, limit, reader.itemNumber);
    ciphers, batches := [], [];
    status, dataHash := 0, c.hash(FIDELIUS);
    var itemData := ReadNext(reader, limit);
    if |itemData| > MAX_ITEM_SIZE {
      return 1, dataHash, ciphers, batches;
    }
    var counter, batch, batchSize := 0, [], 0;
    ghost var done, left := [], limit;
    while itemData != [] && counter < reader.itemNumber
      invariant sf.Writing(ciphers) && AllSeal(c, ciphers, batches) && Full(batches)
      invariant Flatten(batches) + batch == done && batchSize == Total(batch) < MAX_ITEM_SIZE
        && |itemData| <= MAX_ITEM_SIZE
      invariant limit.Some? ==> reader.itemNumber < 0x1_0000_0000
      invariant limit.None? ==> reader.itemNumber >= 0x1_0000_0000
      invariant dataHash == Chain(c, c.hash(FIDELIUS), done)
      invariant done + Taken(Ahead(itemData, reader.rest), left) == Taken(source, limit)
      invariant Oversize(Ahead(itemData, reader.rest), left) == Oversize(source, limit)
      invariant counter < 0x1_0000_0000 && (left.Some? <==> limit.Some?)
        && (left.Some? ==> left.value == reader.itemNumber - counter)
      decreases |reader.rest|, |itemData|
    {
      TakenNext(done, itemData, reader.rest, left);
      batch, batchSize, ciphers, batches := AddToBatch(c, sf, batch, batchSize, itemData, ciphers, batches);
      ChainNext(c, c.hash(FIDELIUS), done, itemData);
      done := done + [itemData];
      dataHash := c.hash(dataHash + itemData);
      left := Less(left);
      itemData := ReadNext(reader, left);
      if |itemData| > MAX_ITEM_SIZE {
        return 1, dataHash, ciphers, batches;
      }
      counter := if counter == 0xffff_ffff then 0 else counter + 1;
    }
    NothingTaken(itemData, reader.rest, left);
    assert done + [] == done;
    FullNextLast(batches, batch);
    if batch != [] {
      FlattenNext(batches, batch);
      ghost var cipher := WriteBatch(c, sf, batch, ciphers, batches);
      ciphers, batches := ciphers + [cipher], batches + [batch];
    }
  }

  /** The item read last, unless it marks the end, and the items after it. */
  function Ahead(item: Data, rest: seq<Data>): seq<Data> { if item == [] then [] else [item] + rest }

  lemma ChainNext(c: Crypto, h: Data, done: seq<Data>, item: Data)
    ensures Chain(c, h, done + [item]) == c.hash(Chain(c, h, done) + item)
  {
    assert (done + [item])[..|done|] == done;
  }

  lemma Starting(c: Crypto, source: seq<Data>, limit: Option<nat>, itemNumber: nat)
    requires limit == Limit(itemNumber)
    ensures Chain(c, c.hash(FIDELIUS), []) == c.hash(FIDELIUS) && Total([]) == 0 && Flatten<Data>([]) == [] && Full([])
      && AllSeal(c, [], [])
    ensures limit == if itemNumber < 0x1_0000_0000 then Some(itemNumber) else None
    ensures source == [] ==> Taken(source, limit) == [] && !Oversize(source, limit)
    ensures source != [] && |source[0]| > MAX_ITEM_SIZE ==> Oversize(source, limit)
    ensures source != [] && source[0] == [] ==> Taken(source, limit) == [] && !Oversize(source, limit)
  {
  }

  lemma FullNext(batches: seq<seq<Data>>, batch: seq<Data>)
    requires Full(batches) && BatchOk(batch)
    ensures Total(batch) >= MAX_ITEM_SIZE ==> Full(batches + [batch])
    ensures Batched(batches) && Batched(batches + [batch])
  {
  }

  lemma FullNextLast(batches: seq<seq<Data>>, batch: seq<Data>)
    requires Full(batches) && Total(batch) < MAX_ITEM_SIZE
    ensures Batched(batches) && (batch != [] ==> Batched(batches + [batch]))
  {
  }

  lemma TakenNext(done: seq<Data>, item: Data, rest: seq<Data>, left: Option<nat>)
    requires item != [] && |item| <= MAX_ITEM_SIZE && left != Some(0)
    ensures done + Taken(Ahead(item, rest), left) == done + [item] + Taken(rest, Less(left))
    ensures Oversize(Ahead(item, rest), left) == Oversize(rest, Less(left))
  {
    assert ([item] + rest)[1..] == rest;
    assert Taken([item] + rest, left) == [item] + Taken(rest, Less(left));
  }

  lemma NextRead(rest: seq<Data>, left: Option<nat>)
    ensures rest == [] || rest[0] == [] ==> Taken(rest, left) == [] && !Oversize(rest, left)
    ensures rest != [] && |rest[0]| > MAX_ITEM_SIZE ==> Oversize(rest, left)
    ensures rest != [] ==> [rest[0]] + rest[1..] == rest
    ensures Taken([], left) == [] && !Oversize([], left)
  {
  }

  lemma NothingTaken(item: Data, rest: seq<Data>, left: Option<nat>)
    requires item == [] || left == Some(0)
    requires |item| <= MAX_ITEM_SIZE
    ensures Taken(Ahead(item, rest), left) == [] && !Oversize(Ahead(item, rest), left)
  {
  }

  // ----- reading back -----

  /** The magic number of sealed files */
  const MAGIC: nat := 0x4788d13e7fefe21f

  /** The buffer of the parser: BlockSizeLimit of a sealed file */
  const BUFFER_SIZE: nat := 256 * MAX_ITEM_SIZE

  /** A ciphertext the parser hands out: it fits in the buffer, and is not taken for the end. */
  predicate Fits(cipher: Data) { 0 < |cipher| <= BUFFER_SIZE }

  /** How many ciphertexts are handed out. */
  function FitCount(ciphers: seq<Data>): (n: nat)
    ensures n <= |ciphers| && (forall k :: 0 <= k < n ==> Fits(ciphers[k])) && (n < |ciphers| ==> !Fits(ciphers[n]))
  {
    if ciphers == [] || !Fits(ciphers[0]) then 0 else 1 + FitCount(ciphers[1..])
  }

  datatype BatchResult = Batch(cipher: Data) | DataSourceNotFound | ReachEnd

  /** The parser with one data source, found by hash and public key. */
  class Parser {
    const key: Data
    const ssf: BlockFile

    constructor (key: Data, ssf: BlockFile)
      ensures this.key == key && this.ssf == ssf
    {
      this.key, this.ssf := key, ssf;
    }

    /** next_data_batch */
    method NextDataBatch(hashAndPkey: Data, ghost ciphers: seq<Data>, ghost bs: seq<BlockInfo>, ghost next: nat)
      returns (r: BatchResult)
      requires ssf.Reading(ciphers, bs, next)
      modifies ssf.file`pos, ssf.file`eof, ssf.file`fail
      ensures hashAndPkey != key ==> r == DataSourceNotFound && ssf.Reading(ciphers, bs, next)
      ensures hashAndPkey == key && (next == |ciphers| || !Fits(ciphers[next])) ==> r == ReachEnd
      ensures hashAndPkey == key && next < |ciphers| && Fits(ciphers[next]) ==>
        r == Batch(ciphers[next]) && ssf.Reading(ciphers, bs, next + 1)
    {
      hide BlockFile.Reading;
      if hashAndPkey != key { return DataSourceNotFound; }
      NextInRange(ssf, ciphers, bs, next);
      var item := ssf.NextItem(true, BUFFER_SIZE, ciphers, bs, next);
      match item
      case Succ(s) => r := if |s| != 0 then Batch(s) else ReachEnd;
      case _ => r := ReachEnd;
    }
  }

  lemma NextInRange(f: BlockFile, ciphers: seq<Data>, bs: seq<BlockInfo>, next: nat)
    requires f.Reading(ciphers, bs, next)
    ensures next <= |ciphers|
  {
  }

  /** sealed_data_provider; next and given are what it has read and handed out so far. */
  class SealedDataProvider {
    const c: Crypto
    const expectDataHash: Data
    const publicKey: Data
    const parser: Parser
    var actualDataHash: Data
    var items: seq<Data>
    var itemIndex: nat
    var reachEnd: bool
    ghost const ciphers: seq<Data>
    ghost const bs: seq<BlockInfo>
    ghost const batches: seq<seq<Data>>
    ghost var next: nat
    ghost var given: seq<Data>

    constructor (c: Crypto, expectDataHash: Data, publicKey: Data, parser: Parser,
                 ghost ciphers: seq<Data>, ghost bs: seq<BlockInfo>, ghost batches: seq<seq<Data>>)
      requires Inverse(c) && parser.key == expectDataHash + publicKey && parser.ssf.Reading(ciphers, bs, 0)
      requires AllSeal(c, ciphers, batches) && Batched(batches)
      ensures Providing() && given == [] && this.c == c && this.parser == parser && this.ciphers == ciphers
        && this.batches == batches
    {
      this.c, this.expectDataHash, this.publicKey, this.parser := c, expectDataHash, publicKey, parser;
      this.ciphers, this.bs, this.batches, next, given := ciphers, bs, batches, 0, [];
      actualDataHash, items, itemIndex, reachEnd := c.hash(FIDELIUS), [], 0, false;
      new;
      assert Flatten(batches[..0]) == [] && Chain(c, c.hash(FIDELIUS), []) == c.hash(FIDELIUS);
    }

    ghost predicate Static() {
      Inverse(c) && parser.key == expectDataHash + publicKey && AllSeal(c, ciphers, batches) && Batched(batches)
    }

    /** The items of the current batch behind the current one */
    ghost function Unseen(): seq<Data>
      reads this
    {
      if itemIndex < |items| then items[itemIndex + 1..] else []
    }

    /** The hash covers the batches that have been read; of the last of them the items up to the current
        one have been given. */
    ghost predicate Providing()
      reads this, parser.ssf, parser.ssf.file
    {
      && Static() && !reachEnd && parser.ssf.Reading(ciphers, bs, next) && next <= |ciphers|
      && (forall k :: 0 <= k < next ==> Fits(ciphers[k]))
      && actualDataHash == Chain(c, c.hash(FIDELIUS), Flatten(batches[..next]))
      && (items == [] <==> next == 0) && (items != [] ==> itemIndex < |items|)
      && given + Unseen() == Flatten(batches[..next])
    }

    /** All that will ever be read has been read and given. */
    ghost predicate Finished()
      reads this
    {
      && Static() && reachEnd && next == FitCount(ciphers)
      && given == Flatten(batches[..next]) && actualDataHash == Chain(c, c.hash(FIDELIUS), given)
    }

    /** process */
    method Process() returns (more: bool)
      requires Providing()
      modifies this, parser.ssf.file`pos, parser.ssf.file`eof, parser.ssf.file`fail
      ensures more ==> Providing() && itemIndex < |items| && given == old(given) + [items[itemIndex]]
      ensures more ==> |given| <= |Flatten(batches)|
      ensures !more ==> Finished() && given == old(given)
    {
      hide Chain, Flatten, Seals, Inverse, AllSeal, BlockFile.Reading, Batched, FitCount;
      SameNumber(c, ciphers, batches);
      if itemIndex + 1 < |items| {
        itemIndex := itemIndex + 1;
        given := given + [items[itemIndex]];
        GivenIsPart();
        return true;
      }
      more := NextBatch();
    }

    /** The second part of process: the next batch is fetched and unpacked. */
    method NextBatch() returns (more: bool)
      requires Providing() && !(itemIndex + 1 < |items|)
      modifies this, parser.ssf.file`pos, parser.ssf.file`eof, parser.ssf.file`fail
      ensures more ==> Providing() && itemIndex < |items| && given == old(given) + [items[itemIndex]]
      ensures more ==> |given| <= |Flatten(batches)|
      ensures !more ==> Finished() && given == old(given)
    {
      hide Chain, Flatten, Seals, Inverse, AllSeal, BlockFile.Reading, Batched, FitCount, Fits;
      SameNumber(c, ciphers, batches);
      assert given == Flatten(batches[..next]);
      NextFits(ciphers, next);
      var r := parser.NextDataBatch(expectDataHash + publicKey, ciphers, bs, next);
      var unpacked: Option<seq<Data>> := None;
      if r.Batch? {
        BatchIs(c, ciphers, batches, next);
        unpacked := Unpack(r.cipher);
      }
      if unpacked.None? {
        reachEnd := true;
        return false;
      }
      FlattenNext(batches[..next], batches[next]);
      assert batches[..next + 1] == batches[..next] + [batches[next]];
      ghost var before, after := Flatten(batches[..next]), Flatten(batches[..next + 1]);
      items := unpacked.value;
      HashItems(before);
      itemIndex := 0;
      next := next + 1;
      given := given + [items[0]];
      assert given + Unseen() == after;
      GivenIsPart();
      return true;
    }

    /** Decryption and unpacking of a batch; None when either fails, or the batch is empty. */
    method Unpack(cipher: Data) returns (r: Option<seq<Data>>)
      ensures forall m, b :: c.decrypt(cipher) == Some(m) && c.unmarshal(m) == Some(b) && b != [] ==> r == Some(b)
      ensures r.Some? ==> r.value != []
    {
      var msg := c.decrypt(cipher);
      if msg.None? { return None; }
      var pkg := c.unmarshal(msg.value);
      r := if pkg.Some? && |pkg.value| == 0 then None else pkg;
    }

    /** The loop that extends the hash by the items of a batch */
    method HashItems(ghost before: seq<Data>)
      requires actualDataHash == Chain(c, c.hash(FIDELIUS), before)
      modifies this`actualDataHash
      ensures actualDataHash == Chain(c, c.hash(FIDELIUS), before + items)
    {
      hide Chain;
      assert before + items[..0] == before;
      for i := 0 to |items|
        invariant actualDataHash == Chain(c, c.hash(FIDELIUS), before + items[..i])
      {
        ChainNext(c, c.hash(FIDELIUS), before + items[..i], items[i]);
        assert before + items[..i] + [items[i]] == before + items[..i + 1];
        actualDataHash := c.hash(actualDataHash + items[i]);
      }
      assert items[..|items|] == items;
    }

    lemma GivenIsPart()
      requires next <= |batches| && given + Unseen() == Flatten(batches[..next])
      ensures |given| <= |Flatten(batches)|
    {
      FlattenGrows(batches, next);
    }
  }

  lemma {:induction false} FlattenGrows(batches: seq<seq<Data>>, n: nat)
    requires n <= |batches|
    ensures |Flatten(batches[..n])| <= |Flatten(batches)|
    decreases |batches| - n
  {
    if n == |batches| {
      assert batches[..n] == batches;
    } else {
      FlattenGrows(batches, n + 1);
      FlattenNext(batches[..n], batches[n]);
      assert batches[..n + 1] == batches[..n] + [batches[n]];
    }
  }

  lemma NextFits(ciphers: seq<Data>, next: nat)
    requires next <= |ciphers| && forall k :: 0 <= k < next ==> Fits(ciphers[k])
    ensures next == |ciphers| || !Fits(ciphers[next]) ==> next == FitCount(ciphers)
  {
  }

  lemma BatchIs(c: Crypto, ciphers: seq<Data>, batches: seq<seq<Data>>, k: nat)
    requires Inverse(c) && AllSeal(c, ciphers, batches) && Batched(batches) && k < |ciphers|
    ensures |batches| == |ciphers| && batches[k] != [] && c.decrypt(ciphers[k]) == Some(c.marshal(batches[k]))
    ensures c.unmarshal(c.marshal(batches[k])) == Some(batches[k])
  {
    assert Seals(c, ciphers[k], batches[k]) && BatchOk(batches[k]);
  }

  /** A client that reads to the end of the stream. */
  method ProvideAll(provider: SealedDataProvider) returns (got: seq<Data>)
    requires provider.Providing() && provider.given == []
    modifies provider, provider.parser.ssf.file
    ensures provider.Finished() && got == Flatten(provider.batches[..FitCount(provider.ciphers)])
  {
    hide SealedDataProvider.Providing;
    got := [];
    var more := true;
    while more
      invariant provider.given == got
      invariant if more then provider.Providing() else provider.Finished()
      decreases more, |Flatten(provider.batches)| + 1 - |got|
    {
      more := provider.Process();
      if more { got := got + [provider.items[provider.itemIndex]]; }
    }
  }

  lemma SomethingSealed(c: Crypto, ciphers: seq<Data>, batches: seq<seq<Data>>)
    requires AllSeal(c, ciphers, batches) && Flatten(batches) != []
    ensures ciphers != []
  {
  }

  lemma AllFit(ciphers: seq<Data>, batches: seq<seq<Data>>)
    requires |ciphers| == |batches|
    ensures (forall k :: 0 <= k < |ciphers| ==> Fits(ciphers[k])) ==> batches[..FitCount(ciphers)] == batches
  {
  }

  lemma SameNumber(c: Crypto, ciphers: seq<Data>, batches: seq<seq<Data>>)
    requires AllSeal(c, ciphers, batches)
    ensures |ciphers| == |batches|
  {
  }

  /** From the source to the end of the stream: the sealer's hash is the one computed at the other end, extended
      by the items that were not handed out. With every ciphertext fit for the parser's buffer there are none:
      the items come out as they went in, and both sides have computed the same hash. */
  method SealThenProvide(c: Crypto, source: seq<Data>, itemNumber: nat, expectDataHash: Data, publicKey: Data)
    returns (status: nat, sealedHash: Data, got: seq<Data>, providedHash: Data, ghost ciphers: seq<Data>,
      ghost batches: seq<seq<Data>>)
    requires Inverse(c) && Taken(source, Limit(itemNumber)) != []
    ensures AllSeal(c, ciphers, batches) && status <= 2
    ensures status == 1 <==> Oversize(source, Limit(itemNumber))
    ensures status == 2 ==> |Packed(ciphers)| >= LIMIT
    ensures status == 0 ==>
      && Batched(batches) && Flatten(batches) == Taken(source, Limit(itemNumber))
      && sealedHash == Chain(c, c.hash(FIDELIUS), Taken(source, Limit(itemNumber)))
      && got == Flatten(batches[..FitCount(ciphers)]) && providedHash == Chain(c, c.hash(FIDELIUS), got)
      && sealedHash == Chain(c, providedHash, Flatten(batches[FitCount(ciphers)..]))
    ensures status == 0 && (forall k :: 0 <= k < |ciphers| ==> Fits(ciphers[k])) ==>
      got == Taken(source, Limit(itemNumber)) && providedHash == sealedHash
  {
    hide Inverse, Chain, AllSeal, Taken, Oversize, Total, Flatten, Batched, Limit, BlockFile.Writing, BlockFile.Reading,
      FileBytes, Tiles, FitCount;
    var reader := new DataReader(source, itemNumber);
    var sf := new BlockFile(MAGIC, 2, 256);
    var ok := sf.OpenForWrite();
    status, sealedHash, ciphers, batches := SealFile(c, reader, sf);
    got, providedHash := [], [];
    if status != 0 { return; }
    WrittenIs(sf, ciphers);
    if |sf.file.data| >= LIMIT {
      status := 2;
      return;
    }
    SomethingSealed(c, ciphers, batches);
    ghost var bs := sf.blockInfos;
    sf.Close(ciphers);
    var rf := new BlockFile(MAGIC, 2, 256);
    SizesFit(rf, ciphers, bs);
    ok := rf.OpenForRead(sf.file.data, ciphers, bs);
    var parser := new Parser(expectDataHash + publicKey, rf);
    var provider := new SealedDataProvider(c, expectDataHash, publicKey, parser, ciphers, bs, batches);
    got := ProvideAll(provider);
    providedHash := provider.actualDataHash;
    SameNumber(c, ciphers, batches);
    AllFit(ciphers, batches);
    HashExtends(c, c.hash(FIDELIUS), batches, FitCount(ciphers));
  }
}
