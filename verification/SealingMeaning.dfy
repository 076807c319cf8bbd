/** The words of the sealing contracts by index: what is taken, what is too long, how batches are cut. */
module SealingMeaning {
  import opened BlockFormat
  import opened Options
  import opened Sealing

  /** The items taken are those in front: up to the limit, the end or the first empty item. */
  lemma {:induction false} TakenMeans(source: seq<Data>, limit: Option<nat>, t: seq<Data>)
    requires t == Taken(source, limit)
    ensures |t| <= |source| && t == source[..|t|] && forall i :: 0 <= i < |t| ==> t[i] != []
    ensures limit.Some? ==> |t| <= limit.value
    ensures |t| < |source| && limit != Some(|t|) ==> source[|t|] == []
  {
    if source == [] || source[0] == [] || limit == Some(0) {
    } else {
      TakenMeans(source[1..], Less(limit), t[1..]);
    }
  }

  /** Sealing fails exactly when some item is too long, the items before it are taken and there is one more to
      read: one behind the limit counts. */
  lemma {:induction false} OversizeFound(source: seq<Data>, limit: Option<nat>, i: nat)
    requires i < |source| && |source[i]| > 0x10000 && (limit.Some? ==> i <= limit.value)
    requires forall j :: 0 <= j < i ==> source[j] != []
    ensures Oversize(source, limit)
  {
    if i != 0 { OversizeFound(source[1..], Less(limit), i - 1); }
  }

  lemma {:induction false} OversizeAt(source: seq<Data>, limit: Option<nat>) returns (i: nat)
    requires Oversize(source, limit)
    ensures i < |source| && |source[i]| > 0x10000 && (limit.Some? ==> i <= limit.value)
    ensures forall j :: 0 <= j < i ==> source[j] != []
  {
    i := 0;
    if |source[0]| <= 0x10000 {
      var k := OversizeAt(source[1..], Less(limit));
      i := k + 1;
    }
  }

  /** A limit of 2^32 or more is no limit. */
  lemma LimitMeans(itemNumber: nat)
    ensures itemNumber < 0x1_0000_0000 ==> Limit(itemNumber) == Some(itemNumber)
    ensures 0x1_0000_0000 <= itemNumber ==> Limit(itemNumber) == None
  {
  }

  /** Where batches end: as soon as they have 2^16 bytes. */
  lemma BatchedMeans(batches: seq<seq<Data>>, k: nat, front: seq<Data>, last: Data)
    requires Batched(batches) && k < |batches| && batches[k] == front + [last]
    ensures Total(front) < 0x10000 && |last| <= 0x10000
    ensures k < |batches| - 1 ==> Total(front) + |last| >= 0x10000
    ensures Total([]) == 0 && Total(front + [last]) == Total(front) + |last|
  {
    TotalNext(front, last);
    assert BatchOk(batches[k]);
    assert batches[k][..|batches[k]| - 1] == front;
  }

  /** The chain starts from the hash of a name, and takes the items one by one. */
  lemma ChainMeans(c: Crypto, h: Data, items: seq<Data>, item: Data, i: nat)
    ensures Chain(c, h, []) == h && Chain(c, h, items + [item]) == c.hash(Chain(c, h, items) + item)
    ensures |FIDELIUS| == |"Fidelius"| && (i < |FIDELIUS| ==> FIDELIUS[i] == "Fidelius"[i] as int)
  {
    ChainNext(c, h, items, item);
  }

  /** The file items are ciphertexts of the batches in order, and the parser hands out those that are not empty
      and fit in 2^24 bytes, up to the first that does not. */
  lemma CiphersMean(c: Crypto, ciphers: seq<Data>, batches: seq<seq<Data>>, k: nat)
    requires AllSeal(c, ciphers, batches) && k < |ciphers|
    ensures |batches| == |ciphers| && c.decrypt(ciphers[k]) == Some(c.marshal(batches[k]))
    ensures k < FitCount(ciphers) ==> 0 < |ciphers[k]| <= 0x1_000000
    ensures k == FitCount(ciphers) ==> |ciphers[k]| == 0 || |ciphers[k]| > 0x1_000000
  {
    assert Seals(c, ciphers[k], batches[k]);
  }
}
