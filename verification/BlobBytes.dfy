// Stats().BlobBytes: the sum over blob rows that the storage quota reads.
module BlobBytes {
  import opened Schema
  import opened MapSum

  function Sizes(blobs: map<Digest, BlobRow>): map<Digest, int> {
    map h | h in blobs :: blobs[h].size
  }

  ghost function Bytes(blobs: map<Digest, BlobRow>): int {
    Sum(Sizes(blobs))
  }

  // Rows carry the true length of their bytes.
  ghost predicate SizesKnown(blobs: map<Digest, BlobRow>) {
    forall h | h in blobs :: blobs[h].size == |h.content|
  }

  lemma BytesSplit(blobs: map<Digest, BlobRow>, h: Digest)
    requires h in blobs
    ensures Bytes(blobs) == blobs[h].size + Bytes(blobs - {h})
  {
    SumSplit(Sizes(blobs), h);
    assert Sizes(blobs - {h}) == Sizes(blobs) - {h};
  }

  // Storing a file adds its size when its bytes are new and nothing otherwise.
  lemma BytesUpsert(blobs: map<Digest, BlobRow>, h: Digest, size: int, now: int)
    ensures Bytes(UpsertBlobRef(blobs, h, size, now)) == Bytes(blobs) + if h in blobs then 0 else size
  {
    if h in blobs {
      assert Sizes(UpsertBlobRef(blobs, h, size, now)) == Sizes(blobs);
    } else {
      SumInsert(Sizes(blobs), h, size);
      assert Sizes(UpsertBlobRef(blobs, h, size, now)) == Sizes(blobs)[h := size];
    }
  }

  lemma BytesRecount(blobs: map<Digest, BlobRow>, files: map<Id, FileRow>)
    requires forall h | h in blobs :: blobs[h].size >= 0
    ensures Bytes(Recount(blobs, files)) <= Bytes(blobs)
  {
    SumSubset(Sizes(Recount(blobs, files)), Sizes(blobs));
  }
}
