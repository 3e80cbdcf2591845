// internal/blob: file contents on disk under the SHA-256 of their bytes.
module BlobStores {
  import opened Common
  import opened Schema

  // Every blob holds the bytes it is named by.
  predicate Honest(disk: map<Digest, seq<byte>>) {
    forall h | h in disk :: disk[h] == h.content
  }

  class BlobStore {
    var disk: map<Digest, seq<byte>>
    // Temporary and in-progress upload files, by path.
    var scratch: map<string, seq<byte>>

    constructor ()
      ensures disk == map[] && scratch == map[]
    {
      disk, scratch := map[], map[];
    }

    // Moves srcPath into the store, or drops it when the blob is there
    // already.  Either way the source is gone and the blob is present.
    method Adopt(srcPath: string, hash: Digest) returns (r: Result<bool, ()>)
      modifies this
      ensures r.Success? <==> hash in old(disk) || srcPath in old(scratch)
      ensures r.Failure? ==> disk == old(disk) && scratch == old(scratch)
      ensures r.Success? ==> (r.value <==> hash in old(disk))
      ensures r.Success? ==> scratch == old(scratch) - {srcPath} && hash in disk
      ensures r.Success? ==> disk == if hash in old(disk) then old(disk) else old(disk)[hash := old(scratch)[srcPath]]
      ensures r.Success? && Honest(old(disk)) ==>
                (srcPath in old(scratch) ==> hash == Sha256(old(scratch)[srcPath])) ==> Honest(disk)
    {
      if hash in disk {
        scratch := scratch - {srcPath};
        return Success(true);
      }
      if srcPath !in scratch {
        return Failure(());
      }
      disk, scratch := disk[hash := scratch[srcPath]], scratch - {srcPath};
      return Success(false);
    }

    // Writes the body to a temporary file, hashing it on the way, and adopts it.
    method WriteFrom(body: seq<byte>, tmpName: string) returns (hash: Digest, n: nat, existed: bool)
      requires Honest(disk) && tmpName !in scratch
      modifies this
      ensures Honest(disk) && hash == Sha256(body) && n == |body|
      ensures existed <==> hash in old(disk)
      ensures disk == old(disk)[hash := body]
      ensures scratch == old(scratch)
    {
      scratch := scratch[tmpName := body];
      hash, n := Sha256(body), |body|;
      var adopted := Adopt(tmpName, hash);
      existed := adopted.value;
      assert scratch == old(scratch);
    }

    method Open(hash: Digest) returns (r: Option<seq<byte>>)
      ensures r == if hash in disk then Some(disk[hash]) else None
    {
      if hash in disk {
        return Some(disk[hash]);
      }
      return None;
    }

    method Remove(hash: Digest)
      modifies this
      ensures disk == old(disk) - {hash} && scratch == old(scratch)
    {
      disk := disk - {hash};
    }
  }
}
