/** The FAT12 image builder: a 1.44 MB-style floppy image held in memory,
    the FAT as a table of 12-bit entries, the directory entries collected
    so far, and the next free cluster. Files are added one after another;
    the FAT copies and the root directory are then written into the image. */
module Fat12Builder {
  import opened Bytes
  import opened Results
  import opened Arith
  import opened Fat12Format

  class Builder {
    /** The disk image, zero-filled at creation. */
    const image: array<byte>
    /** The FAT, one entry per cluster. */
    var fat: seq<nat>
    /** The 32-byte directory entries, in the order the files were added. */
    var rootEntries: seq<seq<byte>>
    /** The first cluster not yet handed out. */
    var nextCluster: nat

    /** The image holds at least the boot sector, both FATs and the root
        directory; the table has its full size with the two reserved
        entries in place; clusters are handed out from 2 up to the end of
        the table; every directory entry is 32 bytes long. */
    ghost predicate Valid()
      reads this
    {
      && image.Length >= DataStart() * BytesPerSector
      && |fat| == FatEntryCount() && fat[0] == 0xFF0 && fat[1] == EndOfChain
      && 2 <= nextCluster <= |fat|
      && forall i :: 0 <= i < |rootEntries| ==> |rootEntries[i]| == EntrySize
    }

    constructor(imageSize: nat)
      requires imageSize >= DataStart() * BytesPerSector
      ensures Valid() && fresh(image)
      ensures image.Length == imageSize && forall k :: 0 <= k < imageSize ==> image[k] == 0
      ensures forall k :: 2 <= k < |fat| ==> fat[k] == 0
      ensures rootEntries == [] && nextCluster == 2
    {
      DefaultLayout();
      image := new byte[imageSize](_ => 0);
      var f := seq(FatEntryCount(), _ => 0);
      f := f[0 := 0xFF0];
      fat := f[1 := EndOfChain];
      rootEntries := [];
      nextCluster := 2;
    }

    /** `add_file`: gives the file the next `ClustersNeeded` clusters,
        linked in the FAT, then records its directory entry and copies its
        bytes into those clusters. When the table has too few entries left
        the chain is linked up to the table's end and nothing else changes;
        when the entry cannot be encoded the clusters stay allocated but no
        entry and no data are written. A file whose data would run past the
        end of the image is refused up front with nothing changed, where the
        source lets the slice assignment append it at the wrong place (see
        `DataPastImageEndAsWritten`). */
    method AddFile(filename: string, data: seq<byte>, now: Stamp) returns (r: Result<(), Error>)
      requires Valid() && ValidStamp(now)
      modifies this, image
      ensures Valid()
      ensures r == Err(ImageFull) <==> ClusterOffset(old(nextCluster)) + |data| > image.Length
      ensures r == Err(ImageFull) ==>
                && fat == old(fat) && nextCluster == old(nextCluster)
                && rootEntries == old(rootEntries) && unchanged(image)
      ensures r != Err(ImageFull) ==> fat == ChainFat(old(fat), old(nextCluster), ClustersNeeded(|data|))
      ensures r == Err(FatFull) <==>
                ClusterOffset(old(nextCluster)) + |data| <= image.Length
                && old(nextCluster) + ClustersNeeded(|data|) > |old(fat)|
      ensures r == Err(FatFull) ==>
                nextCluster == old(nextCluster) && rootEntries == old(rootEntries) && unchanged(image)
      ensures r != Err(ImageFull) && r != Err(FatFull) ==>
                && nextCluster == old(nextCluster) + ClustersNeeded(|data|)
                && var e := CreateDirEntry(ConvertTo83(filename), |data|, old(nextCluster), now);
                && (e.Err? ==> r == Err(e.error) && rootEntries == old(rootEntries) && unchanged(image))
                && (e.Ok? ==> r == Ok(()) && rootEntries == old(rootEntries) + [e.value])
                && (e.Ok? ==> forall k :: 0 <= k < image.Length ==>
                      image[k] == if ClusterOffset(old(nextCluster)) <= k < ClusterOffset(old(nextCluster)) + |data|
                                  then data[k - ClusterOffset(old(nextCluster))] else old(image[k]))
    {
      DefaultLayout();
      if ClusterOffset(nextCluster) + |data| > image.Length {
        return Err(ImageFull);
      }
      var name83 := ConvertTo83(filename);
      var count := ClustersNeeded(|data|);
      var first := nextCluster;
      var ok := AllocateChain(first, count);
      assert fat[0] == 0xFF0 && fat[1] == EndOfChain;
      if !ok {
        return Err(FatFull);
      }
      nextCluster := nextCluster + count;
      var entry := CreateDirEntry(name83, |data|, first, now);
      if entry.Err? {
        return Err(entry.error);
      }
      rootEntries := rootEntries + [entry.value];
      assert first + count <= |fat| && fat[first + count - 1] == EndOfChain;
      assert ClusterOffset(first) + |data| <= image.Length;
      WriteChain(first, count, data);
      return Ok(());
    }

    /** The allocation loop of `add_file`: links `count` entries from
        `first`. `ok` is false when the chain runs past the table, where
        Python's list indexing fails. */
    method AllocateChain(first: nat, count: nat) returns (ok: bool)
      requires count >= 1
      modifies this
      ensures ok <==> first + count <= |old(fat)|
      ensures fat == ChainFat(old(fat), first, count)
      ensures rootEntries == old(rootEntries) && nextCluster == old(nextCluster)
    {
      var i, current := 0, first;
      while i < count
        invariant 0 <= i <= count
        invariant current == if i < count then first + i else first + count - 1
        invariant i == 0 || first + i <= |fat|
        invariant |fat| == |old(fat)|
        invariant forall k :: 0 <= k < |fat| ==>
                    fat[k] == if first <= k < first + i
                              then (if k == first + count - 1 then EndOfChain else k + 1)
                              else old(fat)[k]
        invariant rootEntries == old(rootEntries) && nextCluster == old(nextCluster)
      {
        if current >= |fat| {
          ok := false;
          assert fat == ChainFat(old(fat), first, count);
          return;
        }
        if i == count - 1 {
          fat := fat[current := EndOfChain];
        } else {
          fat := fat[current := current + 1];
          current := current + 1;
        }
        i := i + 1;
      }
      ok := true;
      assert fat == ChainFat(old(fat), first, count);
    }

    /** The data loop of `add_file`: walks the chain from `first` through
        the FAT, copying one cluster's worth of `data` per cluster, and
        stops at the end-of-chain mark. The chain is consecutive, so the
        bytes land contiguously from the first cluster's offset. */
    method WriteChain(first: nat, count: nat, data: seq<byte>)
      requires first >= 2 && count == ClustersNeeded(|data|)
      requires first + count <= |fat| <= EndOfChain
      requires forall k :: first <= k < first + count - 1 ==> fat[k] == k + 1
      requires fat[first + count - 1] == EndOfChain
      requires ClusterOffset(first) + |data| <= image.Length
      modifies image
      ensures forall k :: 0 <= k < image.Length ==>
                image[k] == if ClusterOffset(first) <= k < ClusterOffset(first) + |data|
                            then data[k - ClusterOffset(first)] else old(image[k])
    {
      DefaultLayout();
      var base := ClusterOffset(first);
      var offset, current := 0, first;
      while offset < |data|
        invariant first <= current < first + count
        invariant offset == (current - first) * 512 <= |data|
        invariant forall k :: 0 <= k < image.Length ==>
                    image[k] == if base <= k < base + offset then data[k - base] else old(image[k])
        decreases |data| - offset
      {
        var sectorOffset := ClusterOffset(current);
        assert sectorOffset == base + offset;
        var chunk := if ClusterBytes() < |data| - offset then ClusterBytes() else |data| - offset;
        forall j | 0 <= j < chunk {
          image[sectorOffset + j] := data[offset + j];
        }
        offset := offset + chunk;
        if fat[current] == EndOfChain {
          break;
        }
        current := fat[current];
      }
    }

    /** The packing loop of `write_fat`: every pair of entries becomes
        three bytes of the table's on-disk form. */
    method PackTable() returns (bytes: array<byte>)
      requires |fat| == FatEntryCount()
      ensures fresh(bytes) && bytes[..] == PackFat(fat)
    {
      DefaultLayout();
      bytes := new byte[FatBytes()](_ => 0);
      var i := 0;
      ghost var p := 0;
      while i < |fat|
        invariant 0 <= i <= |fat| && i == 2 * p
        invariant forall q, j :: 0 <= q < p && 0 <= j < 3 ==> bytes[3 * q + j] == PairByte(fat, q, j)
      {
        PairOffset(fat, p);
        if i + 1 < |fat| {
          var v1, v2 := fat[i] % 4096, fat[i + 1] % 4096;
          var byteOffset := (i * 3) / 2;
          if byteOffset + 2 < bytes.Length {
            bytes[byteOffset] := v1 % 256;
            bytes[byteOffset + 1] := v1 / 256 % 16 + v2 % 16 * 16;
            bytes[byteOffset + 2] := v2 / 16 % 256;
          }
        }
        i, p := i + 2, p + 1;
      }
      forall k | 0 <= k < bytes.Length
        ensures bytes[k] == FatByte(fat, k)
      {
        DivMod(k, 3);
        DivBelow(k, 3, 1536);
      }
      assert bytes[..] == PackFat(fat);
    }

    /** `write_fat`: packs the table and stores it as both FAT copies, from
        sector 1 and from sector 10; the two copies are byte-identical. */
    method WriteFat()
      requires Valid()
      modifies image
      ensures image[FatStart() * BytesPerSector .. FatStart() * BytesPerSector + FatBytes()] == PackFat(fat)
      ensures image[FatStart() * BytesPerSector + FatBytes() .. FatStart() * BytesPerSector + 2 * FatBytes()]
              == PackFat(fat)
      ensures forall k :: 0 <= k < image.Length
                && !(FatStart() * BytesPerSector <= k < FatStart() * BytesPerSector + 2 * FatBytes())
                ==> image[k] == old(image[k])
    {
      DefaultLayout();
      var bytes := PackTable();
      var start := FatStart() * BytesPerSector;
      var c := 0;
      while c < FatCopies
        invariant 0 <= c <= FatCopies
        invariant bytes[..] == PackFat(fat)
        invariant forall k :: 0 <= k < image.Length && !(start <= k < start + c * 4608) ==>
                    image[k] == old(image[k])
        invariant c >= 1 ==> forall j :: 0 <= j < 4608 ==> image[start + j] == bytes[j]
        invariant c >= 2 ==> forall j :: 0 <= j < 4608 ==> image[start + 4608 + j] == bytes[j]
      {
        var copyStart := (FatStart() + c * SectorsPerFat) * BytesPerSector;
        forall j | 0 <= j < bytes.Length {
          image[copyStart + j] := bytes[j];
        }
        c := c + 1;
      }
      assert image[start .. start + 4608] == bytes[..];
      assert image[start + 4608 .. start + 2 * 4608] == bytes[..];
    }

    /** `write_root_directory`: lays the entries out at 32-byte offsets in
        a zeroed root area, skipping any that no longer fit, and stores the
        area from sector 19. */
    method WriteRootDirectory()
      requires Valid()
      modifies image
      ensures image[RootStart() * BytesPerSector .. RootStart() * BytesPerSector + RootBytes()]
              == RootArea(rootEntries)
      ensures forall k :: 0 <= k < image.Length
                && !(RootStart() * BytesPerSector <= k < RootStart() * BytesPerSector + RootBytes())
                ==> image[k] == old(image[k])
    {
      DefaultLayout();
      var root := new byte[RootBytes()](_ => 0);
      var offset, idx := 0, 0;
      while idx < |rootEntries|
        invariant 0 <= idx <= |rootEntries|
        invariant offset == EntrySize * (if idx < RootEntryCount then idx else RootEntryCount)
        invariant unchanged(image)
        invariant forall k :: 0 <= k < root.Length ==> root[k] == RootArea(rootEntries[..idx])[k]
      {
        var entry := rootEntries[idx];
        if offset + |entry| <= root.Length {
          forall j | 0 <= j < |entry| {
            root[offset + j] := entry[j];
          }
          offset := offset + |entry|;
        }
        forall k | 0 <= k < root.Length
          ensures root[k] == RootArea(rootEntries[..idx + 1])[k]
        {
          RootAreaStep(rootEntries, idx, k);
        }
        idx := idx + 1;
      }
      assert rootEntries[..idx] == rootEntries;
      var start := RootStart() * BytesPerSector;
      forall j | 0 <= j < root.Length {
        image[start + j] := root[j];
      }
      assert image[start .. start + 7168] == root[..];
    }
  }

  /** Pair `p` holds entries `2 p` and `2 p + 1`; `write_fat` computes
      its first byte as `2 p * 3 / 2`, which is `3 p`, and all three of its
      bytes lie inside the table. */
  lemma PairOffset(f: seq<nat>, p: nat)
    requires |f| == FatEntryCount() && 2 * p < |f|
    ensures 2 * p + 1 < |f| && 3 * p + 2 < FatBytes() && (2 * p * 3) / 2 == 3 * p
  {
    DefaultLayout();
    DivUnique(2 * p * 3, 2, 3 * p, 0);
  }

  /** Adding entry `idx` to the root area changes only its own 32 bytes. */
  lemma RootAreaStep(es: seq<seq<byte>>, idx: nat, k: nat)
    requires idx < |es| && forall i :: 0 <= i < |es| ==> |es[i]| == EntrySize
    requires k < RootEntryCount * EntrySize
    ensures RootArea(es[..idx + 1])[k] == if EntrySize * idx <= k < EntrySize * idx + EntrySize
                                          then es[idx][k - EntrySize * idx]
                                          else RootArea(es[..idx])[k]
  {
    DivMod(k, EntrySize);
    var q := k / EntrySize;
    if EntrySize * idx <= k < EntrySize * idx + EntrySize {
      assert q == idx;
    } else {
      assert q != idx;
    }
  }
}
