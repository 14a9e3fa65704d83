/** The storage process: its maps and report counters, updated by upload, delete and download. */
module StorageProcess {
  import opened Fingerprint
  import opened GreedyChunks
  import opened TornChunks
  import opened ChunkerProcess
  import opened DedupIndex
  import opened Wrappers

  class Storage {
    const sha: Hash
    var chunks: map<Checksum, Record>
    var files: map<string, seq<Checksum>>
    var objects: map<(Backend, Checksum), Bytes>   // the local directory and the remote container
    var tmpPathName: string

    // reports
    var totalChunks: nat
    var uniqueChunk: int
    var totalSize: nat
    var dedupSize: int
    var downChunk: nat
    var downSize: int
    var downFileSize: int
    var dChunk: int
    var dSize: int

    ghost function Now(): (s: Store)
      reads this`chunks, this`files, this`objects
    {
      Store(chunks, files, objects)
    }

    constructor (sha: Hash)
      ensures Now() == EMPTY && this.sha == sha
      ensures totalChunks == uniqueChunk == totalSize == dedupSize == dChunk == 0 && dSize == 0
      ensures downChunk == downSize == downFileSize == 0
    {
      this.sha := sha;
      chunks, files, objects, tmpPathName := map[], map[], map[], "";
      totalChunks, uniqueChunk, totalSize, dedupSize := 0, 0, 0, 0;
      downChunk, downSize, downFileSize, dChunk, dSize := 0, 0, 0, 0, 0;
    }

    method InsertChunkRecord(backend: Backend, checksum: Checksum, chunkSize: nat) returns (isNew: bool)
      requires tmpPathName in files
      modifies this`files, this`chunks
      ensures isNew <==> checksum !in old(chunks)
      ensures files == old(files)[tmpPathName := old(files)[tmpPathName] + [checksum]]
      ensures chunks == old(chunks)[checksum :=
                if isNew then Record(chunkSize, 1, backend)
                else old(chunks)[checksum].(refCount := old(chunks)[checksum].refCount + 1)]
    {
      files := files[tmpPathName := files[tmpPathName] + [checksum]];
      isNew := checksum !in chunks;
      if isNew {
        chunks := chunks[checksum := Record(chunkSize, 1, backend)];
      } else {
        chunks := chunks[checksum := chunks[checksum].(refCount := chunks[checksum].refCount + 1)];
      }
    }

    method StoreObject(backend: Backend, checksum: Checksum, data: Bytes)
      modifies this`objects
      ensures objects == old(objects)[(backend, checksum) := data]
    {
      if backend == 1 {
        objects := objects[(1, checksum) := data];
      } else if backend == 0 {
        objects := objects[(0, checksum) := data];
      }
    }

    method UploadChunk(backend: Backend, data: Bytes)
      requires tmpPathName in files
      modifies this`files, this`chunks, this`objects, this`totalChunks, this`totalSize, this`uniqueChunk, this`dedupSize
      ensures Now() == PutChunk(sha, old(Now()), tmpPathName, backend, data)
      ensures var c := sha(data);
              && files == old(files)[tmpPathName := old(files)[tmpPathName] + [c]]
              && if c in old(chunks) then
                   && chunks == old(chunks)[c := old(chunks)[c].(refCount := old(chunks)[c].refCount + 1)]
                   && objects == old(objects)
                 else
                   && chunks == old(chunks)[c := Record(|data|, 1, backend)]
                   && objects == old(objects)[(backend, c) := data]
      ensures totalChunks == old(totalChunks) + 1 && totalSize == old(totalSize) + |data|
      ensures dedupSize - old(dedupSize) == IndexedSize(chunks) - IndexedSize(old(chunks))
      ensures uniqueChunk - old(uniqueChunk) == |chunks| - |old(chunks)|
    {
      PutChunkSize(sha, Now(), tmpPathName, backend, data);
      ghost var goal := PutChunk(sha, Now(), tmpPathName, backend, data);
      PutChunkParts(sha, Now(), tmpPathName, backend, data);
      hide PutChunk, IndexedSize;
      totalChunks, totalSize := totalChunks + 1, totalSize + |data|;
      var checksum := sha(data);
      var isNew := InsertChunkRecord(backend, checksum, |data|);
      if isNew {
        uniqueChunk, dedupSize := uniqueChunk + 1, dedupSize + |data|;
        StoreObject(backend, checksum, data);
      }
    }

    method InsertFileRecord() returns (created: bool)
      modifies this`files
      ensures created <==> tmpPathName !in old(files)
      ensures files == if created then old(files)[tmpPathName := []] else old(files)
    {
      created := tmpPathName !in files;
      if created {
        files := files[tmpPathName := []];
      }
    }

    /** The chunks of the file are uploaded in order. */
    method UploadChunks(backend: Backend, list: seq<Bytes>)
      requires tmpPathName in files
      modifies this`files, this`chunks, this`objects, this`totalChunks, this`totalSize, this`uniqueChunk, this`dedupSize
      ensures Now() == PutChunks(sha, old(Now()), tmpPathName, backend, list)
      ensures totalChunks == old(totalChunks) + |list| && totalSize == old(totalSize) + |Concat(list)|
      ensures dedupSize - old(dedupSize) == IndexedSize(chunks) - IndexedSize(old(chunks))
      ensures uniqueChunk - old(uniqueChunk) == |chunks| - |old(chunks)|
    {
      for i := 0 to |list|
        invariant tmpPathName in files
        invariant Now() == PutChunks(sha, old(Now()), tmpPathName, backend, list[..i])
        invariant totalChunks == old(totalChunks) + i && totalSize == old(totalSize) + |Concat(list[..i])|
        invariant dedupSize - old(dedupSize) == IndexedSize(chunks) - IndexedSize(old(chunks))
        invariant uniqueChunk - old(uniqueChunk) == |chunks| - |old(chunks)|
      {
        assert list[..i + 1][..i] == list[..i];
        ConcatLast(list[..i + 1]);
        hide PutChunk, IndexedSize, Concat;
        UploadChunk(backend, list[i]);
      }
      assert list[..|list|] == list;
    }

    /** Calls of uploadChunk that fail on the size have counted it already. */
    method RefusedChunks(sizes: seq<nat>)
      modifies this`totalChunks, this`totalSize
      ensures totalChunks == old(totalChunks) + |sizes| && totalSize == old(totalSize) + Total(sizes)
    {
      for i := 0 to |sizes|
        invariant totalChunks == old(totalChunks) + i && totalSize == old(totalSize) + Total(sizes[..i])
      {
        assert sizes[..i + 1][..i] == sizes[..i];
        totalChunks, totalSize := totalChunks + 1, totalSize + sizes[i];
      }
      assert sizes[..|sizes|] == sizes;
    }

    /** chunking, with the chunks stored as they come. */
    method Chunking(m: nat, d: int, b: int, x: nat, bufferSize: nat, file: Bytes, backend: Backend)
      requires 1 <= m < x && bufferSize >= m + 2 && tmpPathName in files
      modifies this`files, this`chunks, this`objects, this`totalChunks, this`totalSize, this`uniqueChunk, this`dedupSize
      ensures var o := FileOutcome(Params(m, x, d, b), bufferSize - m - 1, file);
              && Now() == PutChunks(sha, old(Now()), tmpPathName, backend, o.uploads)
              && totalChunks == old(totalChunks) + |o.uploads| + |o.refused|
              && totalSize == old(totalSize) + |Concat(o.uploads)| + Total(o.refused)
      ensures dedupSize - old(dedupSize) == IndexedSize(chunks) - IndexedSize(old(chunks))
      ensures uniqueChunk - old(uniqueChunk) == |chunks| - |old(chunks)|
    {
      hide PutChunk, PutChunks, IndexedSize, Concat, Greedy, Intact, FileOutcome, Survives, SomeOverrun, Total;
      var chunker := new Chunker(m, d, b, x, bufferSize);
      var _ := chunker.Chunking(file);
      UploadChunks(backend, chunker.uploads);
      RefusedChunks(chunker.refused);
    }

    /**
     upload: a new path gets the chunks of the file's outcome, a taken path is left alone. The
     indexed size always grows by the deduplicated size, and the reported size is that of the
     file whenever nothing is thrown, even if the last chunk was refused.
     */
    method Upload(m: nat, d: int, b: int, x: nat, bufferSize: nat, pathName: string, file: Bytes, backend: Backend)
      requires 1 <= m < x && bufferSize >= m + 2
      modifies this`tmpPathName, this`files, this`chunks, this`objects
      modifies this`totalChunks, this`totalSize, this`uniqueChunk, this`dedupSize
      ensures var p, stride := Params(m, x, d, b), bufferSize - m - 1;
              && Now() == DedupIndex.Upload(sha, old(Now()), pathName, backend, FileOutcome(p, stride, file).uploads)
              && (pathName !in old(files) && !FileOutcome(p, stride, file).thrown ==>
                    totalSize == old(totalSize) + |file|)
              && (pathName !in old(files) ==>
                    totalChunks == old(totalChunks) + |FileOutcome(p, stride, file).uploads|
                                   + |FileOutcome(p, stride, file).refused|)
              && (pathName in old(files) ==> totalChunks == old(totalChunks) && totalSize == old(totalSize))
              && (Intact(p, file, 0, stride) ==> Concat(FileOutcome(p, stride, file).uploads) == file)
              && (Concat(FileOutcome(p, stride, file).uploads) == file <==> Survives(p, stride, file))
      ensures dedupSize - old(dedupSize) == IndexedSize(chunks) - IndexedSize(old(chunks))
      ensures uniqueChunk - old(uniqueChunk) == |chunks| - |old(chunks)|
    {
      hide PutChunk, PutChunks, IndexedSize, Concat, Greedy, Intact, FileOutcome, Survives, SomeOverrun, Total;
      OutcomeMeaning(Params(m, x, d, b), bufferSize - m - 1, file);
      tmpPathName := pathName;
      var created := InsertFileRecord();
      if created {
        Chunking(m, d, b, x, bufferSize, file, backend);
      }
    }

    /** The part of the index that a file uses. */
    static ghost function Used(chunks: map<Checksum, Record>, list: seq<Checksum>): (used: map<Checksum, Record>) {
      map c | c in chunks && c in list :: chunks[c]
    }

    static ghost predicate SameSizes(sizes: map<Checksum, int>, used: map<Checksum, Record>) {
      sizes.Keys == used.Keys && forall c :: c in sizes ==> sizes[c] == used[c].size
    }

    static lemma UsedLast(chunks: map<Checksum, Record>, list: seq<Checksum>, c: Checksum, sizes: map<Checksum, int>)
      requires SameSizes(sizes, Used(chunks, list)) && c in chunks
      ensures SameSizes(sizes[c := chunks[c].size], Used(chunks, list + [c]))
    {
    }

    static lemma SameSizesCount(sizes: map<Checksum, int>, used: map<Checksum, Record>)
      requires SameSizes(sizes, used)
      ensures |sizes| == |used|
    {
      assert |sizes| == |sizes.Keys| && |used| == |used.Keys|;
    }

    static lemma SmallerMap(sizes: map<Checksum, int>, c: Checksum)
      requires c in sizes
      ensures |sizes - {c}| < |sizes|
    {
      assert (sizes - {c}).Keys == sizes.Keys - {c};
      assert |sizes - {c}| == |(sizes - {c}).Keys|;
    }

    static function Content(target: Option<Bytes>): (data: Bytes) {
      if target == None then [] else target.value
    }

    /** Appends the stored bytes of one chunk to the target file, which is created if missing. */
    method GetChunk(checksum: Checksum, target: Option<Bytes>) returns (found: bool, target': Option<Bytes>)
      requires checksum in chunks ==> Available(Now(), checksum)
      ensures found <==> checksum in chunks
      ensures target' == if found then Some(Content(target) + Fetch(Now(), checksum)) else target
    {
      target' := target;
      found := checksum in chunks;
      if found {
        if chunks[checksum].backend == 1 {
          target' := Some(Content(target) + objects[(1, checksum)]);
        } else if chunks[checksum].backend == 0 {
          target' := Some(Content(target) + objects[(0, checksum)]);
        }
      }
    }

    /** The loop of download over a chunk list: every chunk is fetched and appended. */
    method Retrieve(list: seq<Checksum>) returns (target: Option<Bytes>, distinct: map<Checksum, int>)
      requires forall c :: c in list ==> Available(Now(), c)
      modifies this`downFileSize
      ensures target == if list == [] then None else Some(Assemble(Now(), list))
      ensures downFileSize == old(downFileSize) + |Assemble(Now(), list)|
      ensures SameSizes(distinct, Used(chunks, list))
    {
      target, distinct := None, map[];
      for i := 0 to |list|
        invariant target == if i == 0 then None else Some(Assemble(Now(), list[..i]))
        invariant downFileSize == old(downFileSize) + |Assemble(Now(), list[..i])|
        invariant SameSizes(distinct, Used(chunks, list[..i]))
      {
        assert Available(Now(), list[i]);
        assert list[..i + 1] == list[..i] + [list[i]];
        AssembleLast(Now(), list[..i], list[i]);
        assert Content(target) == Assemble(Now(), list[..i]);
        UsedLast(chunks, list[..i], list[i], distinct);
        hide Fetch, Assemble, Used, SameSizes;
        var found;
        found, target := GetChunk(list[i], target);
        distinct := distinct[list[i] := chunks[list[i]].size];
        downFileSize := downFileSize + chunks[list[i]].size;
      }
      assert list[..|list|] == list;
    }

    /**
     download of a stored path leaves exactly the bytes that the view holds in the target file; a
     path without chunks loses its target file and gets no new one.
     */
    method Download(pathName: string, before: Option<Bytes>, ghost seen: set<Bytes>)
      returns (ok: bool, target: Option<Bytes>)
      requires Inv(sha, seen, Now())
      modifies this`downChunk, this`downSize, this`downFileSize
      ensures ok <==> pathName in files
      ensures !ok ==> target == before
      ensures ok ==> target == if files[pathName] == [] then None else Some(View(Now())[pathName])
      ensures ok ==> downFileSize == old(downFileSize) + |View(Now())[pathName]|
      ensures ok ==> downChunk == |Used(chunks, files[pathName])|
      ensures ok ==> downSize == old(downSize) + IndexedSize(Used(chunks, files[pathName]))
    {
      target, ok := before, pathName in files;
      if ok {
        var list := files[pathName];
        forall c | c in list ensures Available(Now(), c) {
          ListedIsStored(sha, seen, Now(), pathName, c);
        }
        hide Inv, Assemble, IndexedSize, Used, Available;
        var distinct;
        target, distinct := Retrieve(list);
        SameSizesCount(distinct, Used(chunks, list));
        hide SameSizes;
        downChunk := |distinct|;
        var sum := SumSizes(distinct, Used(chunks, list));
        downSize := downSize + sum;
      }
    }

    /** Sums the sizes of the distinct chunks, in any order. */
    static method SumSizes(distinct: map<Checksum, int>, ghost used: map<Checksum, Record>) returns (sum: int)
      requires SameSizes(distinct, used)
      ensures sum == IndexedSize(used)
    {
      sum := 0;
      var rest := distinct;
      ghost var left := used;
      while rest != map[]
        invariant SameSizes(rest, left)
        invariant sum + IndexedSize(left) == IndexedSize(used)
        decreases |rest|
      {
        var c :| c in rest;
        IndexedSizeOfOne(left, c);
        hide IndexedSize;
        sum := sum + rest[c];
        assert (rest - {c}).Keys < rest.Keys;
        SmallerMap(rest, c);
        rest, left := rest - {c}, left - {c};
      }
      assert left == map[];
    }

    method RemoveObject(backend: Backend, checksum: Checksum)
      modifies this`objects
      ensures objects == old(objects) - {(backend, checksum)}
    {
      if backend == 1 {
        objects := objects - {(1, checksum)};
      } else if backend == 0 {
        objects := objects - {(0, checksum)};
      }
    }

    static lemma UpdateThenRemove(chunks: map<Checksum, Record>, c: Checksum, r: Record)
      ensures chunks[c := r] - {c} == chunks - {c}
    {
    }

    method DropReference(checksum: Checksum)
      modifies this`chunks, this`objects, this`dChunk, this`dSize
      ensures Now() == DropRef(old(Now()), checksum)
      ensures dSize - old(dSize) == IndexedSize(old(chunks)) - IndexedSize(chunks)
      ensures dChunk - old(dChunk) == |old(chunks)| - |chunks|
    {
      DropRefSize(Now(), checksum);
      hide IndexedSize;
      if checksum in chunks {
        var r := chunks[checksum].(refCount := chunks[checksum].refCount - 1);
        chunks := chunks[checksum := r];
        if r.refCount == 0 {
          dChunk, dSize := dChunk + 1, dSize + r.size;
          RemoveObject(r.backend, checksum);
          chunks := chunks - {checksum};
          UpdateThenRemove(old(chunks), checksum, r);
        }
      }
    }

    /** delete: the indexed size shrinks by exactly the reported deleted size. */
    method Delete(pathName: string) returns (ok: bool)
      modifies this`chunks, this`files, this`objects, this`dChunk, this`dSize
      ensures ok <==> pathName in old(files)
      ensures Now() == DedupIndex.Delete(old(Now()), pathName)
      ensures dSize - old(dSize) == IndexedSize(old(chunks)) - IndexedSize(chunks)
      ensures dChunk - old(dChunk) == |old(chunks)| - |chunks|
    {
      ok := pathName in files;
      if !ok {
        return;
      }
      var list := files[pathName];
      for i := 0 to |list|
        invariant files == old(files)
        invariant Now() == DropRefs(old(Now()), list[..i])
        invariant dSize - old(dSize) == IndexedSize(old(chunks)) - IndexedSize(chunks)
        invariant dChunk - old(dChunk) == |old(chunks)| - |chunks|
      {
        assert list[..i + 1][..i] == list[..i];
        hide DropRef, IndexedSize;
        DropReference(list[i]);
      }
      assert list[..|list|] == list;
      files := files - {pathName};
    }
  }
}
