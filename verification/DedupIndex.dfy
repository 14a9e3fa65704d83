/**
 The de-duplicating index as a value: reference-counted chunk records, file records
 and the stored objects, seen from outside as a plain map from paths to bytes.
 */
module DedupIndex {
  import opened GreedyChunks
  import opened TornChunks

  type Checksum = string

  /** 0 for the local directory, 1 for the remote container. */
  type Backend = b: int | b == 0 || b == 1

  type Hash = Bytes -> Checksum

  datatype Record = Record(size: int, refCount: int, backend: Backend)

  datatype Store = Store(
    chunks: map<Checksum, Record>,
    files: map<string, seq<Checksum>>,
    objects: map<(Backend, Checksum), Bytes>)   // keyed by backend and checksum

  /** No two different contents of `seen` have the same checksum. */
  ghost predicate CollisionFree(h: Hash, seen: set<Bytes>) {
    forall a, b :: a in seen && b in seen && h(a) == h(b) ==> a == b
  }

  // ---- references

  /** All references held by the file records. */
  ghost function AllRefs(files: map<string, seq<Checksum>>): (refs: multiset<Checksum>)
    decreases |files|
  {
    if files == map[] then multiset{}
    else
      var path :| path in files;
      multiset(files[path]) + AllRefs(files - {path})
  }

  lemma {:induction false} AllRefsOfOne(files: map<string, seq<Checksum>>, path: string)
    requires path in files
    ensures AllRefs(files) == multiset(files[path]) + AllRefs(files - {path})
    decreases |files|
  {
    var p :| p in files && AllRefs(files) == multiset(files[p]) + AllRefs(files - {p});
    if p != path {
      AllRefsOfOne(files - {p}, path);
      AllRefsOfOne(files - {path}, p);
      assert files - {p} - {path} == files - {path} - {p};
    }
  }

  lemma AllRefsUpdate(files: map<string, seq<Checksum>>, path: string, list: seq<Checksum>)
    ensures AllRefs(files[path := list]) == multiset(list) + AllRefs(files - {path})
  {
    AllRefsOfOne(files[path := list], path);
    assert files[path := list] - {path} == files - {path};
  }

  // ---- invariant

  /** The record of `c` and its stored object belong together. */
  ghost predicate Stored(h: Hash, seen: set<Bytes>, s: Store, c: Checksum)
    requires c in s.chunks
  {
    var r := s.chunks[c];
    && (r.backend, c) in s.objects
    && var data := s.objects[(r.backend, c)];
       h(data) == c && |data| == r.size && data in seen
  }

  /** Records and objects account for exactly the references in `refs`. */
  ghost predicate Accounts(h: Hash, seen: set<Bytes>, s: Store, refs: multiset<Checksum>) {
    && (forall c :: c in s.chunks <==> c in refs)
    && (forall c :: c in s.chunks ==> s.chunks[c].refCount == refs[c] && Stored(h, seen, s, c))
    && (forall b, c :: (b, c) in s.objects ==> c in s.chunks && s.chunks[c].backend == b)
  }

  ghost predicate Inv(h: Hash, seen: set<Bytes>, s: Store) {
    CollisionFree(h, seen) && Accounts(h, seen, s, AllRefs(s.files))
  }

  // ---- operations

  /** uploadChunk: append to the file record; count an existing chunk, store a new one. */
  ghost function PutChunk(h: Hash, s: Store, path: string, backend: Backend, data: Bytes): (s': Store)
    requires path in s.files
  {
    var c := h(data);
    var files := s.files[path := s.files[path] + [c]];
    if c in s.chunks then
      s.(files := files, chunks := s.chunks[c := s.chunks[c].(refCount := s.chunks[c].refCount + 1)])
    else
      Store(s.chunks[c := Record(|data|, 1, backend)], files, s.objects[(backend, c) := data])
  }

  lemma PutChunkParts(h: Hash, s: Store, path: string, backend: Backend, data: Bytes)
    requires path in s.files
    ensures var c, s', isNew := h(data), PutChunk(h, s, path, backend, data), h(data) !in s.chunks;
            && s'.files == s.files[path := s.files[path] + [c]]
            && s'.chunks == s.chunks[c := if isNew then Record(|data|, 1, backend)
                                          else s.chunks[c].(refCount := s.chunks[c].refCount + 1)]
            && s'.objects == if isNew then s.objects[(backend, c) := data] else s.objects
  {
  }

  ghost function PutChunks(h: Hash, s: Store, path: string, backend: Backend, list: seq<Bytes>): (s': Store)
    requires path in s.files
    ensures path in s'.files
    decreases |list|
  {
    if list == [] then s
    else
      var last := |list| - 1;
      PutChunk(h, PutChunks(h, s, path, backend, list[..last]), path, backend, list[last])
  }

  /** upload: a path that already has a record is left alone. */
  ghost function Upload(h: Hash, s: Store, path: string, backend: Backend, list: seq<Bytes>): (s': Store) {
    if path in s.files then s
    else PutChunks(h, s.(files := s.files[path := []]), path, backend, list)
  }

  /** One iteration of delete: drop a reference, and the chunk with its last reference. */
  ghost function DropRef(s: Store, c: Checksum): (s': Store) {
    if c !in s.chunks then s
    else
      var r := s.chunks[c].(refCount := s.chunks[c].refCount - 1);
      if r.refCount == 0 then s.(chunks := s.chunks - {c}, objects := s.objects - {(r.backend, c)})
      else s.(chunks := s.chunks[c := r])
  }

  ghost function DropRefs(s: Store, list: seq<Checksum>): (s': Store)
    ensures s'.files == s.files
    decreases |list|
  {
    if list == [] then s else DropRef(DropRefs(s, list[..|list| - 1]), list[|list| - 1])
  }

  ghost function Delete(s: Store, path: string): (s': Store) {
    if path !in s.files then s
    else
      var dropped := DropRefs(s, s.files[path]);
      dropped.(files := dropped.files - {path})
  }

  // ---- the plain map

  ghost function Fetch(s: Store, c: Checksum): (data: Bytes) {
    if c in s.chunks && (s.chunks[c].backend, c) in s.objects then s.objects[(s.chunks[c].backend, c)] else []
  }

  ghost function Assemble(s: Store, list: seq<Checksum>): (data: Bytes)
    decreases |list|
  {
    if list == [] then [] else Assemble(s, list[..|list| - 1]) + Fetch(s, list[|list| - 1])
  }

  /** What a user of the store sees. */
  ghost function View(s: Store): (m: map<string, Bytes>) {
    map path | path in s.files :: Assemble(s, s.files[path])
  }

  lemma {:induction false} AssembleDependsOnFetch(s: Store, s': Store, list: seq<Checksum>)
    requires forall c :: c in list ==> Fetch(s', c) == Fetch(s, c)
    ensures Assemble(s', list) == Assemble(s, list)
    decreases |list|
  {
    if list != [] {
      AssembleDependsOnFetch(s, s', list[..|list| - 1]);
    }
  }

  /** The chunk is recorded, and its object is there with the recorded size. */
  ghost predicate Available(s: Store, c: Checksum) {
    && c in s.chunks
    && (s.chunks[c].backend, c) in s.objects
    && |s.objects[(s.chunks[c].backend, c)]| == s.chunks[c].size
  }

  lemma ListedIsStored(h: Hash, seen: set<Bytes>, s: Store, path: string, c: Checksum)
    requires Inv(h, seen, s) && path in s.files && c in s.files[path]
    ensures Available(s, c)
  {
    AllRefsOfOne(s.files, path);
    assert c in multiset(s.files[path]) && c in AllRefs(s.files);
    assert Stored(h, seen, s, c);
  }

  // ---- what each step keeps

  lemma PutChunkAccounts(h: Hash, seen: set<Bytes>, s: Store, path: string, backend: Backend, data: Bytes,
                         refs: multiset<Checksum>)
    requires Accounts(h, seen, s, refs) && path in s.files && data in seen
    ensures Accounts(h, seen, PutChunk(h, s, path, backend, data), refs + multiset{h(data)})
  {
    var s', c := PutChunk(h, s, path, backend, data), h(data);
    forall x | x in s'.chunks ensures s'.chunks[x].refCount == (refs + multiset{c})[x] && Stored(h, seen, s', x) {
      if x != c || c in s.chunks {
        assert Stored(h, seen, s, x);
      }
    }
  }

  /** A chunk already stored under the same checksum has the same content. */
  lemma PutChunkKeepsFetch(h: Hash, seen: set<Bytes>, s: Store, path: string, backend: Backend, data: Bytes,
                           refs: multiset<Checksum>)
    requires CollisionFree(h, seen) && Accounts(h, seen, s, refs) && path in s.files && data in seen
    ensures var s' := PutChunk(h, s, path, backend, data);
            && Fetch(s', h(data)) == data
            && (forall c :: c in refs ==> Fetch(s', c) == Fetch(s, c))
  {
    if h(data) in s.chunks {
      assert Stored(h, seen, s, h(data));
    }
  }

  lemma PutChunkInv(h: Hash, seen: set<Bytes>, s: Store, path: string, backend: Backend, data: Bytes)
    requires Inv(h, seen, s) && path in s.files && data in seen
    ensures Inv(h, seen, PutChunk(h, s, path, backend, data))
  {
    var list, c := s.files[path], h(data);
    AllRefsOfOne(s.files, path);
    AllRefsUpdate(s.files, path, list + [c]);
    assert AllRefs(s.files[path := list + [c]]) == AllRefs(s.files) + multiset{c};
    PutChunkAccounts(h, seen, s, path, backend, data, AllRefs(s.files));
  }

  lemma PutChunkView(h: Hash, seen: set<Bytes>, s: Store, path: string, backend: Backend, data: Bytes, p: string)
    requires Inv(h, seen, s) && path in s.files && data in seen && p in s.files
    ensures var s' := PutChunk(h, s, path, backend, data);
            Assemble(s', s'.files[p]) == Assemble(s, s.files[p]) + if p == path then data else []
  {
    var s', list := PutChunk(h, s, path, backend, data), s.files[p];
    assert s'.files == s.files[path := s.files[path] + [h(data)]];
    PutChunkKeepsFetch(h, seen, s, path, backend, data, AllRefs(s.files));
    AllRefsOfOne(s.files, p);
    hide *;
    AssembleDependsOnFetch(s, s', list);
    AssembleLast(s', list, h(data));
  }

  lemma AssembleLast(s: Store, list: seq<Checksum>, c: Checksum)
    ensures Assemble(s, list + [c]) == Assemble(s, list) + Fetch(s, c)
  {
    assert (list + [c])[..|list|] == list;
  }

  /** The map with `data` appended to the content at `path`. */
  ghost function Extend(m: map<string, Bytes>, path: string, data: Bytes): (m': map<string, Bytes>) {
    if path in m then m[path := m[path] + data] else m
  }

  lemma ExtendTwice(m: map<string, Bytes>, path: string, a: Bytes, b: Bytes)
    ensures Extend(Extend(m, path, a), path, b) == Extend(m, path, a + b)
  {
    if path in m {
      assert (m[path] + a) + b == m[path] + (a + b);
    }
  }

  /** The view changes at one path when the assembled contents do. */
  lemma ViewUpdate(s: Store, s': Store, path: string, value: Bytes)
    requires s'.files.Keys == s.files.Keys + {path}
    requires Assemble(s', s'.files[path]) == value
    requires forall p :: p in s.files && p != path ==> Assemble(s', s'.files[p]) == Assemble(s, s.files[p])
    ensures View(s') == View(s)[path := value]
  {
    hide Assemble;
  }

  lemma PutChunkStep(h: Hash, seen: set<Bytes>, s: Store, path: string, backend: Backend, data: Bytes)
    requires Inv(h, seen, s) && path in s.files && data in seen
    ensures var s' := PutChunk(h, s, path, backend, data);
            && Inv(h, seen, s')
            && s'.files.Keys == s.files.Keys
            && View(s') == Extend(View(s), path, data)
  {
    PutChunkInv(h, seen, s, path, backend, data);
    var s' := PutChunk(h, s, path, backend, data);
    assert s'.files.Keys == s.files.Keys + {path} == s.files.Keys;
    hide Inv, Assemble, PutChunk;
    forall p | p in s.files
      ensures Assemble(s', s'.files[p]) == Assemble(s, s.files[p]) + if p == path then data else []
    {
      PutChunkView(h, seen, s, path, backend, data, p);
    }
    ViewUpdate(s, s', path, View(s)[path] + data);
  }

  lemma {:induction false} PutChunksStep(h: Hash, seen: set<Bytes>, s: Store, path: string, backend: Backend,
                                         list: seq<Bytes>)
    requires Inv(h, seen, s) && path in s.files && forall data :: data in list ==> data in seen
    ensures var s' := PutChunks(h, s, path, backend, list);
            && Inv(h, seen, s')
            && s'.files.Keys == s.files.Keys
            && View(s') == Extend(View(s), path, Concat(list))
    decreases |list|
  {
    if list == [] {
      assert Extend(View(s), path, []) == View(s) by {
        if path in View(s) {
          assert View(s)[path] + [] == View(s)[path];
        }
      }
    } else {
      var last := |list| - 1;
      var mid := PutChunks(h, s, path, backend, list[..last]);
      assert PutChunks(h, s, path, backend, list) == PutChunk(h, mid, path, backend, list[last]);
      hide *;
      PutChunksStep(h, seen, s, path, backend, list[..last]);
      PutChunkStep(h, seen, mid, path, backend, list[last]);
      ConcatLast(list);
      ExtendTwice(View(s), path, Concat(list[..last]), list[last]);
    }
  }

  lemma {:induction false} ConcatLast(list: seq<Bytes>)
    requires list != []
    ensures Concat(list) == Concat(list[..|list| - 1]) + list[|list| - 1]
    decreases |list|
  {
    if |list| == 1 {
      assert list[..0] == [] && list[1..] == [];
    } else {
      ConcatLast(list[1..]);
      assert list[1..][..|list| - 2] == list[..|list| - 1][1..];
    }
  }

  /** A new file record without chunks. */
  lemma NewFileStep(h: Hash, seen: set<Bytes>, s: Store, path: string)
    requires Inv(h, seen, s) && path !in s.files
    ensures var s' := s.(files := s.files[path := []]);
            Inv(h, seen, s') && View(s') == View(s)[path := []]
  {
    var s' := s.(files := s.files[path := []]);
    NewFileInv(h, seen, s, path);
    assert Assemble(s', []) == [];
    hide Inv, Assemble;
    forall p | p in s.files ensures Assemble(s', s.files[p]) == Assemble(s, s.files[p]) {
      AssembleDependsOnFetch(s, s', s.files[p]);
    }
    ViewUpdate(s, s', path, []);
  }

  lemma NewFileInv(h: Hash, seen: set<Bytes>, s: Store, path: string)
    requires Inv(h, seen, s) && path !in s.files
    ensures Inv(h, seen, s.(files := s.files[path := []]))
  {
    var s' := s.(files := s.files[path := []]);
    AllRefsUpdate(s.files, path, []);
    assert s.files - {path} == s.files;
    hide Accounts, AllRefs, CollisionFree;
    AccountsIgnoresFiles(h, seen, s, s'.files, AllRefs(s.files));
  }

  /** upload behaves as adding the file to a plain map, unless the path is taken. */
  lemma UploadIsInsert(h: Hash, seen: set<Bytes>, s: Store, path: string, backend: Backend, list: seq<Bytes>)
    requires Inv(h, seen, s) && forall data :: data in list ==> data in seen
    ensures var s' := Upload(h, s, path, backend, list);
            && Inv(h, seen, s')
            && View(s') == if path in View(s) then View(s) else View(s)[path := Concat(list)]
  {
    hide Inv, Assemble, PutChunks, Concat;
    if path !in s.files {
      NewFileStep(h, seen, s, path);
      PutChunksStep(h, seen, s.(files := s.files[path := []]), path, backend, list);
      assert [] + Concat(list) == Concat(list);
      assert View(s)[path := []][path := Concat(list)] == View(s)[path := Concat(list)];
    }
  }

  lemma DropRefAccounts(h: Hash, seen: set<Bytes>, s: Store, c: Checksum, refs: multiset<Checksum>)
    requires Accounts(h, seen, s, refs) && c in refs
    ensures Accounts(h, seen, DropRef(s, c), refs - multiset{c})
    ensures forall x :: x in refs - multiset{c} ==> Fetch(DropRef(s, c), x) == Fetch(s, x)
  {
    var s' := DropRef(s, c);
    forall x | x in s'.chunks ensures s'.chunks[x].refCount == (refs - multiset{c})[x] && Stored(h, seen, s', x) {
      assert Stored(h, seen, s, x);
    }
  }

  lemma {:induction false} DropRefsAccounts(h: Hash, seen: set<Bytes>, s: Store, list: seq<Checksum>,
                                            refs: multiset<Checksum>)
    requires Accounts(h, seen, s, multiset(list) + refs)
    ensures Accounts(h, seen, DropRefs(s, list), refs)
    ensures forall x :: x in refs ==> Fetch(DropRefs(s, list), x) == Fetch(s, x)
    decreases |list|
  {
    if list != [] {
      var front, c := list[..|list| - 1], list[|list| - 1];
      assert list == front + [c];
      assert multiset(list) + refs == multiset(front) + (multiset{c} + refs);
      assert multiset{c} + refs - multiset{c} == refs;
      hide Accounts, Fetch, DropRef;
      DropRefsAccounts(h, seen, s, front, multiset{c} + refs);
      DropRefAccounts(h, seen, DropRefs(s, front), c, multiset{c} + refs);
    }
  }

  lemma DeleteInv(h: Hash, seen: set<Bytes>, s: Store, path: string)
    requires Inv(h, seen, s) && path in s.files
    ensures var s', rest := Delete(s, path), AllRefs(s.files - {path});
            && Inv(h, seen, s')
            && Accounts(h, seen, s', rest)
            && s'.files == s.files - {path}
            && (forall c :: c in rest ==> Fetch(s', c) == Fetch(s, c))
  {
    var rest, dropped := AllRefs(s.files - {path}), DropRefs(s, s.files[path]);
    AllRefsOfOne(s.files, path);
    DropRefsAccounts(h, seen, s, s.files[path], rest);
    assert Delete(s, path) == dropped.(files := s.files - {path});
    hide AllRefs, DropRefs, Delete;
    AccountsIgnoresFiles(h, seen, dropped, s.files - {path}, rest);
  }

  lemma AccountsIgnoresFiles(h: Hash, seen: set<Bytes>, s: Store, files: map<string, seq<Checksum>>,
                             refs: multiset<Checksum>)
    requires Accounts(h, seen, s, refs)
    ensures Accounts(h, seen, s.(files := files), refs)
    ensures forall c :: Fetch(s.(files := files), c) == Fetch(s, c)
  {
    forall c | c in s.chunks ensures Stored(h, seen, s.(files := files), c) {
      assert Stored(h, seen, s, c);
    }
  }

  /** delete behaves as removal from a plain map. */
  lemma DeleteIsRemove(h: Hash, seen: set<Bytes>, s: Store, path: string)
    requires Inv(h, seen, s)
    ensures Inv(h, seen, Delete(s, path)) && View(Delete(s, path)) == View(s) - {path}
  {
    hide Inv, Assemble, AllRefs, Accounts, Fetch;
    if path in s.files {
      DeleteInv(h, seen, s, path);
      var s' := Delete(s, path);
      forall p | p in s'.files ensures Assemble(s', s.files[p]) == Assemble(s, s.files[p]) {
        AllRefsOfOne(s.files - {path}, p);
        AssembleDependsOnFetch(s, s', s.files[p]);
      }
      assert View(s') == View(s) - {path};
    } else {
      assert View(s) - {path} == View(s);
    }
  }

  /** delete frees exactly the chunks, and the objects, that no other file uses. */
  lemma DeleteFreesUnused(h: Hash, seen: set<Bytes>, s: Store, path: string, c: Checksum)
    requires Inv(h, seen, s) && path in s.files
    ensures var s' := Delete(s, path);
            && (c in s'.chunks <==> c in AllRefs(s.files - {path}))
            && (forall b: Backend :: (b, c) in s'.objects <==> (b, c) in s.objects && c in AllRefs(s.files - {path}))
  {
    DeleteInv(h, seen, s, path);
    var s' := Delete(s, path);
    if c in s'.chunks {
      assert Stored(h, seen, s', c);
      DropRefsKeepsBackend(s, s.files[path], c);
    }
    forall b: Backend ensures (b, c) in s'.objects ==> (b, c) in s.objects {
      DropRefsKeepsObjects(s, s.files[path], b, c);
    }
  }

  lemma {:induction false} DropRefsKeepsObjects(s: Store, list: seq<Checksum>, b: Backend, c: Checksum)
    ensures (b, c) in DropRefs(s, list).objects ==> (b, c) in s.objects
    decreases |list|
  {
    if list != [] {
      DropRefsKeepsObjects(s, list[..|list| - 1], b, c);
    }
  }

  lemma {:induction false} DropRefsKeepsBackend(s: Store, list: seq<Checksum>, c: Checksum)
    ensures c in DropRefs(s, list).chunks ==>
              c in s.chunks && DropRefs(s, list).chunks[c].backend == s.chunks[c].backend
    decreases |list|
  {
    if list != [] {
      DropRefsKeepsBackend(s, list[..|list| - 1], c);
    }
  }

  // ---- total indexed size

  ghost function IndexedSize(chunks: map<Checksum, Record>): (size: int)
    decreases |chunks|
  {
    if chunks == map[] then 0
    else
      var c :| c in chunks;
      chunks[c].size + IndexedSize(chunks - {c})
  }

  lemma {:induction false} IndexedSizeOfOne(chunks: map<Checksum, Record>, c: Checksum)
    requires c in chunks
    ensures IndexedSize(chunks) == chunks[c].size + IndexedSize(chunks - {c})
    decreases |chunks|
  {
    var x :| x in chunks && IndexedSize(chunks) == chunks[x].size + IndexedSize(chunks - {x});
    if x != c {
      IndexedSizeOfOne(chunks - {x}, c);
      IndexedSizeOfOne(chunks - {c}, x);
      assert chunks - {x} - {c} == chunks - {c} - {x};
    }
  }

  lemma SizeUpdate(chunks: map<Checksum, Record>, c: Checksum, r: Record)
    ensures IndexedSize(chunks[c := r]) == r.size + IndexedSize(chunks - {c})
    ensures c !in chunks ==> chunks - {c} == chunks
  {
    IndexedSizeOfOne(chunks[c := r], c);
    assert chunks[c := r] - {c} == chunks - {c};
  }

  lemma CountUpdate(chunks: map<Checksum, Record>, c: Checksum, r: Record)
    ensures |chunks[c := r]| == |chunks| + if c in chunks then 0 else 1
    ensures |chunks - {c}| == |chunks| - if c in chunks then 1 else 0
  {
    assert chunks[c := r].Keys == chunks.Keys + {c} && (chunks - {c}).Keys == chunks.Keys - {c};
    if c in chunks {
      assert chunks.Keys + {c} == chunks.Keys;
    } else {
      assert chunks.Keys - {c} == chunks.Keys;
    }
  }

  /** A stored chunk changes the indexed size only when it is new. */
  lemma PutChunkSize(h: Hash, s: Store, path: string, backend: Backend, data: Bytes)
    requires path in s.files
    ensures var s', grows := PutChunk(h, s, path, backend, data), h(data) !in s.chunks;
            && IndexedSize(s'.chunks) == IndexedSize(s.chunks) + (if grows then |data| else 0)
            && |s'.chunks| == |s.chunks| + (if grows then 1 else 0)
  {
    var s', c := PutChunk(h, s, path, backend, data), h(data);
    SizeUpdate(s.chunks, c, s'.chunks[c]);
    CountUpdate(s.chunks, c, s'.chunks[c]);
    if c in s.chunks {
      IndexedSizeOfOne(s.chunks, c);
    }
  }

  /** A dropped reference changes it only when it is the last one. */
  lemma DropRefSize(s: Store, c: Checksum)
    ensures var s', frees := DropRef(s, c), c in s.chunks && s.chunks[c].refCount == 1;
            && IndexedSize(s'.chunks) == IndexedSize(s.chunks) - (if frees then s.chunks[c].size else 0)
            && |s'.chunks| == |s.chunks| - (if frees then 1 else 0)
  {
    if c in s.chunks {
      var r := s.chunks[c].(refCount := s.chunks[c].refCount - 1);
      IndexedSizeOfOne(s.chunks, c);
      SizeUpdate(s.chunks, c, r);
      CountUpdate(s.chunks, c, r);
    }
  }

  // ---- whole runs

  type Stride = n: nat | n > 0 witness 1

  /** A file, and the parameters and the buffer it is uploaded with. */
  datatype Input = Input(p: Params, stride: Stride, file: Bytes) {
    ghost function Chunks(): (list: seq<Bytes>) {
      FileOutcome(p, stride, file).uploads
    }

    ghost predicate Kept() {
      Survives(p, stride, file)
    }

    /** Usable parameters and no torn chunk. */
    ghost predicate Whole() {
      p.Usable() && Intact(p, file, 0, stride)
    }
  }

  datatype Command = Put(path: string, backend: Backend, input: Input) | Get(path: string) | Remove(path: string)

  const EMPTY := Store(map[], map[], map[])

  ghost function Execute(h: Hash, s: Store, command: Command): (s': Store) {
    match command
    case Put(path, backend, input) => Upload(h, s, path, backend, input.Chunks())
    case Get(_) => s
    case Remove(path) => Delete(s, path)
  }

  ghost function Run(h: Hash, commands: seq<Command>): (s: Store) {
    if commands == [] then EMPTY
    else Execute(h, Run(h, commands[..|commands| - 1]), commands[|commands| - 1])
  }

  ghost function LiveAfter(m: map<string, Input>, command: Command): (m': map<string, Input>) {
    match command
    case Put(path, _, input) => if path in m then m else m[path := input]
    case Get(_) => m
    case Remove(path) => m - {path}
  }

  /** The same run on a plain map: what was put at each path and not removed since. */
  ghost function LiveInputs(commands: seq<Command>): (m: map<string, Input>) {
    if commands == [] then map[]
    else
      LiveAfter(LiveInputs(commands[..|commands| - 1]), commands[|commands| - 1])
  }

  ghost function Files(live: map<string, Input>): (m: map<string, Bytes>) {
    map path | path in live :: live[path].file
  }

  /** The files behind the live paths. */
  ghost function PlainRun(commands: seq<Command>): (m: map<string, Bytes>) {
    Files(LiveInputs(commands))
  }

  ghost function StoredBytes(live: map<string, Input>): (m: map<string, Bytes>) {
    map path | path in live :: Concat(live[path].Chunks())
  }

  /** The chunks of the whole run are among `seen`. */
  ghost predicate ChunksSeen(commands: seq<Command>, seen: set<Bytes>) {
    forall k, data :: 0 <= k < |commands| && commands[k].Put? && data in commands[k].input.Chunks() ==> data in seen
  }

  lemma ExecuteStoresInput(h: Hash, seen: set<Bytes>, s: Store, live: map<string, Input>, command: Command)
    requires Inv(h, seen, s) && View(s) == StoredBytes(live)
    requires command.Put? ==> forall data :: data in command.input.Chunks() ==> data in seen
    ensures Inv(h, seen, Execute(h, s, command))
    ensures View(Execute(h, s, command)) == StoredBytes(LiveAfter(live, command))
  {
    hide Inv, View, Concat, Upload, Delete, Input.Chunks;
    match command
    case Put(path, backend, input) => UploadIsInsert(h, seen, s, path, backend, input.Chunks());
    case Get(_) =>
    case Remove(path) => DeleteIsRemove(h, seen, s, path);
  }

  /**
     Every run of uploads, downloads and deletions from the empty store holds, for each path, the bytes
     that the chunker made of the file last put there, and the records account for the
     references, as long as no two chunks seen collide.
     */
  lemma {:induction false} RunStoresUploads(h: Hash, seen: set<Bytes>, commands: seq<Command>)
    requires CollisionFree(h, seen) && ChunksSeen(commands, seen)
    ensures Inv(h, seen, Run(h, commands)) && View(Run(h, commands)) == StoredBytes(LiveInputs(commands))
  {
    if commands != [] {
      var last := |commands| - 1;
      var front := commands[..last];
      assert ChunksSeen(front, seen);
      hide Inv, View, StoredBytes, Execute, LiveAfter, CollisionFree, ChunksSeen;
      RunStoresUploads(h, seen, front);
      ExecuteStoresInput(h, seen, Run(h, front), LiveInputs(front), commands[last]);
    }
  }

  lemma StoredOrNot(live: map<string, Input>)
    ensures StoredBytes(live).Keys == Files(live).Keys == live.Keys
    ensures forall path :: path in live ==> (StoredBytes(live)[path] == Files(live)[path] <==> live[path].Kept())
    ensures StoredBytes(live) == Files(live) <==> forall path :: path in live ==> live[path].Kept()
  {
    hide Concat, Survives, FileOutcome;
    forall path | path in live ensures StoredBytes(live)[path] == Files(live)[path] <==> live[path].Kept() {
      ContentKeptIff(live[path].p, live[path].stride, live[path].file);
    }
  }

  /**
     Every run behaves as a plain map from paths to the bytes of the uploaded files: the same
     paths, and under each path the file's own bytes if and only if the file survives chunking.
     */
  lemma RunIsPlainMap(h: Hash, seen: set<Bytes>, commands: seq<Command>)
    requires CollisionFree(h, seen) && ChunksSeen(commands, seen)
    ensures var view, live := View(Run(h, commands)), LiveInputs(commands);
            && Inv(h, seen, Run(h, commands))
            && view.Keys == PlainRun(commands).Keys == live.Keys
            && (forall path :: path in live ==> (view[path] == PlainRun(commands)[path] <==> live[path].Kept()))
            && (view == PlainRun(commands) <==> forall path :: path in live ==> live[path].Kept())
  {
    hide Inv, View, Run, StoredBytes, Files, LiveInputs, Input.Kept, ChunksSeen, CollisionFree;
    RunStoresUploads(h, seen, commands);
    StoredOrNot(LiveInputs(commands));
  }

  /**
     So a download inside a run finds its path exactly when something live was put there, and
     yields the file's own bytes if and only if that file survives chunking.
     */
  lemma DownloadInRun(h: Hash, seen: set<Bytes>, commands: seq<Command>, k: nat)
    requires CollisionFree(h, seen) && ChunksSeen(commands, seen) && k < |commands| && commands[k].Get?
    ensures var s, live, path := Run(h, commands[..k]), LiveInputs(commands[..k]), commands[k].path;
            && Inv(h, seen, s)
            && (path in s.files <==> path in live)
            && (path in live ==> (View(s)[path] == live[path].file <==> live[path].Kept()))
  {
    hide Inv, Run, LiveInputs, Input.Kept, CollisionFree, Assemble;
    assert ChunksSeen(commands[..k], seen);
    RunIsPlainMap(h, seen, commands[..k]);
    assert View(Run(h, commands[..k])).Keys == Run(h, commands[..k]).files.Keys;
  }

  /** In particular when every file put is free of torn chunks, as every file within one buffer is. */
  lemma IntactRunIsPlainMap(h: Hash, seen: set<Bytes>, commands: seq<Command>)
    requires CollisionFree(h, seen) && ChunksSeen(commands, seen)
    requires forall k :: 0 <= k < |commands| && commands[k].Put? ==> commands[k].input.Whole()
    ensures View(Run(h, commands)) == PlainRun(commands)
  {
    hide View, Run, Survives, Intact, PlainRun;
    RunIsPlainMap(h, seen, commands);
    forall path | path in LiveInputs(commands) ensures LiveInputs(commands)[path].Kept() {
      var k := LiveWasPut(commands, path);
      var input := commands[k].input;
      IntactSurvives(input.p, input.stride, input.file);
    }
  }

  lemma {:induction false} LiveWasPut(commands: seq<Command>, path: string) returns (k: nat)
    requires path in LiveInputs(commands)
    ensures k < |commands| && commands[k].Put? && commands[k].input == LiveInputs(commands)[path]
  {
    var last := |commands| - 1;
    if path in LiveInputs(commands[..last]) && LiveInputs(commands[..last])[path] == LiveInputs(commands)[path] {
      k := LiveWasPut(commands[..last], path);
    } else {
      k := last;
    }
  }
}
