/**
 The program runs one command per start: it reads the metadata, executes, and writes the
 metadata back. Only the metadata text and the stored objects survive between starts.
 */
module Sessions {
  import opened GreedyChunks
  import opened TornChunks
  import opened DedupIndex
  import Metadata
  import opened Wrappers

  datatype Disk = Disk(text: string, objects: map<(Backend, Checksum), Bytes>)

  function IndexOf(s: Store): (index: Metadata.Index) {
    Metadata.Index(map c | c in s.chunks :: (s.chunks[c].size, s.chunks[c].refCount, s.chunks[c].backend), s.files)
  }

  /** What a start finds on the disk. */
  ghost predicate Represents(disk: Disk, s: Store) {
    Metadata.Parse(disk.text) == Some(IndexOf(s)) && disk.objects == s.objects
  }

  /** What an exit leaves on the disk, listing the maps in any order. */
  ghost predicate Saved(disk: Disk, s: Store, rows: seq<Metadata.Row>) {
    Metadata.Lists(rows, IndexOf(s)) && disk.text == Metadata.Written(rows) && disk.objects == s.objects
  }

  ghost predicate Session(h: Hash, before: Disk, command: Command, after: Disk) {
    exists s, rows :: Represents(before, s) && Saved(after, Execute(h, s, command), rows)
  }

  /** The disks after each of the commands, from an empty disk. */
  ghost predicate History(h: Hash, commands: seq<Command>, disks: seq<Disk>) {
    && |disks| == |commands| + 1
    && disks[0] == Disk("", map[])
    && forall k :: 0 <= k < |commands| ==> Session(h, disks[k], commands[k], disks[k + 1])
  }

  // ---- checksums and paths that survive being written

  ghost predicate CleanHash(h: Hash) {
    forall data :: Metadata.IsWord(h(data)) && Metadata.NoComma(h(data))
  }

  ghost predicate CleanChecksum(c: Checksum) {
    Metadata.IsWord(c) && Metadata.NoComma(c)
  }

  ghost predicate CleanStore(s: Store) {
    && (forall c :: c in s.chunks ==> CleanChecksum(c))
    && (forall p :: p in s.files ==> Metadata.IsWord(p) && forall c :: c in s.files[p] ==> CleanChecksum(c))
  }

  ghost predicate CleanCommand(command: Command) {
    command.Put? ==> Metadata.IsWord(command.path)
  }

  lemma {:induction false} PutChunksClean(h: Hash, s: Store, path: string, backend: Backend, list: seq<Bytes>)
    requires CleanHash(h) && CleanStore(s) && path in s.files
    ensures CleanStore(PutChunks(h, s, path, backend, list))
    decreases |list|
  {
    if list != [] {
      var mid, data := PutChunks(h, s, path, backend, list[..|list| - 1]), list[|list| - 1];
      PutChunksClean(h, s, path, backend, list[..|list| - 1]);
      assert CleanChecksum(h(data));
      hide Metadata.IsWord, CleanChecksum;
      PutChunkParts(h, mid, path, backend, data);
    }
  }

  lemma {:induction false} DropRefsClean(s: Store, list: seq<Checksum>)
    requires CleanStore(s)
    ensures CleanStore(DropRefs(s, list))
    decreases |list|
  {
    if list != [] {
      DropRefsClean(s, list[..|list| - 1]);
      hide Metadata.IsWord, CleanChecksum;
    }
  }

  lemma ExecuteClean(h: Hash, s: Store, command: Command)
    requires CleanHash(h) && CleanStore(s) && CleanCommand(command)
    ensures CleanStore(Execute(h, s, command))
  {
    hide PutChunks, DropRefs, CleanChecksum, Metadata.IsWord, Input.Chunks;
    match command
    case Put(path, backend, input) =>
      if path !in s.files {
        PutChunksClean(h, s.(files := s.files[path := []]), path, backend, input.Chunks());
      }
    case Get(_) =>
    case Remove(path) =>
      if path in s.files {
        DropRefsClean(s, s.files[path]);
      }
  }

  lemma CleanStoreIndex(s: Store)
    requires CleanStore(s)
    ensures Metadata.Clean(IndexOf(s)) || !Metadata.Fits(IndexOf(s))
  {
    var index := IndexOf(s);
    if Metadata.Fits(index) {
      forall p | p in index.files ensures Metadata.CleanRow(Metadata.FileRow(p, index.files[p])) {
        forall k | 0 <= k < |index.files[p]| ensures CleanChecksum(index.files[p][k]) {
          assert index.files[p][k] in s.files[p];
        }
      }
      forall c | c in index.chunks ensures Metadata.CleanRow(Metadata.RowOfChunk(index, c)) {
        assert CleanChecksum(c);
      }
    }
  }

  lemma {:induction false} RunClean(h: Hash, commands: seq<Command>)
    requires CleanHash(h) && forall k :: 0 <= k < |commands| ==> CleanCommand(commands[k])
    ensures CleanStore(Run(h, commands))
  {
    if commands != [] {
      RunClean(h, commands[..|commands| - 1]);
      ExecuteClean(h, Run(h, commands[..|commands| - 1]), commands[|commands| - 1]);
    }
  }

  /** Two stores with the same index and objects are the same. */
  lemma IndexDetermines(s: Store, t: Store)
    requires IndexOf(s) == IndexOf(t) && s.objects == t.objects
    ensures s == t
  {
    forall c | c in s.chunks ensures c in t.chunks && s.chunks[c] == t.chunks[c] {
      assert c in IndexOf(s).chunks && IndexOf(s).chunks[c] == IndexOf(t).chunks[c];
    }
    forall c | c in t.chunks ensures c in s.chunks {
      assert c in IndexOf(t).chunks;
    }
    assert s.chunks == t.chunks;
  }

  /** What was saved is found again at the next start. */
  lemma SavedIsRepresented(disk: Disk, s: Store, rows: seq<Metadata.Row>)
    requires Saved(disk, s, rows) && CleanStore(s) && Metadata.Fits(IndexOf(s))
    ensures Represents(disk, s)
  {
    CleanStoreIndex(s);
    Metadata.RoundTrip(rows, IndexOf(s));
  }

  /**
     Starting and stopping between commands loses nothing: after any history of commands
     the disk holds the store of the uninterrupted run.
     */
  lemma {:induction false} HistoryIsRun(h: Hash, commands: seq<Command>, disks: seq<Disk>)
    requires CleanHash(h) && History(h, commands, disks)
    requires forall k :: 0 <= k < |commands| ==> CleanCommand(commands[k])
    requires forall k :: 0 <= k <= |commands| ==> Metadata.Fits(IndexOf(Run(h, commands[..k])))
    ensures Represents(disks[|commands|], Run(h, commands))
  {
    hide *;
    if commands == [] {
      EmptyHistory(h, disks);
    } else {
      var last := |commands| - 1;
      var front := commands[..last];
      var s, rows := LastSession(h, commands, disks);
      FitsAtEnd(h, commands);
      HistoryIsRun(h, front, disks[..last + 1]);
      RunClean(h, commands);
      SameDisk(disks[last], s, Run(h, front));
      SavedIsRepresented(disks[last + 1], Run(h, commands), rows);
    }
  }

  lemma EmptyHistory(h: Hash, disks: seq<Disk>)
    requires History(h, [], disks)
    ensures Represents(disks[0], Run(h, []))
  {
    assert Metadata.Parse("") == Some(Metadata.EMPTY);
    assert IndexOf(EMPTY) == Metadata.EMPTY;
  }

  lemma LastSession(h: Hash, commands: seq<Command>, disks: seq<Disk>)
    returns (s: Store, rows: seq<Metadata.Row>)
    requires commands != [] && History(h, commands, disks)
    ensures var last := |commands| - 1;
            && |disks| == last + 2
            && History(h, commands[..last], disks[..last + 1])
            && Represents(disks[last], s)
            && (s == Run(h, commands[..last]) ==> Saved(disks[last + 1], Run(h, commands), rows))
  {
    var last := |commands| - 1;
    hide Represents, Saved, Execute;
    assert Session(h, disks[last], commands[last], disks[last + 1]);
    s, rows :| Represents(disks[last], s) && Saved(disks[last + 1], Execute(h, s, commands[last]), rows);
  }

  lemma FitsAtEnd(h: Hash, commands: seq<Command>)
    requires commands != [] && forall k :: 0 <= k <= |commands| ==> Metadata.Fits(IndexOf(Run(h, commands[..k])))
    ensures Metadata.Fits(IndexOf(Run(h, commands)))
    ensures var front := commands[..|commands| - 1];
            forall k :: 0 <= k <= |front| ==> Metadata.Fits(IndexOf(Run(h, front[..k])))
  {
    hide Metadata.Fits, IndexOf, Run;
    var front := commands[..|commands| - 1];
    assert commands[..|commands|] == commands;
    assert forall k :: 0 <= k <= |front| ==> front[..k] == commands[..k];
  }

  lemma SameDisk(disk: Disk, s: Store, t: Store)
    requires Represents(disk, s) && Represents(disk, t)
    ensures s == t
  {
    hide Metadata.Parse, IndexOf;
    IndexDetermines(s, t);
  }

  /**
     Hence over all the starts the disk holds a store that behaves as the plain map: the same
     paths, and the file's own bytes under each path if and only if the file survives chunking.
     */
  lemma HistoryIsPlainMap(h: Hash, seen: set<Bytes>, commands: seq<Command>, disks: seq<Disk>)
    requires CleanHash(h) && History(h, commands, disks)
    requires forall k :: 0 <= k < |commands| ==> CleanCommand(commands[k])
    requires forall k :: 0 <= k <= |commands| ==> Metadata.Fits(IndexOf(Run(h, commands[..k])))
    requires CollisionFree(h, seen) && ChunksSeen(commands, seen)
    ensures exists s ::
              && Represents(disks[|commands|], s)
              && Inv(h, seen, s)
              && View(s).Keys == PlainRun(commands).Keys
              && (forall path :: path in View(s) ==>
                    (View(s)[path] == PlainRun(commands)[path] <==> LiveInputs(commands)[path].Kept()))
  {
    HistoryIsRun(h, commands, disks);
    hide *;
    RunIsPlainMap(h, seen, commands);
  }
}
