/** The chunk loop of filewrite in src/file.c: one log transaction per chunk. */
module FileWrite {
  import opened Common
  import opened FsImage
  import opened FsBytes
  import opened FsTrunc
  import opened Fs
  import LogMachine

  const CHUNK: nat := (LogMachine.LOGSIZE - 1 - 1 - 2) / 2 * 512

  /** The most blocks one chunk can log: 14 data, one indirect, one bitmap, one inode. */
  const CHUNK_BLOCKS: nat := 17

  lemma OverwriteTwice(c: seq<Byte>, off: nat, a: seq<Byte>, b: seq<Byte>)
    requires off <= |c|
    ensures Overwrite(Overwrite(c, off, a), off + |a|, b) == Overwrite(c, off, a + b)
  {
    var x, y := Overwrite(Overwrite(c, off, a), off + |a|, b), Overwrite(c, off, a + b);
    assert |x| == |y|;
    assert forall k :: 0 <= k < |x| ==> x[k] == y[k];
  }

  /** Two consecutive writes are one. */
  lemma ContentsTwice(sb: Super, disk0: Disk, inos0: seq<Inode>, disk1: Disk, inos1: seq<Inode>, disk2: Disk, inos2: seq<Inode>,
                      i: nat, off: nat, a: seq<Byte>, b: seq<Byte>)
    requires ContentsAfter(sb, disk0, inos0, disk1, inos1, i, off, a)
    requires ContentsAfter(sb, disk1, inos1, disk2, inos2, i, off + |a|, b)
    ensures ContentsAfter(sb, disk0, inos0, disk2, inos2, i, off, a + b)
  {
    OverwriteTwice(Content(disk0, inos0, i), off, a, b);
  }

  lemma ContentsSame(sb: Super, disk: Disk, inos: seq<Inode>, i: nat, off: nat)
    requires |inos| == sb.ninodes && i < sb.ninodes && off <= inos[i].size
    ensures ContentsAfter(sb, disk, inos, disk, inos, i, off, [])
  {
    assert Overwrite(Content(disk, inos, i), off, []) == Content(disk, inos, i);
  }

  lemma ChunkBound(sb: Super, after: set<nat>, disk: Disk, inos: seq<Inode>, i: nat, off: nat, n: nat, b: nat)
    requires LogsOnly(sb, {}, after, Touched(disk, inos, i, off / BSIZE, BlocksFor(off + n)) + {b})
    requires sb.size < BPB && 0 < n <= CHUNK
    ensures |after| <= CHUNK_BLOCKS < LogMachine.LOGSIZE
  {
    LogBound(sb, {}, after, disk, inos, i, off, n, b);
    assert after - {} == after;
  }

  // ----- The stages of a write -----

  /** The file system between two transactions. */
  datatype Stage = Stage(disk: Disk, inos: seq<Inode>)

  /** How many bytes k chunks are. */
  function Sent(k: nat, len: nat): nat { if k * CHUNK < len then k * CHUNK else len }

  /** One transaction takes a to b and passes every block it changes to log_write. */
  ghost predicate Transacts(a: Stage, b: Stage, log: set<nat>, inum: nat, block: nat) {
    Logs(a.disk, a.inos, {}, b.disk, b.inos, log, inum, block)
  }

  ghost predicate Holds(sb: Super, a: Stage, b: Stage, inum: nat, off: nat, data: seq<Byte>) {
    ContentsAfter(sb, a.disk, a.inos, b.disk, b.inos, inum, off, data)
  }

  /** After k transactions the file has the first k chunks of src, and each logged the blocks in logs[k]. Folded. */
  ghost predicate Journal(sb: Super, stages: seq<Stage>, logs: seq<set<nat>>, inum: nat, block: nat, off: nat, src: seq<Byte>) {
    && |stages| == |logs| + 1
    && forall z: int {:trigger Seal((stages, logs), z)} :: Seal((stages, logs), z) ==>
      && (forall k :: 0 <= k < |logs| ==> Transacts(stages[k], stages[k + 1], logs[k], inum, block))
      && (forall k :: 0 <= k <= |logs| ==> Holds(sb, stages[0], stages[k], inum, off, src[..Sent(k, |src|)]))
  }

  lemma OpenJournal(sb: Super, stages: seq<Stage>, logs: seq<set<nat>>, inum: nat, block: nat, off: nat, src: seq<Byte>, k: nat)
    requires Journal(sb, stages, logs, inum, block, off, src) && k <= |logs|
    ensures Holds(sb, stages[0], stages[k], inum, off, src[..Sent(k, |src|)])
    ensures k < |logs| ==> Transacts(stages[k], stages[k + 1], logs[k], inum, block)
  {
    assert Seal((stages, logs), 0);
  }

  lemma FirstStage(sb: Super, a: Stage, inum: nat, block: nat, off: nat, src: seq<Byte>)
    requires |a.inos| == sb.ninodes && inum < sb.ninodes && off <= a.inos[inum].size
    ensures Journal(sb, [a], [], inum, block, off, src)
  {
    ContentsSame(sb, a.disk, a.inos, inum, off);
    assert src[..Sent(0, |src|)] == [];
  }

  /** One more transaction, which writes the next chunk. */
  lemma NextStage(sb: Super, stages: seq<Stage>, logs: seq<set<nat>>, inum: nat, block: nat, off: nat, src: seq<Byte>, b: Stage, log: set<nat>)
    requires Journal(sb, stages, logs, inum, block, off, src) && Transacts(stages[|logs|], b, log, inum, block)
    requires var n, n' := Sent(|logs|, |src|), Sent(|logs| + 1, |src|); Holds(sb, stages[|logs|], b, inum, off + n, src[n..n'])
    ensures Journal(sb, stages + [b], logs + [log], inum, block, off, src)
  {
    var stages', logs', n, n' := stages + [b], logs + [log], Sent(|logs|, |src|), Sent(|logs| + 1, |src|);
    OpenJournal(sb, stages, logs, inum, block, off, src, |logs|);
    assert src[..n] + src[n..n'] == src[..n'];
    ContentsTwice(sb, stages[0].disk, stages[0].inos, stages[|logs|].disk, stages[|logs|].inos, b.disk, b.inos, inum, off, src[..n], src[n..n']);
    forall k | 0 <= k <= |logs| ensures Holds(sb, stages'[0], stages'[k], inum, off, src[..Sent(k, |src|)])
      && Transacts(stages'[k], stages'[k + 1], logs'[k], inum, block)
    {
      OpenJournal(sb, stages, logs, inum, block, off, src, k);
    }
  }

  /** begin_op, writei, end_op. */
  method Transaction(fs: FileSystem, inum: nat, data: seq<Byte>, off: nat) returns (w: Option<int>, ghost log: set<nat>)
    requires fs.Valid() && inum in fs.icache && 0 < |data| <= CHUNK && off + |data| < WORD
    requires forall k :: 0 <= k < |data| ==> 0 <= data[k] < 256
    modifies fs
    ensures w.None? ==> Full(fs.sb, fs.disk)
    ensures w.Some? ==> fs.Valid() && inum in fs.icache && (w.value == -1 || w.value == |data|)
    ensures w == Some(-1) ==> RefusesWrite(fs.dinodes[inum], off, |data|) && fs.disk == old(fs.disk) && fs.dinodes == old(fs.dinodes)
    ensures w.Some? && w.value != -1 ==>
              && Transacts(Stage(old(fs.disk), old(fs.dinodes)), Stage(fs.disk, fs.dinodes), log, inum, fs.InodeBlock(inum))
              && Holds(fs.sb, Stage(old(fs.disk), old(fs.dinodes)), Stage(fs.disk, fs.dinodes), inum, off, data)
              && (fs.sb.size < BPB ==> |log| <= CHUNK_BLOCKS)
  {
    fs.logged := {};
    w := fs.WriteI(inum, data, off);
    log := fs.logged;
    if w.Some? && w.value != -1 && fs.sb.size < BPB {
      ChunkBound(fs.sb, log, fs.disk, fs.dinodes, inum, off, |data|, fs.InodeBlock(inum));
    }
  }

  /** One chunk, src[n..n'], in a transaction of its own. */
  method WriteChunk(fs: FileSystem, inum: nat, src: seq<Byte>, n: nat, n': nat, off: nat, ghost stages: seq<Stage>, ghost logs: seq<set<nat>>)
    returns (w: Option<int>, ghost log: set<nat>)
    requires fs.Valid() && inum in fs.icache && n < n' <= |src| && off + |src| < WORD
    requires n == Sent(|logs|, |src|) && n' == Sent(|logs| + 1, |src|)
    requires forall k :: 0 <= k < |src| ==> 0 <= src[k] < 256
    requires Journal(fs.sb, stages, logs, inum, fs.InodeBlock(inum), off, src) && stages[|logs|] == Stage(fs.disk, fs.dinodes)
    modifies fs
    ensures w.None? ==> Full(fs.sb, fs.disk)
    ensures w.Some? ==> fs.Valid() && inum in fs.icache && (w.value == -1 || w.value == n' - n)
    ensures w == Some(-1) ==> RefusesWrite(fs.dinodes[inum], off + n, n' - n) && fs.disk == old(fs.disk) && fs.dinodes == old(fs.dinodes)
    ensures w.Some? && w.value != -1 ==>
              Journal(fs.sb, stages + [Stage(fs.disk, fs.dinodes)], logs + [log], inum, fs.InodeBlock(inum), off, src)
    ensures w.Some? && w.value != -1 && fs.sb.size < BPB ==> |log| <= CHUNK_BLOCKS
  {
    w, log := Transaction(fs, inum, src[n..n'], off + n);
    if w.Some? && w.value != -1 {
      NextStage(fs.sb, stages, logs, inum, fs.InodeBlock(inum), off, src, Stage(fs.disk, fs.dinodes), log);
    }
  }

  /** The loop of filewrite. */
  method WriteChunks(fs: FileSystem, inum: nat, off: nat, src: seq<Byte>)
    returns (ok: bool, i: nat, ghost stages: seq<Stage>, ghost logs: seq<set<nat>>)
    requires fs.Valid() && inum in fs.icache && off <= fs.icache[inum].size && off + |src| < WORD
    requires forall k :: 0 <= k < |src| ==> 0 <= src[k] < 256
    modifies fs
    ensures !ok ==> Full(fs.sb, fs.disk)
    ensures ok ==> fs.Valid() && inum in fs.icache && i == Sent(|logs|, |src|)
    ensures Journal(fs.sb, stages, logs, inum, fs.InodeBlock(inum), off, src)
    ensures stages[0] == Stage(old(fs.disk), old(fs.dinodes)) && (ok ==> stages[|logs|] == Stage(fs.disk, fs.dinodes))
    ensures ok && i < |src| ==> RefusesWrite(fs.dinodes[inum], off + i, if |src| - i > CHUNK then CHUNK else |src| - i)
    ensures fs.sb.size < BPB ==> forall k :: 0 <= k < |logs| ==> |logs[k]| <= CHUNK_BLOCKS
  {
    i, logs, stages := 0, [], [Stage(fs.disk, fs.dinodes)];
    FirstStage(fs.sb, stages[0], inum, fs.InodeBlock(inum), off, src);
    while i < |src|
      invariant i == Sent(|logs|, |src|) && fs.Valid() && inum in fs.icache
      invariant Journal(fs.sb, stages, logs, inum, fs.InodeBlock(inum), off, src)
      invariant stages[0] == Stage(old(fs.disk), old(fs.dinodes)) && stages[|logs|] == Stage(fs.disk, fs.dinodes)
      invariant fs.sb.size < BPB ==> forall k :: 0 <= k < |logs| ==> |logs[k]| <= CHUNK_BLOCKS
      decreases |src| - i
    {
      var n1 := if |src| - i > CHUNK then CHUNK else |src| - i;
      ghost var log;
      var w;
      w, log := WriteChunk(fs, inum, src, i, i + n1, off, stages, logs);
      if w.None? { return false, i, stages, logs; }
      if w.value < 0 { break; }
      stages, logs := stages + [Stage(fs.disk, fs.dinodes)], logs + [log];
      i := i + n1;
    }
    ok := true;
  }

  /**
   * filewrite on a file or directory inode. `logs` lists the blocks each of its transactions
   * logged, and `stages` the file system between them. When the bitmap fits one block every
   * transaction stays within CHUNK_BLOCKS, whatever the offset and the file. If all chunks are
   * accepted the effect is one contiguous write; if one is refused the chunks before it have been
   * written.
   */
  method FileWrite(fs: FileSystem, inum: nat, off: nat, src: seq<Byte>)
    returns (r: Option<int>, off': nat, ghost stages: seq<Stage>, ghost logs: seq<set<nat>>)
    requires fs.Valid() && inum in fs.icache && fs.icache[inum].kind != T_DEV && off + |src| < WORD
    requires forall k :: 0 <= k < |src| ==> 0 <= src[k] < 256
    modifies fs
    ensures r.None? ==> Full(fs.sb, fs.disk)
    ensures r.Some? ==> fs.Valid() && off <= off' <= off + |src|
    ensures r.Some? ==> r.value == if off' == off + |src| then |src| else -1
    ensures r.Some? && off > old(fs.dinodes[inum].size) ==>
              off' == off && fs.disk == old(fs.disk) && fs.dinodes == old(fs.dinodes)
    ensures r.Some? && off <= old(fs.dinodes[inum].size) ==>
              ContentsAfter(fs.sb, old(fs.disk), old(fs.dinodes), fs.disk, fs.dinodes, inum, off, src[..off' - off])
    ensures off <= old(fs.dinodes[inum].size) ==>
              Journal(fs.sb, stages, logs, inum, fs.InodeBlock(inum), off, src) && stages[0] == Stage(old(fs.disk), old(fs.dinodes))
    ensures r.Some? && r.value == -1 ==>
              RefusesWrite(fs.dinodes[inum], off', if off + |src| - off' > CHUNK then CHUNK else off + |src| - off')
    ensures fs.sb.size < BPB ==> forall k :: 0 <= k < |logs| ==> |logs[k]| <= CHUNK_BLOCKS
  {
    stages, logs := [], [];
    if off > fs.icache[inum].size {
      // The first turn of the loop, if there is one, is refused.
      off' := off;
      if |src| == 0 { return Some(0), off', stages, logs; }
      r := fs.WriteI(inum, src[..if |src| > CHUNK then CHUNK else |src|], off);
      return;
    }
    var ok, i;
    ok, i, stages, logs := WriteChunks(fs, inum, off, src);
    off' := off + i;
    if !ok { return None, off', stages, logs; }
    OpenJournal(fs.sb, stages, logs, inum, fs.InodeBlock(inum), off, src, |logs|);
    r := Some(if i == |src| then |src| else -1);
  }
}
