/**
 Reading one piece from HDFS (GetFileConetnsFromHdfs): the piece is cut into file slices, every slice
 is read into one buffer by as many short reads as the cluster chooses to make.
 */
module HdfsRead {

  import opened Basics
  import opened ByteSeq

  datatype FileEntry = FileEntry(size: nat, pad: bool)

  datatype Slice = Slice(file: nat, offset: nat, size: nat)

  datatype Event = Opened(file: nat) | Closed(file: nat)

  function Zeros(n: nat): (z: seq<Byte>)
    ensures |z| == n && forall i | 0 <= i < n :: z[i] == 0
  {
    seq(n, _ => 0)
  }

  function Min(a: nat, b: nat): nat
  {
    if a < b then a else b
  }

  // --------------------------------------------------------- the file layout

  /**
   map_block: the slices of the `size` bytes that start `start` bytes into file i of the torrent.
   Empty files get no slice.
   */
  function MapBlock(files: seq<FileEntry>, i: nat, start: nat, size: nat): seq<Slice>
    requires i <= |files|
    decreases |files| - i
  {
    if size == 0 || i == |files| then []
    else if files[i].size <= start then MapBlock(files, i + 1, start - files[i].size, size)
    else
      var n := Min(size, files[i].size - start);
      [Slice(i, start, n)] + MapBlock(files, i + 1, 0, size - n)
  }

  predicate InFile(files: seq<FileEntry>, f: Slice)
  {
    f.file < |files| && 0 < f.size && f.offset + f.size <= files[f.file].size
  }

  lemma {:induction false} MapBlockInFiles(files: seq<FileEntry>, i: nat, start: nat, size: nat)
    requires i <= |files|
    ensures forall k | 0 <= k < |MapBlock(files, i, start, size)| :: InFile(files, MapBlock(files, i, start, size)[k])
    decreases |files| - i
  {
    if size == 0 || i == |files| {
    } else if files[i].size <= start {
      MapBlockInFiles(files, i + 1, start - files[i].size, size);
    } else {
      var n := Min(size, files[i].size - start);
      MapBlockInFiles(files, i + 1, 0, size - n);
    }
  }

  /**
   The bytes a file contributes to the torrent.  Padding contributes zeros; so do, in this definition, the
   bytes that a file on the cluster lacks.
   */
  function FileBytes(files: seq<FileEntry>, contents: seq<seq<Byte>>, i: nat): (b: seq<Byte>)
    requires i < |files| == |contents|
    ensures |b| == files[i].size
  {
    if files[i].pad then Zeros(files[i].size)
    else if files[i].size <= |contents[i]| then contents[i][..files[i].size]
    else contents[i] + Zeros(files[i].size - |contents[i]|)
  }

  /** The torrent's files from i on, laid end to end. */
  function TorrentBytes(files: seq<FileEntry>, contents: seq<seq<Byte>>, i: nat): seq<Byte>
    requires i <= |files| == |contents|
    decreases |files| - i
  {
    if i == |files| then [] else FileBytes(files, contents, i) + TorrentBytes(files, contents, i + 1)
  }

  /** The slice is padding, or lies inside what the cluster has. */
  predicate Available(files: seq<FileEntry>, contents: seq<seq<Byte>>, f: Slice)
  {
    f.file < |files| == |contents| && (files[f.file].pad || f.offset + f.size <= |contents[f.file]|)
  }

  predicate AllAvailable(files: seq<FileEntry>, contents: seq<seq<Byte>>, slices: seq<Slice>)
  {
    forall k | 0 <= k < |slices| :: Available(files, contents, slices[k])
  }

  /** The bytes of an available slice. */
  function SliceBytes(files: seq<FileEntry>, contents: seq<seq<Byte>>, f: Slice): (b: seq<Byte>)
    ensures Available(files, contents, f) ==> |b| == f.size
  {
    if !Available(files, contents, f) then []
    else if files[f.file].pad then Zeros(f.size)
    else contents[f.file][f.offset..f.offset + f.size]
  }

  /** The bytes of the first k slices, in order. */
  function Assembled(files: seq<FileEntry>, contents: seq<seq<Byte>>, slices: seq<Slice>, k: nat): seq<Byte>
    requires k <= |slices|
  {
    if k == 0 then []
    else Assembled(files, contents, slices, k - 1) + SliceBytes(files, contents, slices[k - 1])
  }

  function TotalSize(slices: seq<Slice>, k: nat): nat
    requires k <= |slices|
  {
    if k == 0 then 0 else TotalSize(slices, k - 1) + slices[k - 1].size
  }

  /** The torrent's length from file i on. */
  function SizeFrom(files: seq<FileEntry>, i: nat): nat
    requires i <= |files|
    decreases |files| - i
  {
    if i == |files| then 0 else files[i].size + SizeFrom(files, i + 1)
  }

  lemma {:induction false} TotalSizePrepend(f: Slice, rest: seq<Slice>, k: nat)
    requires k <= |rest|
    ensures TotalSize([f] + rest, k + 1) == f.size + TotalSize(rest, k)
  {
    if k > 0 {
      TotalSizePrepend(f, rest, k - 1);
    }
  }

  /** A range inside the torrent is cut up without loss. */
  lemma {:induction false} MapBlockSize(files: seq<FileEntry>, i: nat, start: nat, size: nat)
    requires i <= |files| && start + size <= SizeFrom(files, i)
    ensures var slices := MapBlock(files, i, start, size); TotalSize(slices, |slices|) == size
    decreases |files| - i
  {
    if size == 0 {
    } else if files[i].size <= start {
      MapBlockSize(files, i + 1, start - files[i].size, size);
    } else {
      var n := Min(size, files[i].size - start);
      var tail := MapBlock(files, i + 1, 0, size - n);
      MapBlockSize(files, i + 1, 0, size - n);
      TotalSizePrepend(Slice(i, start, n), tail, |tail|);
    }
  }

  lemma {:induction false} AssembledPrepend(files: seq<FileEntry>, contents: seq<seq<Byte>>, slices: seq<Slice>, k: nat)
    requires k < |slices|
    ensures Assembled(files, contents, slices, k + 1)
         == SliceBytes(files, contents, slices[0]) + Assembled(files, contents, slices[1..], k)
  {
    hide SliceBytes;
    var first := SliceBytes(files, contents, slices[0]);
    if k == 0 {
      assert Assembled(files, contents, slices, 1) == [] + first;
    } else {
      var last := SliceBytes(files, contents, slices[k]);
      calc {
        Assembled(files, contents, slices, k) + last;
        { AssembledPrepend(files, contents, slices, k - 1); }
        (first + Assembled(files, contents, slices[1..], k - 1)) + last;
        { Regroup(first, Assembled(files, contents, slices[1..], k - 1), last); }
        first + (Assembled(files, contents, slices[1..], k - 1) + last);
      }
    }
  }

  lemma {:induction false} TorrentLength(files: seq<FileEntry>, contents: seq<seq<Byte>>, i: nat)
    requires i <= |files| == |contents|
    ensures |TorrentBytes(files, contents, i)| == SizeFrom(files, i)
    decreases |files| - i
  {
    if i < |files| {
      TorrentLength(files, contents, i + 1);
    }
  }

  /** s is the range of `all` that starts at `start`. */
  ghost predicate IsRange<T>(s: seq<T>, all: seq<T>, start: nat, size: nat)
  {
    start + size <= |all| && s == all[start..start + size]
  }

  /** A range of a + b that starts in a. */
  lemma RangeAcross<T>(s: seq<T>, a: seq<T>, b: seq<T>, start: nat, n: nat, size: nat)
    requires start + n <= |a| && n <= size && (n < size ==> start + n == |a|)
    requires IsRange(s, b, 0, size - n)
    ensures IsRange(a[start..start + n] + s, a + b, start, size)
  {
  }

  /** A range of a + b that starts in b. */
  lemma RangeAfter<T>(s: seq<T>, a: seq<T>, b: seq<T>, start: nat, size: nat)
    requires |a| <= start && IsRange(s, b, start - |a|, size)
    ensures IsRange(s, a + b, start, size)
  {
  }

  lemma SliceOfFile(files: seq<FileEntry>, contents: seq<seq<Byte>>, f: Slice)
    requires Available(files, contents, f) && f.offset + f.size <= files[f.file].size
    ensures SliceBytes(files, contents, f) == FileBytes(files, contents, f.file)[f.offset..f.offset + f.size]
  {
  }

  lemma EmptyRange(files: seq<FileEntry>, contents: seq<seq<Byte>>, all: seq<Byte>, start: nat)
    requires start <= |all|
    ensures IsRange(Assembled(files, contents, [], 0), all, start, 0)
  {
  }

  lemma TailAvailable(files: seq<FileEntry>, contents: seq<seq<Byte>>, f: Slice, tail: seq<Slice>)
    requires AllAvailable(files, contents, [f] + tail)
    ensures Available(files, contents, f) && AllAvailable(files, contents, tail)
  {
    hide Available;
    assert ([f] + tail)[0] == f && forall k | 0 <= k < |tail| :: ([f] + tail)[k + 1] == tail[k];
  }

  /** The slices tile the range: put together, they are that range of the concatenated files. */
  lemma {:induction false} SlicesTileRange(files: seq<FileEntry>, contents: seq<seq<Byte>>, i: nat,
                                           start: nat, size: nat)
    requires i <= |files| == |contents|
    requires start + size <= |TorrentBytes(files, contents, i)|
    requires AllAvailable(files, contents, MapBlock(files, i, start, size))
    ensures var slices := MapBlock(files, i, start, size);
            IsRange(Assembled(files, contents, slices, |slices|), TorrentBytes(files, contents, i), start, size)
    decreases |files| - i
  {
    hide SliceBytes, FileBytes, Assembled, AllAvailable;
    if size == 0 {
      EmptyRange(files, contents, TorrentBytes(files, contents, i), start);
    } else {
      var bytes, rest := FileBytes(files, contents, i), TorrentBytes(files, contents, i + 1);
      if files[i].size <= start {
        SlicesTileRange(files, contents, i + 1, start - files[i].size, size);
        var slices := MapBlock(files, i + 1, start - files[i].size, size);
        RangeAfter(Assembled(files, contents, slices, |slices|), bytes, rest, start, size);
      } else {
        var n := Min(size, files[i].size - start);
        var f, tail := Slice(i, start, n), MapBlock(files, i + 1, 0, size - n);
        TailAvailable(files, contents, f, tail);
        SlicesTileRange(files, contents, i + 1, 0, size - n);
        SliceOfFile(files, contents, f);
        RangeAcross(Assembled(files, contents, tail, |tail|), bytes, rest, start, n, size);
        var slices := [f] + tail;
        assert slices[1..] == tail;
        AssembledPrepend(files, contents, slices, |tail|);
      }
    }
  }

  // -------------------------------------------------------------- the cluster

  /** HDFS as the reader sees it: which files open, what they hold, and how long each read turns out. */
  class Cluster {
    const contents: seq<seq<Byte>>
    const opens: seq<bool>
    const answers: nat -> int   // the k-th read: negative for an error, else the most it returns
    var calls: nat
    var log: seq<Event>

    constructor (contents: seq<seq<Byte>>, opens: seq<bool>, answers: nat -> int)
      ensures this.contents == contents && this.opens == opens && this.answers == answers && log == []
    {
      this.contents, this.opens, this.answers := contents, opens, answers;
      calls, log := 0, [];
    }

    method OpenFile(i: nat) returns (ok: bool)
      requires i < |opens|
      modifies this`log
      ensures ok == opens[i]
      ensures log == if ok then old(log) + [Opened(i)] else old(log)
    {
      ok := opens[i];
      if ok {
        log := log + [Opened(i)];
      }
    }

    method CloseFile(i: nat)
      modifies this`log
      ensures log == old(log) + [Closed(i)]
    {
      log := log + [Closed(i)];
    }

    /** hdfsPread of an open file into data[at..]: an error, nothing, or some of the wanted bytes. */
    method Pread(i: nat, pos: nat, data: array<Byte>, at: nat, want: nat) returns (n: int)
      requires i < |contents| && 0 < want && at + want <= data.Length && IsOpen(log, i)
      modifies this`calls, data
      ensures n <= want && (0 <= n ==> 0 < n ==> pos + n <= |contents[i]|)
      ensures n < 0 <==> answers(old(calls)) < 0
      ensures 0 < answers(old(calls)) ==> (n == 0 <==> |contents[i]| <= pos)
      ensures calls == old(calls) + 1
      ensures forall k | 0 <= k < data.Length ::
                data[k] == if at <= k < at + n then contents[i][pos + k - at] else old(data[k])
    {
      n := answers(calls);
      calls := calls + 1;
      if n < 0 {
        return;
      }
      var avail := if pos < |contents[i]| then |contents[i]| - pos else 0;
      if want < n {
        n := want;
      }
      if avail < n {
        n := avail;
      }
      forall k | at <= k < at + n {
        data[k] := contents[i][pos + k - at];
      }
    }
  }

  /** File i is the one opened last, and not closed since. */
  predicate IsOpen(log: seq<Event>, i: nat)
  {
    log != [] && log[|log| - 1] == Opened(i)
  }

  /** Every opened file is closed once, before the next is opened. */
  ghost predicate Balanced(log: seq<Event>)
  {
    log == [] || (2 <= |log| && log[|log| - 2].Opened? && log[|log| - 1] == Closed(log[|log| - 2].file)
                  && Balanced(log[..|log| - 2]))
  }

  lemma BalancedExtend(log: seq<Event>, i: nat)
    requires Balanced(log)
    ensures Balanced(log + [Opened(i)] + [Closed(i)])
  {
    var l := log + [Opened(i)] + [Closed(i)];
    assert l[..|l| - 2] == log;
  }

  /** What one slice does to the result when every read makes progress. */
  function SliceOutcome(files: seq<FileEntry>, contents: seq<seq<Byte>>, opens: seq<bool>, f: Slice): int
    requires f.file < |files| == |opens|
  {
    if files[f.file].pad then 0
    else if !opens[f.file] then -1
    else if !Available(files, contents, f) then -3
    else 0
  }

  /** The result when every read makes progress: the first slice that cannot be read decides. */
  function Outcome(files: seq<FileEntry>, contents: seq<seq<Byte>>, opens: seq<bool>, slices: seq<Slice>, k: nat): int
    requires k <= |slices| && |files| == |opens|
    requires forall j | 0 <= j < |slices| :: InFile(files, slices[j])
    decreases |slices| - k
  {
    if k == |slices| then 0
    else
      assert InFile(files, slices[k]);
      var r := SliceOutcome(files, contents, opens, slices[k]);
      if r != 0 then r else Outcome(files, contents, opens, slices, k + 1)
  }

  /** Padding, or a file that opens and is long enough. */
  predicate Readable(files: seq<FileEntry>, contents: seq<seq<Byte>>, opens: seq<bool>, f: Slice)
  {
    && f.file < |files| == |opens| == |contents|
    && (files[f.file].pad || (opens[f.file] && f.offset + f.size <= |contents[f.file]|))
  }

  /** The first slice that cannot be read decides: -1 if its file does not open, -3 if its file is too small. */
  lemma {:induction false} OutcomeIs(files: seq<FileEntry>, contents: seq<seq<Byte>>, opens: seq<bool>,
                                     slices: seq<Slice>, k: nat, first: nat)
    requires k <= first < |slices| && |files| == |opens| == |contents|
    requires forall j | 0 <= j < |slices| :: InFile(files, slices[j])
    requires forall j | k <= j < first :: Readable(files, contents, opens, slices[j])
    requires !Readable(files, contents, opens, slices[first])
    ensures var f := slices[first];
            f.file < |files| && Outcome(files, contents, opens, slices, k) == if !opens[f.file] then -1 else -3
    decreases first - k
  {
    assert InFile(files, slices[k]);
    if k < first {
      assert Readable(files, contents, opens, slices[k]);
      OutcomeIs(files, contents, opens, slices, k + 1, first);
    }
  }

  /** Outcome 0 means every slice is padding, or opens and lies inside what the cluster has; and conversely. */
  lemma {:induction false} ReadableIfZero(files: seq<FileEntry>, contents: seq<seq<Byte>>, opens: seq<bool>,
                                          slices: seq<Slice>, k: nat)
    requires k <= |slices| && |files| == |opens| == |contents|
    requires forall j | 0 <= j < |slices| :: InFile(files, slices[j])
    ensures Outcome(files, contents, opens, slices, k) == 0
            <==> forall j | k <= j < |slices| :: Readable(files, contents, opens, slices[j])
    decreases |slices| - k
  {
    if k < |slices| {
      assert InFile(files, slices[k]);
      ReadableIfZero(files, contents, opens, slices, k + 1);
    }
  }

  lemma ZeroMeansAvailable(files: seq<FileEntry>, contents: seq<seq<Byte>>, opens: seq<bool>, slices: seq<Slice>)
    requires |files| == |opens| == |contents|
    requires forall j | 0 <= j < |slices| :: InFile(files, slices[j])
    ensures Outcome(files, contents, opens, slices, 0) == 0 ==> AllAvailable(files, contents, slices)
  {
    ReadableIfZero(files, contents, opens, slices, 0);
  }

  // --------------------------------------------------------------- the reader

  /** No read fails or returns nothing while there is something to read. */
  ghost predicate Progressing(answers: nat -> int)
  {
    forall k: nat :: 0 < answers(k)
  }

  /** The inner loop: one slice of an opened file.  0, -2 (read error) or -3 (file too small). */
  method ReadSlice(cluster: Cluster, f: Slice, data: array<Byte>, at: nat) returns (rc: int)
    requires f.file < |cluster.contents| && at + f.size <= data.Length && IsOpen(cluster.log, f.file)
    modifies cluster`calls, data
    ensures rc in {0, -2, -3}
    ensures rc == 0 ==> f.size == 0 || f.offset + f.size <= |cluster.contents[f.file]|
    ensures rc == 0 && 0 < f.size ==> data[at..at + f.size] == cluster.contents[f.file][f.offset..f.offset + f.size]
    ensures Progressing(cluster.answers) && 0 < f.size ==>
              rc == if f.offset + f.size <= |cluster.contents[f.file]| then 0 else -3
    ensures rc == -2 ==> old(cluster.calls) < cluster.calls && cluster.answers(cluster.calls - 1) < 0
    ensures rc == -3 ==> old(cluster.calls) < cluster.calls && 0 <= cluster.answers(cluster.calls - 1)
    ensures rc == -3 && 0 < cluster.answers(cluster.calls - 1) ==> |cluster.contents[f.file]| < f.offset + f.size
    ensures forall k | 0 <= k < data.Length && !(at <= k < at + f.size) :: data[k] == old(data[k])
  {
    var readpos, ptr, noReadSize := f.offset, at, f.size;
    while noReadSize > 0
      invariant 0 <= noReadSize <= f.size
      invariant readpos == f.offset + f.size - noReadSize && ptr == at + f.size - noReadSize
      invariant readpos == f.offset || readpos <= |cluster.contents[f.file]|
      invariant old(cluster.calls) <= cluster.calls
      invariant forall k | 0 <= k < data.Length && !(at <= k < at + f.size) :: data[k] == old(data[k])
      invariant forall k | at <= k < ptr :: data[k] == cluster.contents[f.file][f.offset + k - at]
    {
      var numReadBytes := cluster.Pread(f.file, readpos, data, ptr, noReadSize);
      if numReadBytes < 0 {
        return -2;
      }
      if numReadBytes == 0 {
        return -3;
      }
      readpos := readpos + numReadBytes;
      ptr := ptr + numReadBytes;
      noReadSize := noReadSize - numReadBytes;
    }
    if 0 < f.size {
      RangeCopied(data, at, f.size, cluster.contents[f.file], f.offset);
    }
    rc := 0;
  }

  lemma RangeCopied(data: array<Byte>, at: nat, n: nat, c: seq<Byte>, offset: nat)
    requires at + n <= data.Length && offset + n <= |c|
    requires forall k | at <= k < at + n :: data[k] == c[offset + k - at]
    ensures data[at..at + n] == c[offset..offset + n]
  {
    var r, s := data[at..at + n], c[offset..offset + n];
    forall i | 0 <= i < n
      ensures r[i] == s[i]
    {
      assert r[i] == data[at + i] && s[i] == c[offset + i];
    }
    assert r == s;
  }

  /** The buffer's first n bytes are s. */
  ghost predicate BufferHolds(data: array<Byte>, n: nat, s: seq<Byte>)
    reads data
  {
    n <= data.Length && data[..n] == s
  }

  lemma BufferGrows(data: array<Byte>, at: nat, n: nat, s: seq<Byte>, t: seq<Byte>)
    requires BufferHolds(data, at, s)
    requires at + n <= data.Length && data[at..at + n] == t
    ensures BufferHolds(data, at + n, s + t)
  {
    assert data[..at + n] == data[..at] + data[at..at + n];
  }

  lemma AssembledStep(files: seq<FileEntry>, contents: seq<seq<Byte>>, slices: seq<Slice>, k: nat)
    requires k < |slices|
    ensures Assembled(files, contents, slices, k + 1)
         == Assembled(files, contents, slices, k) + SliceBytes(files, contents, slices[k])
  {
  }

  lemma EmptyBuffer(data: array<Byte>)
    ensures BufferHolds(data, 0, [])
  {
  }

  /** One turn of the outer loop: padding is zeroed; any other slice is opened, read and closed. */
  method ReadEntry(cluster: Cluster, files: seq<FileEntry>, slices: seq<Slice>, i: nat, data: array<Byte>, at: nat)
    returns (rc: int)
    requires |files| == |cluster.contents| == |cluster.opens| && i < |slices|
    requires slices[i].file < |files| && 0 < slices[i].size && at + slices[i].size <= data.Length
    requires BufferHolds(data, at, Assembled(files, cluster.contents, slices, i))
    requires Balanced(cluster.log)
    modifies cluster`calls, cluster`log, data
    ensures rc in {0, -1, -2, -3}
    ensures rc == 0 ==> Available(files, cluster.contents, slices[i])
    ensures rc == 0 ==>
              BufferHolds(data, at + slices[i].size, Assembled(files, cluster.contents, slices, i + 1))
    ensures rc == 0 ==> SliceOutcome(files, cluster.contents, cluster.opens, slices[i]) == 0
    ensures Progressing(cluster.answers) ==> rc == SliceOutcome(files, cluster.contents, cluster.opens, slices[i])
    ensures rc == -1 <==> !files[slices[i].file].pad && !cluster.opens[slices[i].file]
    ensures rc == -2 ==> old(cluster.calls) < cluster.calls && cluster.answers(cluster.calls - 1) < 0
    ensures rc == -3 ==> old(cluster.calls) < cluster.calls && 0 <= cluster.answers(cluster.calls - 1)
    ensures files[slices[i].file].pad ==> rc == 0 && cluster.calls == old(cluster.calls)
    ensures cluster.log == if files[slices[i].file].pad || rc == -1 then old(cluster.log)
                           else old(cluster.log) + [Opened(slices[i].file)] + [Closed(slices[i].file)]
    ensures forall k | at + slices[i].size <= k < data.Length :: data[k] == old(data[k])
    ensures Balanced(cluster.log) && old(cluster.log) <= cluster.log
  {
    hide Assembled;
    AssembledStep(files, cluster.contents, slices, i);
    var f := slices[i];
    if files[f.file].pad {
      forall k | at <= k < at + f.size {
        data[k] := 0;
      }
      rc := 0;
    } else {
      var ok := cluster.OpenFile(f.file);
      if !ok {
        return -1;
      }
      rc := ReadSlice(cluster, f, data, at);
      BalancedExtend(old(cluster.log), f.file);
      cluster.CloseFile(f.file);
    }
    if rc == 0 {
      BufferGrows(data, at, f.size, Assembled(files, cluster.contents, slices, i),
                  SliceBytes(files, cluster.contents, f));
    }
  }

  /** The outer loop, over the slices of a piece. */
  method ReadSlices(cluster: Cluster, files: seq<FileEntry>, slices: seq<Slice>, data: array<Byte>) returns (rc: int)
    requires |files| == |cluster.contents| == |cluster.opens|
    requires forall k | 0 <= k < |slices| :: InFile(files, slices[k])
    requires TotalSize(slices, |slices|) <= data.Length
    requires Balanced(cluster.log)
    modifies cluster`calls, cluster`log, data
    ensures rc in {0, -1, -2, -3}
    ensures rc == 0 ==> AllAvailable(files, cluster.contents, slices)
    ensures rc == 0 ==>
              BufferHolds(data, TotalSize(slices, |slices|), Assembled(files, cluster.contents, slices, |slices|))
    ensures rc == 0 ==> Outcome(files, cluster.contents, cluster.opens, slices, 0) == 0
    ensures Progressing(cluster.answers) ==> rc == Outcome(files, cluster.contents, cluster.opens, slices, 0)
    ensures forall k | TotalSize(slices, |slices|) <= k < data.Length :: data[k] == old(data[k])
    ensures Balanced(cluster.log) && old(cluster.log) <= cluster.log
  {
    hide SliceBytes, SliceOutcome, BufferHolds, Balanced, Available, AllAvailable;
    assert BufferHolds(data, 0, Assembled(files, cluster.contents, slices, 0)) by {
      EmptyBuffer(data);
    }
    var ptr := 0;
    var i := 0;
    while i < |slices|
      invariant 0 <= i <= |slices|
      invariant ptr == TotalSize(slices, i) <= data.Length
      invariant BufferHolds(data, ptr, Assembled(files, cluster.contents, slices, i))
      invariant Outcome(files, cluster.contents, cluster.opens, slices, 0)
             == Outcome(files, cluster.contents, cluster.opens, slices, i)
      invariant forall k | TotalSize(slices, |slices|) <= k < data.Length :: data[k] == old(data[k])
      invariant Balanced(cluster.log) && old(cluster.log) <= cluster.log
    {
      TotalSizeGrows(slices, i + 1, |slices|);
      rc := ReadEntry(cluster, files, slices, i, data, ptr);
      if rc != 0 {
        return;
      }
      ptr := ptr + slices[i].size;
      i := i + 1;
    }
    ZeroMeansAvailable(files, cluster.contents, cluster.opens, slices);
    rc := 0;
  }

  /** Available slices of a piece are the piece's bytes of the torrent. */
  lemma SuccessIsThePiece(files: seq<FileEntry>, contents: seq<seq<Byte>>, pieceStart: nat, pieceSize: nat)
    requires |files| == |contents| && pieceStart + pieceSize <= SizeFrom(files, 0)
    requires AllAvailable(files, contents, MapBlock(files, 0, pieceStart, pieceSize))
    ensures |TorrentBytes(files, contents, 0)| == SizeFrom(files, 0)
    ensures var slices := MapBlock(files, 0, pieceStart, pieceSize);
            Assembled(files, contents, slices, |slices|)
            == TorrentBytes(files, contents, 0)[pieceStart..pieceStart + pieceSize]
  {
    TorrentLength(files, contents, 0);
    SlicesTileRange(files, contents, 0, pieceStart, pieceSize);
  }

  /**
   The reader.  On success the buffer holds the piece's bytes of the torrent, for every schedule of short
   reads, and every slice was there to be read; on every return each opened file has been closed once, and
   nothing past the piece is written.
   */
  method GetFileContents(cluster: Cluster, files: seq<FileEntry>, pieceStart: nat, pieceSize: nat, data: array<Byte>)
    returns (rc: int)
    requires |files| == |cluster.contents| == |cluster.opens|
    requires pieceStart + pieceSize <= SizeFrom(files, 0) && pieceSize <= data.Length
    requires Balanced(cluster.log)
    modifies cluster`calls, cluster`log, data
    ensures rc in {0, -1, -2, -3}
    ensures |TorrentBytes(files, cluster.contents, 0)| == SizeFrom(files, 0)
    ensures rc == 0 ==>
              data[..pieceSize] == TorrentBytes(files, cluster.contents, 0)[pieceStart..pieceStart + pieceSize]
    ensures var slices := MapBlock(files, 0, pieceStart, pieceSize);
            && (forall k | 0 <= k < |slices| :: InFile(files, slices[k]))
            && (rc == 0 ==> AllAvailable(files, cluster.contents, slices)
                            && Outcome(files, cluster.contents, cluster.opens, slices, 0) == 0)
            && (Progressing(cluster.answers) ==>
                  rc == Outcome(files, cluster.contents, cluster.opens, slices, 0))
    ensures forall k | pieceSize <= k < data.Length :: data[k] == old(data[k])
    ensures Balanced(cluster.log) && old(cluster.log) <= cluster.log
  {
    hide Assembled, Outcome, Balanced, TorrentBytes, AllAvailable;
    var slices := MapBlock(files, 0, pieceStart, pieceSize);
    MapBlockSize(files, 0, pieceStart, pieceSize);
    MapBlockInFiles(files, 0, pieceStart, pieceSize);
    TorrentLength(files, cluster.contents, 0);
    rc := ReadSlices(cluster, files, slices, data);
    if rc == 0 {
      SuccessIsThePiece(files, cluster.contents, pieceStart, pieceSize);
    }
  }

  lemma {:induction false} TotalSizeGrows(slices: seq<Slice>, j: nat, k: nat)
    requires j <= k <= |slices|
    ensures TotalSize(slices, j) <= TotalSize(slices, k)
  {
    if j < k {
      TotalSizeGrows(slices, j, k - 1);
    }
  }

}
