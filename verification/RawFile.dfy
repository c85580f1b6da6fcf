/** A recording split over several files, read as one. */
module RawFile {
  import opened Common

  /** The last split file is number 999. */
  const MAX_FILES := 1000

  const SIZE_RANGE := 0x1_0000_0000_0000_0000
  const OFFSET_RANGE := 0x8000_0000_0000_0000

  /** All files have the first one's size, except possibly the last. */
  ghost predicate Layout(files: seq<seq<Byte>>) {
    files != [] && forall k :: 0 <= k < |files| - 1 ==> |files[k]| == |files[0]|
  }

  /** The file and the position in it that a read at an offset goes to. */
  function FileAt(files: seq<seq<Byte>>, off: nat): (r: nat)
    requires files != []
    ensures r < |files|
  {
    var split := |files[0]|;
    if split == 0 then 0 else Clamped(off / split, |files| - 1)
  }

  function Clamped(a: nat, b: nat): (r: nat)
    ensures r <= b
  {
    if a <= b then a else b
  }

  function PosAt(files: seq<seq<Byte>>, off: nat): int
    requires files != []
  {
    off - BaseOf(|files[0]|, FileAt(files, off))
  }

  function BaseOf(split: nat, file: nat): nat { split * file }

  lemma {:induction false} JoinedSize(files: seq<seq<Byte>>, k: nat)
    requires Layout(files) && k < |files|
    ensures |Joined(files[..k])| == |files[0]| * k
  {
    if k > 0 {
      JoinedSize(files, k - 1);
      JoinedNext(files, k - 1);
      assert |files[0]| * (k - 1) + |files[0]| == |files[0]| * k;
    }
  }

  lemma {:induction false} JoinedPrefix(files: seq<seq<Byte>>, k: nat)
    requires k <= |files|
    ensures Joined(files[..k]) <= Joined(files)
    decreases |files| - k
  {
    if k == |files| {
      assert files[..k] == files;
    } else {
      JoinedNext(files, k);
      JoinedPrefix(files, k + 1);
    }
  }

  lemma DivBounds(off: nat, split: nat)
    requires split > 0
    ensures split * (off / split) <= off < split * (off / split) + split
  {
  }

  lemma Positions(files: seq<seq<Byte>>, off: nat)
    requires files != []
    ensures PosAt(files, off) >= 0
    ensures |files[0]| > 0 && FileAt(files, off) < |files| - 1 ==> PosAt(files, off) < |files[0]|
  {
    var split := |files[0]|;
    if split > 0 {
      DivBounds(off, split);
      MulMono(split, FileAt(files, off), off / split);
    }
  }

  /** What the files hold from an offset on, up to the end of the file it falls in. */
  function Rest(files: seq<seq<Byte>>, off: nat): seq<Byte>
    requires files != []
  {
    var f, p := FileAt(files, off), PosAt(files, off);
    if 0 <= p <= |files[f]| then files[f][p..] else []
  }

  /** A recording that reads as the concatenation: its first file has data, or no file has. */
  ghost predicate Whole(files: seq<seq<Byte>>)
    requires files != []
  {
    |files[0]| > 0 || |Joined(files)| == 0
  }

  /** The rest of the file is the recording's next bytes, and it runs out only at the end of the recording. */
  lemma RestIsWhole(files: seq<seq<Byte>>, off: nat)
    requires Layout(files) && Whole(files) && off <= |Joined(files)|
    ensures Rest(files, off) <= Joined(files)[off..]
    ensures Rest(files, off) == [] <==> off == |Joined(files)|
  {
    var f, p, split := FileAt(files, off), PosAt(files, off), |files[0]|;
    if split == 0 {
      JoinedPrefix(files, 1);
      assert files[..1][..0] == [] && files[..1][0] == files[0];
    } else {
      Positions(files, off);
      JoinedSize(files, f);
      JoinedNext(files, f);
      JoinedPrefix(files, f + 1);
      WithinFile(files, off, f, p);
    }
  }

  lemma WithinFile(files: seq<seq<Byte>>, off: nat, f: nat, p: nat)
    requires f < |files| && off == |Joined(files[..f])| + p && off <= |Joined(files)|
    requires Joined(files[..f]) + files[f] <= Joined(files)
    requires f < |files| - 1 ==> p < |files[f]|
    ensures p <= |files[f]| && files[f][p..] <= Joined(files)[off..]
    ensures p == |files[f]| <==> off == |Joined(files)|
  {
    assert files[..|files|] == files;
    if f == |files| - 1 { JoinedNext(files, f); }
    assert (Joined(files[..f]) + files[f])[off..] == files[f][p..];
  }

  /** How far one read can reach: to the next multiple of the first file's size, and in the last file to the end. */
  lemma RestReaches(files: seq<seq<Byte>>, off: nat)
    requires Layout(files) && Whole(files) && off < |Joined(files)|
    ensures var split := |files[0]|;
            split > 0 && |Rest(files, off)| == if off / split < |files| - 1 then split - off % split else |Joined(files)| - off
  {
    SplitPositive(files, off);
    hide Joined, Layout, Whole, FileAt, PosAt, Rest;
    var split, last := |files[0]|, |files| - 1;
    FileIs(files, off);
    DivBounds(off, split);
    RestIsWhole(files, off);
    if off / split < last {
      SameSize(files, off / split);
      Remainder(off, split);
    } else {
      assert files[..|files|] == files;
      JoinedSize(files, last);
      JoinedNext(files, last);
    }
  }

  lemma FileIs(files: seq<seq<Byte>>, off: nat)
    requires files != [] && |files[0]| > 0
    ensures FileAt(files, off) == if off / |files[0]| < |files| - 1 then off / |files[0]| else |files| - 1
    ensures var f, p := FileAt(files, off), off - |files[0]| * FileAt(files, off);
            p >= 0 && |Rest(files, off)| == if p <= |files[f]| then |files[f]| - p else 0
  {
    Positions(files, off);
  }

  lemma SplitPositive(files: seq<seq<Byte>>, off: nat)
    requires Layout(files) && Whole(files) && off < |Joined(files)|
    ensures files != [] && |files[0]| > 0
  {
  }

  lemma SameSize(files: seq<seq<Byte>>, k: nat)
    requires Layout(files) && k < |files| - 1
    ensures |files[k]| == |files[0]|
  {
  }

  lemma Remainder(off: nat, split: nat)
    requires split > 0
    ensures off - split * (off / split) == off % split
  {
  }

  /** When the first file is empty and a later one is not, every read finds nothing. */
  lemma EmptyFirstFile(files: seq<seq<Byte>>, off: nat)
    requires files != [] && files[0] == []
    ensures Rest(files, off) == []
  {
  }

  /** Exactly when a recording with the regular layout can be read through: the first file has data or none has. */
  lemma ReadableIff(files: seq<seq<Byte>>)
    requires Layout(files)
    ensures Whole(files) <==>
            forall off :: 0 <= off < |Joined(files)| ==> Rest(files, off) != [] && Rest(files, off) <= Joined(files)[off..]
  {
    if Whole(files) {
      forall off | 0 <= off < |Joined(files)|
        ensures Rest(files, off) != [] && Rest(files, off) <= Joined(files)[off..]
      {
        RestIsWhole(files, off);
      }
    } else {
      EmptyFirstFile(files, 0);
    }
  }

  /** An empty first file hides the data of the second. */
  lemma HiddenRecording()
    ensures var files: seq<seq<Byte>> := [[], [7]];
            Layout(files) && Joined(files) == [7] && Rest(files, 0) == []
  {
    var files: seq<seq<Byte>> := [[], [7]];
    JoinedNext(files, 0);
    JoinedNext(files, 1);
    assert files[..2] == files && files[..1] == [[]] && files[..0] == [];
  }

  /** An offset converted to an unsigned size. */
  function AsSize(n: int): nat { n % SIZE_RANGE }

  /** The number of bytes a read asks of the operating system. */
  function Asked(files: seq<seq<Byte>>, off: nat, count: nat): nat {
    if |files| >= 2 && off + count > |Joined(files)| then AsSize(|Joined(files)| - off) else count
  }

  lemma AskedIs(files: seq<seq<Byte>>, off: nat, count: nat)
    ensures Asked(files, off, count) ==
            if |files| >= 2 && off + count > |Joined(files)| then AsSize(|Joined(files)| - off) else count
  {
  }

  class File {
    /** What is on the disk: the file of the given name, then those with a number. */
    const disk: seq<seq<Byte>>
    var fdFile: int
    var fdPos: int
    var nrFiles: nat
    var splitSize: nat
    var totalLength: nat
    var currentOffset: int
    var baseOffset: int
    var lastOffset: int
    var currentFile: int

    /** The files the recording is read from: at most a thousand. */
    ghost function Files(): seq<seq<Byte>> {
      if |disk| > 1000 then disk[..1000] else disk
    }

    lemma FilesAreOnDisk()
      ensures |Files()| <= |disk| && forall i :: 0 <= i < |Files()| ==> Files()[i] == disk[i]
    {
    }

    ghost predicate Scanned()
      reads this
    {
      && nrFiles == |Files()| && totalLength == |Joined(Files())|
      && (nrFiles > 0 ==> splitSize == |Files()[0]|)
    }

    /** The descriptor's position is the last offset, counted from the start of the open file. */
    ghost predicate Valid()
      reads this
    {
      && Files() != [] && Scanned()
      && 0 <= currentFile < nrFiles && fdFile == currentFile
      && baseOffset == BaseOf(splitSize, currentFile)
      && (splitSize == 0 ==> currentFile == 0)
      && fdPos == lastOffset - baseOffset
      && currentOffset == lastOffset
    }

    constructor (disk: seq<seq<Byte>>)
      ensures this.disk == disk && Closed()
    {
      this.disk := disk;
      fdFile, fdPos := -1, 0;
      nrFiles, splitSize, totalLength := 0, 0, 0;
      currentOffset, baseOffset, lastOffset, currentFile := 0, 0, 0, 0;
    }

    /** As constructed, before the first open. */
    predicate Closed()
      reads this
    {
      fdFile == -1 && baseOffset == 0 && currentFile == 0 && nrFiles == 0 && splitSize == 0
    }

    method Scan()
      modifies this`nrFiles, this`splitSize, this`totalLength
      ensures Scanned()
      ensures Files() == [] ==> splitSize == old(splitSize)
    {
      nrFiles := 0;
      totalLength := 0;
      while nrFiles < MAX_FILES
        invariant nrFiles <= |Files()| && totalLength == |Joined(Files()[..nrFiles])|
        invariant if nrFiles > 0 then splitSize == |Files()[0]| else splitSize == old(splitSize)
        decreases MAX_FILES - nrFiles
      {
        if nrFiles >= |disk| {
          break;
        }
        if nrFiles == 0 {
          splitSize := |disk[0]|;
        }
        JoinedNext(Files(), nrFiles);
        totalLength := totalLength + |disk[nrFiles]|;
        nrFiles := nrFiles + 1;
      }
      assert Files()[..nrFiles] == Files();
    }

    /** The first open. */
    method Open() returns (fd: int)
      requires Closed()
      modifies this
      ensures fd >= 0 <==> disk != []
      ensures disk == [] ==> fd == -1
      ensures fd >= 0 ==> Valid()
    {
      Scan();
      currentOffset := 0;
      lastOffset := 0;
      if disk == [] {
        return -1;
      }
      fdFile, fdPos := 0, 0;
      return 0;
    }

    method LseekInternal(offset: int) returns (r: int)
      requires Valid() && offset >= 0
      modifies this`fdPos, this`currentOffset
      ensures r == offset
      ensures nrFiles < 2 ==> fdPos == offset && currentOffset == old(currentOffset)
      ensures nrFiles >= 2 ==> fdPos == old(fdPos) && currentOffset == offset
    {
      if nrFiles < 2 {
        fdPos := offset;
        return fdPos;
      }
      currentOffset := offset;
      return currentOffset;
    }

    /** Opens the file an offset falls in, and moves there. */
    method SwitchOffset(off: int) returns (r: int)
      requires off >= 0 && Files() != [] && Scanned()
      requires 0 <= currentFile < nrFiles && fdFile == currentFile && baseOffset == BaseOf(splitSize, currentFile)
      requires splitSize == 0 ==> currentFile == 0
      requires off == lastOffset ==> fdPos == lastOffset - baseOffset
      modifies this`fdFile, this`fdPos, this`baseOffset, this`lastOffset, this`currentFile
      ensures currentFile == fdFile == FileAt(Files(), off) && baseOffset == BaseOf(splitSize, currentFile)
      ensures splitSize == 0 ==> currentFile == 0
      ensures lastOffset == off == r && fdPos == PosAt(Files(), off) == off - baseOffset
    {
      if splitSize != 0 {
        var filenr := off / splitSize;
        if filenr >= nrFiles {
          filenr := nrFiles - 1;
        }
        if filenr != currentFile {
          fdFile, fdPos := filenr, 0;
          baseOffset := splitSize * filenr;
          lastOffset := baseOffset;
          currentFile := filenr;
        }
      } else {
        baseOffset := 0;
      }
      if off != lastOffset {
        fdPos := off - baseOffset;
        lastOffset := fdPos + baseOffset;
        return lastOffset;
      } else {
        return lastOffset;
      }
    }

    /** The operating system's read: an error, or at least one byte when there is one to give. */
    method OsRead(count: nat, answer: int) returns (ret: int, data: seq<Byte>)
      requires 0 <= fdFile < |disk| && fdPos >= 0
      modifies this`fdPos
      ensures answer < 0 ==> ret == -1 && data == [] && fdPos == old(fdPos)
      ensures answer >= 0 ==> ret == |data| <= count && fdPos == old(fdPos) + ret
      ensures answer >= 0 ==> data <= (if old(fdPos) <= |disk[fdFile]| then disk[fdFile][old(fdPos)..] else [])
      ensures answer >= 0 ==> (ret == 0 <==> count == 0 || old(fdPos) >= |disk[fdFile]|)
      ensures answer == 0 && old(fdPos) <= |disk[fdFile]| ==> ret == Min(count, |disk[fdFile]| - old(fdPos))
    {
      if answer < 0 {
        return -1, [];
      }
      var available := if fdPos <= |disk[fdFile]| then Min(count, |disk[fdFile]| - fdPos) else 0;
      ret := if available == 0 then 0 else if 1 <= answer <= available then answer else available;
      data := if ret == 0 then [] else disk[fdFile][fdPos..fdPos+ret];
      fdPos := fdPos + ret;
    }

    /**
     * Reads at an offset. The bytes are those of the file the offset falls in; in a regular recording
     * they are the recording's next bytes, and there are none only at its end or for count 0.
     */
    method Read(offset: int, count: nat, answer: int) returns (ret: int, data: seq<Byte>)
      requires Valid() && 0 <= offset < OFFSET_RANGE && count < OFFSET_RANGE
      modifies this
      ensures Valid()
      ensures answer < 0 ==> ret == -1 && data == [] && lastOffset == offset
      ensures answer >= 0 ==> ret == |data| && data <= Rest(Files(), offset) && lastOffset == offset + ret
      ensures answer >= 0 && offset <= |Joined(Files())| ==> ret <= count
      ensures answer >= 0 && Layout(Files()) && Whole(Files()) && offset <= |Joined(Files())| ==>
                && data <= Joined(Files())[offset..]
                && (ret == 0 <==> count == 0 || offset == |Joined(Files())|)
                && (answer == 0 ==> ret == Min(count, |Rest(Files(), offset)|))
    {
      hide Files, Joined, FileAt, PosAt, BaseOf, Layout, Whole, Rest, Asked, AsSize;
      FilesAreOnDisk();
      if offset != currentOffset {
        currentOffset := LseekInternal(offset);
        if currentOffset < 0 {
          return currentOffset, [];
        }
      }
      var at := SwitchOffset(currentOffset);
      var asked := count;
      AskedIs(Files(), offset, count);
      if nrFiles >= 2 {
        if currentOffset + asked > totalLength {
          asked := AsSize(totalLength - currentOffset);
        }
      }
      ReadsRest(Files(), offset);
      ret, data := OsRead(asked, answer);
      if answer >= 0 { AnswerGives(Files(), offset, count, data); }
      if ret > 0 {
        lastOffset := lastOffset + ret;
        currentOffset := lastOffset;
      }
    }

    /** The length of the recording. */
    method Length() returns (n: int)
      requires Valid()
      ensures n == |Joined(Files())|
    {
      if nrFiles >= 2 {
        return totalLength;
      }
      JoinedNext(Files(), 0);
      assert Files()[..1] == Files() && Files()[..0] == [];
      return |disk[fdFile]|;
    }

    /** The offset in the recording at which the descriptor stands. */
    method Offset() returns (r: int)
      requires Valid()
      ensures r == baseOffset + fdPos && r == currentOffset
    {
      return lastOffset;
    }
  }

  lemma ReadsRest(files: seq<seq<Byte>>, off: nat)
    requires files != []
    ensures PosAt(files, off) >= 0
    ensures Rest(files, off) == var f, p := FileAt(files, off), PosAt(files, off);
                                if p <= |files[f]| then files[f][p..] else []
  {
    Positions(files, off);
  }

  /** What an answer of the operating system means for the recording. */
  lemma AnswerGives(files: seq<seq<Byte>>, off: nat, count: nat, data: seq<Byte>)
    requires files != [] && off < OFFSET_RANGE && count < OFFSET_RANGE
    requires data <= Rest(files, off) && |data| <= Asked(files, off, count)
    requires data == [] <==> Asked(files, off, count) == 0 || Rest(files, off) == []
    ensures off <= |Joined(files)| ==> |data| <= count
    ensures Layout(files) && Whole(files) && off <= |Joined(files)| ==>
              && data <= Joined(files)[off..] && (data == [] <==> count == 0 || off == |Joined(files)|)
              && Min(Asked(files, off, count), |Rest(files, off)|) == Min(count, |Rest(files, off)|)
  {
    hide Joined, Layout, Whole, Rest;
    if Layout(files) && Whole(files) && off <= |Joined(files)| { RestIsWhole(files, off); }
  }
}
