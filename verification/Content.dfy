/**
 File contents as a rope of slices of some source (diffuzzer/src/abstract_fs/content.rs).

 The rope operations are specified on sequences of slices by `TakeSlices` and `DropSlices`; the lemmas
 relate those to the flat sequence of source indices; the class carries the loops of the source.
 */
module Contents {
  import opened Wrappers

  /** The source indices from..to, both included; empty when from > to. */
  datatype SourceSlice = SourceSlice(from: nat, to: nat) {
    function Size(): nat {
      if from <= to then to - from + 1 else 0
    }
  }

  datatype ContentError = BadOffset(offset: nat, size: nat)

  function Min(a: nat, b: nat): nat {
    if a <= b then a else b
  }

  /** n consecutive source indices starting at src. */
  function Run(src: nat, n: nat): (r: seq<nat>)
    ensures |r| == n && forall k :: 0 <= k < n ==> r[k] == src + k
  {
    seq(n, k requires 0 <= k => src + k)
  }

  function Flat(ss: seq<SourceSlice>): seq<nat> {
    if ss == [] then [] else Run(ss[0].from, ss[0].Size()) + Flat(ss[1..])
  }

  predicate Tight(ss: seq<SourceSlice>) {
    forall s :: s in ss ==> s.Size() > 0
  }

  function TotalSize(ss: seq<SourceSlice>): nat {
    if ss == [] then 0 else ss[0].Size() + TotalSize(ss[1..])
  }

  /** The slice written by a write of n > 0 bytes of the source at src. */
  function Written(src: nat, n: nat): SourceSlice
    requires n > 0
  {
    SourceSlice(src, src + n - 1)
  }

  /** What appending n bytes adds to a rope: nothing when n is zero. */
  function Chunk(src: nat, n: nat): seq<SourceSlice> {
    if n > 0 then [Written(src, n)] else []
  }

  /** Slices for the first k indices. */
  function TakeSlices(ss: seq<SourceSlice>, k: nat): seq<SourceSlice> {
    if ss == [] || k == 0 then []
    else if ss[0].Size() <= k then [ss[0]] + TakeSlices(ss[1..], k - ss[0].Size())
    else [SourceSlice(ss[0].from, ss[0].from + k - 1)]
  }

  /** Slices for all but the first k indices. */
  function DropSlices(ss: seq<SourceSlice>, k: nat): seq<SourceSlice> {
    if ss == [] || k == 0 then ss
    else if ss[0].Size() <= k then DropSlices(ss[1..], k - ss[0].Size())
    else [SourceSlice(ss[0].from + k, ss[0].to)] + ss[1..]
  }

  /** The rope after a write at an offset within the file. */
  function WriteSlices(ss: seq<SourceSlice>, src: nat, off: nat, n: nat): seq<SourceSlice> {
    if n == 0 then ss else TakeSlices(ss, off) + [Written(src, n)] + DropSlices(ss, off + n)
  }

  function ReadSlices(ss: seq<SourceSlice>, off: nat, n: nat): seq<SourceSlice> {
    TakeSlices(DropSlices(ss, off), n)
  }

  /** What a write means for a plain sequence. */
  function Overwrite(bytes: seq<nat>, src: nat, off: nat, n: nat): seq<nat>
    requires off <= |bytes|
  {
    bytes[..off] + Run(src, n) + bytes[Min(off + n, |bytes|)..]
  }

  // ----- ropes and flat sequences

  lemma {:induction false} FlatSize(ss: seq<SourceSlice>)
    ensures |Flat(ss)| == TotalSize(ss)
  {
    if ss != [] {
      FlatSize(ss[1..]);
    }
  }

  lemma {:induction false} FlatConcat(a: seq<SourceSlice>, b: seq<SourceSlice>)
    ensures Flat(a + b) == Flat(a) + Flat(b)
  {
    if a == [] {
      assert a + b == b;
    } else {
      assert (a + b)[1..] == a[1..] + b;
      FlatConcat(a[1..], b);
    }
  }

  /** A slice stands for the indices between its ends, both included. */
  lemma SliceHolds(s: SourceSlice, i: nat)
    ensures i in Flat([s]) <==> s.from <= i <= s.to
  {
    FlatSingle(s);
    var run := Run(s.from, s.Size());
    if s.from <= i <= s.to {
      assert run[i - s.from] == i;
    }
  }

  lemma FlatSingle(s: SourceSlice)
    ensures Flat([s]) == Run(s.from, s.Size())
  {
    assert [s][1..] == [];
  }

  lemma {:induction false} TakeFlat(ss: seq<SourceSlice>, k: nat)
    requires Tight(ss)
    ensures Flat(TakeSlices(ss, k)) == Flat(ss)[..Min(k, |Flat(ss)|)]
  {
    if ss != [] && k != 0 {
      var s := ss[0];
      if s.Size() <= k {
        TakeFlat(ss[1..], k - s.Size());
        FlatConcat([s], TakeSlices(ss[1..], k - s.Size()));
        FlatSingle(s);
      } else {
        FlatSingle(SourceSlice(s.from, s.from + k - 1));
      }
    }
  }

  lemma {:induction false} DropFlat(ss: seq<SourceSlice>, k: nat)
    requires Tight(ss)
    ensures Flat(DropSlices(ss, k)) == Flat(ss)[Min(k, |Flat(ss)|)..]
  {
    if ss != [] && k != 0 {
      var s := ss[0];
      if s.Size() <= k {
        DropFlat(ss[1..], k - s.Size());
      } else {
        var t := SourceSlice(s.from + k, s.to);
        assert ([t] + ss[1..])[1..] == ss[1..];
        assert Run(t.from, t.Size()) == Run(s.from, s.Size())[k..];
      }
    }
  }

  lemma {:induction false} TakeShape(ss: seq<SourceSlice>, k: nat)
    requires Tight(ss)
    ensures Tight(TakeSlices(ss, k))
  {
    if ss != [] && k != 0 && ss[0].Size() <= k {
      TakeShape(ss[1..], k - ss[0].Size());
    }
  }

  lemma {:induction false} DropShape(ss: seq<SourceSlice>, k: nat)
    requires Tight(ss)
    ensures Tight(DropSlices(ss, k))
  {
    if ss != [] && k != 0 && ss[0].Size() <= k {
      DropShape(ss[1..], k - ss[0].Size());
    }
  }

  /** Cutting a range out of the rope splits at most one slice. */
  lemma {:induction false} TakeDropCount(ss: seq<SourceSlice>, off: nat, n: nat)
    requires Tight(ss)
    ensures |DropSlices(ss, off + n)| <= |ss|
    ensures |TakeSlices(ss, off)| + |DropSlices(ss, off + n)| <= |ss| + 1
  {
    if ss != [] {
      var s := ss[0].Size();
      if s <= off {
        TakeDropCount(ss[1..], off - s, n);
      } else if s <= off + n {
        TakeDropCount(ss[1..], 0, off + n - s);
      }
    }
  }

  lemma {:induction false} DropDrop(ss: seq<SourceSlice>, j: nat, k: nat)
    requires Tight(ss)
    ensures DropSlices(DropSlices(ss, j), k) == DropSlices(ss, j + k)
  {
    if ss != [] && j != 0 && k != 0 {
      var s := ss[0];
      if s.Size() <= j {
        DropDrop(ss[1..], j - s.Size(), k);
      } else {
        assert ([SourceSlice(s.from + j, s.to)] + ss[1..])[1..] == ss[1..];
      }
    }
  }

  lemma FlatOfThree(a: seq<SourceSlice>, w: SourceSlice, b: seq<SourceSlice>)
    ensures Flat(a + [w] + b) == Flat(a) + Run(w.from, w.Size()) + Flat(b)
  {
    FlatSingle(w);
    FlatConcat(a, [w]);
    FlatConcat(a + [w], b);
  }

  lemma FlatOfWrite(ss: seq<SourceSlice>, src: nat, off: nat, n: nat)
    requires Tight(ss) && off <= |Flat(ss)| && n > 0
    ensures Flat(WriteSlices(ss, src, off, n)) == Overwrite(Flat(ss), src, off, n)
  {
    var a, w, b := TakeSlices(ss, off), Written(src, n), DropSlices(ss, off + n);
    var fa, fb := Flat(a), Flat(b);
    assert fa == Flat(ss)[..off] by { TakeFlat(ss, off); }
    assert fb == Flat(ss)[Min(off + n, |Flat(ss)|)..] by { DropFlat(ss, off + n); }
    assert Flat(a + [w] + b) == fa + Run(src, n) + fb by { FlatOfThree(a, w, b); }
  }

  lemma ShapeOfWrite(ss: seq<SourceSlice>, src: nat, off: nat, n: nat)
    requires Tight(ss)
    ensures Tight(WriteSlices(ss, src, off, n))
    ensures |WriteSlices(ss, src, off, n)| <= |ss| + 2
  {
    if n > 0 {
      TakeShape(ss, off);
      DropShape(ss, off + n);
      TakeDropCount(ss, off, n);
    }
  }

  /** A rope write is a flat overwrite, keeps every slice non-empty and adds at most two slices. */
  lemma WriteIsOverwrite(ss: seq<SourceSlice>, src: nat, off: nat, n: nat)
    requires Tight(ss) && off <= TotalSize(ss)
    ensures |Flat(ss)| == TotalSize(ss)
    ensures Flat(WriteSlices(ss, src, off, n)) == Overwrite(Flat(ss), src, off, n)
    ensures Tight(WriteSlices(ss, src, off, n))
    ensures |WriteSlices(ss, src, off, n)| <= |ss| + 2
    ensures TotalSize(WriteSlices(ss, src, off, n)) == if off + n >= TotalSize(ss) then off + n else TotalSize(ss)
  {
    FlatSize(ss);
    FlatSize(WriteSlices(ss, src, off, n));
    ShapeOfWrite(ss, src, off, n);
    if n == 0 {
      assert Flat(ss)[..off] + Run(src, 0) + Flat(ss)[off..] == Flat(ss);
    } else {
      FlatOfWrite(ss, src, off, n);
    }
  }

  /** A rope read is a slice of the flat content, built from non-empty slices only. */
  lemma ReadIsSlice(ss: seq<SourceSlice>, off: nat, n: nat)
    requires Tight(ss) && off <= TotalSize(ss)
    ensures |Flat(ss)| == TotalSize(ss)
    ensures Flat(ReadSlices(ss, off, n)) == Flat(ss)[off..Min(off + n, |Flat(ss)|)]
    ensures Tight(ReadSlices(ss, off, n))
    ensures TotalSize(ReadSlices(ss, off, n)) == Min(n, TotalSize(ss) - off)
  {
    FlatSize(ss);
    DropFlat(ss, off);
    DropShape(ss, off);
    TakeFlat(DropSlices(ss, off), n);
    TakeShape(DropSlices(ss, off), n);
    FlatSize(ReadSlices(ss, off, n));
  }

  /** Reading back what was just written gives the written run. */
  lemma ReadAfterWrite(ss: seq<SourceSlice>, src: nat, off: nat, n: nat)
    requires Tight(ss) && off <= TotalSize(ss)
    ensures Flat(ReadSlices(WriteSlices(ss, src, off, n), off, n)) == Run(src, n)
  {
    WriteIsOverwrite(ss, src, off, n);
    ReadIsSlice(WriteSlices(ss, src, off, n), off, n);
  }

  // ----- facts used by the loops below

  lemma {:induction false} TotalSizeConcat(a: seq<SourceSlice>, b: seq<SourceSlice>)
    ensures TotalSize(a + b) == TotalSize(a) + TotalSize(b)
  {
    if a == [] {
      assert a + b == b;
    } else {
      assert (a + b)[1..] == a[1..] + b;
      TotalSizeConcat(a[1..], b);
    }
  }

  lemma TotalSizeStep(ss: seq<SourceSlice>, i: nat)
    requires i < |ss|
    ensures TotalSize(ss[..i + 1]) == TotalSize(ss[..i]) + ss[i].Size()
  {
    assert ss[..i + 1] == ss[..i] + [ss[i]];
    TotalSizeConcat(ss[..i], [ss[i]]);
    assert [ss[i]][1..] == [];
  }

  /** Taking walks over whole slices that end at or before k. */
  lemma {:induction false} TakeSkip(ss: seq<SourceSlice>, i: nat, k: nat)
    requires Tight(ss) && i <= |ss| && TotalSize(ss[..i]) <= k
    ensures TakeSlices(ss, k) == ss[..i] + TakeSlices(ss[i..], k - TotalSize(ss[..i]))
  {
    if i > 0 {
      var tail := ss[1..];
      assert ss[..i] == [ss[0]] + tail[..i - 1] && ss[..i][1..] == tail[..i - 1];
      TakeSkip(tail, i - 1, k - ss[0].Size());
      assert tail[i - 1..] == ss[i..];
    }
  }

  /** So does dropping. */
  lemma {:induction false} DropSkip(ss: seq<SourceSlice>, i: nat, k: nat)
    requires Tight(ss) && i <= |ss| && TotalSize(ss[..i]) <= k
    ensures DropSlices(ss, k) == DropSlices(ss[i..], k - TotalSize(ss[..i]))
  {
    if i > 0 {
      var tail := ss[1..];
      assert ss[..i][1..] == tail[..i - 1];
      DropSkip(tail, i - 1, k - ss[0].Size());
      assert tail[i - 1..] == ss[i..];
    }
  }

  /** Where an offset below the size falls: the slices before it and after it. */
  lemma SplitPoint(ss: seq<SourceSlice>, i: nat, k: nat)
    requires Tight(ss) && i < |ss| && TotalSize(ss[..i]) <= k < TotalSize(ss[..i]) + ss[i].Size()
    ensures var d := k - TotalSize(ss[..i]);
            if d == 0 then TakeSlices(ss, k) == ss[..i] && DropSlices(ss, k) == ss[i..]
            else TakeSlices(ss, k) == ss[..i] + [SourceSlice(ss[i].from, ss[i].from + d - 1)]
                 && DropSlices(ss, k) == [SourceSlice(ss[i].from + d, ss[i].to)] + ss[i + 1..]
  {
    TakeSkip(ss, i, k);
    DropSkip(ss, i, k);
    assert ss[i..][1..] == ss[i + 1..];
  }

  function Retain(ss: seq<SourceSlice>): seq<SourceSlice> {
    if ss == [] then []
    else (if ss[0].Size() > 0 then [ss[0]] else []) + Retain(ss[1..])
  }

  lemma {:induction false} RetainConcat(a: seq<SourceSlice>, b: seq<SourceSlice>)
    ensures Retain(a + b) == Retain(a) + Retain(b)
  {
    if a == [] {
      assert a + b == b;
    } else {
      assert (a + b)[1..] == a[1..] + b;
      RetainConcat(a[1..], b);
    }
  }

  lemma {:induction false} RetainTight(ss: seq<SourceSlice>)
    requires Tight(ss)
    ensures Retain(ss) == ss
  {
    if ss != [] {
      RetainTight(ss[1..]);
    }
  }

  lemma {:induction false} RetainNothing(ss: seq<SourceSlice>)
    requires forall s :: s in ss ==> s.Size() == 0
    ensures Retain(ss) == []
  {
    if ss != [] {
      RetainNothing(ss[1..]);
    }
  }

  /** The rope with zero-sized slices in its middle, after filtering. */
  lemma RetainAround(front: seq<SourceSlice>, zeros: seq<SourceSlice>, back: seq<SourceSlice>)
    requires Tight(front) && Tight(back) && forall s :: s in zeros ==> s.Size() == 0
    ensures Retain(front + zeros + back) == front + back
  {
    RetainTight(front);
    RetainTight(back);
    RetainNothing(zeros);
    RetainConcat(front, zeros);
    assert Retain(front + zeros) == front + [] == front;
    RetainConcat(front + zeros, back);
  }

  // ----- the mutable content

  class Content {
    var slices: seq<SourceSlice>

    constructor ()
      ensures slices == []
    {
      slices := [];
    }

    constructor Of(ss: seq<SourceSlice>)
      ensures slices == ss
    {
      slices := ss;
    }

    method Size() returns (size: nat)
      ensures size == TotalSize(slices)
    {
      size := 0;
      var i := 0;
      while i < |slices|
        invariant 0 <= i <= |slices|
        invariant size == TotalSize(slices[..i])
      {
        TotalSizeStep(slices, i);
        size := size + slices[i].Size();
        i := i + 1;
      }
      assert slices[..i] == slices;
    }

    /** Appends at the end. */
    method WriteBack(srcOffset: nat, size: nat)
      modifies this
      ensures slices == old(slices) + Chunk(srcOffset, size)
    {
      if size > 0 {
        slices := slices + [SourceSlice(srcOffset, srcOffset + size - 1)];
      }
    }

    /** Overwrites in place: splits the slice at the offset, inserts, truncates what follows, filters. */
    method Write(srcOffset: nat, writeOffset: nat, size: nat) returns (r: Result<(), ContentError>)
      requires Tight(slices)
      modifies this
      ensures r.Failure? <==> writeOffset > TotalSize(old(slices))
      ensures r.Failure? ==> slices == old(slices) && r.error == BadOffset(writeOffset, TotalSize(old(slices)))
      ensures r.Success? ==> slices == WriteSlices(old(slices), srcOffset, writeOffset, size)
      ensures Tight(slices)
    {
      ghost var ss := slices;
      var total := Size();
      if writeOffset == total {
        WriteBack(srcOffset, size);
        AppendIsWrite(ss, srcOffset, size);
        WriteIsOverwrite(ss, srcOffset, writeOffset, size);
        return Success(());
      }
      if writeOffset > total {
        return Failure(BadOffset(writeOffset, total));
      }
      var oldSize := total;
      WriteIsOverwrite(ss, srcOffset, writeOffset, size);
      if size > 0 {
        var writeAtIndex := SplitAt(writeOffset);
        var written := SourceSlice(srcOffset, srcOffset + size - 1);
        slices := slices[..writeAtIndex] + [written] + slices[writeAtIndex..];
        ghost var front := TakeSlices(ss, writeOffset) + [written];
        ghost var back := DropSlices(ss, writeOffset);
        assert slices == front + back;
        TakeShape(ss, writeOffset);
        DropShape(ss, writeOffset);
        DropDrop(ss, writeOffset, size);
        TruncateFrom(writeAtIndex + 1, size, front, back);
        slices := Retain(slices);
      }
      var newSize := Size();
      assert newSize == if writeOffset + size >= oldSize then writeOffset + size else oldSize;
      assert forall s :: s in slices ==> s.Size() > 0;
      return Success(());
    }

    /** First loop of the write: makes the offset a slice boundary and returns its index. */
    method SplitAt(writeOffset: nat) returns (writeAtIndex: nat)
      requires Tight(slices) && writeOffset < TotalSize(slices)
      modifies this
      ensures writeAtIndex <= |slices|
      ensures slices[..writeAtIndex] == TakeSlices(old(slices), writeOffset)
      ensures slices[writeAtIndex..] == DropSlices(old(slices), writeOffset)
    {
      ghost var ss := slices;
      assert ss[..|ss|] == ss;
      var currOffset := 0;
      var i := 0;
      while i < |slices|
        invariant 0 <= i <= |slices|
        invariant slices == ss
        invariant currOffset == TotalSize(ss[..i]) <= writeOffset
        decreases |slices| - i
      {
        var slice := slices[i];
        var nextOffset := currOffset + slice.Size();
        if currOffset == writeOffset {
          SplitPoint(ss, i, writeOffset);
          return i;
        } else if nextOffset > writeOffset {
          SplitPoint(ss, i, writeOffset);
          var fstHalfTo := slice.from + (writeOffset - currOffset - 1);
          var fst, snd := SourceSlice(slice.from, fstHalfTo), SourceSlice(fstHalfTo + 1, slice.to);
          slices := slices[..i] + [fst] + [snd] + slices[i + 1..];
          assert slice.Size() == fst.Size() + snd.Size();
          return i + 1;
        }
        TotalSizeStep(ss, i);
        currOffset := nextOffset;
        i := i + 1;
      }
      assert false;
    }

    /** Second loop of the write: removes `size` indices after the inserted slice by emptying or shortening slices. */
    method TruncateFrom(start: nat, size: nat, ghost front: seq<SourceSlice>, ghost back: seq<SourceSlice>)
      requires Tight(front) && Tight(back) && |front| == start && slices == front + back
      modifies this
      ensures Retain(slices) == front + DropSlices(back, size)
    {
      var truncateSize := size;
      ghost var zeros, rest := [], back;
      var i := start;
      while i < |slices|
        invariant i == start + |zeros|
        invariant slices == front + zeros + rest
        invariant Tight(rest) && forall s :: s in zeros ==> s.Size() == 0
        invariant DropSlices(back, size) == DropSlices(rest, truncateSize)
      {
        var slice := slices[i];
        assert slice == rest[0];
        var canTruncateSize := slice.Size();
        if canTruncateSize > truncateSize {
          var shortened := SourceSlice(slice.from + truncateSize, slice.to);
          assert [shortened] + rest[1..] == DropSlices(rest, truncateSize);
          slices := slices[i := shortened];
          assert slices == front + zeros + ([shortened] + rest[1..]);
          RetainAround(front, zeros, [shortened] + rest[1..]);
          return;
        }
        var emptied := SourceSlice(100000, 0);
        slices := slices[i := emptied];
        zeros, rest := zeros + [emptied], rest[1..];
        truncateSize := truncateSize - canTruncateSize;
        i := i + 1;
      }
      RetainAround(front, zeros, []);
      assert slices == front + zeros + [];
    }

    /** Copies out at most `size` indices from `offset` on. */
    method Read(offset: nat, size: nat) returns (r: Result<Content, ContentError>)
      requires Tight(slices)
      ensures r.Failure? <==> offset > TotalSize(slices)
      ensures r.Failure? ==> r.error == BadOffset(offset, TotalSize(slices))
      ensures r.Success? ==> fresh(r.value) && r.value.slices == ReadSlices(slices, offset, size)
    {
      var total := Size();
      if offset > total {
        return Failure(BadOffset(offset, total));
      }
      var ss := slices;
      var content := new Content();
      var currentOffset := 0;
      var readSize := 0;
      var reading := false;
      ghost var skip: nat, todo: nat := offset, size;
      var i := 0;
      assert ss[0..] == ss;
      while i < |ss|
        invariant 0 <= i <= |ss|
        invariant fresh(content)
        invariant todo == size - readSize && TotalSize(content.slices) == readSize
        invariant skip == if reading then 0 else offset - currentOffset
        invariant reading || content.slices == []
        invariant ReadSlices(ss, offset, size) == content.slices + ReadSlices(ss[i..], skip, todo)
        decreases |ss| - i
      {
        var s := ss[i];
        ghost var one: seq<SourceSlice>, skip': nat, todo': nat := ReadOne(s, skip, todo), SkipLeft(s, skip), TodoLeft(s, skip, todo);
        ghost var c := content.slices + one;
        ReadOn(content.slices, ss, i, skip, todo);
        if reading {
          if readSize >= size {
            break;
          }
          var sliceReadSize := s.Size();
          if readSize + sliceReadSize > size {
            sliceReadSize := size - readSize;
          }
          assert one == Chunk(s.from, sliceReadSize) && skip' == 0 && todo' == todo - sliceReadSize;
          content.WriteBack(s.from, sliceReadSize);
          readSize := readSize + sliceReadSize;
        } else {
          var nextOffset := currentOffset + s.Size();
          if nextOffset > offset {
            reading := true;
            var readFrom := offset - currentOffset;
            var sliceReadSize := s.Size() - readFrom;
            if sliceReadSize > size {
              sliceReadSize := size;
            }
            assert one == Chunk(s.from + readFrom, sliceReadSize) && skip' == 0 && todo' == todo - sliceReadSize;
            content.WriteBack(s.from + readFrom, sliceReadSize);
            readSize := readSize + sliceReadSize;
          } else {
            assert one == [] && skip' == skip - s.Size() && todo' == todo;
            currentOffset := nextOffset;
          }
        }
        assert content.slices == c;
        skip, todo := skip', todo';
        i := i + 1;
      }
      assert ReadSlices(ss[i..], skip, todo) == [];
      var contentSize := content.Size();
      assert contentSize == readSize;
      return Success(content);
    }
  }

  /** What one slice contributes to a read that still skips `skip` and wants `todo` indices. */
  function ReadOne(s: SourceSlice, skip: nat, todo: nat): seq<SourceSlice> {
    if s.Size() <= skip then [] else Chunk(s.from + skip, Min(todo, s.Size() - skip))
  }

  function SkipLeft(s: SourceSlice, skip: nat): nat {
    if s.Size() <= skip then skip - s.Size() else 0
  }

  function TodoLeft(s: SourceSlice, skip: nat, todo: nat): nat {
    if s.Size() <= skip then todo else todo - Min(todo, s.Size() - skip)
  }

  lemma ReadOneSize(s: SourceSlice, skip: nat, todo: nat)
    ensures TotalSize(ReadOne(s, skip, todo)) == todo - TodoLeft(s, skip, todo)
  {
    var c := ReadOne(s, skip, todo);
    assert c != [] ==> c[1..] == [];
  }

  /** A read of a rope is what its first slice contributes, then the read of the rest. */
  lemma ReadStep(s: SourceSlice, rest: seq<SourceSlice>, skip: nat, todo: nat)
    requires s.Size() > 0
    ensures ReadSlices([s] + rest, skip, todo) == ReadOne(s, skip, todo) + ReadSlices(rest, SkipLeft(s, skip), TodoLeft(s, skip, todo))
  {
    assert ([s] + rest)[1..] == rest;
    if skip < s.Size() {
      var t := SourceSlice(s.from + skip, s.to);
      assert DropSlices([s] + rest, skip) == [t] + rest;
      assert ([t] + rest)[1..] == rest;
    }
  }

  lemma ReadOn(done: seq<SourceSlice>, ss: seq<SourceSlice>, i: nat, skip: nat, todo: nat)
    requires i < |ss| && ss[i].Size() > 0
    ensures var one := ReadOne(ss[i], skip, todo);
            var todo' := TodoLeft(ss[i], skip, todo);
            && done + ReadSlices(ss[i..], skip, todo) == done + one + ReadSlices(ss[i + 1..], SkipLeft(ss[i], skip), todo')
            && TotalSize(done + one) == TotalSize(done) + todo - todo'
  {
    assert ss[i..] == [ss[i]] + ss[i + 1..];
    ReadStep(ss[i], ss[i + 1..], skip, todo);
    TotalSizeConcat(done, ReadOne(ss[i], skip, todo));
    ReadOneSize(ss[i], skip, todo);
  }

  lemma AppendIsWrite(ss: seq<SourceSlice>, src: nat, n: nat)
    requires Tight(ss)
    ensures WriteSlices(ss, src, TotalSize(ss), n) == ss + Chunk(src, n)
  {
    assert ss[..|ss|] == ss;
    TakeSkip(ss, |ss|, TotalSize(ss));
    DropSkip(ss, |ss|, TotalSize(ss) + n);
  }
}
