/**
 * Day 9: a disk map of alternating file and free-space lengths. The disk
 * is expanded into one cell per block; part 1 moves single blocks from
 * the end into the leftmost free cells, part 2 moves whole files into the
 * leftmost free span that can hold them. Both report a checksum.
 */
module Day09 {
  datatype FileType = Free | Occupied(id: nat)

  datatype FileBlock = FileBlock(count: nat, fileType: FileType)

  // ------------------------------------------------------------- parsing

  predicate IsDigit(c: char)
  {
    '0' <= c <= '9'
  }

  /** The block the digit at position `i` describes: even positions are files, numbered `i / 2`. */
  function BlockAt(i: nat, c: char): FileBlock
    requires IsDigit(c)
  {
    FileBlock((c - '0') as nat, if i % 2 == 0 then Occupied(i / 2) else Free)
  }

  /** The blocks of the digits from position `i` on, zero-length ones dropped. */
  function ParseFrom(s: seq<char>, i: nat): (r: seq<FileBlock>)
    requires i <= |s| && forall k :: 0 <= k < |s| ==> IsDigit(s[k])
    ensures forall b :: b in r ==> 1 <= b.count <= 9
    ensures forall k :: 0 <= k < |r| && r[k].fileType.Occupied? ==> i / 2 <= r[k].fileType.id
    ensures forall k, l :: 0 <= k < l < |r| && r[k].fileType.Occupied? && r[l].fileType.Occupied? ==> r[k].fileType.id < r[l].fileType.id
    decreases |s| - i
  {
    if i == |s| then []
    else
      var rest := ParseFrom(s, i + 1);
      if s[i] == '0' then rest else [BlockAt(i, s[i])] + rest
  }


  /** The positions from `i` on whose digit is not '0', in increasing order. */
  function NonZeroPositions(s: seq<char>, i: nat): (pos: seq<nat>)
    requires i <= |s|
    ensures forall k :: 0 <= k < |pos| ==> i <= pos[k] < |s| && s[pos[k]] != '0'
    ensures forall k, l :: 0 <= k < l < |pos| ==> pos[k] < pos[l]
    ensures forall p :: i <= p < |s| && s[p] != '0' ==> p in pos
    decreases |s| - i
  {
    if i == |s| then []
    else
      var rest := NonZeroPositions(s, i + 1);
      if s[i] == '0' then rest else [i] + rest
  }

  /**
   * Block `k` of the parse comes from the `k`-th non-zero digit: a block as
   * long as the digit, of file `p / 2` at an even position `p` and free at
   * an odd one. Zero digits give no block.
   */
  lemma {:induction false} ParseFromBlocks(s: seq<char>, i: nat)
    requires i <= |s| && forall k :: 0 <= k < |s| ==> IsDigit(s[k])
    ensures BlocksMatch(s, i)
    decreases |s| - i
  {
    if i < |s| {
      ParseFromBlocks(s, i + 1);
      BlocksStep(s, i);
    }
  }

  /** Block `k` of the parse from `i` on comes from the `k`-th non-zero digit from there. */
  ghost predicate BlocksMatch(s: seq<char>, i: nat)
    requires i <= |s| && forall k :: 0 <= k < |s| ==> IsDigit(s[k])
  {
    |ParseFrom(s, i)| == |NonZeroPositions(s, i)|
    && forall k :: 0 <= k < |ParseFrom(s, i)| ==> ParseFrom(s, i)[k] == BlockAt(NonZeroPositions(s, i)[k], s[NonZeroPositions(s, i)[k]])
  }

  /** One more digit in front keeps the blocks matched with their positions. */
  lemma BlocksStep(s: seq<char>, i: nat)
    requires i < |s| && forall k :: 0 <= k < |s| ==> IsDigit(s[k])
    requires BlocksMatch(s, i + 1)
    ensures BlocksMatch(s, i)
  {
    var rest, restPos := ParseFrom(s, i + 1), NonZeroPositions(s, i + 1);
    if s[i] != '0' {
      assert ParseFrom(s, i) == [BlockAt(i, s[i])] + rest && NonZeroPositions(s, i) == [i] + restPos;
      BlocksCons(s, i, rest, restPos);
    } else {
      assert ParseFrom(s, i) == rest && NonZeroPositions(s, i) == restPos;
    }
  }

  /** A block for position `i` in front of blocks matching their positions still matches them. */
  lemma BlocksCons(s: seq<char>, i: nat, rest: seq<FileBlock>, restPos: seq<nat>)
    requires i < |s| && forall k :: 0 <= k < |s| ==> IsDigit(s[k])
    requires |rest| == |restPos| && forall k :: 0 <= k < |restPos| ==> restPos[k] < |s|
    requires forall k :: 0 <= k < |rest| ==> rest[k] == BlockAt(restPos[k], s[restPos[k]])
    ensures var r, pos := [BlockAt(i, s[i])] + rest, [i] + restPos;
      |r| == |pos| && forall k :: 0 <= k < |r| ==> r[k] == BlockAt(pos[k], s[pos[k]])
  {
    var r, pos := [BlockAt(i, s[i])] + rest, [i] + restPos;
    forall k | 0 <= k < |r| ensures r[k] == BlockAt(pos[k], s[pos[k]]) {
      if k > 0 {
        assert r[k] == rest[k - 1] && pos[k] == restPos[k - 1];
      }
    }
  }

  /**
   * Parses the disk map. A character that is not a digit panics the
   * source. Block `k` comes from the `k`-th non-zero digit, at position
   * `p`: it is as long as the digit, of file `p / 2` at an even position
   * and free at an odd one. Every block has length 1 to 9, and file
   * numbers strictly increase along the map.
   */
  function ParseInput(s: seq<char>): (r: seq<FileBlock>)
    requires forall k :: 0 <= k < |s| ==> IsDigit(s[k])
    ensures |r| == |NonZeroPositions(s, 0)|
    ensures forall k :: 0 <= k < |r| ==>
      var p := NonZeroPositions(s, 0)[k];
      r[k].count == s[p] as int - '0' as int && r[k].fileType == if p % 2 == 0 then Occupied(p / 2) else Free
    ensures forall b :: b in r ==> 1 <= b.count <= 9
    ensures forall k, l :: 0 <= k < l < |r| && r[k].fileType.Occupied? && r[l].fileType.Occupied? ==> r[k].fileType.id < r[l].fileType.id
  {
    ParseFromBlocks(s, 0);
    ParseFrom(s, 0)
  }

  /** The files of the parse are exactly those whose length digit, at position 2 * id, is not '0'. */
  lemma ParsedFiles(s: seq<char>, id: nat)
    requires forall k :: 0 <= k < |s| ==> IsDigit(s[k])
    ensures (exists k :: 0 <= k < |ParseInput(s)| && ParseInput(s)[k].fileType == Occupied(id)) <==> 2 * id < |s| && s[2 * id] != '0'
  {
    var r, pos := ParseInput(s), NonZeroPositions(s, 0);
    assert r == ParseFrom(s, 0);
    ParseFromBlocks(s, 0);
    FilePositions(r, pos, s, id);
  }

  /** The block/position correspondence of `ParseFromBlocks`, read for one file. */
  lemma FilePositions(r: seq<FileBlock>, pos: seq<nat>, s: seq<char>, id: nat)
    requires |r| == |pos|
    requires forall k :: 0 <= k < |s| ==> IsDigit(s[k])
    requires forall k :: 0 <= k < |pos| ==> pos[k] < |s| && s[pos[k]] != '0'
    requires forall p :: 0 <= p < |s| && s[p] != '0' ==> p in pos
    requires forall k :: 0 <= k < |r| ==> r[k] == BlockAt(pos[k], s[pos[k]])
    ensures (exists k :: 0 <= k < |r| && r[k].fileType == Occupied(id)) <==> 2 * id < |s| && s[2 * id] != '0'
  {
    if k :| 0 <= k < |r| && r[k].fileType == Occupied(id) {
      assert pos[k] == 2 * id;
    }
    if 2 * id < |s| && s[2 * id] != '0' {
      var k :| 0 <= k < |pos| && pos[k] == 2 * id;
      assert r[k].fileType == Occupied(id);
    }
  }

  /** Sum of the digits from position `i` on. */
  function DigitSum(s: seq<char>, i: nat): nat
    requires i <= |s| && forall k :: 0 <= k < |s| ==> IsDigit(s[k])
    decreases |s| - i
  {
    if i == |s| then 0 else (s[i] as int - '0' as int) + DigitSum(s, i + 1)
  }

  // ------------------------------------------------------------ raw disk

  function Repeat(t: FileType, n: nat): (r: seq<FileType>)
    ensures |r| == n && forall k :: 0 <= k < n ==> r[k] == t
  {
    if n == 0 then [] else [t] + Repeat(t, n - 1)
  }

  function TotalCount(blocks: seq<FileBlock>): nat
  {
    if blocks == [] then 0 else blocks[0].count + TotalCount(blocks[1..])
  }

  /** One cell per block unit, blocks expanded in order. */
  function ToRawDisk(blocks: seq<FileBlock>): (r: seq<FileType>)
    ensures |r| == TotalCount(blocks)
    ensures forall x :: x in r ==> exists b :: b in blocks && b.fileType == x && b.count > 0
  {
    if blocks == [] then []
    else
      var rest := ToRawDisk(blocks[1..]);
      assert forall b :: b in blocks[1..] ==> b in blocks;
      Repeat(blocks[0].fileType, blocks[0].count) + rest
  }

  /** Expanding concatenated block lists concatenates the expansions. */
  lemma {:induction false} ToRawDiskAppend(a: seq<FileBlock>, b: seq<FileBlock>)
    ensures ToRawDisk(a + b) == ToRawDisk(a) + ToRawDisk(b)
  {
    if a != [] {
      assert (a + b)[1..] == a[1..] + b;
      ToRawDiskAppend(a[1..], b);
    } else {
      assert a + b == b;
    }
  }

  /** The raw disk of a parsed map has one cell per unit of every digit. */
  lemma {:induction false} RawLengthIsDigitSum(s: seq<char>, i: nat)
    requires i <= |s| && forall k :: 0 <= k < |s| ==> IsDigit(s[k])
    ensures |ToRawDisk(ParseFrom(s, i))| == DigitSum(s, i)
    decreases |s| - i
  {
    if i < |s| {
      RawLengthIsDigitSum(s, i + 1);
      if s[i] != '0' {
        var rest := ParseFrom(s, i + 1);
        assert ([BlockAt(i, s[i])] + rest)[1..] == rest;
      }
    }
  }

  // ------------------------------------------------------------ checksum

  /** What the cell at `i` adds to the checksum. */
  function Weight(i: nat, t: FileType): nat
  {
    match t
    case Free => 0
    case Occupied(id) => id * i
  }

  /** Sum over positions of position times file number; free cells add nothing. */
  function CheckSum(disk: seq<FileType>): nat
  {
    if disk == [] then 0 else CheckSum(disk[..|disk| - 1]) + Weight(|disk| - 1, disk[|disk| - 1])
  }

  /** Rewriting one cell changes the checksum by exactly that cell's weights. */
  lemma {:induction false} CheckSumUpdate(disk: seq<FileType>, i: nat, t: FileType)
    requires i < |disk|
    ensures CheckSum(disk[i := t]) + Weight(i, disk[i]) == CheckSum(disk) + Weight(i, t)
  {
    var n := |disk| - 1;
    var d' := disk[i := t];
    if i < n {
      assert d'[..n] == disk[..n][i := t];
      CheckSumUpdate(disk[..n], i, t);
    } else {
      assert d'[..n] == disk[..n];
    }
  }

  /** Free cells at the end do not change the checksum. */
  lemma {:induction false} CheckSumTrailingFree(disk: seq<FileType>, k: nat)
    ensures CheckSum(disk + Repeat(Free, k)) == CheckSum(disk)
  {
    if k > 0 {
      var d := disk + Repeat(Free, k);
      assert d[..|d| - 1] == disk + Repeat(Free, k - 1);
      CheckSumTrailingFree(disk, k - 1);
    } else {
      assert disk + Repeat(Free, 0) == disk;
    }
  }

  // -------------------------------------------------- part 1: block moves

  /** No free cell precedes an occupied one. */
  ghost predicate Compacted(disk: seq<FileType>)
  {
    forall i, j :: 0 <= i < j < |disk| && disk[i] == Free ==> disk[j] == Free
  }

  /**
   * The disk after part 1's compaction, read from both ends: trailing free
   * cells stay where they are, a leading occupied cell stays in place, and
   * a leading free cell takes the last occupied cell, which becomes free.
   */
  function CompactRaw(s: seq<FileType>): (r: seq<FileType>)
    ensures |r| == |s|
  {
    if s == [] then []
    else if s[|s| - 1] == Free then CompactRaw(s[..|s| - 1]) + [Free]
    else if s[0].Occupied? then [s[0]] + CompactRaw(s[1..])
    else [s[|s| - 1]] + CompactRaw(s[1..|s| - 1]) + [Free]
  }

  /** A disk is its first cell, the cells between, and its last cell. */
  lemma SplitEnds(s: seq<FileType>)
    requires s != []
    ensures s == s[..|s| - 1] + [s[|s| - 1]] && s == [s[0]] + s[1..]
    ensures |s| >= 2 ==> s == [s[0]] + s[1..|s| - 1] + [s[|s| - 1]]
  {
  }

  /** Compaction only rearranges the cells. */
  lemma {:induction false} CompactRawMultiset(s: seq<FileType>)
    ensures multiset(CompactRaw(s)) == multiset(s)
  {
    if s != [] {
      var n := |s| - 1;
      SplitEnds(s);
      if s[n] == Free {
        CompactRawMultiset(s[..n]);
      } else if s[0].Occupied? {
        CompactRawMultiset(s[1..]);
      } else {
        CompactRawMultiset(s[1..n]);
      }
    }
  }

  /** After compaction no free cell precedes an occupied one. */
  lemma {:induction false} CompactRawCompacted(s: seq<FileType>)
    ensures Compacted(CompactRaw(s))
  {
    if s != [] {
      var n := |s| - 1;
      if s[n] == Free {
        var c := CompactRaw(s[..n]);
        CompactRawCompacted(s[..n]);
        CompactedAppendFree(c);
      } else if s[0].Occupied? {
        var c := CompactRaw(s[1..]);
        CompactRawCompacted(s[1..]);
        CompactedPrependOccupied(s[0], c);
      } else {
        var c := CompactRaw(s[1..n]);
        CompactRawCompacted(s[1..n]);
        CompactedAppendFree(c);
        CompactedPrependOccupied(s[n], c + [Free]);
        assert CompactRaw(s) == [s[n]] + (c + [Free]);
      }
    }
  }

  lemma CompactedAppendFree(c: seq<FileType>)
    requires Compacted(c)
    ensures Compacted(c + [Free])
  {
  }

  lemma CompactedPrependOccupied(x: FileType, c: seq<FileType>)
    requires x.Occupied? && Compacted(c)
    ensures Compacted([x] + c)
  {
    var r := [x] + c;
    forall i, j | 0 <= i < j < |r| && r[i] == Free ensures r[j] == Free {
      assert r[i] == c[i - 1] && r[j] == c[j - 1];
    }
  }

  /** Compaction moves the last file block into the gap and keeps the file block before it. */
  lemma CompactRawExample()
    ensures CompactRaw([Occupied(0), Free, Occupied(1), Occupied(2)])
      == [Occupied(0), Occupied(2), Occupied(1), Free]
  {
    var s := [Occupied(0), Free, Occupied(1), Occupied(2)];
    assert s[1..] == [Free, Occupied(1), Occupied(2)];
    assert s[1..][1..2] == [Occupied(1)];
    assert [Occupied(1)][1..] == [];
  }

  /**
   * Midway through the compaction of `orig`: the cells before `i` are final,
   * those from `i` to `l` are still to be compacted, and those after `l` are
   * final.
   */
  ghost predicate CompactsTo(orig: seq<FileType>, d: seq<FileType>, i: nat, l: nat)
    requires i <= l + 1 <= |d|
  {
    CompactRaw(orig) == d[..i] + CompactRaw(d[i..l + 1]) + d[l + 1..]
  }

  /** Before the scan, the whole disk is still to be compacted. */
  lemma CompactStart(d: seq<FileType>)
    requires |d| >= 1
    ensures CompactsTo(d, d, 0, |d| - 1)
  {
    assert d[..0] == [] && d[0..|d|] == d && d[|d|..] == [];
  }

  /** The loop's step over an occupied cell `d[i]`, with `d[l]` occupied. */
  lemma CompactKeepStep(orig: seq<FileType>, d: seq<FileType>, i: nat, l: nat)
    requires i < l < |d| && d[i].Occupied? && d[l].Occupied?
    requires CompactsTo(orig, d, i, l)
    ensures CompactsTo(orig, d, i + 1, l)
  {
    assert d[i..l + 1][1..] == d[i + 1..l + 1];
    assert d[..i + 1] == d[..i] + [d[i]];
  }

  /** The loop's swap of a free cell `d[i]` with the occupied cell `d[l]`. */
  lemma CompactSwapStep(orig: seq<FileType>, d: seq<FileType>, i: nat, l: nat)
    requires i < l < |d| && d[i] == Free && d[l].Occupied?
    requires CompactsTo(orig, d, i, l)
    ensures CompactsTo(orig, d[i := d[l]][l := d[i]], i + 1, l)
  {
    var e := d[i := d[l]][l := d[i]];
    var u := d[i + 1..l];
    SwapSlices(d, i, l);
    assert CompactRaw(d[i..l + 1]) == [d[l]] + CompactRaw(u) + [Free];
    assert CompactRaw(u + [Free]) == CompactRaw(u) + [Free];
  }

  /** How the slices of the compaction loop look around a swap of `d[i]` and `d[l]`. */
  lemma SwapSlices(d: seq<FileType>, i: nat, l: nat)
    requires i < l < |d|
    ensures var t := d[i..l + 1]; var e := d[i := d[l]][l := d[i]]; var u := d[i + 1..l];
      |t| >= 2 && t[0] == d[i] && t[|t| - 1] == d[l] && t[1..|t| - 1] == u
      && e[i + 1..l + 1] == u + [d[i]] && (u + [d[i]])[..|u|] == u && (u + [d[i]])[|u|] == d[i]
      && e[..i + 1] == d[..i] + [d[l]] && e[l + 1..] == d[l + 1..]
  {
    var t := d[i..l + 1];
    var u := d[i + 1..l];
    assert forall k :: i + 1 <= k < l ==> t[k - i] == d[k];
    assert t[1..|t| - 1] == u;
  }

  /** When the scan meets the last occupied cell, the disk is compacted. */
  lemma CompactDone(orig: seq<FileType>, d: seq<FileType>, i: nat, l: nat)
    requires l < |d| && l <= i <= l + 1
    requires CompactsTo(orig, d, i, l)
    ensures CompactRaw(orig) == d
  {
    if i == l {
      assert d[i..l + 1] == [d[l]] && [d[l]][1..] == [];
    } else {
      assert d[i..l + 1] == [];
    }
  }

  /** The scan for the last occupied cell passing over a free cell `d[l]`. */
  lemma CompactTrailStep(orig: seq<FileType>, d: seq<FileType>, i: nat, l: nat)
    requires i <= l < |d| && d[l] == Free && l >= 1
    requires CompactsTo(orig, d, i, l)
    ensures CompactsTo(orig, d, i, l - 1)
  {
    assert d[i..l + 1][..l - i] == d[i..l];
    assert d[l..] == [Free] + d[l + 1..];
  }

  method Swap(a: array<FileType>, i: nat, j: nat)
    requires i < a.Length && j < a.Length
    modifies a
    ensures a[..] == old(a[..])[i := old(a[j])][j := old(a[i])]
    ensures a[i] == old(a[j]) && a[j] == old(a[i])
    ensures forall k :: 0 <= k < a.Length && k != i && k != j ==> a[k] == old(a[k])
    ensures multiset(a[..]) == multiset(old(a[..]))
  {
    var tmp := a[i];
    a[i] := a[j];
    a[j] := tmp;
  }

  /**
   * Moves blocks one at a time from the last occupied cell into the first
   * free cell, until the two meet. The source's index `last_occupied`
   * would underflow on a disk with no occupied cell, so one is required.
   */
  /**
   * The scan of part 1's compaction for the last occupied cell at or
   * before `l`, over the free cells after it.
   */
  method SkipFree(disk: array<FileType>, i: nat, l: nat, ghost w: nat, ghost orig: seq<FileType>)
      returns (l': nat)
    requires w <= l < disk.Length && disk[w].Occupied? && i <= l + 1
    requires i == 0 || disk[i - 1].Occupied?
    requires CompactsTo(orig, disk[..], i, l)
    ensures w <= l' <= l && i <= l' + 1 && disk[l'].Occupied?
    ensures forall k :: l' < k <= l ==> disk[k] == Free
    ensures CompactsTo(orig, disk[..], i, l')
  {
    l' := l;
    while disk[l'] == Free
      invariant w <= l' <= l && i <= l' + 1
      invariant forall k :: l' < k <= l ==> disk[k] == Free
      invariant CompactsTo(orig, disk[..], i, l')
      decreases l'
    {
      CompactTrailStep(orig, disk[..], i, l');
      l' := l' - 1;
    }
  }

  method CompactRawDisk(disk: array<FileType>)
    requires exists k :: 0 <= k < disk.Length && disk[k].Occupied?
    modifies disk
    ensures disk[..] == CompactRaw(old(disk[..]))
    ensures multiset(disk[..]) == multiset(old(disk[..]))
    ensures Compacted(disk[..])
  {
    var lastOccupied := disk.Length - 1;
    CompactStart(disk[..]);
    // where the scan stopped, for the final step
    ghost var stop := disk.Length;
    // an occupied cell at or before `lastOccupied`, which stops the scan for it
    ghost var w :| 0 <= w < disk.Length && disk[w].Occupied?;
    for i := 0 to disk.Length
      invariant 0 <= lastOccupied < disk.Length
      invariant i == 0 || disk[i - 1].Occupied?
      invariant i <= lastOccupied + 1
      invariant w <= lastOccupied && disk[w].Occupied?
      invariant CompactsTo(old(disk[..]), disk[..], i, lastOccupied)
      invariant stop == disk.Length
    {
      lastOccupied := SkipFree(disk, i, lastOccupied, w, old(disk[..]));
      if i >= lastOccupied {
        stop := i;
        break;
      }
      if disk[i] == Free {
        CompactSwapStep(old(disk[..]), disk[..], i, lastOccupied);
        Swap(disk, i, lastOccupied);
        w := i;
      } else {
        CompactKeepStep(old(disk[..]), disk[..], i, lastOccupied);
      }
    }
    CompactDone(old(disk[..]), disk[..], stop, lastOccupied);
    CompactRawMultiset(old(disk[..]));
    CompactRawCompacted(old(disk[..]));
  }

  // ----------------------------------------------- part 2: file moves

  /** `s` after swapping, for `k` from 0 below `n`, the cells `trg + k` and `src + k`. */
  function SwapSteps(s: seq<FileType>, src: nat, trg: nat, n: nat): (r: seq<FileType>)
    requires src + n <= |s| && trg + n <= |s|
    ensures |r| == |s|
  {
    if n == 0 then s else Exchanged(SwapSteps(s, src, trg, n - 1), trg + n - 1, src + n - 1)
  }

  /** `t` with the cells at `a` and `b` exchanged. */
  function Exchanged(t: seq<FileType>, a: nat, b: nat): (r: seq<FileType>)
    requires a < |t| && b < |t|
    ensures |r| == |t|
  {
    t[a := t[b]][b := t[a]]
  }

  /** Exchanging two cells keeps the cells' multiset. */
  lemma ExchangedMultiset(t: seq<FileType>, a: nat, b: nat)
    requires a < |t| && b < |t|
    ensures multiset(Exchanged(t, a, b)) == multiset(t)
  {
    var u := t[a := t[b]];
    assert multiset(u) == multiset(t) - multiset{t[a]} + multiset{t[b]};
    assert multiset(u[b := t[a]]) == multiset(u) - multiset{u[b]} + multiset{t[a]};
  }

  /** On disjoint ranges the swaps exchange the two ranges and touch nothing else. */
  lemma {:induction false} SwapStepsExchange(s: seq<FileType>, src: nat, trg: nat, n: nat)
    requires src + n <= |s| && trg + n <= |s| && (trg + n <= src || src + n <= trg)
    ensures var r := SwapSteps(s, src, trg, n);
      (forall k :: trg <= k < trg + n ==> r[k] == s[src + (k - trg)])
      && (forall k :: src <= k < src + n ==> r[k] == s[trg + (k - src)])
      && (forall k :: 0 <= k < |s| && !(trg <= k < trg + n) && !(src <= k < src + n) ==> r[k] == s[k])
  {
    if n > 0 {
      SwapStepsExchange(s, src, trg, n - 1);
      var t := SwapSteps(s, src, trg, n - 1);
      assert t[trg + n - 1] == s[trg + n - 1] && t[src + n - 1] == s[src + n - 1];
    }
  }

  /** Swaps the `len` cells from `srcStart` with the `len` cells from `targetStart`, one pair at a time. */
  method SwapChunk(arr: array<FileType>, srcStart: nat, targetStart: nat, len: nat)
    requires srcStart + len <= arr.Length && targetStart + len <= arr.Length
    modifies arr
    ensures arr[..] == SwapSteps(old(arr[..]), srcStart, targetStart, len)
    ensures multiset(arr[..]) == multiset(old(arr[..]))
  {
    for ix := 0 to len
      invariant arr[..] == SwapSteps(old(arr[..]), srcStart, targetStart, ix)
      invariant multiset(arr[..]) == multiset(old(arr[..]))
    {
      ghost var prev := arr[..];
      var tmp := arr[targetStart + ix];
      arr[targetStart + ix] := arr[srcStart + ix];
      arr[srcStart + ix] := tmp;
      assert arr[..] == Exchanged(prev, targetStart + ix, srcStart + ix);
      ChunkStep(old(arr[..]), prev, arr[..], srcStart, targetStart, ix);
    }
  }

  /** One more swap extends `SwapSteps` by one step and keeps the multiset. */
  lemma ChunkStep(orig: seq<FileType>, prev: seq<FileType>, next: seq<FileType>, src: nat, trg: nat, ix: nat)
    requires src + ix < |orig| && trg + ix < |orig|
    requires prev == SwapSteps(orig, src, trg, ix) && multiset(prev) == multiset(orig)
    requires next == Exchanged(prev, trg + ix, src + ix)
    ensures next == SwapSteps(orig, src, trg, ix + 1) && multiset(next) == multiset(orig)
  {
    ExchangedMultiset(prev, trg + ix, src + ix);
  }

  /** The first index of the run of cells equal to `disk[end]` that ends at `end`. */
  method FindChunkStart(disk: array<FileType>, end: nat) returns (start: nat)
    requires end < disk.Length
    ensures start <= end
    ensures forall k :: start <= k <= end ==> disk[k] == disk[end]
    ensures start == 0 || disk[start - 1] != disk[end]
  {
    start := end;
    while start >= 1 && disk[start - 1] == disk[end]
      invariant start <= end
      invariant forall k :: start <= k <= end ==> disk[k] == disk[end]
    {
      start := start - 1;
    }
  }

  /** The last index of the run of cells equal to `disk[start]` that begins at `start`. */
  method FindChunkEnd(disk: array<FileType>, start: nat) returns (end: nat)
    requires start < disk.Length
    ensures start <= end < disk.Length
    ensures forall k :: start <= k <= end ==> disk[k] == disk[start]
    ensures end == disk.Length - 1 || disk[end + 1] != disk[start]
  {
    end := start;
    while end < disk.Length - 1 && disk[end + 1] == disk[start]
      invariant start <= end < disk.Length
      invariant forall k :: start <= k <= end ==> disk[k] == disk[start]
    {
      end := end + 1;
    }
  }

  /** The cells `t .. t + len` are all free. */
  ghost predicate FreeSpan(s: seq<FileType>, t: nat, len: nat)
  {
    t + len <= |s| && forall k :: t <= k < t + len ==> s[k] == Free
  }

  /** `after` is `before` with the `len` cells from `start` exchanged with a free span wholly to their left. */
  ghost predicate MovedLeft(before: seq<FileType>, after: seq<FileType>, start: nat, len: nat)
  {
    start + len <= |before| && exists t: nat :: t + len <= start && FreeSpan(before, t, len) && after == SwapSteps(before, start, t, len)
  }

  /**
   * One file's turn: scan the runs from the left, up to the file, and swap
   * the file with the start of the first free run at least as long. The
   * disk is either unchanged or the file has been exchanged with a free
   * span that lies wholly to its left.
   */
  method MoveFile(disk: array<FileType>, chunkStart: nat, chunkEnd: nat)
    requires chunkStart <= chunkEnd < disk.Length && disk[chunkEnd] != Free
    requires forall k :: chunkStart <= k <= chunkEnd ==> disk[k] == disk[chunkEnd]
    modifies disk
    ensures multiset(disk[..]) == multiset(old(disk[..]))
    ensures disk[..] == old(disk[..]) || MovedLeft(old(disk[..]), disk[..], chunkStart, chunkEnd - chunkStart + 1)
  {
    var len := chunkEnd - chunkStart + 1;
    var trgStart := 0;
    while trgStart < chunkStart
      invariant disk[..] == old(disk[..])
      decreases chunkStart - trgStart
    {
      var trgEnd := FindChunkEnd(disk, trgStart);
      if disk[trgStart] == Free && trgEnd - trgStart >= chunkEnd - chunkStart {
        assert disk[chunkStart] != Free;
        assert trgEnd < chunkStart;
        assert FreeSpan(disk[..], trgStart, len);
        SwapChunk(disk, chunkStart, trgStart, len);
        assert trgStart + len <= chunkStart && FreeSpan(old(disk[..]), trgStart, len)
          && disk[..] == SwapSteps(old(disk[..]), chunkStart, trgStart, len);
        return;
      } else {
        trgStart := trgEnd + 1;
      }
    }
  }

  /**
   * Part 2: walks the runs of the disk from the right, giving every file
   * run its turn to move left. The cells' multiset is preserved.
   */
  method CompactWholeFiles(disk: array<FileType>)
    requires disk.Length >= 1
    modifies disk
    ensures multiset(disk[..]) == multiset(old(disk[..]))
  {
    var ix := disk.Length - 1;
    while true
      invariant 0 <= ix < disk.Length
      invariant multiset(disk[..]) == multiset(old(disk[..]))
      decreases ix
    {
      var chunkEnd := ix;
      var chunkStart := FindChunkStart(disk, chunkEnd);
      if disk[chunkEnd] != Free {
        MoveFile(disk, chunkStart, chunkEnd);
      }
      if chunkStart == 0 {
        break;
      } else {
        ix := chunkStart - 1;
      }
    }
  }
}
