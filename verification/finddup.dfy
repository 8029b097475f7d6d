/** The in-memory core of finddup/src/finddup.c: the sort comparator `comp1`, the
    flag macros, `str_to_int`, and the two grouping passes of `scan2` over the
    sorted file list. Reading file names, `lstat`, CRCs and printing are not
    modelled; the full content comparison `fullcmp` is a parameter `same`. */
module FindDup {

  import opened CString
  import Decimal

  /** One entry of `filelist`. The integer fields are unbounded: only the
      truncation of their differences to `int` in `comp1` depends on their width. */
  datatype FileDesc = FileDesc(length: int, crc32: nat, device: nat, inode: nat,
                               nameloc: int, flags: bv8)

  /** The bits of `flags`. */
  const FlagCrc: bv8 := 0x01
  const FlagDup: bv8 := 0x02
  const FlagLink: bv8 := 0x04

  /** `GetFlag`: is any bit of mask `f` set? */
  predicate GetFlag(e: FileDesc, f: bv8) {
    e.flags & f != 0
  }

  /** `SetFlag` assigns the flags byte: the bits set before are lost. */
  function SetFlag(e: FileDesc, f: bv8): (r: FileDesc)
    ensures forall g: bv8 :: GetFlag(r, g) <==> f & g != 0
    ensures r.(flags := e.flags) == e
  {
    e.(flags := f)
  }

  /** Marking an entry a duplicate clears its link mark. */
  lemma DupMarkClearsLink(e: FileDesc)
    ensures GetFlag(SetFlag(e, FlagDup), FlagDup)
    ensures !GetFlag(SetFlag(e, FlagDup), FlagLink)
    ensures !GetFlag(SetFlag(e, FlagDup), FlagCrc)
  {
  }

  // ---------------------------------------------------------------- comp1

  const TwoTo31: int := 0x8000_0000
  const TwoTo32: int := 0x1_0000_0000

  /** Conversion of a wider integer to a 32-bit `int`: the low 32 bits, read as
      two's complement. */
  function ToInt32(x: int): (r: int)
    ensures -TwoTo31 <= r < TwoTo31
    ensures (x - r) % TwoTo32 == 0
  {
    var m := x % TwoTo32;
    if m >= TwoTo31 then m - TwoTo32 else m
  }

  /** The 32-bit truncation is the identity on values that fit. */
  lemma ToInt32Small(x: int)
    requires -TwoTo31 <= x < TwoTo31
    ensures ToInt32(x) == x
  {
  }

  /** `comp1`: the first difference of length, crc32, device and inode that is
      non-zero after truncation to `int`. */
  function Comp1(a: FileDesc, b: FileDesc): (r: int)
    ensures -TwoTo31 <= r < TwoTo31
    ensures r == 0 <==>
              && (a.length - b.length) % TwoTo32 == 0
              && (a.crc32 - b.crc32) % TwoTo32 == 0
              && (a.device - b.device) % TwoTo32 == 0
              && (a.inode - b.inode) % TwoTo32 == 0
    // the first field whose difference survives the truncation decides
    ensures (a.length - b.length) % TwoTo32 != 0 ==> r == ToInt32(a.length - b.length)
    ensures && (a.length - b.length) % TwoTo32 == 0
            && (a.crc32 - b.crc32) % TwoTo32 != 0
            ==> r == ToInt32(a.crc32 - b.crc32)
    ensures && (a.length - b.length) % TwoTo32 == 0
            && (a.crc32 - b.crc32) % TwoTo32 == 0
            && (a.device - b.device) % TwoTo32 != 0
            ==> r == ToInt32(a.device - b.device)
    ensures && (a.length - b.length) % TwoTo32 == 0
            && (a.crc32 - b.crc32) % TwoTo32 == 0
            && (a.device - b.device) % TwoTo32 == 0
            ==> r == ToInt32(a.inode - b.inode)
  {
    var r1 := ToInt32(a.length - b.length);
    if r1 != 0 then r1
    else
      var r2 := ToInt32(a.crc32 - b.crc32);
      if r2 != 0 then r2
      else
        var r3 := ToInt32(a.device - b.device);
        if r3 != 0 then r3
        else ToInt32(a.inode - b.inode)
  }

  /** The four differences `comp1` looks at, in order. */
  function Diffs(a: FileDesc, b: FileDesc): seq<int> {
    [a.length - b.length, a.crc32 - b.crc32, a.device - b.device, a.inode - b.inode]
  }

  /** The sort key: entries with equal keys compare equal. */
  predicate SameKey(a: FileDesc, b: FileDesc) {
    a.length == b.length && a.crc32 == b.crc32 && a.device == b.device && a.inode == b.inode
  }

  /** `comp1` is not a consistent order: with CRCs 0, 0x7fffffff and 0xfffffffe
      (everything else equal) a < b and b < c, yet c < a, because the difference
      of two CRCs does not fit in an `int`. `qsort` with such a comparator need
      not bring equal keys together. */
  lemma Comp1NotTransitive()
    ensures var a := FileDesc(0, 0, 0, 0, 0, 0);
            var b := FileDesc(0, 0x7fff_ffff, 0, 0, 0, 0);
            var c := FileDesc(0, 0xffff_fffe, 0, 0, 0, 0);
            Comp1(a, b) < 0 && Comp1(b, c) < 0 && Comp1(a, c) > 0
  {
    assert ToInt32(0) == 0;
    assert ToInt32(-0x7fff_ffff) == -0x7fff_ffff;
    assert ToInt32(-0xffff_fffe) == 2;
  }

  /** Three-way comparison of two integers, by sign rather than by difference. */
  function Compare(x: int, y: int): (r: int)
    ensures r == -1 || r == 0 || r == 1
    ensures r < 0 <==> x < y
    ensures r == 0 <==> x == y
  {
    if x < y then -1 else if x > y then 1 else 0
  }

  /** The comparator `comp1` is evidently meant to be: lexicographic on length,
      crc32, device and inode. */
  function KeyCompare(a: FileDesc, b: FileDesc): (r: int)
    ensures r == -1 || r == 0 || r == 1
    ensures r == 0 <==> SameKey(a, b)
  {
    var c1 := Compare(a.length, b.length);
    if c1 != 0 then c1
    else
      var c2 := Compare(a.crc32, b.crc32);
      if c2 != 0 then c2
      else
        var c3 := Compare(a.device, b.device);
        if c3 != 0 then c3
        else Compare(a.inode, b.inode)
  }

  lemma KeyCompareAntisymmetric(a: FileDesc, b: FileDesc)
    ensures KeyCompare(a, b) == -KeyCompare(b, a)
  {
  }

  /** Unlike `comp1`, the corrected comparator is a total preorder: `qsort` may
      rely on it. */
  lemma KeyCompareTransitive(a: FileDesc, b: FileDesc, c: FileDesc)
    requires KeyCompare(a, b) <= 0 && KeyCompare(b, c) <= 0
    ensures KeyCompare(a, c) <= 0
    ensures KeyCompare(a, c) == 0 ==> KeyCompare(a, b) == 0 && KeyCompare(b, c) == 0
  {
  }

  /** When every difference fits in an `int`, `comp1` orders as intended. */
  lemma Comp1AgreesWhenSmall(a: FileDesc, b: FileDesc)
    requires forall k :: 0 <= k < 4 ==> -TwoTo31 <= Diffs(a, b)[k] < TwoTo31
    ensures Compare(Comp1(a, b), 0) == KeyCompare(a, b)
  {
    var d := Diffs(a, b);
    ToInt32Small(d[0]);
    ToInt32Small(d[1]);
    ToInt32Small(d[2]);
    ToInt32Small(d[3]);
  }

  // ---------------------------------------------------------------- str_to_int

  /** `str_to_int` of finddup.c: the decimal value of a string of digits, -1 as soon
      as any character is not a digit. No sign is accepted; "" converts to 0. */
  function StrToInt(str: CStr): (r: int)
    ensures Decimal.AllDigits(str) ==> r == Decimal.Value(str)
    ensures !Decimal.AllDigits(str) ==> r == -1
  {
    match Decimal.ParseDigits(str, 0)
    case None => -1
    case Some(num) => num
  }

  /** The decimal text of every natural number converts back to it. */
  lemma StrToIntDigits(n: nat)
    ensures StrToInt(Decimal.Digits(n)) == n
  {
    Decimal.DigitsValue(n);
  }

  // ---------------------------------------------------------------- scan2, link pass

  /** Two entries for the same inode on the same device: hard links. */
  predicate SameNode(a: FileDesc, b: FileDesc) {
    a.device == b.device && a.inode == b.inode
  }

  /** Reference for the link pass: an entry is marked a link exactly when it names
      the same node as the entry before it. */
  function LinkMarked(list: seq<FileDesc>, j: nat): FileDesc
    requires j < |list|
  {
    if j > 0 && SameNode(list[j - 1], list[j]) then SetFlag(list[j], FlagLink) else list[j]
  }

  /** The first loop of `scan2`: each entry `ix` heads the run of following entries
      on the same node, which are all marked `FlagLink`; the scan resumes after the
      run. */
  method LinkPass(list: seq<FileDesc>) returns (a: seq<FileDesc>)
    ensures |a| == |list|
    ensures forall j :: 0 <= j < |list| ==> a[j] == LinkMarked(list, j)
  {
    a := list;
    var ix := 0;
    while ix < |list|
      invariant 0 <= ix <= |list| && |a| == |list|
      invariant 0 < ix < |list| ==> !SameNode(list[ix - 1], list[ix])
      invariant forall j :: 0 <= j < ix ==> a[j] == LinkMarked(list, j)
      invariant forall j :: ix <= j < |list| ==> a[j] == list[j]
    {
      var ix2 := ix + 1;
      while ix2 < |list| && SameNode(list[ix], list[ix2])
        invariant ix < ix2 <= |list| && |a| == |list|
        invariant forall j :: ix < j < ix2 ==> SameNode(list[ix], list[j])
        invariant forall j :: 0 <= j <= ix ==> a[j] == LinkMarked(list, j)
        invariant forall j :: ix < j < ix2 ==> a[j] == LinkMarked(list, j)
        invariant forall j :: ix2 <= j < |list| ==> a[j] == list[j]
      {
        a := a[ix2 := SetFlag(a[ix2], FlagLink)];
        ix2 := ix2 + 1;
      }
      ix := ix2;
    }
  }

  // ---------------------------------------------------------------- scan2, dup pass

  /** Reference for the move: entry `ix2` taken out and put back at `lastix`, the
      entries `lastix .. ix2-1` one place later. */
  function Moved(a: seq<FileDesc>, lastix: nat, ix2: nat): (r: seq<FileDesc>)
    requires lastix <= ix2 < |a|
    ensures |r| == |a|
    ensures forall k :: 0 <= k < |a| ==>
              r[k] == (if k < lastix then a[k] else if k == lastix then a[ix2]
                       else if k <= ix2 then a[k - 1] else a[k])
  {
    a[..lastix] + [a[ix2]] + a[lastix..ix2] + a[ix2 + 1..]
  }

  /** The move loses and duplicates no entry. */
  lemma MovedPermutes(a: seq<FileDesc>, lastix: nat, ix2: nat)
    requires lastix <= ix2 < |a|
    ensures multiset(Moved(a, lastix, ix2)) == multiset(a)
  {
    assert a == a[..lastix] + a[lastix..ix2] + [a[ix2]] + a[ix2 + 1..];
  }

  /** The move as `scan2` performs it: save entry `ix2`, shift down from `ix2` to
      `lastix + 1`, store the saved entry at `lastix`. */
  method MoveDown(a: seq<FileDesc>, lastix: nat, ix2: nat) returns (r: seq<FileDesc>)
    requires lastix <= ix2 < |a|
    ensures r == Moved(a, lastix, ix2)
    ensures multiset(r) == multiset(a)
  {
    var saved := a[ix2];
    r := a;
    var n1 := ix2;
    while n1 > lastix
      invariant lastix <= n1 <= ix2 && |r| == |a|
      invariant forall k :: 0 <= k <= n1 ==> r[k] == a[k]
      invariant forall k :: n1 < k <= ix2 ==> r[k] == a[k - 1]
      invariant forall k :: ix2 < k < |a| ==> r[k] == a[k]
    {
      r := r[n1 := r[n1 - 1]];
      n1 := n1 - 1;
    }
    r := r[lastix := saved];
    assert r == Moved(a, lastix, ix2);
    MovedPermutes(a, lastix, ix2);
  }

  /** Length and CRC agree: the inner loop's condition for comparing at all. */
  predicate SameContentKey(a: FileDesc, b: FileDesc) {
    a.length == b.length && a.crc32 == b.crc32
  }

  /** The state the inner loop of the dup pass carries from one entry to the next. */
  datatype Step = Step(list: seq<FileDesc>, lastix: nat, lnkmatch: bool)

  /** The body of the inner loop of the dup pass for head `ix`, at entry `ix2`. The
      entry is a duplicate when it is a link following a matched entry, or when
      `same` (the content comparison) says so: it is then marked `FlagDup` and moved
      down to `lastix`. With `intended` false this is the code as written: `lastix`
      is only advanced when the entry had to move, so a duplicate found in place at
      `lastix` is not counted. With `intended` true `lastix` is advanced for every
      duplicate. */
  function DupStep(a: seq<FileDesc>, ix: nat, ix2: nat, lastix: nat, lnkmatch: bool,
                   same: (FileDesc, FileDesc) -> bool, intended: bool): (r: Step)
    requires ix < lastix <= ix2 < |a|
    ensures |r.list| == |a| && lastix <= r.lastix <= ix2 + 1 && r.lastix <= lastix + 1
    ensures r.list[..ix + 1] == a[..ix + 1] && r.list[ix2 + 1..] == a[ix2 + 1..]
    ensures var matched := (GetFlag(a[ix2], FlagLink) && lnkmatch) || same(a[ix], a[ix2]);
            && r.lnkmatch == matched
            // a match is marked and ends up at `lastix`
            && (matched ==> && r.list[lastix] == SetFlag(a[ix2], FlagDup)
                            && r.lastix == (if lastix != ix2 || intended then lastix + 1 else lastix))
            // anything else leaves the list and `lastix` alone
            && (!matched ==> r.list == a && r.lastix == lastix)
  {
    if (GetFlag(a[ix2], FlagLink) && lnkmatch) || same(a[ix], a[ix2]) then
      var b := a[ix2 := SetFlag(a[ix2], FlagDup)];
      if lastix != ix2 then
        var m := Moved(b, lastix, ix2);
        assert m[..ix + 1] == a[..ix + 1];
        assert m[ix2 + 1..] == a[ix2 + 1..];
        Step(m, lastix + 1, true)
      else Step(b, if intended then lastix + 1 else lastix, true)
    else Step(a, lastix, false)
  }

  /** The state of the dup pass when a head is done: the list and `lastix`. */
  datatype Scan = Scan(list: seq<FileDesc>, lastix: nat)

  /** The inner loop of the dup pass for head `ix`, from `ix2` on, while the entries
      have the head's length and CRC. */
  function DupFrom(a: seq<FileDesc>, ix: nat, ix2: nat, lastix: nat, lnkmatch: bool,
                   same: (FileDesc, FileDesc) -> bool, intended: bool): (r: Scan)
    requires ix < lastix <= ix2 <= |a|
    ensures |r.list| == |a| && ix < r.lastix <= |a|
    ensures r.list[..ix + 1] == a[..ix + 1]
    decreases |a| - ix2
  {
    if ix2 == |a| || !SameContentKey(a[ix], a[ix2]) then Scan(a, lastix)
    else
      var next := DupStep(a, ix, ix2, lastix, lnkmatch, same, intended);
      assert next.list[ix] == a[ix] by {
        assert next.list[..ix + 1][ix] == a[..ix + 1][ix];
      }
      DupFrom(next.list, ix, ix2 + 1, next.lastix, next.lnkmatch, same, intended)
  }

  /** The entries with their flags cleared. */
  function Stripped(a: seq<FileDesc>): (r: seq<FileDesc>)
    ensures |r| == |a|
  {
    seq(|a|, k requires 0 <= k < |a| => a[k].(flags := 0))
  }

  /** The entries of a list regardless of order and flags. */
  function Contents(a: seq<FileDesc>): multiset<FileDesc> {
    multiset(Stripped(a))
  }

  lemma StrippedMoved(a: seq<FileDesc>, lastix: nat, ix2: nat)
    requires lastix <= ix2 < |a|
    ensures Contents(Moved(a, lastix, ix2)) == Contents(a)
  {
    assert Stripped(Moved(a, lastix, ix2)) == Moved(Stripped(a), lastix, ix2);
    MovedPermutes(Stripped(a), lastix, ix2);
  }

  lemma StrippedSetFlag(a: seq<FileDesc>, k: nat, f: bv8)
    requires k < |a|
    ensures Stripped(a[k := SetFlag(a[k], f)]) == Stripped(a)
  {
    var b := a[k := SetFlag(a[k], f)];
    forall j | 0 <= j < |a| ensures Stripped(b)[j] == Stripped(a)[j] {
    }
  }

  /** One step of the dup pass only reorders entries and changes flags. */
  lemma DupStepPermutes(a: seq<FileDesc>, ix: nat, ix2: nat, lastix: nat, lnkmatch: bool,
                        same: (FileDesc, FileDesc) -> bool, intended: bool)
    requires ix < lastix <= ix2 < |a|
    ensures Contents(DupStep(a, ix, ix2, lastix, lnkmatch, same, intended).list) == Contents(a)
  {
    if (GetFlag(a[ix2], FlagLink) && lnkmatch) || same(a[ix], a[ix2]) {
      StrippedSetFlag(a, ix2, FlagDup);
      if lastix != ix2 {
        StrippedMoved(a[ix2 := SetFlag(a[ix2], FlagDup)], lastix, ix2);
      }
    }
  }

  /** Both as written and corrected, the dup pass only reorders entries and changes
      flags: no entry is lost or duplicated. */
  lemma {:induction false} DupFromPermutes(a: seq<FileDesc>, ix: nat, ix2: nat, lastix: nat, lnkmatch: bool,
                                           same: (FileDesc, FileDesc) -> bool, intended: bool)
    requires ix < lastix <= ix2 <= |a|
    ensures Contents(DupFrom(a, ix, ix2, lastix, lnkmatch, same, intended).list) == Contents(a)
    decreases |a| - ix2
  {
    if ix2 < |a| && SameContentKey(a[ix], a[ix2]) {
      var next := DupStep(a, ix, ix2, lastix, lnkmatch, same, intended);
      DupStepPermutes(a, ix, ix2, lastix, lnkmatch, same, intended);
      assert next.list[ix] == a[ix] by {
        assert next.list[..ix + 1][ix] == a[..ix + 1][ix];
      }
      DupFromPermutes(next.list, ix, ix2 + 1, next.lastix, next.lnkmatch, same, intended);
    }
  }

  /** After head `ix`'s pass, the duplicates of `ix` are exactly the entries
      `ix+1 .. lastix-1`, and all of them have the head's length and CRC. */
  predicate Grouped(a: seq<FileDesc>, head: FileDesc, ix: nat, lastix: nat)
    requires ix < |a|
  {
    && (forall k :: ix < k < |a| ==> (GetFlag(a[k], FlagDup) <==> k < lastix))
    && (forall k :: ix < k < lastix && k < |a| ==> SameContentKey(a[k], head))
  }

  /** One duplicate found at `ix2` and moved down to `lastix` extends the group. */
  lemma GroupedAfterMove(a: seq<FileDesc>, ix: nat, ix2: nat, lastix: nat)
    requires ix < lastix <= ix2 < |a| && SameContentKey(a[ix], a[ix2])
    requires Grouped(a, a[ix], ix, lastix)
    ensures Grouped(Moved(a[ix2 := SetFlag(a[ix2], FlagDup)], lastix, ix2), a[ix], ix, lastix + 1)
  {
    var m := Moved(a[ix2 := SetFlag(a[ix2], FlagDup)], lastix, ix2);
    forall k | ix < k < |m|
      ensures GetFlag(m[k], FlagDup) <==> k < lastix + 1
    {
      if k == lastix {
        assert m[k] == SetFlag(a[ix2], FlagDup);
      } else if lastix < k <= ix2 {
        assert m[k] == a[k - 1];
      } else {
        assert m[k] == a[k];
      }
    }
    assert m[lastix] == SetFlag(a[ix2], FlagDup);
  }

  /** The corrected loop body keeps the group contiguous. */
  lemma DupStepGroups(a: seq<FileDesc>, ix: nat, ix2: nat, lastix: nat, lnkmatch: bool,
                      same: (FileDesc, FileDesc) -> bool)
    requires ix < lastix <= ix2 < |a| && SameContentKey(a[ix], a[ix2])
    requires Grouped(a, a[ix], ix, lastix)
    ensures Grouped(DupStep(a, ix, ix2, lastix, lnkmatch, same, true).list, a[ix], ix,
                    DupStep(a, ix, ix2, lastix, lnkmatch, same, true).lastix)
  {
    if (GetFlag(a[ix2], FlagLink) && lnkmatch) || same(a[ix], a[ix2]) {
      if lastix != ix2 {
        GroupedAfterMove(a, ix, ix2, lastix);
      } else {
        var b := a[ix2 := SetFlag(a[ix2], FlagDup)];
        assert Grouped(b, a[ix], ix, lastix + 1);
      }
    }
  }

  lemma {:induction false} DupFromGroups(a: seq<FileDesc>, ix: nat, ix2: nat, lastix: nat, lnkmatch: bool,
                                         same: (FileDesc, FileDesc) -> bool)
    requires ix < lastix <= ix2 <= |a|
    requires Grouped(a, a[ix], ix, lastix)
    ensures Grouped(DupFrom(a, ix, ix2, lastix, lnkmatch, same, true).list, a[ix], ix,
                    DupFrom(a, ix, ix2, lastix, lnkmatch, same, true).lastix)
    decreases |a| - ix2
  {
    if ix2 < |a| && SameContentKey(a[ix], a[ix2]) {
      var next := DupStep(a, ix, ix2, lastix, lnkmatch, same, true);
      DupStepGroups(a, ix, ix2, lastix, lnkmatch, same);
      assert next.list[ix] == a[ix] by {
        assert next.list[..ix + 1][ix] == a[..ix + 1][ix];
      }
      DupFromGroups(next.list, ix, ix2 + 1, next.lastix, next.lnkmatch, same);
    }
  }

  /** No entry after `ix` is marked a duplicate yet: the state in which `scan2`
      meets each head (only `FlagCrc` and `FlagLink` are set before it). */
  predicate Unmarked(a: seq<FileDesc>, ix: nat) {
    forall k :: ix < k < |a| ==> !GetFlag(a[k], FlagDup)
  }

  /** Corrected dup pass for head `ix`: its duplicates end up contiguous right after
      it, and `lastix` is the first entry after them. */
  lemma DupGroupIntended(a: seq<FileDesc>, ix: nat, same: (FileDesc, FileDesc) -> bool)
    requires ix + 1 <= |a| && Unmarked(a, ix)
    ensures Grouped(DupFrom(a, ix, ix + 1, ix + 1, true, same, true).list, a[ix], ix,
                    DupFrom(a, ix, ix + 1, ix + 1, true, same, true).lastix)
  {
    DupFromGroups(a, ix, ix + 1, ix + 1, true, same);
  }

  /** As written, three entries that are all duplicates of each other leave two
      marked duplicates but `lastix` 2: the duplicate at index 2 lies outside the
      group, and the outer loop resumes at it as if it were a new head. */
  lemma DupGroupAsWrittenSplits(e: FileDesc, same: (FileDesc, FileDesc) -> bool)
    requires same(e, e)
    ensures DupFrom([e, e, e], 0, 1, 1, true, same, false).lastix == 2
    ensures GetFlag(DupFrom([e, e, e], 0, 1, 1, true, same, false).list[2], FlagDup)
    ensures !Grouped(DupFrom([e, e, e], 0, 1, 1, true, same, false).list, e, 0, 2)
    ensures DupFrom([e, e, e], 0, 1, 1, true, same, true).lastix == 3
  {
    var d := SetFlag(e, FlagDup);
    assert [e, e, e][1 := d] == [e, d, e];
    assert [e, d, e][2 := d] == [e, d, d];
    assert Moved([e, d, d], 1, 2) == [e, d, d];
    assert DupStep([e, e, e], 0, 1, 1, true, same, false) == Step([e, d, e], 1, true);
    assert DupStep([e, d, e], 0, 2, 1, true, same, false) == Step([e, d, d], 2, true);
    assert DupFrom([e, d, d], 0, 3, 2, true, same, false) == Scan([e, d, d], 2);
    assert DupFrom([e, d, e], 0, 2, 1, true, same, false) == Scan([e, d, d], 2);
    assert DupStep([e, e, e], 0, 1, 1, true, same, true) == Step([e, d, e], 2, true);
    assert DupStep([e, d, e], 0, 2, 2, true, same, true) == Step([e, d, d], 3, true);
    assert DupFrom([e, d, d], 0, 3, 3, true, same, true) == Scan([e, d, d], 3);
    assert DupFrom([e, d, e], 0, 2, 2, true, same, true) == Scan([e, d, d], 3);
  }

  // ---------------------------------------------------------------- which entries are duplicates

  /** Reference for the entries the inner loop takes for duplicates of head `ix`:
      those the content comparison matches with the head, and links that follow the
      head or a matched entry directly. */
  predicate Matches(a: seq<FileDesc>, ix: nat, j: nat, same: (FileDesc, FileDesc) -> bool)
    requires ix < j < |a|
    decreases j
  {
    || same(a[ix], a[j])
    || (GetFlag(a[j], FlagLink) && (j == ix + 1 || Matches(a, ix, j - 1, same)))
  }

  /** The matched entries among `ix+1 .. j-1`, in order, marked `FlagDup`. */
  function Dups(a: seq<FileDesc>, ix: nat, j: nat, same: (FileDesc, FileDesc) -> bool): seq<FileDesc>
    requires ix < j <= |a|
    decreases j
  {
    if j == ix + 1 then []
    else Dups(a, ix, j - 1, same)
         + (if Matches(a, ix, j - 1, same) then [SetFlag(a[j - 1], FlagDup)] else [])
  }

  /** The unmatched entries among `ix+1 .. j-1`, in order and unchanged. */
  function Others(a: seq<FileDesc>, ix: nat, j: nat, same: (FileDesc, FileDesc) -> bool): seq<FileDesc>
    requires ix < j <= |a|
    decreases j
  {
    if j == ix + 1 then []
    else Others(a, ix, j - 1, same) + (if Matches(a, ix, j - 1, same) then [] else [a[j - 1]])
  }

  /** The end of the entries from `j` on that share the head's length and CRC: the
      window the inner loop walks. */
  function WindowEnd(a: seq<FileDesc>, ix: nat, j: nat): (r: nat)
    requires ix < |a| && j <= |a|
    ensures j <= r <= |a|
    ensures forall k :: j <= k < r ==> SameContentKey(a[ix], a[k])
    ensures r < |a| ==> !SameContentKey(a[ix], a[r])
    decreases |a| - j
  {
    if j == |a| || !SameContentKey(a[ix], a[j]) then j else WindowEnd(a, ix, j + 1)
  }

  /** Every entry of the window so far is either matched or not. */
  lemma {:induction false} DupsCount(a: seq<FileDesc>, ix: nat, j: nat, same: (FileDesc, FileDesc) -> bool)
    requires ix < j <= |a|
    ensures |Dups(a, ix, j, same)| + |Others(a, ix, j, same)| == j - ix - 1
    decreases j
  {
    if j > ix + 1 {
      DupsCount(a, ix, j - 1, same);
    }
  }

  lemma {:induction false} DupsMembers(a: seq<FileDesc>, ix: nat, j: nat, same: (FileDesc, FileDesc) -> bool)
    requires ix < j <= |a|
    ensures |Dups(a, ix, j, same)| + |Others(a, ix, j, same)| == j - ix - 1
    ensures forall x :: x in Dups(a, ix, j, same) <==>
              exists i :: ix < i < j && Matches(a, ix, i, same) && x == SetFlag(a[i], FlagDup)
    ensures forall x :: x in Others(a, ix, j, same) <==>
              exists i :: ix < i < j && !Matches(a, ix, i, same) && x == a[i]
    decreases j
  {
    if j > ix + 1 {
      DupsMembers(a, ix, j - 1, same);
    }
  }

  /** The state of the corrected inner loop before entry `ix2`: the matched entries
      so far sit marked right after the head, the unmatched ones after them, both in
      their original order, and nothing from `ix2` on has moved. */
  predicate Partitioned(a0: seq<FileDesc>, ix: nat, ix2: nat, list: seq<FileDesc>, lastix: nat,
                        lnkmatch: bool, same: (FileDesc, FileDesc) -> bool)
    requires ix < ix2 <= |a0|
  {
    && |list| == |a0|
    && list[..ix + 1] == a0[..ix + 1]
    && list[ix2..] == a0[ix2..]
    && lastix == ix + 1 + |Dups(a0, ix, ix2, same)|
    && list[ix + 1..ix2] == Dups(a0, ix, ix2, same) + Others(a0, ix, ix2, same)
    && (lnkmatch <==> ix2 == ix + 1 || Matches(a0, ix, ix2 - 1, same))
  }

  /** The loop body moves a match to the end of the matched block; the part
      `ix+1 .. ix2` then reads matched block, new match, unmatched block. */
  lemma MovedIntoBlock(list: seq<FileDesc>, ix: nat, ix2: nat, lastix: nat,
                       d: seq<FileDesc>, o: seq<FileDesc>, mk: FileDesc)
    requires ix < lastix <= ix2 < |list|
    requires list[ix + 1..ix2] == d + o && lastix == ix + 1 + |d|
    ensures var m := Moved(list[ix2 := mk], lastix, ix2);
            m[ix + 1..ix2 + 1] == d + [mk] + o
  {
    var m := Moved(list[ix2 := mk], lastix, ix2);
    forall q | 0 <= q < ix2 - ix ensures m[ix + 1 + q] == (d + [mk] + o)[q] {
      var k := ix + 1 + q;
      if k < lastix {
        assert m[k] == list[k] == list[ix + 1..ix2][q];
      } else if lastix < k {
        assert m[k] == list[k - 1] == list[ix + 1..ix2][q - 1];
      }
    }
  }

  lemma PartitionStep(a0: seq<FileDesc>, ix: nat, ix2: nat, list: seq<FileDesc>, lastix: nat,
                      lnkmatch: bool, same: (FileDesc, FileDesc) -> bool)
    requires ix < ix2 < |a0| && Partitioned(a0, ix, ix2, list, lastix, lnkmatch, same)
    ensures ix < lastix <= ix2
    ensures var n := DupStep(list, ix, ix2, lastix, lnkmatch, same, true);
            Partitioned(a0, ix, ix2 + 1, n.list, n.lastix, n.lnkmatch, same)
  {
    var d := Dups(a0, ix, ix2, same);
    var o := Others(a0, ix, ix2, same);
    assert |list[ix + 1..ix2]| == |d| + |o|;
    assert list[ix2] == a0[ix2] by { assert list[ix2..][0] == a0[ix2..][0]; }
    assert list[ix] == a0[ix] by { assert list[..ix + 1][ix] == a0[..ix + 1][ix]; }
    var n := DupStep(list, ix, ix2, lastix, lnkmatch, same, true);
    assert n.list[ix2 + 1..] == a0[ix2 + 1..] by {
      assert list[ix2 + 1..] == list[ix2..][1..];
      assert a0[ix2 + 1..] == a0[ix2..][1..];
    }
    if Matches(a0, ix, ix2, same) {
      var mk := SetFlag(a0[ix2], FlagDup);
      assert Dups(a0, ix, ix2 + 1, same) == d + [mk];
      assert Others(a0, ix, ix2 + 1, same) == o;
      if lastix != ix2 {
        MovedIntoBlock(list, ix, ix2, lastix, d, o, mk);
      } else {
        assert o == [];
        assert n.list[ix + 1..ix2 + 1] == list[ix + 1..ix2] + [mk];
      }
    } else {
      assert Dups(a0, ix, ix2 + 1, same) == d;
      assert Others(a0, ix, ix2 + 1, same) == o + [a0[ix2]];
      assert n.list[ix + 1..ix2 + 1] == list[ix + 1..ix2] + [list[ix2]];
    }
  }

  lemma {:induction false} DupFromPartitions(a0: seq<FileDesc>, ix: nat, ix2: nat, list: seq<FileDesc>,
                                             lastix: nat, lnkmatch: bool,
                                             same: (FileDesc, FileDesc) -> bool)
    requires ix < ix2 <= |a0| && Partitioned(a0, ix, ix2, list, lastix, lnkmatch, same)
    ensures ix < lastix <= ix2
    ensures var w := WindowEnd(a0, ix, ix2);
            DupFrom(list, ix, ix2, lastix, lnkmatch, same, true)
            == Scan(a0[..ix + 1] + Dups(a0, ix, w, same) + Others(a0, ix, w, same) + a0[w..],
                    ix + 1 + |Dups(a0, ix, w, same)|)
    decreases |a0| - ix2
  {
    DupsCount(a0, ix, ix2, same);
    if ix2 < |a0| && SameContentKey(a0[ix], a0[ix2]) {
      var n := DupStep(list, ix, ix2, lastix, lnkmatch, same, true);
      PartitionStep(a0, ix, ix2, list, lastix, lnkmatch, same);
      DupFromPartitions(a0, ix, ix2 + 1, n.list, n.lastix, n.lnkmatch, same);
      DupFromUnfold(a0, ix, ix2, list, lastix, lnkmatch, same, true);
      assert DupFrom(list, ix, ix2, lastix, lnkmatch, same, true)
          == DupFrom(n.list, ix, ix2 + 1, n.lastix, n.lnkmatch, same, true);
      assert WindowEnd(a0, ix, ix2) == WindowEnd(a0, ix, ix2 + 1);
    } else {
      DupFromStops(a0, ix, ix2, list, lastix, lnkmatch, same, true);
      PartitionedWhole(a0, ix, ix2, list, lastix, lnkmatch, same);
    }
  }

  /** In the corrected state, the list reads head part, matched block, unmatched
      block, untouched rest. */
  lemma PartitionedWhole(a0: seq<FileDesc>, ix: nat, ix2: nat, list: seq<FileDesc>,
                         lastix: nat, lnkmatch: bool, same: (FileDesc, FileDesc) -> bool)
    requires ix < ix2 <= |a0| && Partitioned(a0, ix, ix2, list, lastix, lnkmatch, same)
    ensures list == a0[..ix + 1] + Dups(a0, ix, ix2, same) + Others(a0, ix, ix2, same) + a0[ix2..]
  {
    assert list == list[..ix + 1] + list[ix + 1..ix2] + list[ix2..];
  }

  /** The corrected dup pass for head `ix`, as a whole: within the window of entries
      sharing the head's length and CRC, the matched entries end up marked `FlagDup`
      right after the head, in their original order, and `lastix` right after them;
      the unmatched ones follow in their original order, unchanged; nothing outside
      the window changes. */
  lemma DupPartition(a: seq<FileDesc>, ix: nat, same: (FileDesc, FileDesc) -> bool)
    requires ix < |a|
    ensures var w := WindowEnd(a, ix, ix + 1);
            var s := DupFrom(a, ix, ix + 1, ix + 1, true, same, true);
            && s.list == a[..ix + 1] + Dups(a, ix, w, same) + Others(a, ix, w, same) + a[w..]
            && s.lastix == ix + 1 + |Dups(a, ix, w, same)|
  {
    assert a[ix + 1..ix + 1] == [];
    DupFromPartitions(a, ix, ix + 1, a, ix + 1, true, same);
  }

  /** The corrected pass in terms of the content comparison, first direction:
      every entry of the window that matches the head (in particular every one
      `same` accepts) ends up marked inside `ix+1 .. lastix-1`. */
  lemma DupGroupHasMatches(a: seq<FileDesc>, ix: nat, same: (FileDesc, FileDesc) -> bool)
    requires ix < |a|
    ensures var w := WindowEnd(a, ix, ix + 1);
            var s := DupFrom(a, ix, ix + 1, ix + 1, true, same, true);
            && ix < s.lastix <= w
            && (forall i :: ix < i < w && same(a[ix], a[i]) ==>
                  exists q :: ix < q < s.lastix && s.list[q] == SetFlag(a[i], FlagDup))
            && (forall i :: ix < i < w && Matches(a, ix, i, same) ==>
                  exists q :: ix < q < s.lastix && s.list[q] == SetFlag(a[i], FlagDup))
  {
    var w := WindowEnd(a, ix, ix + 1);
    var s := DupFrom(a, ix, ix + 1, ix + 1, true, same, true);
    var d := Dups(a, ix, w, same);
    DupPartitionBlocks(a, ix, same);
    forall i | ix < i < w && Matches(a, ix, i, same)
      ensures exists q :: ix < q < s.lastix && s.list[q] == SetFlag(a[i], FlagDup)
    {
      DupsMembers(a, ix, w, same);
      BlockHas(s.list, ix + 1, d, SetFlag(a[i], FlagDup));
    }
  }

  /** Second direction: every entry inside `ix+1 .. lastix-1` is a match of the
      head, marked. */
  lemma DupGroupOnlyMatches(a: seq<FileDesc>, ix: nat, same: (FileDesc, FileDesc) -> bool)
    requires ix < |a|
    ensures var w := WindowEnd(a, ix, ix + 1);
            var s := DupFrom(a, ix, ix + 1, ix + 1, true, same, true);
            forall q :: ix < q < s.lastix ==>
              exists i :: ix < i < w && Matches(a, ix, i, same) && s.list[q] == SetFlag(a[i], FlagDup)
  {
    var w := WindowEnd(a, ix, ix + 1);
    var s := DupFrom(a, ix, ix + 1, ix + 1, true, same, true);
    var d := Dups(a, ix, w, same);
    DupPartitionBlocks(a, ix, same);
    forall q | ix < q < s.lastix
      ensures exists i :: ix < i < w && Matches(a, ix, i, same) && s.list[q] == SetFlag(a[i], FlagDup)
    {
      var x := s.list[q];
      assert x == d[q - ix - 1];
      assert x in d;
      DupsMembers(a, ix, w, same);
      var i :| ix < i < w && Matches(a, ix, i, same) && x == SetFlag(a[i], FlagDup);
    }
  }

  /** The unmatched entries of the window stay, unchanged, after `lastix`. */
  lemma DupGroupRest(a: seq<FileDesc>, ix: nat, same: (FileDesc, FileDesc) -> bool)
    requires ix < |a|
    ensures var w := WindowEnd(a, ix, ix + 1);
            var s := DupFrom(a, ix, ix + 1, ix + 1, true, same, true);
            forall i :: ix < i < w && !Matches(a, ix, i, same) ==>
              exists q :: s.lastix <= q < w && s.list[q] == a[i]
  {
    var w := WindowEnd(a, ix, ix + 1);
    var s := DupFrom(a, ix, ix + 1, ix + 1, true, same, true);
    var o := Others(a, ix, w, same);
    DupPartitionBlocks(a, ix, same);
    forall i | ix < i < w && !Matches(a, ix, i, same)
      ensures exists q :: s.lastix <= q < w && s.list[q] == a[i]
    {
      DupsMembers(a, ix, w, same);
      BlockHas(s.list, s.lastix, o, a[i]);
    }
  }

  /** `DupPartition` read as two blocks of the resulting list. */
  lemma DupPartitionBlocks(a: seq<FileDesc>, ix: nat, same: (FileDesc, FileDesc) -> bool)
    requires ix < |a|
    ensures var w := WindowEnd(a, ix, ix + 1);
            var s := DupFrom(a, ix, ix + 1, ix + 1, true, same, true);
            && s.lastix == ix + 1 + |Dups(a, ix, w, same)|
            && s.lastix + |Others(a, ix, w, same)| == w
            && s.list[ix + 1..s.lastix] == Dups(a, ix, w, same)
            && s.list[s.lastix..w] == Others(a, ix, w, same)
  {
    var w := WindowEnd(a, ix, ix + 1);
    DupPartition(a, ix, same);
    DupsMembers(a, ix, w, same);
  }

  /** An entry of `d` is found in a block of a list equal to `d`. */
  lemma BlockHas(lst: seq<FileDesc>, lo: nat, d: seq<FileDesc>, x: FileDesc)
    requires lo + |d| <= |lst| && lst[lo..lo + |d|] == d && x in d
    ensures exists q :: lo <= q < lo + |d| && lst[q] == x
  {
    var k :| 0 <= k < |d| && d[k] == x;
    assert lst[lo + k] == d[k];
  }

  /** The state of the inner loop, as written or corrected, before entry `ix2`:
      the entries `ix+1 .. ix2-1` are, in some order, the matched ones marked and
      the unmatched ones unchanged. */
  predicate MarkedSoFar(a0: seq<FileDesc>, ix: nat, ix2: nat, list: seq<FileDesc>, lastix: nat,
                        lnkmatch: bool, same: (FileDesc, FileDesc) -> bool)
    requires ix < ix2 <= |a0|
  {
    && |list| == |a0|
    && list[..ix + 1] == a0[..ix + 1]
    && list[ix2..] == a0[ix2..]
    && ix < lastix <= ix2
    && multiset(list[ix + 1..ix2]) == multiset(Dups(a0, ix, ix2, same)) + multiset(Others(a0, ix, ix2, same))
    && (lnkmatch <==> ix2 == ix + 1 || Matches(a0, ix, ix2 - 1, same))
  }

  /** A move inside `lo .. hi-1` only reorders that part of the list. */
  lemma MovedWindow(b: seq<FileDesc>, lo: nat, lastix: nat, ix2: nat, hi: nat)
    requires lo <= lastix <= ix2 < hi <= |b|
    ensures multiset(Moved(b, lastix, ix2)[lo..hi]) == multiset(b[lo..hi])
  {
    var m := Moved(b, lastix, ix2);
    MovedPermutes(b, lastix, ix2);
    assert m[..lo] == b[..lo];
    assert m[hi..] == b[hi..];
    assert m == m[..lo] + m[lo..hi] + m[hi..];
    assert b == b[..lo] + b[lo..hi] + b[hi..];
    assert multiset(m) == multiset(m[..lo]) + multiset(m[lo..hi]) + multiset(m[hi..]);
    assert multiset(b) == multiset(b[..lo]) + multiset(b[lo..hi]) + multiset(b[hi..]);
    Cancel(multiset(b[..lo]), multiset(m[lo..hi]), multiset(b[lo..hi]), multiset(b[hi..]));
  }

  lemma Cancel(p: multiset<FileDesc>, x: multiset<FileDesc>, y: multiset<FileDesc>, q: multiset<FileDesc>)
    requires p + x + q == p + y + q
    ensures x == y
  {
    forall e ensures x[e] == y[e] {
      assert (p + x + q)[e] == (p + y + q)[e];
    }
  }

  /** Marking entry `ix2` and moving it down to `lastix` adds it to the entries
      `ix+1 .. ix2`. */
  lemma MarkedBag(list: seq<FileDesc>, ix: nat, ix2: nat, lastix: nat, mk: FileDesc,
                  d: seq<FileDesc>, o: seq<FileDesc>)
    requires ix < lastix <= ix2 < |list|
    requires multiset(list[ix + 1..ix2]) == multiset(d) + multiset(o)
    ensures multiset(Moved(list[ix2 := mk], lastix, ix2)[ix + 1..ix2 + 1]) == multiset(d + [mk]) + multiset(o)
    ensures multiset(list[ix2 := mk][ix + 1..ix2 + 1]) == multiset(d + [mk]) + multiset(o)
  {
    var b := list[ix2 := mk];
    assert b[ix + 1..ix2 + 1] == list[ix + 1..ix2] + [mk];
    assert multiset(b[ix + 1..ix2 + 1]) == multiset(list[ix + 1..ix2]) + multiset{mk};
    assert multiset(d + [mk]) == multiset(d) + multiset{mk};
    MovedWindow(b, ix + 1, lastix, ix2, ix2 + 1);
  }

  /** An unmatched entry `ix2` joins the entries `ix+1 .. ix2` where it is. */
  lemma UnmarkedBag(list: seq<FileDesc>, ix: nat, ix2: nat, d: seq<FileDesc>, o: seq<FileDesc>)
    requires ix < ix2 < |list|
    requires multiset(list[ix + 1..ix2]) == multiset(d) + multiset(o)
    ensures multiset(list[ix + 1..ix2 + 1]) == multiset(d) + multiset(o + [list[ix2]])
  {
    assert list[ix + 1..ix2 + 1] == list[ix + 1..ix2] + [list[ix2]];
    assert multiset(o + [list[ix2]]) == multiset(o) + multiset{list[ix2]};
  }

  lemma MarkStep(a0: seq<FileDesc>, ix: nat, ix2: nat, list: seq<FileDesc>, lastix: nat,
                 lnkmatch: bool, same: (FileDesc, FileDesc) -> bool, intended: bool)
    requires ix < ix2 < |a0| && MarkedSoFar(a0, ix, ix2, list, lastix, lnkmatch, same)
    ensures var n := DupStep(list, ix, ix2, lastix, lnkmatch, same, intended);
            MarkedSoFar(a0, ix, ix2 + 1, n.list, n.lastix, n.lnkmatch, same)
  {
    assert list[ix2] == a0[ix2] by { assert list[ix2..][0] == a0[ix2..][0]; }
    assert list[ix] == a0[ix] by { assert list[..ix + 1][ix] == a0[..ix + 1][ix]; }
    var n := DupStep(list, ix, ix2, lastix, lnkmatch, same, intended);
    assert n.lnkmatch == Matches(a0, ix, ix2, same);
    if n.lnkmatch {
      var mk := SetFlag(a0[ix2], FlagDup);
      assert n.list == if lastix != ix2 then Moved(list[ix2 := mk], lastix, ix2) else list[ix2 := mk];
      MarkMatched(a0, ix, ix2, list, lastix, lnkmatch, same, n.list, n.lastix);
    } else {
      MarkUnmatched(a0, ix, ix2, list, lastix, lnkmatch, same);
    }
  }

  /** A matched entry, marked and moved down or left in place, keeps the state. */
  lemma MarkMatched(a0: seq<FileDesc>, ix: nat, ix2: nat, list: seq<FileDesc>, lastix: nat,
                    lnkmatch: bool, same: (FileDesc, FileDesc) -> bool,
                    next: seq<FileDesc>, nextLastix: nat)
    requires ix < ix2 < |a0| && MarkedSoFar(a0, ix, ix2, list, lastix, lnkmatch, same)
    requires Matches(a0, ix, ix2, same)
    requires var mk := SetFlag(a0[ix2], FlagDup);
             next == if lastix != ix2 then Moved(list[ix2 := mk], lastix, ix2) else list[ix2 := mk]
    requires next[..ix + 1] == list[..ix + 1] && next[ix2 + 1..] == list[ix2 + 1..]
    requires lastix <= nextLastix <= lastix + 1
    ensures MarkedSoFar(a0, ix, ix2 + 1, next, nextLastix, true, same)
  {
    var d := Dups(a0, ix, ix2, same);
    var o := Others(a0, ix, ix2, same);
    var mk := SetFlag(a0[ix2], FlagDup);
    assert Dups(a0, ix, ix2 + 1, same) == d + [mk];
    assert Others(a0, ix, ix2 + 1, same) == o;
    MarkedBag(list, ix, ix2, lastix, mk, d, o);
    assert list[ix2 + 1..] == a0[ix2 + 1..] by {
      assert list[ix2 + 1..] == list[ix2..][1..];
      assert a0[ix2 + 1..] == a0[ix2..][1..];
    }
  }

  /** An unmatched entry, left where it is, keeps the state. */
  lemma MarkUnmatched(a0: seq<FileDesc>, ix: nat, ix2: nat, list: seq<FileDesc>, lastix: nat,
                      lnkmatch: bool, same: (FileDesc, FileDesc) -> bool)
    requires ix < ix2 < |a0| && MarkedSoFar(a0, ix, ix2, list, lastix, lnkmatch, same)
    requires !Matches(a0, ix, ix2, same)
    ensures MarkedSoFar(a0, ix, ix2 + 1, list, lastix, false, same)
  {
    var d := Dups(a0, ix, ix2, same);
    var o := Others(a0, ix, ix2, same);
    assert list[ix2] == a0[ix2] by { assert list[ix2..][0] == a0[ix2..][0]; }
    assert Dups(a0, ix, ix2 + 1, same) == d;
    assert Others(a0, ix, ix2 + 1, same) == o + [a0[ix2]];
    UnmarkedBag(list, ix, ix2, d, o);
    assert list[ix2 + 1..] == a0[ix2 + 1..] by {
      assert list[ix2 + 1..] == list[ix2..][1..];
      assert a0[ix2 + 1..] == a0[ix2..][1..];
    }
  }

  lemma {:induction false} DupFromMarks(a0: seq<FileDesc>, ix: nat, ix2: nat, list: seq<FileDesc>,
                                        lastix: nat, lnkmatch: bool,
                                        same: (FileDesc, FileDesc) -> bool, intended: bool)
    requires ix < ix2 <= |a0| && MarkedSoFar(a0, ix, ix2, list, lastix, lnkmatch, same)
    ensures var w := WindowEnd(a0, ix, ix2);
            var s := DupFrom(list, ix, ix2, lastix, lnkmatch, same, intended);
            && s.list[..ix + 1] == a0[..ix + 1]
            && s.list[w..] == a0[w..]
            && multiset(s.list[ix + 1..w])
               == multiset(Dups(a0, ix, w, same)) + multiset(Others(a0, ix, w, same))
    decreases |a0| - ix2
  {
    if ix2 < |a0| && SameContentKey(a0[ix], a0[ix2]) {
      var n := DupStep(list, ix, ix2, lastix, lnkmatch, same, intended);
      MarkStep(a0, ix, ix2, list, lastix, lnkmatch, same, intended);
      DupFromMarks(a0, ix, ix2 + 1, n.list, n.lastix, n.lnkmatch, same, intended);
      DupFromUnfold(a0, ix, ix2, list, lastix, lnkmatch, same, intended);
      assert DupFrom(list, ix, ix2, lastix, lnkmatch, same, intended)
          == DupFrom(n.list, ix, ix2 + 1, n.lastix, n.lnkmatch, same, intended);
      assert WindowEnd(a0, ix, ix2) == WindowEnd(a0, ix, ix2 + 1);
    } else {
      DupFromStops(a0, ix, ix2, list, lastix, lnkmatch, same, intended);
    }
  }

  /** While the window goes on, the inner loop is one step followed by the rest. */
  lemma DupFromUnfold(a0: seq<FileDesc>, ix: nat, ix2: nat, list: seq<FileDesc>,
                      lastix: nat, lnkmatch: bool,
                      same: (FileDesc, FileDesc) -> bool, intended: bool)
    requires ix < lastix <= ix2 < |a0| == |list| && SameContentKey(a0[ix], a0[ix2])
    requires list[..ix + 1] == a0[..ix + 1] && list[ix2..] == a0[ix2..]
    ensures var n := DupStep(list, ix, ix2, lastix, lnkmatch, same, intended);
            && DupFrom(list, ix, ix2, lastix, lnkmatch, same, intended)
               == DupFrom(n.list, ix, ix2 + 1, n.lastix, n.lnkmatch, same, intended)
            && WindowEnd(a0, ix, ix2) == WindowEnd(a0, ix, ix2 + 1)
  {
    assert list[ix] == a0[ix] by { assert list[..ix + 1][ix] == a0[..ix + 1][ix]; }
    assert list[ix2] == a0[ix2] by { assert list[ix2..][0] == a0[ix2..][0]; }
  }

  /** Where the window ends, the inner loop stops and leaves the list alone. */
  lemma DupFromStops(a0: seq<FileDesc>, ix: nat, ix2: nat, list: seq<FileDesc>,
                     lastix: nat, lnkmatch: bool,
                     same: (FileDesc, FileDesc) -> bool, intended: bool)
    requires ix < lastix <= ix2 <= |a0| == |list|
    requires ix2 == |a0| || !SameContentKey(a0[ix], a0[ix2])
    requires list[..ix + 1] == a0[..ix + 1] && list[ix2..] == a0[ix2..]
    ensures DupFrom(list, ix, ix2, lastix, lnkmatch, same, intended) == Scan(list, lastix)
    ensures WindowEnd(a0, ix, ix2) == ix2
  {
    assert list[ix] == a0[ix] by { assert list[..ix + 1][ix] == a0[..ix + 1][ix]; }
    if ix2 < |a0| {
      assert list[ix2] == a0[ix2] by { assert list[ix2..][0] == a0[ix2..][0]; }
    }
  }

  /** As written as well as corrected, the dup pass for head `ix` marks exactly the
      matched entries of the window: afterwards the window holds, in some order,
      every matched entry marked `FlagDup` and every unmatched entry unchanged, and
      nothing outside the window changes. (As written, the order inside the window
      is what splits the group; see `DupGroupAsWrittenSplits`.) */
  lemma DupMarks(a: seq<FileDesc>, ix: nat, same: (FileDesc, FileDesc) -> bool, intended: bool)
    requires ix < |a|
    ensures var w := WindowEnd(a, ix, ix + 1);
            var s := DupFrom(a, ix, ix + 1, ix + 1, true, same, intended);
            && s.list[..ix + 1] == a[..ix + 1]
            && s.list[w..] == a[w..]
            && multiset(s.list[ix + 1..w])
               == multiset(Dups(a, ix, w, same)) + multiset(Others(a, ix, w, same))
  {
    assert a[ix + 1..ix + 1] == [];
    DupFromMarks(a, ix, ix + 1, a, ix + 1, true, same, intended);
  }

  /** The outer loop of the dup pass: each head's pass resumes at its `lastix`. */
  function DupPass(a: seq<FileDesc>, ix: nat, same: (FileDesc, FileDesc) -> bool, intended: bool): (r: seq<FileDesc>)
    requires ix <= |a|
    ensures |r| == |a| && r[..ix] == a[..ix]
    decreases |a| - ix
  {
    if ix == |a| then a
    else
      var s := DupFrom(a, ix, ix + 1, ix + 1, true, same, intended);
      var r := DupPass(s.list, s.lastix, same, intended);
      assert r[..ix] == a[..ix] by {
        forall k | 0 <= k < ix ensures r[k] == a[k] {
          assert r[k] == r[..s.lastix][k] == s.list[..s.lastix][k];
          assert s.list[k] == s.list[..ix + 1][k] == a[..ix + 1][k];
        }
      }
      r
  }

  /** The whole dup pass only reorders entries and changes flags. */
  lemma {:induction false} DupPassPermutes(a: seq<FileDesc>, ix: nat, same: (FileDesc, FileDesc) -> bool, intended: bool)
    requires ix <= |a|
    ensures Contents(DupPass(a, ix, same, intended)) == Contents(a)
    decreases |a| - ix
  {
    if ix < |a| {
      var s := DupFrom(a, ix, ix + 1, ix + 1, true, same, intended);
      DupFromPermutes(a, ix, ix + 1, ix + 1, true, same, intended);
      DupPassPermutes(s.list, s.lastix, same, intended);
    }
  }
}
