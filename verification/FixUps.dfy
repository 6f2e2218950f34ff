/**
  Update sequence arrays: the in-place repair of log pages (FS/NTFS/LogFile/rcrd.go, repeated in rstr.go)
  and of index records (FS/NTFS/MFT/attributes/indexallocation.go).
*/
module FixUps {
  import opened Bytes
  import opened Wrappers

  const SECTOR := 512
  const TWO_TO_16 := 0x1_0000

  /** Where the last two bytes of a sector stand. */
  function TailAt(sector: nat): nat
  {
    SECTOR * sector + 510
  }

  /** Where the array of a page keeps the saved bytes of a sector: behind the sequence number. */
  function SavedAt(arrayAt: nat, sector: nat): nat
  {
    arrayAt + 2 + 2 * sector
  }

  // ---------- Protection, as the format defines it ----------

  /** A page with room for n sectors and an array of n saved values that keeps clear of every tail. */
  predicate Layout(size: nat, arrayAt: nat, n: nat)
  {
    SECTOR * n <= size && SavedAt(arrayAt, n) <= size &&
    forall sector: nat | sector < n ::
      TailAt(sector) + 2 <= arrayAt || SavedAt(arrayAt, n) <= TailAt(sector)
  }

  /** stored is page with each sector's tail saved to the array and overwritten by the sequence number. */
  predicate Protects(page: seq<byte>, arrayAt: nat, n: nat, stored: seq<byte>)
    requires Layout(|page|, arrayAt, n)
  {
    |stored| == |page| &&
    (forall sector: nat | sector < n ::
      stored[SavedAt(arrayAt, sector)..SavedAt(arrayAt, sector) + 2] == page[TailAt(sector)..TailAt(sector) + 2] &&
      stored[TailAt(sector)..TailAt(sector) + 2] == stored[arrayAt..arrayAt + 2]) &&
    forall k | 0 <= k < |page| && !InTail(k, n) && !(arrayAt <= k < SavedAt(arrayAt, n)) :: stored[k] == page[k]
  }

  /** Of a protected page, the last two bytes of each 512-byte sector carry the sequence number, the first two of the
      array, and stand behind it in the order of the sectors. */
  lemma ProtectedLayout(page: seq<byte>, arrayAt: nat, n: nat, stored: seq<byte>, sector: nat)
    requires Layout(|page|, arrayAt, n) && Protects(page, arrayAt, n, stored) && sector < n
    ensures var (end, saved) := (512 * (sector + 1), arrayAt + 2 * (sector + 1));
            end <= |page| == |stored| && saved + 2 <= |page| &&
            stored[end - 2..end] == stored[arrayAt..arrayAt + 2] && stored[saved..saved + 2] == page[end - 2..end]
  {
    assert TailAt(sector) == 512 * (sector + 1) - 2 && SavedAt(arrayAt, sector) == arrayAt + 2 * (sector + 1);
  }

  function SectorOf(k: nat): nat
  {
    k / SECTOR
  }

  /** Which byte of its sector's tail a position is; negative outside the tail. */
  function TailByte(k: nat): int
  {
    k % SECTOR - 510
  }

  predicate InTail(k: nat, n: nat)
  {
    SectorOf(k) < n && TailByte(k) >= 0
  }

  lemma TailPosition(k: nat)
    ensures TailByte(k) < 2
    ensures TailByte(k) >= 0 ==> k == TailAt(SectorOf(k)) + TailByte(k)
  {
  }

  lemma TailBytes(sector: nat, j: nat)
    requires j < 2
    ensures SectorOf(TailAt(sector) + j) == sector && TailByte(TailAt(sector) + j) == j
  {
  }

  lemma ArrayIsClear(size: nat, at: nat, n: nat, k: nat)
    requires Layout(size, at, n) && at <= k < SavedAt(at, n)
    ensures !InTail(k, n)
  {
    hide SectorOf, TailByte;
    TailPosition(k);
  }

  // ---------- What the repairs leave ----------

  predicate Matches(b: seq<byte>, arrayAt: nat, sector: nat)
    requires TailAt(sector) + 2 <= |b| && arrayAt + 2 <= |b|
  {
    b[TailAt(sector)] == b[arrayAt] && b[TailAt(sector) + 1] == b[arrayAt + 1]
  }

  /** b with the tails of the sectors in a set replaced by their saved values. */
  function Restored(b: seq<byte>, arrayAt: nat, n: nat, sectors: set<nat>): (r: seq<byte>)
    requires Layout(|b|, arrayAt, n)
    ensures |r| == |b|
  {
    seq(|b|, k requires 0 <= k < |b| => RestoredByte(b, arrayAt, n, sectors, k))
  }

  function RestoredByte(b: seq<byte>, arrayAt: nat, n: nat, sectors: set<nat>, k: nat): byte
    requires Layout(|b|, arrayAt, n) && k < |b|
  {
    TailPosition(k);
    if InTail(k, n) && SectorOf(k) in sectors then b[SavedAt(arrayAt, SectorOf(k)) + TailByte(k)] else b[k]
  }

  /** How many sectors at the start of the page carry the sequence number. */
  function MatchingPrefix(b: seq<byte>, arrayAt: nat, n: nat, from: nat): (m: nat)
    requires Layout(|b|, arrayAt, n) && from <= n
    ensures from <= m <= n
    ensures forall s: nat | from <= s < m :: Matches(b, arrayAt, s)
    ensures m < n ==> !Matches(b, arrayAt, m)
    decreases n - from
  {
    if from == n || !Matches(b, arrayAt, from) then from else MatchingPrefix(b, arrayAt, n, from + 1)
  }

  /** The first m sectors. */
  function UpTo(m: nat): (r: set<nat>)
    ensures forall s: nat :: s in r <==> s < m
  {
    if m == 0 then {} else UpTo(m - 1) + {m - 1}
  }

  function MatchingSectors(b: seq<byte>, arrayAt: nat, n: nat): set<nat>
    requires Layout(|b|, arrayAt, n)
  {
    set s: nat | s < n && Matches(b, arrayAt, s)
  }

  /** A 16-bit sum, wrapping around. */
  function Sum16(a: nat, b: nat): nat
  {
    (a + b) % TWO_TO_16
  }

  // ---------- The log page ----------

  /** How a repair ended and what it left; a repair of one sector says whether its tail was replaced. */
  datatype Repaired = Repaired(outcome: Outcome<bool>, bytes: seq<byte>)

  /** One sector of the log page's loop on a page of len bytes: both the tail and its saved value are read from
      and written to b, the buffer the page begins, which goes on to the page's capacity. The second tail byte is
      looked at only if the first matches. */
  function OneReplaced(b: seq<byte>, len: nat, signatureAt: nat, savedAt: seq<nat>, sector: nat): Repaired
    requires len <= |b|
  {
    var tail := TailAt(sector);
    if signatureAt + 1 >= |b| || tail >= len then Repaired(Panic, b)
    else if b[tail] != b[signatureAt] then Repaired(Done(false), b)
    else if tail + 1 >= len then Repaired(Panic, b)
    else if b[tail + 1] != b[signatureAt + 1] then Repaired(Done(false), b)
    else if sector >= |savedAt| || savedAt[sector] + 1 >= |b| then Repaired(Panic, b)
    else
      var first := b[tail := b[savedAt[sector]]];
      Repaired(Done(true), first[tail + 1 := first[savedAt[sector] + 1]])
  }

  /** The second tail byte is copied after the first was written, even where the saved value lies across it. */
  lemma AliasedTail(b: seq<byte>)
    requires |b| == 512 && b[0] == b[510] && b[1] == b[511]
    ensures OneReplaced(b, 512, 0, [509], 0) == Repaired(Done(true), b[510 := b[509]][511 := b[509]])
  {
  }

  /** A tail of which either byte is not the sequence number's is left alone. */
  lemma TornTail(b: seq<byte>, savedAt: seq<nat>)
    requires |b| == 512 && b[510..512] != b[0..2]
    ensures OneReplaced(b, 512, 0, savedAt, 0) == Repaired(Done(false), b)
  {
    assert b[510..512] == [b[510], b[511]] && b[0..2] == [b[0], b[1]];
  }

  /** A page that ends between the two tail bytes faults if the first matches, and so do a missing saved value and an array
      at the end of the buffer. */
  lemma CutOffTail(b: seq<byte>)
    requires |b| == 512
    ensures OneReplaced(b, 511, 0, [2], 0).outcome == if b[0] == b[510] then Panic else Done(false)
    ensures OneReplaced(b, 510, 0, [2], 0).outcome == Panic && OneReplaced(b, 512, 511, [2], 0).outcome == Panic
    ensures b[0] == b[510] && b[1] == b[511] ==> OneReplaced(b, 512, 0, [], 0).outcome == Panic
    ensures b[0] == b[510] && b[1] == b[511] ==> OneReplaced(b, 512, 0, [511], 0).outcome == Panic
  {
  }

  /** Sums beyond 16 bits wrap around. */
  lemma SumsWrap()
    ensures Sum16(0x8001, 0x8001) == 2 && Sum16(0x7FFF, 0x8000) == 0xFFFF
  {
  }

  /** The log page's loop from entry idx of the array on: it ends at the first sector that does not match. */
  function AllReplaced(b: seq<byte>, len: nat, signatureAt: nat, savedAt: seq<nat>, size: nat, idx: nat): Repaired
    requires idx > 0 && len <= |b|
    decreases size - idx
  {
    if idx >= size then Repaired(Done(true), b)
    else
      var one := OneReplaced(b, len, signatureAt, savedAt, idx - 1);
      match one.outcome
      case Done(true) => AllReplaced(one.bytes, len, signatureAt, savedAt, size, idx + 1)
      case Done(false) => Repaired(Done(true), one.bytes)
      case _ => one
  }

  /** A log page's repair state. The saved values are slices of the page itself: positions, not copies. */
  class LogPage {
    const updateFixUpArrOffset: nat
    const updateFixUpArrSize: nat
    var signatureAt: nat
    var originalValuesAt: seq<nat>

    ghost predicate Valid()
    {
      updateFixUpArrOffset < TWO_TO_16 && updateFixUpArrSize < TWO_TO_16
    }

    constructor (offset: nat, size: nat)
      requires offset < TWO_TO_16 && size < TWO_TO_16
      ensures Valid() && updateFixUpArrOffset == offset && updateFixUpArrSize == size
    {
      updateFixUpArrOffset, updateFixUpArrSize := offset, size;
      signatureAt, originalValuesAt := 0, [];
    }

    /** Cuts the array out of a page of len bytes, in 16-bit arithmetic and up to the page's capacity; fails on an
        array of no values. */
    method ProcessFixUpArrays(data: array<byte>, len: nat) returns (r: Outcome<()>)
      requires Valid() && len <= data.Length
      modifies this
      ensures var from, twice := updateFixUpArrOffset, Sum16(updateFixUpArrSize, updateFixUpArrSize);
              r == (if len < twice then Error
                    else if Sum16(from, twice) < from || data.Length < from + twice then Panic
                    else if twice <= 2 then Error
                    else Done(())) &&
              (r.Done? ==> signatureAt == from && |originalValuesAt| == twice / 2 - 1 &&
                           forall s | 0 <= s < |originalValuesAt| :: originalValuesAt[s] == SavedAt(from, s))
    {
      var twice := Sum16(updateFixUpArrSize, updateFixUpArrSize);
      if len < twice {
        return Error;
      }
      var from, end := updateFixUpArrOffset, Sum16(updateFixUpArrOffset, twice);
      if end < from || data.Length < end {
        return Panic;
      }
      var fixupvals: seq<nat> := [];
      var val: int := 2;
      while val < end - from
        invariant val == 2 + 2 * |fixupvals| && (val <= 2 || val <= twice)
        invariant forall s | 0 <= s < |fixupvals| :: fixupvals[s] == SavedAt(from, s)
        decreases end - val
      {
        fixupvals := fixupvals + [from + val];
        val := val + 2;
      }
      if end - from > 2 {
        signatureAt, originalValuesAt := from, fixupvals;
        return Done(());
      }
      return Error;
    }

    /** Restores one tail from its saved value, both in the page, if it carries the sequence number. */
    method ReplaceOne(data: array<byte>, len: nat, sector: nat) returns (r: Outcome<bool>)
      requires len <= data.Length
      modifies data
      ensures Repaired(r, data[..]) == OneReplaced(old(data[..]), len, signatureAt, originalValuesAt, sector)
    {
      var tail := TailAt(sector);
      if signatureAt + 1 >= data.Length || tail >= len {
        return Panic;
      }
      if data[signatureAt] != data[tail] {
        return Done(false);
      }
      if tail + 1 >= len {
        return Panic;
      }
      if data[signatureAt + 1] != data[tail + 1] {
        return Done(false);
      }
      if sector >= |originalValuesAt| || originalValuesAt[sector] + 1 >= data.Length {
        return Panic;
      }
      var saved := originalValuesAt[sector];
      data[tail] := data[saved];
      data[tail + 1] := data[saved + 1];
      return Done(true);
    }

    /** Restores tails from the front until one does not carry the sequence number. */
    method ReplaceFixupValues(data: array<byte>, len: nat) returns (r: Outcome<bool>)
      requires len <= data.Length
      modifies data
      ensures Repaired(r, data[..]) ==
              AllReplaced(old(data[..]), len, signatureAt, originalValuesAt, updateFixUpArrSize, 1)
    {
      hide OneReplaced;
      ghost var goal := AllReplaced(data[..], len, signatureAt, originalValuesAt, updateFixUpArrSize, 1);
      var idx := 1;
      while idx < updateFixUpArrSize
        invariant 1 <= idx
        invariant goal == AllReplaced(data[..], len, signatureAt, originalValuesAt, updateFixUpArrSize, idx)
      {
        r := ReplaceOne(data, len, idx - 1);
        if !r.Done? {
          return;
        }
        if !r.value {
          break;
        }
        idx := idx + 1;
      }
      return Done(true);
    }

    /** Parse's two repair steps. On a page whose array lies within its capacity and within 16 bits, they restore
        exactly the longest prefix of sectors that carry the sequence number. */
    method Repair(data: array<byte>, len: nat) returns (r: Outcome<bool>)
      requires Valid() && len <= data.Length
      modifies this, data
      ensures var b, at, size := old(data[..]), updateFixUpArrOffset, updateFixUpArrSize;
              2 <= size && at + 2 * size < TWO_TO_16 && Layout(|b|, at, size - 1) && SECTOR * (size - 1) <= len ==>
                r.Done? && data[..] == Restored(b, at, size - 1, UpTo(MatchingPrefix(b, at, size - 1, 0)))
    {
      hide Restored, AllReplaced, Layout;
      ghost var b, at, size := data[..], updateFixUpArrOffset, updateFixUpArrSize;
      var cut := ProcessFixUpArrays(data, len);
      if !cut.Done? {
        CutOut(|b|, len, at, size);
        return if cut.Panic? then Panic else Error;
      }
      if 2 <= size && at + 2 * size < TWO_TO_16 && Layout(|b|, at, size - 1) && SECTOR * (size - 1) <= len {
        LongestPrefixReplaced(b, len, at, originalValuesAt, size - 1);
      }
      r := ReplaceFixupValues(data, len);
    }
  }

  /** On a page with its layout the array can be cut out. */
  lemma CutOut(size: nat, len: nat, at: nat, entries: nat)
    requires at < TWO_TO_16 && entries < TWO_TO_16
    ensures 2 <= entries && at + 2 * entries < TWO_TO_16 && Layout(size, at, entries - 1) && SECTOR * (entries - 1) <= len ==>
              var twice := Sum16(entries, entries);
              twice == 2 * entries <= len && Sum16(at, twice) == at + twice <= size
  {
  }

  /** One more tail of the longest matching prefix restored. */
  lemma PrefixStep(b: seq<byte>, len: nat, at: nat, savedAt: seq<nat>, n: nat, sector: nat)
    requires Layout(|b|, at, n) && SECTOR * n <= len <= |b|
    requires sector < n && |savedAt| == n && savedAt[sector] == SavedAt(at, sector)
    ensures OneReplaced(Restored(b, at, n, UpTo(sector)), len, at, savedAt, sector) ==
            if Matches(b, at, sector) then Repaired(Done(true), Restored(b, at, n, UpTo(sector + 1)))
            else Repaired(Done(false), Restored(b, at, n, UpTo(sector)))
  {
    hide Restored, SectorOf, TailByte, Layout;
    TailInPage(|b|, at, n, sector);
    OthersUntouched(b, at, n, UpTo(sector), sector);
    var tail, saved := TailAt(sector), SavedAt(at, sector);
    assert tail + 1 < len;
    ArrayUntouched(b, at, n, UpTo(sector), saved);
    ArrayUntouched(b, at, n, UpTo(sector), saved + 1);
    var before := Restored(b, at, n, UpTo(sector));
    NextRestored(b, at, n, UpTo(sector), sector, before[tail := b[saved]][tail + 1 := b[saved + 1]]);
    assert UpTo(sector + 1) == UpTo(sector) + {sector};
  }

  lemma {:induction false} PrefixReplaced(b: seq<byte>, len: nat, at: nat, savedAt: seq<nat>, n: nat, from: nat)
    requires Layout(|b|, at, n) && SECTOR * n <= len <= |b|
    requires from <= n && |savedAt| == n && forall s | 0 <= s < n :: savedAt[s] == SavedAt(at, s)
    ensures AllReplaced(Restored(b, at, n, UpTo(from)), len, at, savedAt, n + 1, from + 1) ==
            Repaired(Done(true), Restored(b, at, n, UpTo(MatchingPrefix(b, at, n, from))))
    decreases n - from
  {
    hide Restored, Layout, OneReplaced, Matches;
    if from < n {
      TailInPage(|b|, at, n, from);
      PrefixStep(b, len, at, savedAt, n, from);
      if Matches(b, at, from) {
        PrefixReplaced(b, len, at, savedAt, n, from + 1);
      }
    }
  }

  /** On a page with its layout the loop restores exactly the longest matching prefix of sectors, although every
      saved value it copies lies in the buffer it writes to. */
  lemma LongestPrefixReplaced(b: seq<byte>, len: nat, at: nat, savedAt: seq<nat>, n: nat)
    requires Layout(|b|, at, n) && SECTOR * n <= len <= |b|
    requires |savedAt| == n && forall s | 0 <= s < n :: savedAt[s] == SavedAt(at, s)
    ensures AllReplaced(b, len, at, savedAt, n + 1, 1) ==
            Repaired(Done(true), Restored(b, at, n, UpTo(MatchingPrefix(b, at, n, 0))))
  {
    hide Restored, Layout, AllReplaced;
    NothingRestored(b, at, n);
    PrefixReplaced(b, len, at, savedAt, n, 0);
  }

  lemma NothingRestored(b: seq<byte>, at: nat, n: nat)
    requires Layout(|b|, at, n)
    ensures Restored(b, at, n, UpTo(0)) == b
  {
  }

  lemma RestoredAt(b: seq<byte>, at: nat, n: nat, sectors: set<nat>, k: nat)
    requires Layout(|b|, at, n) && k < |b|
    ensures Restored(b, at, n, sectors)[k] == RestoredByte(b, at, n, sectors, k)
  {
  }

  /** Restoring tails leaves the array as it was. */
  lemma ArrayUntouched(b: seq<byte>, at: nat, n: nat, sectors: set<nat>, k: nat)
    requires Layout(|b|, at, n) && at <= k < SavedAt(at, n)
    ensures Restored(b, at, n, sectors)[k] == b[k]
  {
    hide SectorOf, TailByte;
    ArrayIsClear(|b|, at, n, k);
  }

  /** Restoring tails leaves the tails of other sectors as they were. */
  lemma OthersUntouched(b: seq<byte>, at: nat, n: nat, sectors: set<nat>, sector: nat)
    requires Layout(|b|, at, n) && sector < n && sector !in sectors
    ensures var r := Restored(b, at, n, sectors);
            r[TailAt(sector)] == b[TailAt(sector)] && r[TailAt(sector) + 1] == b[TailAt(sector) + 1] &&
            r[at] == b[at] && r[at + 1] == b[at + 1]
  {
    hide SectorOf, TailByte;
    TailBytes(sector, 0);
    TailBytes(sector, 1);
    ArrayUntouched(b, at, n, sectors, at);
    ArrayUntouched(b, at, n, sectors, at + 1);
  }

  /** One more tail replaced by its saved value. */
  lemma NextRestored(b: seq<byte>, at: nat, n: nat, sectors: set<nat>, sector: nat, next: seq<byte>)
    requires Layout(|b|, at, n) && sector < n && sector !in sectors
    requires var t, v := TailAt(sector), SavedAt(at, sector);
             next == Restored(b, at, n, sectors)[t := b[v]][t + 1 := b[v + 1]]
    ensures next == Restored(b, at, n, sectors + {sector})
  {
    hide SectorOf, TailByte, Restored, TailAt, Layout, SavedAt;
    TailInPage(|b|, at, n, sector);
    forall k | 0 <= k < |b|
      ensures next[k] == Restored(b, at, n, sectors + {sector})[k]
    {
      TailPosition(k);
      TailBytes(sector, 0);
      TailBytes(sector, 1);
      RestoredAt(b, at, n, sectors, k);
      RestoredAt(b, at, n, sectors + {sector}, k);
    }
  }

  lemma TailInPage(size: nat, at: nat, n: nat, sector: nat)
    requires Layout(size, at, n) && sector < n
    ensures TailAt(sector) + 1 < size && SavedAt(at, sector) + 1 < size && at + 1 < size
    ensures at <= SavedAt(at, sector) && SavedAt(at, sector) + 2 <= SavedAt(at, n)
    ensures TailAt(sector) + 2 <= SavedAt(at, sector) || SavedAt(at, sector) + 2 <= TailAt(sector)
  {
  }

  // ---------- The index record ----------

  /** An index record's repair state; its sequence number and saved values are copies. */
  class IndexRecord {
    const fixupArrayOffset: nat
    const numFixupEntries: nat
    var signature: seq<byte>
    var originalValues: seq<seq<byte>>

    ghost predicate Valid()
    {
      fixupArrayOffset < TWO_TO_16 && numFixupEntries < TWO_TO_16
    }

    constructor (offset: nat, entries: nat)
      requires offset < TWO_TO_16 && entries < TWO_TO_16
      ensures Valid() && fixupArrayOffset == offset && numFixupEntries == entries
    {
      fixupArrayOffset, numFixupEntries := offset, entries;
      signature, originalValues := [], [];
    }

    method ProcessFixUpArrays(data: array<byte>) returns (r: Outcome<()>)
      requires Valid()
      modifies this
      ensures var from, n := fixupArrayOffset, numFixupEntries;
              r == if n == 0 || n > 128 || from + 2 * n >= TWO_TO_16 || data.Length < from + 2 * n then Error
                   else Done(())
      ensures r.Done? ==>
                var from, n := fixupArrayOffset, numFixupEntries;
                |signature| == 2 && (forall v | v in originalValues :: |v| == 2) &&
                signature == data[from..from + 2] && |originalValues| == n - 1 &&
                forall s | 0 <= s < n - 1 :: originalValues[s] == data[SavedAt(from, s)..SavedAt(from, s) + 2]
    {
      if numFixupEntries == 0 || numFixupEntries > 128 {
        return Error;
      }
      var from, end := fixupArrayOffset, Sum16(fixupArrayOffset, Sum16(numFixupEntries, numFixupEntries));
      if data.Length < from || data.Length < end {
        return Error;
      } else if from > end {
        return Error;
      }
      var sig := data[from..from + 2];
      var fixupvals: seq<seq<byte>> := [];
      var val: int := 2;
      while val < end - from
        invariant val == 2 + 2 * |fixupvals| && val <= end - from
        invariant forall s | 0 <= s < |fixupvals| :: fixupvals[s] == data[SavedAt(from, s)..SavedAt(from, s) + 2]
        decreases end - val
      {
        fixupvals := fixupvals + [data[from + val..from + val + 2]];
        val := val + 2;
      }
      signature, originalValues := sig, fixupvals;
      return Done(());
    }

    /** The sector loop of Parse: restores every sector whose tail carries the sequence number. */
    method RestoreTails(data: array<byte>) returns (r: Outcome<bool>)
      requires |signature| == 2 && forall v | v in originalValues :: |v| == 2
      modifies data
      ensures Repaired(r, data[..]) == TailsRestored(old(data[..]), signature, originalValues, 1)
    {
      hide OneRestored;
      ghost var goal := TailsRestored(data[..], signature, originalValues, 1);
      var sectorNum := 1;
      while sectorNum * 512 <= data.Length
        invariant 1 <= sectorNum
        invariant goal == TailsRestored(data[..], signature, originalValues, sectorNum)
        decreases data.Length - sectorNum
      {
        r := RestoreOne(data, sectorNum - 1);
        if !r.Done? {
          return;
        }
        sectorNum := sectorNum + 1;
      }
      return Done(true);
    }

    /** Restores one tail from its copied value, if it carries the sequence number. */
    method RestoreOne(data: array<byte>, sector: nat) returns (r: Outcome<bool>)
      requires |signature| == 2 && (forall v | v in originalValues :: |v| == 2)
      requires TailAt(sector) + 2 <= data.Length
      modifies data
      ensures Repaired(r, data[..]) == OneRestored(old(data[..]), signature, originalValues, sector)
    {
      var tail := TailAt(sector);
      if !(data[tail] == signature[0] && data[tail + 1] == signature[1]) {
        return Done(false);
      }
      if sector >= |originalValues| {
        return Panic;
      }
      data[tail] := originalValues[sector][0];
      data[tail + 1] := originalValues[sector][1];
      return Done(true);
    }

    /** Parse's two repair steps. On a record with one entry for the sequence number and one for each sector
        they restore exactly the sectors that carry the sequence number. */
    method Repair(data: array<byte>) returns (r: Outcome<bool>)
      requires Valid()
      modifies this, data
      ensures var b, at, n := old(data[..]), fixupArrayOffset, data.Length / SECTOR;
              numFixupEntries == n + 1 && n < 128 && at + 2 * (n + 1) < TWO_TO_16 && Layout(|b|, at, n) ==>
                r.Done? && data[..] == Restored(b, at, n, MatchingSectors(b, at, n))
    {
      hide Restored, MatchingSectors, TailsRestored;
      ghost var b, at, n := data[..], fixupArrayOffset, data.Length / SECTOR;
      var cut := ProcessFixUpArrays(data);
      if !cut.Done? {
        return if cut.Panic? then Panic else Error;
      }
      if numFixupEntries == n + 1 && Layout(|b|, at, n) {
        ArrayCopied(b, at, n, signature, originalValues);
        MatchingSectorsRestored(b, at, n, signature, originalValues);
      }
      r := RestoreTails(data);
    }
  }

  /** One sector of the index record's loop; the sequence number and the saved values are copies. */
  function OneRestored(b: seq<byte>, signature: seq<byte>, values: seq<seq<byte>>, sector: nat): Repaired
    requires |signature| == 2 && (forall v | v in values :: |v| == 2) && TailAt(sector) + 2 <= |b|
  {
    var tail := TailAt(sector);
    if b[tail] != signature[0] || b[tail + 1] != signature[1] then Repaired(Done(false), b)
    else if sector >= |values| then Repaired(Panic, b)
    else Repaired(Done(true), b[tail := values[sector][0]][tail + 1 := values[sector][1]])
  }

  /** A record without a saved value for a sector that carries the sequence number faults, and one that does not is left
      alone. */
  lemma MissingValue(b: seq<byte>, signature: seq<byte>)
    requires |b| == 512 && |signature| == 2
    ensures OneRestored(b, signature, [], 0) ==
            Repaired(if b[510..512] == signature then Panic else Done(false), b)
  {
    assert b[510..512] == [b[510], b[511]] && signature == [signature[0], signature[1]];
  }

  /** The index record's loop from a sector number on: it passes over sectors that do not match. */
  function TailsRestored(b: seq<byte>, signature: seq<byte>, values: seq<seq<byte>>, sectorNum: nat): Repaired
    requires |signature| == 2 && (forall v | v in values :: |v| == 2) && sectorNum > 0
    decreases |b| - sectorNum
  {
    if sectorNum * 512 > |b| then Repaired(Done(true), b)
    else
      var one := OneRestored(b, signature, values, sectorNum - 1);
      if one.outcome.Done? then TailsRestored(one.bytes, signature, values, sectorNum + 1) else one
  }

  /** The copies hold what the page's array holds. */
  ghost predicate Copied(b: seq<byte>, at: nat, n: nat, signature: seq<byte>, values: seq<seq<byte>>)
    requires Layout(|b|, at, n)
  {
    |signature| == 2 && signature[0] == b[at] && signature[1] == b[at + 1] && |values| == n &&
    forall s | 0 <= s < n ::
      |values[s]| == 2 && values[s][0] == b[SavedAt(at, s)] && values[s][1] == b[SavedAt(at, s) + 1]
  }

  lemma ArrayCopied(b: seq<byte>, at: nat, n: nat, signature: seq<byte>, values: seq<seq<byte>>)
    requires Layout(|b|, at, n) && signature == b[at..at + 2] && |values| == n
    requires forall s | 0 <= s < n :: values[s] == b[SavedAt(at, s)..SavedAt(at, s) + 2]
    ensures Copied(b, at, n, signature, values)
  {
  }

  lemma OneMatching(b: seq<byte>, at: nat, n: nat, signature: seq<byte>, values: seq<seq<byte>>, sector: nat, done: set<nat>)
    requires Layout(|b|, at, n) && sector < n && sector !in done && Copied(b, at, n, signature, values)
    ensures TailAt(sector) + 2 <= |b| && forall v | v in values :: |v| == 2
    ensures OneRestored(Restored(b, at, n, done), signature, values, sector) ==
            if Matches(b, at, sector) then Repaired(Done(true), Restored(b, at, n, done + {sector}))
            else Repaired(Done(false), Restored(b, at, n, done))
  {
    hide Restored, SectorOf, TailByte, Layout;
    TailInPage(|b|, at, n, sector);
    OthersUntouched(b, at, n, done, sector);
    var tail := TailAt(sector);
    var before := Restored(b, at, n, done);
    NextRestored(b, at, n, done, sector, before[tail := values[sector][0]][tail + 1 := values[sector][1]]);
  }

  lemma {:induction false} MatchingFrom(b: seq<byte>, at: nat, n: nat, signature: seq<byte>, values: seq<seq<byte>>,
                                        sector: nat, done: set<nat>)
    requires Layout(|b|, at, n) && n == |b| / SECTOR && sector <= n && Copied(b, at, n, signature, values)
    requires done == MatchingSectors(b, at, n) * UpTo(sector)
    ensures forall v | v in values :: |v| == 2
    ensures TailsRestored(Restored(b, at, n, done), signature, values, sector + 1) ==
            Repaired(Done(true), Restored(b, at, n, MatchingSectors(b, at, n)))
    decreases n - sector
  {
    hide Restored, Layout, OneRestored, Matches;
    if sector < n {
      TailInPage(|b|, at, n, sector);
      OneMatching(b, at, n, signature, values, sector, done);
      MatchingFrom(b, at, n, signature, values, sector + 1, if Matches(b, at, sector) then done + {sector} else done);
    } else {
      assert done == MatchingSectors(b, at, n);
    }
  }

  /** With the array copied before the loop, every matching sector is restored. */
  lemma MatchingSectorsRestored(b: seq<byte>, at: nat, n: nat, signature: seq<byte>, values: seq<seq<byte>>)
    requires Layout(|b|, at, n) && n == |b| / SECTOR && Copied(b, at, n, signature, values)
    ensures forall v | v in values :: |v| == 2
    ensures TailsRestored(b, signature, values, 1) == Repaired(Done(true), Restored(b, at, n, MatchingSectors(b, at, n)))
  {
    hide Restored, Layout, TailsRestored;
    NothingRestored(b, at, n);
    assert UpTo(0) == {};
    MatchingFrom(b, at, n, signature, values, 0, {});
  }

  // ---------- Repair undoes protection ----------

  /** On a protected page every sector carries the sequence number. */
  lemma ProtectedMatches(page: seq<byte>, arrayAt: nat, n: nat, stored: seq<byte>)
    requires Layout(|page|, arrayAt, n) && Protects(page, arrayAt, n, stored)
    ensures MatchingPrefix(stored, arrayAt, n, 0) == n && MatchingSectors(stored, arrayAt, n) == UpTo(n)
  {
    forall s: nat | s < n
      ensures Matches(stored, arrayAt, s)
    {
      var t := TailAt(s);
      assert stored[t..t + 2][0] == stored[t] && stored[t..t + 2][1] == stored[t + 1];
      assert stored[arrayAt..arrayAt + 2][0] == stored[arrayAt];
      assert stored[arrayAt..arrayAt + 2][1] == stored[arrayAt + 1];
    }
  }

  /** Repairing a protected page restores every tail and changes nothing else. */
  lemma RepairUndoesProtection(page: seq<byte>, arrayAt: nat, n: nat, stored: seq<byte>)
    requires Layout(|page|, arrayAt, n) && Protects(page, arrayAt, n, stored)
    ensures var r := Restored(stored, arrayAt, n, UpTo(n));
            forall k | 0 <= k < |page| ::
              r[k] == if arrayAt <= k < SavedAt(arrayAt, n) then stored[k] else page[k]
  {
    hide Restored, SectorOf, TailByte, Protects, Layout;
    ProtectedSize(page, arrayAt, n, stored);
    forall k | 0 <= k < |page|
      ensures Restored(stored, arrayAt, n, UpTo(n))[k] ==
              if arrayAt <= k < SavedAt(arrayAt, n) then stored[k] else page[k]
    {
      RestoredAt(stored, arrayAt, n, UpTo(n), k);
      if arrayAt <= k < SavedAt(arrayAt, n) {
        ArrayIsClear(|page|, arrayAt, n, k);
      } else if InTail(k, n) {
        SavedByte(page, arrayAt, n, stored, k);
      } else {
        OutsideIsKept(page, arrayAt, n, stored, k);
      }
    }
  }

  lemma ProtectedSize(page: seq<byte>, arrayAt: nat, n: nat, stored: seq<byte>)
    requires Layout(|page|, arrayAt, n) && Protects(page, arrayAt, n, stored)
    ensures |stored| == |page|
  {
  }

  lemma SavedByte(page: seq<byte>, arrayAt: nat, n: nat, stored: seq<byte>, k: nat)
    requires Layout(|page|, arrayAt, n) && Protects(page, arrayAt, n, stored) && k < |page| && InTail(k, n)
    ensures SavedAt(arrayAt, SectorOf(k)) + TailByte(k) < |stored|
    ensures stored[SavedAt(arrayAt, SectorOf(k)) + TailByte(k)] == page[k]
  {
    hide SectorOf, TailByte;
    TailPosition(k);
    var s, j := SectorOf(k), TailByte(k);
    var t, v := TailAt(s), SavedAt(arrayAt, s);
    TailInPage(|page|, arrayAt, n, s);
    assert stored[v..v + 2] == page[t..t + 2];
    assert stored[v..v + 2][j] == stored[v + j];
    assert page[t..t + 2][j] == page[t + j];
  }

  lemma OutsideIsKept(page: seq<byte>, arrayAt: nat, n: nat, stored: seq<byte>, k: nat)
    requires Layout(|page|, arrayAt, n) && Protects(page, arrayAt, n, stored)
    requires k < |page| && !InTail(k, n) && !(arrayAt <= k < SavedAt(arrayAt, n))
    ensures stored[k] == page[k]
  {
  }

  /** Both repairs bring back a protected page: the log page's version, whose values alias the page, and
      the index record's version. */
  lemma RepairsRestorePage(page: seq<byte>, arrayAt: nat, n: nat, stored: seq<byte>)
    requires Layout(|page|, arrayAt, n) && Protects(page, arrayAt, n, stored)
    ensures Restored(stored, arrayAt, n, UpTo(MatchingPrefix(stored, arrayAt, n, 0))) ==
            Restored(stored, arrayAt, n, MatchingSectors(stored, arrayAt, n))
    ensures var r := Restored(stored, arrayAt, n, MatchingSectors(stored, arrayAt, n));
            forall k | 0 <= k < |page| ::
              r[k] == if arrayAt <= k < SavedAt(arrayAt, n) then stored[k] else page[k]
  {
    hide Restored, Protects;
    ProtectedSize(page, arrayAt, n, stored);
    ProtectedMatches(page, arrayAt, n, stored);
    RepairUndoesProtection(page, arrayAt, n, stored);
  }
}
