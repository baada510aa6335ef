/** The achievement record table of user/achievement_manager.cpp: a fixed
    array of (ID, Timestamp) records whose live part is the run of records
    before the first one with ID 0. */
module Achievements {
  import KernelMemory

  /** A `uint16_t` achievement ID. */
  type u16 = x: int | 0 <= x < 0x1_0000

  /** `AchievementData::AchRecord`. */
  datatype AchRecord = AchRecord(id: u16, timestamp: int)

  /** A zeroed record, as left by `Data = {}`. */
  const EmptyRecord: AchRecord := AchRecord(0, 0)

  /** The number of records before the first one with ID 0. */
  function PrefixLen(s: seq<AchRecord>): (n: nat)
    ensures n <= |s|
    ensures forall k :: 0 <= k < n ==> s[k].id != 0
    ensures n < |s| ==> s[n].id == 0
  {
    if |s| == 0 || s[0].id == 0 then 0 else 1 + PrefixLen(s[1..])
  }

  /** `id` is recorded before the first empty record. */
  ghost predicate Unlocked(s: seq<AchRecord>, id: u16) {
    exists k :: 0 <= k < PrefixLen(s) && s[k].id == id
  }

  /** The first position of `id` before the first empty record, or
      `PrefixLen(s)` when there is none. */
  function IndexOf(s: seq<AchRecord>, id: u16): (k: nat)
    ensures k <= PrefixLen(s)
    ensures k < PrefixLen(s) ==> s[k].id == id
    ensures forall j :: 0 <= j < k ==> s[j].id != id
  {
    if |s| == 0 || s[0].id == 0 || s[0].id == id then 0 else 1 + IndexOf(s[1..], id)
  }

  /** Every record after an empty one is empty: the IDs form a packed prefix. */
  ghost predicate Packed(s: seq<AchRecord>) {
    forall i, j :: 0 <= i < j < |s| && s[i].id == 0 ==> s[j].id == 0
  }

  /** No non-zero ID occurs twice. */
  ghost predicate NoDuplicates(s: seq<AchRecord>) {
    forall i, j :: 0 <= i < j < |s| && s[i].id != 0 ==> s[i].id != s[j].id
  }

  /** The table after `Unlock(id)` at time `now`: unchanged when `id` is
      already unlocked or no record is empty, otherwise the first empty record
      becomes `(id, now)`. */
  ghost function UnlockSpec(s: seq<AchRecord>, id: u16, now: int): seq<AchRecord> {
    if Unlocked(s, id) || PrefixLen(s) == |s| then s
    else s[PrefixLen(s) := AchRecord(id, now)]
  }

  /** The table after unlocking `ids` one after the other. */
  ghost function UnlockMany(s: seq<AchRecord>, ids: seq<u16>, now: int): seq<AchRecord>
    decreases |ids|
  {
    if |ids| == 0 then s
    else UnlockMany(UnlockSpec(s, ids[0], now), ids[1..], now)
  }

  /** Unlocking never changes the table's size. */
  lemma UnlockKeepsLength(s: seq<AchRecord>, id: u16, now: int)
    ensures |UnlockSpec(s, id, now)| == |s|
  {
  }

  /** Unlocking a new ID into a packed table with room fills exactly the
      first empty record: the count grows by one, the ID is now unlocked with
      timestamp `now`, and no other record changes. */
  lemma UnlockNew(s: seq<AchRecord>, id: u16, now: int)
    requires Packed(s) && id != 0 && !Unlocked(s, id) && PrefixLen(s) < |s|
    ensures var t := UnlockSpec(s, id, now);
      && |t| == |s|
      && PrefixLen(t) == PrefixLen(s) + 1
      && t[PrefixLen(s)] == AchRecord(id, now)
      && (forall j :: 0 <= j < |s| && j != PrefixLen(s) ==> t[j] == s[j])
      && Unlocked(t, id)
  {
    var n, t := PrefixLen(s), UnlockSpec(s, id, now);
    PrefixLenAt(t, n + 1);
  }

  /** `Unlock(0)` is never a no-op on a table with room, since ID 0 is never
      unlocked. Instead it overwrites the first empty record with `(0, now)`,
      which leaves that record empty: the count and the unlocked IDs stay as
      they were. */
  lemma UnlockZero(s: seq<AchRecord>, now: int)
    requires PrefixLen(s) < |s|
    ensures var t := UnlockSpec(s, 0, now);
      && t == s[PrefixLen(s) := AchRecord(0, now)]
      && PrefixLen(t) == PrefixLen(s)
      && forall x: u16 :: Unlocked(t, x) <==> Unlocked(s, x)
  {
    var n := PrefixLen(s);
    assert !Unlocked(s, 0);
    var t := s[n := AchRecord(0, now)];
    PrefixLenAt(t, n);
    assert t[..n] == s[..n];
    forall x: u16
      ensures Unlocked(t, x) <==> Unlocked(s, x)
    {
      SamePrefixUnlocked(s, t, x);
    }
  }

  /** Whether `id` is unlocked depends only on the records before the first
      empty one. */
  lemma SamePrefixUnlocked(s: seq<AchRecord>, t: seq<AchRecord>, id: u16)
    requires PrefixLen(s) == PrefixLen(t) && s[..PrefixLen(s)] == t[..PrefixLen(t)]
    ensures Unlocked(s, id) <==> Unlocked(t, id)
  {
    var n := PrefixLen(s);
    if Unlocked(s, id) {
      var k :| 0 <= k < n && s[k].id == id;
      assert s[..n][k] == t[..n][k];
    }
    if Unlocked(t, id) {
      var k :| 0 <= k < n && t[k].id == id;
      assert s[..n][k] == t[..n][k];
    }
  }

  /** A prefix length is determined by the first empty position. */
  lemma PrefixLenAt(s: seq<AchRecord>, n: nat)
    requires n <= |s|
    requires forall k :: 0 <= k < n ==> s[k].id != 0
    requires n < |s| ==> s[n].id == 0
    ensures PrefixLen(s) == n
  {
  }

  /** On a full table, and for an ID already unlocked, `Unlock` changes nothing. */
  lemma UnlockNoRoomOrKnown(s: seq<AchRecord>, id: u16, now: int)
    requires Unlocked(s, id) || PrefixLen(s) == |s|
    ensures UnlockSpec(s, id, now) == s
  {
  }

  /** `Unlock` keeps both table invariants: a packed prefix and no duplicates. */
  lemma UnlockPreservesInvariants(s: seq<AchRecord>, id: u16, now: int)
    requires Packed(s) && NoDuplicates(s)
    ensures Packed(UnlockSpec(s, id, now)) && NoDuplicates(UnlockSpec(s, id, now))
  {
    var n, t := PrefixLen(s), UnlockSpec(s, id, now);
    if t != s {
      forall i, j | 0 <= i < j < |t| && t[i].id != 0
        ensures t[i].id != t[j].id
      {
        if j == n && i < n {
          assert s[i].id != id;
        } else if i == n {
          assert s[j].id == 0;
        }
      }
    }
  }

  /** Unlocking never removes an unlocked ID, and never shrinks the count. */
  lemma UnlockMonotone(s: seq<AchRecord>, id: u16, now: int, x: u16)
    ensures PrefixLen(UnlockSpec(s, id, now)) >= PrefixLen(s)
    ensures Unlocked(s, x) ==> Unlocked(UnlockSpec(s, id, now), x)
  {
    var n, t := PrefixLen(s), UnlockSpec(s, id, now);
    if t != s {
      if Unlocked(s, x) {
        var k :| 0 <= k < n && s[k].id == x;
        assert t[k] == s[k];
      }
    }
  }

  /** Unlocking twice is unlocking once. */
  lemma {:induction false} UnlockIdempotent(s: seq<AchRecord>, id: u16, now: int, later: int)
    requires id != 0
    ensures UnlockSpec(UnlockSpec(s, id, now), id, later) == UnlockSpec(s, id, now)
  {
    var n, t := PrefixLen(s), UnlockSpec(s, id, now);
    if t != s {
      assert t[n] == AchRecord(id, now);
      assert Unlocked(t, id);
    }
  }

  /** In a packed table, one unlock adds at most one record to the count. */
  lemma UnlockGrowsByAtMostOne(s: seq<AchRecord>, id: u16, now: int)
    requires Packed(s)
    ensures PrefixLen(UnlockSpec(s, id, now)) <= PrefixLen(s) + 1
  {
    var n, t := PrefixLen(s), UnlockSpec(s, id, now);
    if t != s && n + 1 < |s| {
      assert t[n + 1] == s[n + 1];
    }
  }

  /** Unlocking a list of IDs never removes an unlocked ID. */
  lemma {:induction false} UnlockManyMonotone(s: seq<AchRecord>, ids: seq<u16>, now: int, x: u16)
    requires Unlocked(s, x)
    decreases |ids|
    ensures Unlocked(UnlockMany(s, ids, now), x)
  {
    if |ids| > 0 {
      UnlockMonotone(s, ids[0], now, x);
      UnlockManyMonotone(UnlockSpec(s, ids[0], now), ids[1..], now, x);
    }
  }

  /** Unlocking a list of IDs into a packed table with room for all of them
      leaves every non-zero one unlocked. */
  lemma {:induction false} UnlockManyUnlocks(s: seq<AchRecord>, ids: seq<u16>, now: int)
    requires Packed(s) && NoDuplicates(s)
    requires PrefixLen(s) + |ids| <= |s|
    decreases |ids|
    ensures |UnlockMany(s, ids, now)| == |s|
    ensures Packed(UnlockMany(s, ids, now)) && NoDuplicates(UnlockMany(s, ids, now))
    ensures PrefixLen(UnlockMany(s, ids, now)) <= PrefixLen(s) + |ids|
    ensures forall x :: x in ids && x != 0 ==> Unlocked(UnlockMany(s, ids, now), x)
  {
    if |ids| > 0 {
      var first, rest := ids[0], ids[1..];
      var t := UnlockSpec(s, first, now);
      UnlockKeepsLength(s, first, now);
      UnlockPreservesInvariants(s, first, now);
      UnlockGrowsByAtMostOne(s, first, now);
      UnlockManyUnlocks(t, rest, now);
      forall x | x in ids && x != 0
        ensures Unlocked(UnlockMany(s, ids, now), x)
      {
        if x == first {
          if !Unlocked(s, first) {
            UnlockNew(s, first, now);
          } else {
            UnlockMonotone(s, first, now, x);
          }
          UnlockManyMonotone(t, rest, now, x);
        } else {
          assert x in rest;
        }
      }
    }
  }

  /** The `if (i == 30) i = 31; if (i == 55) i = 64;` skips of `UnlockAll`. */
  function SkipGaps(i: int): (j: int)
    ensures i <= j
    ensures 24 <= i <= 83 && !(56 <= i <= 63) ==>
      IsAchievementId(j) && forall x :: i <= x < j ==> !IsAchievementId(x)
  {
    var a := if i == 30 then 31 else i;
    if a == 55 then 64 else a
  }

  /** The IDs `UnlockAll`'s loop unlocks from loop counter `i` on. */
  function LoopIds(i: int): seq<u16>
    requires 0 <= i <= 84
    decreases 84 - i
  {
    if i > 83 then [] else [SkipGaps(i)] + LoopIds(SkipGaps(i) + 1)
  }

  /** One turn of `UnlockAll`'s loop: from counter `i` it unlocks
      `SkipGaps(i)` and goes on from the next counter. */
  lemma LoopStep(s: seq<AchRecord>, i: int, now: int)
    requires 0 <= i <= 83 && 0 <= SkipGaps(i) < 84
    ensures UnlockMany(s, LoopIds(i), now)
         == UnlockMany(UnlockSpec(s, SkipGaps(i), now), LoopIds(SkipGaps(i) + 1), now)
  {
    assert LoopIds(i)[0] == SkipGaps(i);
    assert LoopIds(i)[1..] == LoopIds(SkipGaps(i) + 1);
  }

  /** The achievement IDs of the game: 24-29, 31-54 and 64-83. */
  predicate IsAchievementId(x: int) {
    24 <= x <= 29 || 31 <= x <= 54 || 64 <= x <= 83
  }

  /** The loop visits exactly the achievement IDs at or above `i`. */
  lemma {:induction false} LoopIdsMembers(i: int, x: int)
    requires 24 <= i <= 84 && !(56 <= i <= 63)
    ensures x in LoopIds(i) <==> i <= x && IsAchievementId(x)
    decreases 84 - i
  {
    if i <= 83 {
      LoopIdsMembers(SkipGaps(i) + 1, x);
    }
  }

  /** The number of IDs the loop still visits from counter `i`. */
  function IdsAhead(i: int): int {
    if i <= 30 then 30 - i + 44 else if i <= 55 then 55 - i + 20 else 84 - i
  }

  lemma {:induction false} LoopIdsLength(i: int)
    requires 24 <= i <= 84 && !(56 <= i <= 63)
    ensures |LoopIds(i)| == IdsAhead(i)
    decreases 84 - i
  {
    if i <= 83 {
      LoopIdsLength(SkipGaps(i) + 1);
    }
  }

  /** The IDs `UnlockAll` unlocks, in order: 24-29, 31-54, 64-83, fifty in all,
      none of them zero and none twice. */
  lemma UnlockAllIds()
    ensures |LoopIds(24)| == 50
    ensures forall x :: x in LoopIds(24) <==> IsAchievementId(x)
    ensures forall i, j :: 0 <= i < j < |LoopIds(24)| ==> LoopIds(24)[i] < LoopIds(24)[j]
  {
    LoopIdsLength(24);
    forall x {
      LoopIdsMembers(24, x);
    }
    LoopIdsSorted(24);
  }

  lemma {:induction false} LoopIdsSorted(i: int)
    requires 24 <= i <= 84 && !(56 <= i <= 63)
    ensures forall a, b :: 0 <= a < b < |LoopIds(i)| ==> LoopIds(i)[a] < LoopIds(i)[b]
    decreases 84 - i
  {
    if i <= 83 {
      var j := SkipGaps(i);
      LoopIdsSorted(j + 1);
      forall b | 0 < b < |LoopIds(i)|
        ensures LoopIds(i)[0] < LoopIds(i)[b]
      {
        LoopIdsMembers(j + 1, LoopIds(i)[b]);
      }
    }
  }

  /** After `UnlockAll` on a packed table with room for fifty more records,
      every achievement ID is unlocked. */
  lemma UnlockAllUnlocksEveryId(s: seq<AchRecord>, now: int)
    requires Packed(s) && NoDuplicates(s) && PrefixLen(s) + 50 <= |s|
    ensures forall x: u16 :: IsAchievementId(x) ==> Unlocked(UnlockMany(s, LoopIds(24), now), x)
  {
    UnlockAllIds();
    UnlockManyUnlocks(s, LoopIds(24), now);
  }

  /** `AchievementManager`; `records` is `Data.Records` and its length is
      `NUM_RECORDS`. */
  class AchievementManager {
    var records: array<AchRecord>

    constructor (numRecords: nat)
      ensures fresh(records)
      ensures records.Length == numRecords
      ensures forall k :: 0 <= k < numRecords ==> records[k] == EmptyRecord
    {
      records := new AchRecord[numRecords](_ => EmptyRecord);
    }

    /** `GetTimestamp(id)`: the timestamp of `id`'s record before the first
        empty one, or 0 when there is none. */
    method GetTimestamp(id: u16) returns (t: int)
      ensures var k := IndexOf(records[..], id);
        t == if k < PrefixLen(records[..]) then records[k].timestamp else 0
    {
      var i := 0;
      while i < records.Length
        invariant 0 <= i <= records.Length
        invariant forall j :: 0 <= j < i ==> records[j].id != 0 && records[j].id != id
      {
        if records[i].id == 0 {
          break;
        }
        if records[i].id == id {
          IndexOfAt(records[..], id, i);
          return records[i].timestamp;
        }
        i := i + 1;
      }
      IndexOfAt(records[..], id, i);
      return 0;
    }

    /** `GetTotalRecords()`: the number of records before the first empty one. */
    method GetTotalRecords() returns (n: nat)
      ensures n <= records.Length
      ensures forall k :: 0 <= k < n ==> records[k].id != 0
      ensures n < records.Length ==> records[n].id == 0
      ensures n == PrefixLen(records[..])
    {
      n := 0;
      while n < records.Length
        invariant 0 <= n <= records.Length
        invariant forall k :: 0 <= k < n ==> records[k].id != 0
      {
        if records[n].id == 0 {
          break;
        }
        n := n + 1;
      }
      PrefixLenAt(records[..], n);
    }

    /** `IsUnlocked(id)`: `id` is recorded before the first empty record;
        never true of ID 0. */
    method IsUnlocked(id: u16) returns (r: bool)
      ensures r <==> Unlocked(records[..], id)
      ensures id == 0 ==> !r
    {
      var i := 0;
      while i < records.Length
        invariant 0 <= i <= records.Length
        invariant forall j :: 0 <= j < i ==> records[j].id != 0 && records[j].id != id
      {
        if records[i].id == 0 {
          break;
        }
        if records[i].id == id {
          PrefixLenAtLeast(records[..], i);
          return true;
        }
        i := i + 1;
      }
      PrefixLenAt(records[..], i);
      return false;
    }

    /** `Unlock(id)` with the wall clock reading `now`. */
    method Unlock(id: u16, now: int)
      modifies records
      ensures records[..] == UnlockSpec(old(records[..]), id, now)
    {
      var known := IsUnlocked(id);
      if known {
        return;
      }
      var i := 0;
      while i < records.Length
        invariant 0 <= i <= records.Length
        invariant forall j :: 0 <= j < i ==> records[j].id != 0
        invariant records[..] == old(records[..])
      {
        if records[i].id == 0 {
          PrefixLenAt(records[..], i);
          records[i] := AchRecord(id, now);
          return;
        }
        i := i + 1;
      }
      PrefixLenAt(records[..], i);
    }

    /** `UnlockAll()`: unlock IDs 24 to 83, skipping 30 and 55-63, all with
        the clock reading `now`. */
    method UnlockAll(now: int)
      modifies records
      ensures records[..] == UnlockMany(old(records[..]), LoopIds(24), now)
    {
      var i: u16 := 24;
      while i <= 83
        invariant 24 <= i <= 84
        invariant UnlockMany(old(records[..]), LoopIds(24), now) == UnlockMany(records[..], LoopIds(i), now)
        decreases 84 - i
      {
        LoopStep(records[..], i, now);
        if i == 30 {
          i := 31;
        }
        if i == 55 {
          i := 64;
        }
        Unlock(i, now);
        i := i + 1;
      }
    }

    /** `Reset()`: `Data = {}`, then clear the four session flags of the
        shoe-upgrade achievements in guest memory. */
    method Reset(guest: array<bv8>)
      requires guest.Length == KernelMemory.PPC_MEMORY_SIZE
      requires records as object != guest as object
      modifies records, guest
      ensures forall k :: 0 <= k < records.Length ==> records[k] == EmptyRecord
      ensures PrefixLen(records[..]) == 0
      ensures forall a :: 0 <= a < guest.Length ==>
        guest[a] == if a in ShoeFlags() then 0 else old(guest[a])
    {
      forall k | 0 <= k < records.Length {
        records[k] := EmptyRecord;
      }
      guest[KernelMemory.Translate(0x833647C5)] := 0;
      guest[KernelMemory.Translate(0x83363004)] := 0;
      guest[KernelMemory.Translate(0x833647BC)] := 0;
      guest[KernelMemory.Translate(0x833647C4)] := 0;
    }
  }

  /** The guest addresses `Reset` clears: Lay the Smackdown, Wall Crawler,
      Airdevil, Hyperdrive. */
  function ShoeFlags(): set<nat> {
    {0x833647C5, 0x83363004, 0x833647BC, 0x833647C4}
  }

  /** The reset table is empty, packed and free of duplicates. */
  lemma ResetTableValid(s: seq<AchRecord>)
    requires forall k :: 0 <= k < |s| ==> s[k] == EmptyRecord
    ensures PrefixLen(s) == 0 && Packed(s) && NoDuplicates(s)
    ensures forall id: u16 :: !Unlocked(s, id)
  {
  }

  /** `IndexOf` stops at the first match or the first empty record. */
  lemma IndexOfAt(s: seq<AchRecord>, id: u16, i: nat)
    requires i <= |s|
    requires forall j :: 0 <= j < i ==> s[j].id != 0 && s[j].id != id
    requires i < |s| ==> s[i].id == 0 || s[i].id == id
    ensures IndexOf(s, id) == i
    ensures i < PrefixLen(s) <==> i < |s| && s[i].id != 0
  {
    PrefixLenAtLeast(s, i);
  }

  /** Records before the first empty one all lie inside the prefix. */
  lemma PrefixLenAtLeast(s: seq<AchRecord>, i: nat)
    requires i <= |s|
    requires forall j :: 0 <= j < i ==> s[j].id != 0
    ensures i <= PrefixLen(s)
    ensures i < |s| && s[i].id != 0 ==> i < PrefixLen(s)
  {
  }
}
