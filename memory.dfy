/** The guest address space of kernel/memory.cpp: one reserved block of
    `PPC_MEMORY_SIZE` bytes whose first page is made inaccessible, and the
    installation of the host functions listed in `PPCFuncMappings`.

    Host pointers into the block are represented by their offset from the
    block's base, so `Translate` is the identity on guest addresses. The
    protection of the block is an access map with one entry per byte, and
    `InsertFunction` appends to a log of installed redirects. */
module KernelMemory {
  import opened Wrappers

  /** `PPC_MEMORY_SIZE`: the whole 32-bit guest address space. */
  const PPC_MEMORY_SIZE: nat := 0x1_0000_0000

  /** The size of the guard region made inaccessible at the start of the block. */
  const GUARD_SIZE: nat := 4096

  datatype Protection = ReadWrite | NoAccess

  /** A 32-bit guest address. */
  type u32 = x: int | 0 <= x < 0x1_0000_0000

  /** A host function pointer, identified by an opaque number. */
  type HostFunction = nat

  /** One entry of `PPCFuncMappings`; `host == None` is a null pointer. */
  datatype FuncMapping = FuncMapping(guest: u32, host: Option<HostFunction>)

  /** One call `InsertFunction(guest, host)`. */
  datatype Insertion = Insertion(guest: u32, host: HostFunction)

  /** `Memory::Translate`: the host address of a guest address, as an offset
      into the reserved block. */
  function Translate(guestAddress: u32): (host: nat)
    ensures host < PPC_MEMORY_SIZE
    ensures host == guestAddress
  {
    guestAddress
  }

  /** `VirtualAlloc(..., PAGE_READWRITE)` / `mmap(..., PROT_READ | PROT_WRITE, ...)`:
      a block of `size` bytes, all readable and writable. */
  ghost function Reserve(size: nat): (m: seq<Protection>)
    ensures |m| == size
    ensures forall a :: 0 <= a < size ==> m[a] == ReadWrite
  {
    seq(size, _ => ReadWrite)
  }

  /** `VirtualProtect` / `mprotect` of `[start, start + len)` to `prot`. */
  ghost function Protect(m: seq<Protection>, start: nat, len: nat, prot: Protection): (r: seq<Protection>)
    requires start + len <= |m|
    ensures |r| == |m|
    ensures forall a :: 0 <= a < |m| ==> r[a] == if start <= a < start + len then prot else m[a]
  {
    seq(|m|, a requires 0 <= a < |m| => if start <= a < start + len then prot else m[a])
  }

  /** The entries the mapping walk visits: those before the first entry whose
      guest address is 0. */
  function BeforeSentinel(table: seq<FuncMapping>): (r: seq<FuncMapping>)
    ensures |r| <= |table| && r == table[..|r|]
    ensures forall j :: 0 <= j < |r| ==> table[j].guest != 0
    ensures |r| < |table| ==> table[|r|].guest == 0
  {
    if |table| == 0 || table[0].guest == 0 then []
    else [table[0]] + BeforeSentinel(table[1..])
  }

  /** The redirects installed for `entries`: one per non-null host, in order. */
  function Hosted(entries: seq<FuncMapping>): seq<Insertion> {
    if |entries| == 0 then []
    else (match entries[0].host
          case Some(h) => [Insertion(entries[0].guest, h)]
          case None => [])
         + Hosted(entries[1..])
  }

  /** The redirects the constructor installs for `table`. */
  function Installed(table: seq<FuncMapping>): seq<Insertion> {
    Hosted(BeforeSentinel(table))
  }

  lemma {:induction false} HostedAppend(s: seq<FuncMapping>, t: seq<FuncMapping>)
    ensures Hosted(s + t) == Hosted(s) + Hosted(t)
  {
    if |s| > 0 {
      assert (s + t)[1..] == s[1..] + t;
      HostedAppend(s[1..], t);
    } else {
      assert s + t == t;
    }
  }

  /** A redirect is installed for `entries` iff some entry carries it with a
      non-null host. */
  lemma {:induction false} HostedMembers(entries: seq<FuncMapping>, x: Insertion)
    ensures x in Hosted(entries) <==>
      exists j :: 0 <= j < |entries| && entries[j].host == Some(x.host) && entries[j].guest == x.guest
  {
    if |entries| > 0 {
      HostedMembers(entries[1..], x);
      if x in Hosted(entries[1..]) {
        var j :| 0 <= j < |entries[1..]| && entries[1..][j].host == Some(x.host) && entries[1..][j].guest == x.guest;
        assert entries[j + 1] == entries[1..][j];
      }
      forall j | 1 <= j < |entries| && entries[j].host == Some(x.host) && entries[j].guest == x.guest
        ensures x in Hosted(entries[1..])
      {
        assert entries[1..][j - 1] == entries[j];
      }
    }
  }

  /** The number of non-null hosts among `entries`. */
  function HostedCount(entries: seq<FuncMapping>): nat {
    if |entries| == 0 then 0
    else (if entries[0].host.Some? then 1 else 0) + HostedCount(entries[1..])
  }

  /** Installation keeps the table's order: entry `j`'s redirect is the
      `HostedCount(entries[..j])`-th one of the log. So of two entries for the
      same guest address, the earlier one is installed first. */
  lemma {:induction false} HostedPosition(entries: seq<FuncMapping>, j: nat)
    requires j < |entries| && entries[j].host.Some?
    ensures HostedCount(entries[..j]) < |Hosted(entries)|
    ensures Hosted(entries)[HostedCount(entries[..j])] == Insertion(entries[j].guest, entries[j].host.value)
  {
    HostedLength(entries);
    if j > 0 {
      assert entries[..j][1..] == entries[1..][..j - 1];
      HostedPosition(entries[1..], j - 1);
    }
  }

  lemma {:induction false} HostedLength(entries: seq<FuncMapping>)
    ensures |Hosted(entries)| == HostedCount(entries)
  {
    if |entries| > 0 {
      HostedLength(entries[1..]);
    }
  }

  /** `HostedCount` grows along the table. */
  lemma {:induction false} HostedCountMonotone(entries: seq<FuncMapping>, i: nat, j: nat)
    requires i < j <= |entries| && entries[i].host.Some?
    ensures HostedCount(entries[..i]) < HostedCount(entries[..j])
  {
    HostedAppend(entries[..i], entries[i..j]);
    assert entries[..j] == entries[..i] + entries[i..j];
    HostedLength(entries[..i]);
    HostedLength(entries[..j]);
    HostedLength(entries[i..j]);
    assert entries[i..j][0] == entries[i];
  }

  /** Of two non-null entries before the sentinel, the earlier is installed
      earlier; in particular the first of two entries for one guest address
      is the first to be installed. */
  lemma FirstRegisteredFirstInstalled(table: seq<FuncMapping>, i: nat, j: nat)
    requires i < j < |BeforeSentinel(table)|
    requires table[i].host.Some? && table[j].host.Some?
    ensures exists ki, kj ::
      (&& 0 <= ki < kj < |Installed(table)|
       && Installed(table)[ki] == Insertion(table[i].guest, table[i].host.value)
       && Installed(table)[kj] == Insertion(table[j].guest, table[j].host.value))
  {
    var entries := BeforeSentinel(table);
    assert entries[i] == table[i] && entries[j] == table[j];
    HostedPosition(entries, i);
    HostedPosition(entries, j);
    HostedCountMonotone(entries, i, j);
    var ki, kj := HostedCount(entries[..i]), HostedCount(entries[..j]);
    assert Installed(table)[ki] == Insertion(table[i].guest, table[i].host.value);
    assert Installed(table)[kj] == Insertion(table[j].guest, table[j].host.value);
  }

  /** An entry before the sentinel is installed iff its host is non-null,
      and no entry at or after the sentinel contributes anything. */
  lemma InstalledIff(table: seq<FuncMapping>, x: Insertion)
    ensures x in Installed(table) <==>
      exists j :: 0 <= j < |BeforeSentinel(table)| && table[j].host == Some(x.host) && table[j].guest == x.guest
  {
    var entries := BeforeSentinel(table);
    HostedMembers(entries, x);
    if x in Installed(table) {
      var j :| 0 <= j < |entries| && entries[j].host == Some(x.host) && entries[j].guest == x.guest;
      assert table[j] == entries[j];
    }
  }

  /** The table holds its terminating entry. */
  predicate HasSentinel(table: seq<FuncMapping>) {
    exists j :: 0 <= j < |table| && table[j].guest == 0
  }

  /** A table with a sentinel is walked to the sentinel and no further. */
  lemma SentinelBoundsWalk(table: seq<FuncMapping>)
    requires HasSentinel(table)
    ensures |BeforeSentinel(table)| < |table|
  {
    var j :| 0 <= j < |table| && table[j].guest == 0;
  }

  /** The global `g_memory`. */
  class Memory {
    /** Access rights of each byte of the reserved block. */
    ghost var protection: seq<Protection>
    /** The `InsertFunction` calls made so far, oldest first. */
    var inserted: seq<Insertion>

    /** The block spans the guest address space and only its first page is
        inaccessible. */
    ghost predicate Valid()
      reads this
    {
      && |protection| == PPC_MEMORY_SIZE
      && forall a :: 0 <= a < PPC_MEMORY_SIZE ==>
           protection[a] == if a < GUARD_SIZE then NoAccess else ReadWrite
    }

    /** `Memory::Memory()` over the mapping table `table` (`PPCFuncMappings`). */
    constructor (table: seq<FuncMapping>)
      requires HasSentinel(table)
      ensures Valid()
      ensures inserted == Installed(table)
    {
      protection := Protect(Reserve(PPC_MEMORY_SIZE), 0, GUARD_SIZE, NoAccess);
      inserted := [];
      new;
      ghost var reserved := protection;
      ghost var walked := |BeforeSentinel(table)|;
      SentinelBoundsWalk(table);
      var i := 0;
      while table[i].guest != 0
        invariant 0 <= i <= walked
        invariant inserted == Hosted(table[..i])
        invariant protection == reserved
        decreases walked - i
      {
        assert table[..i + 1] == table[..i] + [table[i]];
        HostedAppend(table[..i], [table[i]]);
        if table[i].host != None {
          InsertFunction(table[i].guest, table[i].host.value);
        }
        i := i + 1;
      }
    }

    /** `InsertFunction(guest, host)`: record one redirect. */
    method InsertFunction(guest: u32, host: HostFunction)
      modifies this`inserted
      ensures inserted == old(inserted) + [Insertion(guest, host)]
    {
      inserted := inserted + [Insertion(guest, host)];
    }

    /** Guest addresses in the first page fault; every other one is usable. */
    lemma GuardPage(p: u32)
      requires Valid()
      ensures protection[MmGetHostAddress(p)] == if p as nat < GUARD_SIZE then NoAccess else ReadWrite
    {
    }
  }

  /** `MmGetHostAddress(ptr)`: `g_memory.Translate(ptr)`. */
  function MmGetHostAddress(ptr: u32): (host: nat)
    ensures host == Translate(ptr)
  {
    Translate(ptr)
  }
}
