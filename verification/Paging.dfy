// The page tables (student-distrib/paging.c) and the translation they mean.
module Paging {
  import opened Console

  const ENTRIES := 1024
  const PAGE_SIZE := 0x1000
  const BIG_PAGE := 0x40_0000
  const KERNEL := 0x40_0000
  const VIDEO_PAGE_OFF := 0xB8
  const TASK_ENTRY := 32        // the directory entry of the running program
  const VIDEO_ENTRY := 33       // the directory entry of the terminals' video pages
  const RESERV_CODE_2 := 0x7

  // A page-directory entry: a 4 MB page, or one of the two tables.
  datatype Entry = NotPresent | BigPage(base: nat) | FirstTable | SecondTable

  datatype Address = Fault | Physical(at: nat)

  // A table word is a page's base with flags in the low 12 bits; bit 0 is "present".
  function InTable(word: nat, v: nat): Address {
    if word % 2 == 1 then Physical(word - word % PAGE_SIZE + v % PAGE_SIZE) else Fault
  }

  lemma LowBits(q: nat, flags: nat)
    requires flags < PAGE_SIZE
    ensures (PAGE_SIZE * q + flags) % PAGE_SIZE == flags
  {
  }

  lemma LowBit(q: nat, flags: nat)
    ensures (PAGE_SIZE * q + flags) % 2 == flags % 2
  {
    assert PAGE_SIZE * q + flags == 2 * (2048 * q) + flags;
  }

  // Reading an aligned base back out of its table word.
  lemma WordReadsBack(base: nat, flags: nat, v: nat)
    requires base % PAGE_SIZE == 0 && flags < PAGE_SIZE && flags % 2 == 1
    ensures InTable(base + flags, v) == Physical(base + v % PAGE_SIZE)
  {
    var q := base / PAGE_SIZE;
    assert base == PAGE_SIZE * q;
    LowBits(q, flags);
    LowBit(q, flags);
  }

  class Tables {
    const directory: array<Entry>
    const table: array<nat>
    const table2: array<nat>

    ghost predicate Valid() {
      && directory.Length == ENTRIES && table.Length == ENTRIES && table2.Length == ENTRIES
      && table != table2
    }

    // What the processor does with a virtual address; the TLB is taken to be current.
    function Translate(v: nat): Address
      requires Valid() && v / BIG_PAGE < ENTRIES
      reads directory, table, table2
    {
      match directory[v / BIG_PAGE]
      case NotPresent => Fault
      case BigPage(base) => Physical(base + v % BIG_PAGE)
      case FirstTable => InTable(table[v / PAGE_SIZE % ENTRIES], v)
      case SecondTable => InTable(table2[v / PAGE_SIZE % ENTRIES], v)
    }

    constructor ()
      ensures Valid() && fresh(directory) && fresh(table) && fresh(table2)
    {
      directory := new Entry[ENTRIES](_ => NotPresent);
      table := new nat[ENTRIES](_ => 0);
      table2 := new nat[ENTRIES](_ => 0);
    }

    method FillTable()
      requires Valid()
      modifies table, table2
      ensures forall i {:trigger table[i]} :: 0 <= i < ENTRIES ==>
        table[i] == if i == VIDEO_PAGE_OFF then VIDEO + 1 else i * PAGE_SIZE
      ensures forall i {:trigger table2[i]} :: 0 <= i < ENTRIES ==> table2[i] == i * PAGE_SIZE
    {
      var i := 0;
      while i < ENTRIES
        invariant 0 <= i <= ENTRIES
        invariant forall j {:trigger table[j]} :: 0 <= j < i ==> table[j] == j * PAGE_SIZE
        invariant forall j {:trigger table2[j]} :: 0 <= j < i ==> table2[j] == j * PAGE_SIZE
      {
        table[i] := i * PAGE_SIZE;
        table2[i] := i * PAGE_SIZE;
        i := i + 1;
      }
      table[VIDEO_PAGE_OFF] := VIDEO + 1;
    }

    method FillDirectory()
      requires Valid()
      modifies directory
      ensures forall i {:trigger directory[i]} :: 0 <= i < ENTRIES ==>
        directory[i] == if i == 0 then FirstTable else if i == 1 then BigPage(KERNEL)
                        else if i == VIDEO_ENTRY then SecondTable else NotPresent
    {
      directory[0] := FirstTable;
      directory[1] := BigPage(KERNEL);
      var i := 2;
      while i < ENTRIES
        invariant 2 <= i <= ENTRIES
        invariant directory[0] == FirstTable && directory[1] == BigPage(KERNEL)
        invariant forall j {:trigger directory[j]} :: 2 <= j < i ==> directory[j] == NotPresent
      {
        directory[i] := NotPresent;
        i := i + 1;
      }
      directory[VIDEO_ENTRY] := SecondTable;
    }

    // The program's 4 MB page; the address is aligned, so or-ing the flags in and
    // reading the base back is the identity.
    method SetupPagingDirectory(addr: nat)
      requires Valid()
      modifies directory
      ensures directory[..] == old(directory[..])[TASK_ENTRY := BigPage(addr)]
    {
      directory[TASK_ENTRY] := BigPage(addr);
    }

    method SetupPagingDirectoryTable(reserved: nat, addr: nat, idx: nat)
      requires Valid() && VIDEO_PAGE_OFF + idx < ENTRIES
      requires addr % PAGE_SIZE == 0 && reserved < PAGE_SIZE
      modifies table2
      ensures table2[..] == old(table2[..])[VIDEO_PAGE_OFF + idx := addr + reserved]
    {
      table2[VIDEO_PAGE_OFF + idx] := addr + reserved;
    }
  }
}
