/** The size classes of the memory pool and its accounts on values: free chunks by size, and the kilobytes. */
module PoolSpec {

  const MEM_LOW: nat := 4096
  const MEM_UP: nat := 4096 * 1024
  const LIMIT_KB: nat := 4 * 1024 * 1024

  function Sizes(): set<nat> { {0x1000, 0x4000, 0x1_0000, 0x4_0000, 0x10_0000, 0x40_0000} }

  predicate IsClass(size: nat, n: int) {
    size in Sizes() && n <= size && forall s :: s in Sizes() && n <= s ==> size <= s
  }

  /** The smallest size class that holds `n` bytes. */
  function ClassOf(n: int): (size: nat)
    requires n <= MEM_UP
    ensures IsClass(size, n)
  {
    if n <= 0x1000 then 0x1000
    else if n <= 0x4000 then 0x4000
    else if n <= 0x1_0000 then 0x1_0000
    else if n <= 0x4_0000 then 0x4_0000
    else if n <= 0x10_0000 then 0x10_0000
    else 0x40_0000
  }

  lemma ClassIsUnique(size: nat, n: int)
    requires n <= MEM_UP && IsClass(size, n)
    ensures size == ClassOf(n)
  {}

  lemma SizesAre()
    ensures 0x1000 in Sizes() && 0x4000 in Sizes() && 0x1_0000 in Sizes() && 0x4_0000 in Sizes() && 0x10_0000 in Sizes()
    ensures 0x40_0000 in Sizes()
  {}

  /** The number of free chunks of each size, `m_total_size_kb_` and `m_left_size_kb_`. */
  datatype Accounts = Accounts(free: map<nat, nat>, total: nat, left: int)

  function Opening(): Accounts {
    Accounts(map[0x1000 := 4, 0x4000 := 500, 0x1_0000 := 250, 0x4_0000 := 100, 0x10_0000 := 25, 0x40_0000 := 10],
             116176, 116176)
  }

  predicate Covers(a: Accounts) { a.free.Keys == Sizes() }

  datatype Grant = Granted(size: nat, after: Accounts) | Refused | OutOfMemory

  /** `alloc_chunk`: off the list of the class, or new while the limit allows. */
  function Alloc(a: Accounts, n: int): (g: Grant)
    requires Covers(a)
    ensures g.Refused? <==> n > MEM_UP
    ensures g.Granted? ==> IsClass(g.size, n) && Covers(g.after)
  {
    if n > MEM_UP then Refused
    else
      var size := ClassOf(n);
      if a.free[size] > 0 then Granted(size, Accounts(a.free[size := a.free[size] - 1], a.total, a.left - size / 1024))
      else if a.total + size / 1024 >= LIMIT_KB then OutOfMemory
      else Granted(size, a.(total := a.total + size / 1024))
  }

  /** `retrieve`. */
  function GiveBack(a: Accounts, size: nat): (a': Accounts)
    requires Covers(a) && size in Sizes()
    ensures Covers(a')
  {
    Accounts(a.free[size := a.free[size] + 1], a.total, a.left + size / 1024)
  }

  /** The kilobytes of the free chunks. */
  function FreeKb(free: map<nat, nat>): nat
    requires free.Keys == Sizes()
  {
    4 * free[0x1000] + 16 * free[0x4000] + 64 * free[0x1_0000] + 256 * free[0x4_0000] + 1024 * free[0x10_0000]
    + 4096 * free[0x40_0000]
  }

  /** What an allocation takes out of the free chunks or adds to the total is the chunk handed out. */
  lemma AllocIsAccounted(a: Accounts, n: int)
    requires Covers(a) && Alloc(a, n).Granted?
    ensures var g := Alloc(a, n);
      && g.after.total - FreeKb(g.after.free) == a.total - FreeKb(a.free) + g.size / 1024
      && g.after.left - FreeKb(g.after.free) == a.left - FreeKb(a.free)
      && (a.total < LIMIT_KB ==> g.after.total < LIMIT_KB)
  {}

  lemma GiveBackIsAccounted(a: Accounts, size: nat)
    requires Covers(a) && size in Sizes()
    ensures var a' := GiveBack(a, size);
      && a'.total - FreeKb(a'.free) == a.total - FreeKb(a.free) - size / 1024
      && a'.left - FreeKb(a'.free) == a.left - FreeKb(a.free)
      && a'.total == a.total
  {}
}
