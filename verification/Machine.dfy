/** The 32-bit machine the library and the kernel run on: page constants and
    little-endian words stored in byte-addressed memory. */
module Machine {
  import opened Arithmetic

  const PAGESIZE: nat := 0x2000
  const VMEM_REGION_SIZE: nat := 0x100000
  const VMEM_1_BASE: nat := 0x100000
  const VMEM_1_LIMIT: nat := 0x200000
  const MAX_PT_LEN: nat := VMEM_REGION_SIZE / PAGESIZE

  type Byte = x: int | 0 <= x < 256

  function UpToPage(a: nat): (r: nat)
    ensures r % PAGESIZE == 0 && a <= r < a + PAGESIZE
  {
    (a + PAGESIZE - 1) / PAGESIZE * PAGESIZE
  }

  function DownToPage(a: int): (r: int)
    ensures r % PAGESIZE == 0 && r <= a < r + PAGESIZE
  {
    a / PAGESIZE * PAGESIZE
  }

  function WordOf(b0: int, b1: int, b2: int, b3: int): int {
    b0 + 0x100 * b1 + 0x1_0000 * b2 + 0x100_0000 * b3
  }

  function Load(mem: array<Byte>, a: nat): (w: nat)
    requires a + 4 <= mem.Length
    reads mem
    ensures w < TWO_32
  {
    WordOf(mem[a], mem[a + 1], mem[a + 2], mem[a + 3])
  }

  /** The same word in a snapshot of memory. */
  function Word(s: seq<Byte>, a: nat): (w: nat)
    requires a + 4 <= |s|
    ensures w < TWO_32
  {
    WordOf(s[a], s[a + 1], s[a + 2], s[a + 3])
  }

  /** The lowest byte comes first. */
  lemma LittleEndian(s: seq<Byte>, a: nat)
    requires a + 4 <= |s|
    ensures var b0: int, b1: int, b2: int, b3: int := s[a], s[a + 1], s[a + 2], s[a + 3];
            Word(s, a) == b0 + 256 * b1 + 65536 * b2 + 16777216 * b3
  {
  }

  /** The four bytes of a word put back together give the word. */
  lemma WordBytes(w: nat)
    requires w < TWO_32
    ensures w / 0x100_0000 < 256
    ensures w % 0x100 + 0x100 * (w / 0x100 % 0x100) + 0x1_0000 * (w / 0x1_0000 % 0x100)
            + 0x100_0000 * (w / 0x100_0000) == w
  {
    assert w / 0x1_0000 == w / 0x100 / 0x100;
    assert w / 0x100_0000 == w / 0x1_0000 / 0x100;
  }

  method Store(mem: array<Byte>, a: nat, w: nat)
    requires a + 4 <= mem.Length && w < TWO_32
    modifies mem
    ensures Load(mem, a) == w
    ensures forall i :: 0 <= i < mem.Length && !(a <= i < a + 4) ==> mem[i] == old(mem[i])
  {
    WordBytes(w);
    mem[a] := w % 0x100;
    mem[a + 1] := w / 0x100 % 0x100;
    mem[a + 2] := w / 0x1_0000 % 0x100;
    mem[a + 3] := w / 0x100_0000;
  }

  lemma UpToPageMono(a: nat, b: nat)
    requires a <= b
    ensures UpToPage(a) <= UpToPage(b)
    ensures a % PAGESIZE == 0 ==> UpToPage(a) == a
  {
    var p, q := (a + 0x1fff) / 0x2000, (b + 0x1fff) / 0x2000;
    assert p <= q;
    assert UpToPage(a) == 0x2000 * p && UpToPage(b) == 0x2000 * q;
  }

  lemma PageMultiple(a: nat)
    requires a % PAGESIZE == 0
    ensures a % 4 == 0 && (a + 7) / 8 * 8 == a
  {
    var q := a / 0x2000;
    assert a == 0x2000 * q;
    OfFour(2048 * q);
    OfEight(1024 * q);
  }

  lemma OfFour(k: nat)
    ensures 4 * k % 4 == 0
  {
  }

  lemma OfEight(k: nat)
    ensures (8 * k + 7) / 8 == k
  {
  }
}
