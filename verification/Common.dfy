/** Names shared by every module of the model: options, bytes, pages and the
    page geometry of the MIPS port. */
module Common {

  datatype Option<+T> = None | Some(value: T)

  newtype byte = x: int | 0 <= x < 256

  const PAGE_SIZE := 4096
  const WORD := 0x1_0000_0000      // 2^32, the range of vaddr_t, paddr_t and size_t
  const USERSPACETOP := 0x8000_0000
  const USERSTACK := USERSPACETOP
  const VM_STACKPAGES := 18

  /** One page of bytes. */
  type Page = p: seq<byte> | |p| == PAGE_SIZE witness seq(PAGE_SIZE, _ => 0)

  function ZeroPage(): (p: Page)
    ensures forall i :: 0 <= i < PAGE_SIZE ==> p[i] == 0
  {
    seq(PAGE_SIZE, _ => 0)
  }

  function Min(a: int, b: int): int { if a <= b then a else b }

  /** The n numbers from a on. */
  function Range(a: int, n: nat): (r: set<int>)
    ensures |r| == n && forall q :: q in r <==> a <= q < a + n
  {
    if n == 0 then {} else Range(a, n - 1) + {a + n - 1}
  }

  lemma SubsetSize(s: set<int>, t: set<int>)
    requires s <= t
    ensures |s| <= |t| && (|s| == |t| <==> s == t)
  {
    assert t == s + (t - s);
    assert s == t <==> t - s == {};
  }
}
