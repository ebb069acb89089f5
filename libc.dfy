/**
 * The pieces of the C runtime that gb_string.h calls: the allocator behind
 * GB_ALLOC, memcpy, memmove, memset and strchr, and the notion of a C string.
 * Memory is modelled as byte arrays; a block that the allocator refuses is null.
 */
module LibC {

  /** A C char, as the unsigned value of its eight bits. */
  newtype byte = b: int | 0 <= b < 256

  /** A C string: a byte sequence holding no zero byte. Its strlen is its length. */
  predicate IsCString(s: seq<byte>)
  {
    forall i :: 0 <= i < |s| ==> s[i] != 0
  }

  /**
   * strchr(chars, b) != NULL for a C string `chars`: b occurs in it, or b is the
   * zero byte, which strchr finds as the terminator of `chars`.
   */
  predicate StrChr(chars: seq<byte>, b: byte): (found: bool)
    ensures found <==> b in chars + [0]
  {
    b == 0 || b in chars
  }

  /**
   * malloc(size): either a fresh block of `size` bytes whose contents are
   * unspecified, or null. Which of the two happens is the allocator's choice.
   */
  method Alloc(size: nat) returns (block: array?<byte>)
    ensures block != null ==> fresh(block) && block.Length == size
  {
    var granted: bool :| true;
    if granted {
      block := new byte[size];
    } else {
      block := null;
    }
  }

  /** memcpy(dst + at, src, |src|): the regions do not overlap since src is a value. */
  method Memcpy(dst: array<byte>, at: nat, src: seq<byte>)
    requires at + |src| <= dst.Length
    modifies dst
    ensures dst[..at] == old(dst[..at])
    ensures dst[at..at + |src|] == src
    ensures dst[at + |src|..] == old(dst[at + |src|..])
  {
    var i := 0;
    while i < |src|
      invariant 0 <= i <= |src|
      invariant forall k :: 0 <= k < at ==> dst[k] == old(dst[k])
      invariant forall k :: 0 <= k < i ==> dst[at + k] == src[k]
      invariant forall k :: at + i <= k < dst.Length ==> dst[k] == old(dst[k])
    {
      dst[at + i] := src[i];
      i := i + 1;
    }
  }

  /**
   * memmove(a, a + src, n): moves n bytes towards the front of the same block,
   * the one direction gb_string.h uses; the source and destination may overlap.
   */
  method Memmove(a: array<byte>, src: nat, n: nat)
    requires src + n <= a.Length
    modifies a
    ensures a[..n] == old(a[src..src + n])
    ensures a[n..] == old(a[n..])
  {
    var i := 0;
    while i < n
      invariant 0 <= i <= n
      invariant forall k :: 0 <= k < i ==> a[k] == old(a[src + k])
      invariant forall k :: i <= k < a.Length ==> a[k] == old(a[k])
    {
      a[i] := a[src + i];
      i := i + 1;
    }
  }

  /** memset(a, value, a.Length). */
  method Memset(a: array<byte>, value: byte)
    modifies a
    ensures forall k :: 0 <= k < a.Length ==> a[k] == value
  {
    var i := 0;
    while i < a.Length
      invariant 0 <= i <= a.Length
      invariant forall k :: 0 <= k < i ==> a[k] == value
    {
      a[i] := value;
      i := i + 1;
    }
  }
}
