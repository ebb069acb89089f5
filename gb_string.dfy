/**
 * gb_String: a growable byte string stored as one block
 *   [ header {len, cap} | cap payload bytes | terminator ]
 * whose handle points at the payload. Here a handle is a GbStr object, the
 * header is its len and cap fields, and the payload plus terminator is the
 * array `data` of cap + 1 bytes. Operations that may reallocate return the
 * handle to use from then on; a reallocated block is a fresh GbStr over a
 * fresh array, and the block it replaced is marked released (freed).
 */
module GbString {
  import opened LibC
  import opened TrimSpec

  /** sizeof(size_t) on an LP64 target. */
  const SizeOfUsize: nat := 8
  /** sizeof(struct gb_String_Header): the two size_t fields len and cap. */
  const HeaderSize: nat := 2 * SizeOfUsize

  /** A possibly-null pointer to bytes the caller owns. */
  datatype Option<T> = None | Some(value: T)

  function Max(a: nat, b: nat): nat
  {
    if a < b then b else a
  }

  function Zeros(n: nat): (z: seq<byte>)
    ensures |z| == n && forall k :: 0 <= k < n ==> z[k] == 0
  {
    if n == 0 then [] else Zeros(n - 1) + [0]
  }

  /**
   * gb__string_realloc: allocate and copy, never a grow-in-place; the free of
   * the old block is its caller's `released := true` in MakeSpaceFor. Sizes
   * count the payload and terminator only (the header travels in the fields).
   * A null block is a plain allocation; a size that does not grow keeps the
   * block; otherwise the first oldSize bytes move to a fresh block, or the
   * result is null and the old block stays as it is.
   */
  method Realloc(ptr: array?<byte>, oldSize: nat, newSize: nat) returns (r: array?<byte>)
    requires ptr != null ==> oldSize <= ptr.Length
    ensures ptr == null ==> r == null || (fresh(r) && r.Length == newSize)
    ensures ptr != null && newSize <= oldSize ==> r == ptr
    ensures ptr != null && newSize > oldSize && r != null ==>
              fresh(r) && r.Length == newSize && r[..oldSize] == ptr[..oldSize]
  {
    if ptr == null {
      r := Alloc(newSize);
      return;
    }
    var size := newSize;
    if size < oldSize {
      size := oldSize;
    }
    if oldSize == size {
      return ptr;
    }
    r := Alloc(size);
    if r == null {
      return;
    }
    Memcpy(r, 0, ptr[..oldSize]);
  }

  class GbStr {
    var len: nat
    var cap: nat
    var data: array<byte>
    /** The block has been handed to free: the handle must not be used again. */
    ghost var released: bool

    /** The layout invariant: cap payload bytes plus one terminator byte, len <= cap, data[len] == 0. */
    ghost predicate Valid()
      reads this, data
    {
      !released && data.Length == cap + 1 && len <= cap && data[len] == 0
    }

    /** The payload, without the terminator. */
    ghost function Contents(): seq<byte>
      reads this, data
      requires Valid()
    {
      data[..len]
    }

    /** Writes the header into a freshly allocated block. */
    constructor Wrap(block: array<byte>, n: nat, c: nat)
      requires block.Length == c + 1 && n <= c
      ensures data == block && len == n && cap == c && !released
    {
      data := block;
      len := n;
      cap := c;
      released := false;
    }

    /**
     * gb_make_string_length: a string of n bytes taken from init, or of n
     * zero bytes when init is null; capacity equals length.
     */
    static method MakeLength(init: Option<seq<byte>>, n: nat) returns (r: GbStr?)
      requires init.Some? ==> n <= |init.value|
      ensures r != null ==> fresh(r) && fresh(r.data) && r.Valid()
      ensures r != null ==> r.cap == n && r.Contents() == if init.Some? then init.value[..n] else Zeros(n)
    {
      var block := Alloc(n + 1);
      if block == null {
        return null;
      }
      if init.None? {
        Memset(block, 0);
      } else if n > 0 {
        Memcpy(block, 0, init.value[..n]);
      }
      block[n] := 0;
      r := new GbStr.Wrap(block, n, n);
    }

    /** gb_make_string: from a C string, or empty when the pointer is null. */
    static method Make(s: Option<seq<byte>>) returns (r: GbStr?)
      requires s.Some? ==> IsCString(s.value)
      ensures r != null ==> fresh(r) && fresh(r.data) && r.Valid()
      ensures r != null ==> r.Contents() == (if s.Some? then s.value else []) && r.cap == |r.Contents()|
    {
      var n := if s.Some? then |s.value| else 0;
      r := MakeLength(s, n);
      if r != null && s.Some? {
        assert s.value[..n] == s.value;
      }
    }

    /**
     * gb_free_string: a null handle is ignored; otherwise the block is released.
     * A handle whose block was already released would be a double free.
     */
    static method Free(s: GbStr?)
      requires s != null ==> !s.released
      modifies s
      ensures s != null ==> s.released
      ensures s != null ==> s.len == old(s.len) && s.cap == old(s.cap) && s.data == old(s.data)
    {
      if s == null {
        return;
      }
      s.released := true;
    }

    /** gb_duplicate_string: an independent copy with capacity equal to its length. */
    method Duplicate() returns (r: GbStr?)
      requires Valid()
      ensures r != null ==> fresh(r) && fresh(r.data) && r.Valid()
      ensures r != null ==> r.Contents() == Contents() && r.cap == len
    {
      r := MakeLength(Some(data[..len]), len);
    }

    /** gb_string_length: the header's len is the payload length. */
    function Length(): (n: nat)
      reads this, data
      ensures Valid() ==> n == |Contents()|
    {
      len
    }

    /** gb_string_capacity: the payload bytes the block holds besides its terminator. */
    function Capacity(): (c: nat)
      reads this, data
      ensures Valid() ==> c + 1 == data.Length && |Contents()| <= c
    {
      cap
    }

    /**
     * gb_string_available_space: the payload bytes still free, floored at 0 for
     * a header whose len exceeds its cap.
     */
    function AvailableSpace(): (a: nat)
      reads this, data
      ensures cap <= len ==> a == 0
      ensures Valid() ==> |Contents()| + a + 1 == data.Length
    {
      if cap > len then cap - len else 0
    }

    /**
     * gb_string_allocation_size: header plus capacity, which is one byte short
     * of the block that holds them, since the terminator is not counted.
     */
    function AllocationSize(): (n: nat)
      reads this, data
      requires Valid()
      ensures n + 1 == HeaderSize + data.Length
    {
      HeaderSize + cap
    }

    /** gb_clear_string: empty payload, same block and capacity, stale bytes left. */
    method Clear()
      requires Valid()
      modifies this, data
      ensures Valid() && data == old(data) && cap == old(cap)
      ensures Contents() == []
      ensures data[1..] == old(data[1..])
    {
      len := 0;
      data[0] := 0;
    }

    /**
     * gb_string_make_space_for: returns this handle when add bytes are already
     * free; otherwise moves the payload and terminator to a fresh block whose
     * capacity is exactly len + add, freeing this block, or returns null and
     * leaves this string intact when the allocator refuses.
     */
    method MakeSpaceFor(add: nat) returns (r: GbStr?)
      requires Valid()
      modifies `released
      ensures old(AvailableSpace()) >= add ==> r == this
      ensures r == this ==> unchanged(this)
      ensures r == null ==> old(AvailableSpace()) < add && unchanged(this) && Valid()
      ensures r != null ==> r.Valid() && r.Contents() == old(Contents()) && r.AvailableSpace() >= add
      ensures r != null ==> r.cap == if old(AvailableSpace()) >= add then old(cap) else old(len) + add
      ensures r != null && r != this ==>
                fresh(r) && fresh(r.data) && r.data[..r.len + 1] == old(data[..len + 1]) && released
    {
      var l := len;
      var newLen := l + add;
      var available := AvailableSpace();
      if available >= add {
        return this;
      }
      var block := Realloc(data, l + 1, newLen + 1);
      if block == null {
        return null;
      }
      released := true;
      r := new GbStr.Wrap(block, l, newLen);
      assert r.data[..l] == r.data[..l + 1][..l];
    }

    /**
     * gb_append_string_length: the payload grows by other; the block is kept
     * when other fits in the available space and is otherwise replaced by one
     * of capacity exactly the new length. On allocation failure the result is
     * null and this string is unchanged.
     */
    method AppendLength(other: seq<byte>) returns (r: GbStr?)
      requires Valid()
      modifies this, data
      ensures r == this <==> old(AvailableSpace()) >= |other|
      ensures r == null ==> Valid() && unchanged(this) && unchanged(data)
      ensures r != null ==> r.Valid() && r.Contents() == old(Contents()) + other
      ensures r != null ==> r.cap == if old(AvailableSpace()) >= |other| then old(cap) else old(len) + |other|
      ensures r == this ==> data == old(data)
      ensures r != null && r != this ==> fresh(r) && fresh(r.data) && released
    {
      var currLen := len;
      r := MakeSpaceFor(|other|);
      if r == null {
        return;
      }
      ghost var kept := r.data[..currLen];
      assert kept == old(Contents());
      Memcpy(r.data, currLen, other);
      assert r.data[..currLen + |other|] == kept + other by {
        assert r.data[..currLen + |other|] == r.data[..currLen] + r.data[currLen..currLen + |other|];
      }
      r.data[currLen + |other|] := 0;
      r.len := currLen + |other|;
    }

    /**
     * gb_append_string, reading other's payload before any reallocation, so
     * that appending a string to itself is well defined.
     */
    method AppendString(other: GbStr) returns (r: GbStr?)
      requires Valid() && other.Valid()
      modifies this, data
      ensures r == this <==> old(AvailableSpace()) >= old(other.len)
      ensures r == null ==> Valid() && unchanged(this) && unchanged(data)
      ensures r != null ==> r.Valid() && r.Contents() == old(Contents()) + old(other.Contents())
      ensures r != null ==> r.cap == if old(AvailableSpace()) >= old(other.len) then old(cap) else old(len) + old(other.len)
      ensures r == this ==> data == old(data)
      ensures r != null && r != this ==> fresh(r) && fresh(r.data) && released
    {
      var bytes := other.data[..other.len];
      r := AppendLength(bytes);
    }

    /**
     * gb_append_string as written: the copy reads other's block after
     * gb_string_make_space_for, which has freed that block when other is this
     * string and it had to grow. readFreed says whether that read happened.
     */
    method AppendStringAsWritten(other: GbStr) returns (r: GbStr?, ghost readFreed: bool)
      requires Valid() && other.Valid()
      modifies this, data
      ensures r == this <==> old(AvailableSpace()) >= old(other.len)
      ensures readFreed <==> r != null && other == this && old(AvailableSpace()) < old(other.len)
      ensures r != null && !readFreed ==> r.Valid() && r.Contents() == old(Contents()) + old(other.Contents())
    {
      var otherLen := other.len;
      var currLen := len;
      r := MakeSpaceFor(otherLen);
      if r == null {
        readFreed := false;
        return;
      }
      readFreed := other.released;
      var bytes := other.data[..otherLen];
      Memcpy(r.data, currLen, bytes);
      r.data[currLen + otherLen] := 0;
      r.len := currLen + otherLen;
      assert r.data[..r.len] == r.data[..currLen] + r.data[currLen..currLen + otherLen];
    }

    /** gb_append_cstring: append the bytes of a C string up to its terminator. */
    method AppendCString(other: seq<byte>) returns (r: GbStr?)
      requires Valid() && IsCString(other)
      modifies this, data
      ensures r == this <==> old(AvailableSpace()) >= |other|
      ensures r == null ==> Valid() && unchanged(this) && unchanged(data)
      ensures r != null ==> r.Valid() && r.Contents() == old(Contents()) + other
      ensures r != null ==> r.cap == if old(AvailableSpace()) >= |other| then old(cap) else old(len) + |other|
      ensures r == this ==> data == old(data)
      ensures r != null && r != this ==> fresh(r) && fresh(r.data) && released
    {
      r := AppendLength(other);
    }

    /**
     * gb_set_string: the payload becomes c. The block is kept when c fits in
     * the capacity, which never shrinks; otherwise it grows to exactly |c|.
     */
    method Set(c: seq<byte>) returns (r: GbStr?)
      requires Valid() && IsCString(c)
      modifies this, data
      ensures r == this <==> |c| <= old(cap)
      ensures r == null ==> Valid() && unchanged(this) && unchanged(data)
      ensures r != null ==> r.Valid() && r.Contents() == c && r.cap == Max(old(cap), |c|)
      ensures r == this ==> data == old(data)
      ensures r != null && r != this ==> fresh(r) && fresh(r.data) && released
    {
      var n := |c|;
      r := this;
      if cap < n {
        r := MakeSpaceFor(n - len);
        if r == null {
          return;
        }
      }
      Memcpy(r.data, 0, c);
      r.data[n] := 0;
      r.len := n;
    }

    /**
     * gb_strings_are_equal: the lengths agree and so does every payload byte;
     * the scan stops at the first difference.
     */
    static method AreEqual(lhs: GbStr, rhs: GbStr) returns (eq: bool)
      requires lhs.Valid() && rhs.Valid()
      ensures eq <==> lhs.Contents() == rhs.Contents()
    {
      var lhsLen := lhs.len;
      var rhsLen := rhs.len;
      if lhsLen != rhsLen {
        return false;
      }
      var i := 0;
      while i < lhsLen
        invariant 0 <= i <= lhsLen
        invariant lhs.data[..i] == rhs.data[..i]
      {
        if lhs.data[i] != rhs.data[i] {
          return false;
        }
        i := i + 1;
      }
      return true;
    }

    /**
     * The two cursors of gb_trim_string: start walks forward over cut bytes
     * while it has not passed the last byte, then end walks back from the last
     * byte over cut bytes while it is after start. The trimmed payload is the
     * bytes from start to end, both included, or nothing when start passed end.
     */
    method TrimCursors(cutSet: seq<byte>) returns (start: nat, end: int)
      requires Valid() && IsCString(cutSet)
      ensures start + (if start > end then 0 else end - start + 1) <= len
      ensures Trimmed(Contents(), cutSet) == data[start..start + (if start > end then 0 else end - start + 1)]
    {
      ghost var s := Contents();
      ghost var prefix := CutPrefixLen(s, cutSet);
      ghost var suffix := CutSuffixLen(s, cutSet);
      CutPrefixLenSpec(s, cutSet);
      CutSuffixLenSpec(s, cutSet);
      start := 0;
      var last: int := len - 1;
      while start <= last && StrChr(cutSet, data[start])
        invariant 0 <= start <= prefix
      {
        start := start + 1;
      }
      end := last;
      while end > start && StrChr(cutSet, data[end])
        invariant start - 1 <= end <= len - 1
        invariant start < len ==> |s| - 1 - suffix <= end
      {
        end := end - 1;
      }
      CursorsDelimitTrimmed(s, cutSet, start, end);
    }

    /**
     * gb_trim_string: the bytes between the two cursors move to the front of
     * the same block and the terminator follows them.
     */
    method Trim(cutSet: seq<byte>) returns (r: GbStr)
      requires Valid() && IsCString(cutSet)
      modifies this, data
      ensures r == this && Valid() && data == old(data) && cap == old(cap)
      ensures Contents() == Trimmed(old(Contents()), cutSet)
    {
      var start, end := TrimCursors(cutSet);
      var newLen := if start > end then 0 else end - start + 1;
      ghost var t := data[start..start + newLen];
      if start != 0 {
        Memmove(data, start, newLen);
      }
      assert data[..newLen] == t;
      data[newLen] := 0;
      assert data[..newLen] == t;
      len := newLen;
      r := this;
    }
  }
}
