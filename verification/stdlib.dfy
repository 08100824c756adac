/** The freestanding C library of the Dhrystone build (dhrystone/stdlib.c):
    a bump allocator over a fixed arena and the string and memory routines.
    Memory is a sequence of bytes and a pointer is an offset into it. */
module Stdlib {
  import opened CTypes

  // ---------------------------------------------------------------- malloc

  /** `sizeof(heap)`: the arena the allocator carves from. */
  const HEAP_SIZE: nat := 16384

  /** The allocator's state: `heap_ptr`, as an offset from the start of the arena.
      Nothing bounds it: a failed call still moves it forward. */
  datatype Heap = Heap(cursor: nat)

  /** `heap_ptr = heap` at program start. */
  const INITIAL_HEAP: Heap := Heap(0)

  /** `(size + 3) & ~3` evaluated in 32-bit `size_t`: the least multiple of 4
      not below `size`, except that the addition wraps for the three largest sizes. */
  function AlignUp(size: UInt32): (a: UInt32)
    ensures a % 4 == 0
    ensures size <= UINT_MAX - 3 ==> size <= a < size + 4
    ensures size > UINT_MAX - 3 ==> a == 0
  {
    var sum := (size + 3) % (UINT_MAX + 1);
    sum - sum % 4
  }

  /** What one `malloc` returns (NULL as `None`, otherwise the region's offset)
      and the state it leaves behind. */
  datatype Alloc = Alloc(ptr: Option<nat>, next: Heap)

  /** `malloc(size)`: the cursor moves past the aligned request before the
      bound is checked, so a refused request still consumes arena space. */
  function Malloc(h: Heap, size: UInt32): (r: Alloc)
    ensures r.next.cursor == h.cursor + AlignUp(size)
    ensures r.ptr.Some? <==> h.cursor + AlignUp(size) <= HEAP_SIZE
    ensures r.ptr.Some? ==> r.ptr.value == h.cursor
  {
    var aligned := AlignUp(size);
    var next := Heap(h.cursor + aligned);
    if next.cursor > HEAP_SIZE then Alloc(None, next) else Alloc(Some(h.cursor), next)
  }

  /** `free(ptr)`: nothing is ever given back. */
  function Free(h: Heap, ptr: Option<nat>): Heap
  {
    h
  }

  /** The results of a sequence of `malloc` calls starting from `h`. */
  function MallocRun(h: Heap, sizes: seq<UInt32>): (rs: seq<Option<nat>>)
    ensures |rs| == |sizes|
    decreases |sizes|
  {
    if sizes == [] then []
    else
      var r := Malloc(h, sizes[0]);
      [r.ptr] + MallocRun(r.next, sizes[1..])
  }

  /** The allocator state after a sequence of `malloc` calls starting from `h`. */
  function HeapAfter(h: Heap, sizes: seq<UInt32>): Heap
    decreases |sizes|
  {
    if sizes == [] then h else HeapAfter(Malloc(h, sizes[0]).next, sizes[1..])
  }

  /** Releasing a region changes nothing a later allocation can observe. */
  lemma FreeIsNoOp(h: Heap, ptr: Option<nat>, size: UInt32)
    ensures Malloc(Free(h, ptr), size) == Malloc(h, size)
  {
  }

  /** The cursor only moves forward, by the total of the aligned requests. */
  lemma {:induction false} HeapAfterAdvances(h: Heap, sizes: seq<UInt32>)
    ensures HeapAfter(h, sizes).cursor >= h.cursor
    ensures HeapAfter(h, sizes).cursor % 4 == h.cursor % 4
    decreases |sizes|
  {
    if sizes != [] {
      var next := Malloc(h, sizes[0]).next;
      HeapAfterAdvances(next, sizes[1..]);
      AddMultipleOf4(h.cursor, AlignUp(sizes[0]));
    }
  }

  /** Adding a multiple of 4 keeps the remainder modulo 4. */
  lemma AddMultipleOf4(a: nat, b: nat)
    requires b % 4 == 0
    ensures (a + b) % 4 == a % 4
  {
    var q := b / 4;
    assert b == 4 * q;
  }

  /** Every region handed out starts at or after the cursor, at an offset
      congruent to it modulo 4, and fits inside the arena. */
  lemma {:induction false} RegionsInArena(h: Heap, sizes: seq<UInt32>)
    ensures forall i :: 0 <= i < |sizes| && MallocRun(h, sizes)[i].Some? ==>
      h.cursor <= MallocRun(h, sizes)[i].value &&
      MallocRun(h, sizes)[i].value % 4 == h.cursor % 4 &&
      MallocRun(h, sizes)[i].value + AlignUp(sizes[i]) <= HEAP_SIZE
    decreases |sizes|
  {
    if sizes != [] {
      var r := Malloc(h, sizes[0]);
      var rest := MallocRun(r.next, sizes[1..]);
      RegionsInArena(r.next, sizes[1..]);
      AddMultipleOf4(h.cursor, AlignUp(sizes[0]));
      assert r.next.cursor % 4 == h.cursor % 4;
      assert MallocRun(h, sizes) == [r.ptr] + rest;
      forall i | 1 <= i < |sizes| && MallocRun(h, sizes)[i].Some?
        ensures h.cursor <= MallocRun(h, sizes)[i].value
        ensures MallocRun(h, sizes)[i].value % 4 == h.cursor % 4
        ensures MallocRun(h, sizes)[i].value + AlignUp(sizes[i]) <= HEAP_SIZE
      {
        assert MallocRun(h, sizes)[i] == rest[i - 1];
        assert sizes[i] == sizes[1..][i - 1];
      }
    }
  }

  /** Word alignment: from the initial state every region starts on a multiple of 4. */
  lemma RegionsAligned(sizes: seq<UInt32>)
    ensures forall i :: 0 <= i < |sizes| && MallocRun(INITIAL_HEAP, sizes)[i].Some? ==>
      MallocRun(INITIAL_HEAP, sizes)[i].value % 4 == 0
  {
    RegionsInArena(INITIAL_HEAP, sizes);
  }

  /** Regions handed out by successive calls never overlap: each one ends at
      or before the start of every later one, and when the request was for a
      non-empty size that did not wrap, the later region starts strictly after. */
  lemma {:induction false} RegionsDisjoint(h: Heap, sizes: seq<UInt32>)
    ensures forall i, j ::
      0 <= i < j < |sizes| && MallocRun(h, sizes)[i].Some? && MallocRun(h, sizes)[j].Some? ==>
        MallocRun(h, sizes)[i].value + AlignUp(sizes[i]) <= MallocRun(h, sizes)[j].value &&
        (0 < sizes[i] <= UINT_MAX - 3 ==> MallocRun(h, sizes)[i].value < MallocRun(h, sizes)[j].value)
    decreases |sizes|
  {
    if sizes != [] {
      var r := Malloc(h, sizes[0]);
      var rest := MallocRun(r.next, sizes[1..]);
      RegionsDisjoint(r.next, sizes[1..]);
      RegionsInArena(r.next, sizes[1..]);
      assert MallocRun(h, sizes) == [r.ptr] + rest;
      forall i, j | 0 <= i < j < |sizes| &&
        MallocRun(h, sizes)[i].Some? && MallocRun(h, sizes)[j].Some?
        ensures MallocRun(h, sizes)[i].value + AlignUp(sizes[i]) <= MallocRun(h, sizes)[j].value
      {
        assert MallocRun(h, sizes)[j] == rest[j - 1];
        if i > 0 {
          assert MallocRun(h, sizes)[i] == rest[i - 1];
          assert sizes[i] == sizes[1..][i - 1];
        }
      }
    }
  }

  /** Every call in a sequence succeeds exactly when the arena holds the sum of
      the aligned requests, that is, when the final cursor is within the arena. */
  lemma {:induction false} AllSucceed(h: Heap, sizes: seq<UInt32>)
    requires h.cursor <= HEAP_SIZE
    ensures (forall i :: 0 <= i < |sizes| ==> MallocRun(h, sizes)[i].Some?) <==>
      HeapAfter(h, sizes).cursor <= HEAP_SIZE
    decreases |sizes|
  {
    if sizes != [] {
      var r := Malloc(h, sizes[0]);
      var rest := MallocRun(r.next, sizes[1..]);
      assert MallocRun(h, sizes) == [r.ptr] + rest;
      assert HeapAfter(h, sizes) == HeapAfter(r.next, sizes[1..]);
      HeapAfterAdvances(r.next, sizes[1..]);
      if r.next.cursor > HEAP_SIZE {
        assert MallocRun(h, sizes)[0].None?;
      } else {
        AllSucceed(r.next, sizes[1..]);
        assert (forall k :: 0 <= k < |sizes[1..]| ==> MallocRun(r.next, sizes[1..])[k].Some?) <==>
          HeapAfter(r.next, sizes[1..]).cursor <= HEAP_SIZE;
        if forall i :: 0 <= i < |rest| ==> rest[i].Some? {
          assert forall i :: 1 <= i < |sizes| ==> MallocRun(h, sizes)[i] == rest[i - 1];
        } else {
          var i :| 0 <= i < |rest| && rest[i].None?;
          assert MallocRun(h, sizes)[i + 1] == rest[i];
        }
      }
    }
  }

  /** Once the cursor is past the end of the arena, every call fails. */
  lemma {:induction false} ExhaustedStaysExhausted(h: Heap, sizes: seq<UInt32>)
    requires h.cursor > HEAP_SIZE
    ensures forall i :: 0 <= i < |sizes| ==> MallocRun(h, sizes)[i] == None
    decreases |sizes|
  {
    if sizes != [] {
      var r := Malloc(h, sizes[0]);
      ExhaustedStaysExhausted(r.next, sizes[1..]);
      assert MallocRun(h, sizes) == [r.ptr] + MallocRun(r.next, sizes[1..]);
    }
  }

  /** Because a refused call has already advanced the cursor, failure is
      permanent: after one `malloc` returns NULL every later one does too,
      whatever sizes are asked for. */
  lemma {:induction false} FailureIsPermanent(h: Heap, sizes: seq<UInt32>)
    ensures forall i, j :: 0 <= i < j < |sizes| && MallocRun(h, sizes)[i] == None ==>
      MallocRun(h, sizes)[j] == None
    decreases |sizes|
  {
    if sizes != [] {
      var r := Malloc(h, sizes[0]);
      var rest := MallocRun(r.next, sizes[1..]);
      assert MallocRun(h, sizes) == [r.ptr] + rest;
      FailureIsPermanent(r.next, sizes[1..]);
      if r.ptr == None {
        ExhaustedStaysExhausted(r.next, sizes[1..]);
      }
      forall i, j | 0 <= i < j < |sizes| && MallocRun(h, sizes)[i] == None
        ensures MallocRun(h, sizes)[j] == None
      {
        assert MallocRun(h, sizes)[j] == rest[j - 1];
        if i > 0 {
          assert MallocRun(h, sizes)[i] == rest[i - 1];
        }
      }
    }
  }

  // --------------------------------------------------------------- strings

  /** `strlen(s)` on the C string at offset `s` of `mem`. */
  method Strlen(mem: seq<CChar>, s: nat) returns (n: nat)
    requires s <= |mem| && Terminated(mem[s..])
    ensures s + n < |mem| && mem[s + n] == NUL
    ensures forall k :: s <= k < s + n ==> mem[k] != NUL
    ensures n == |Content(mem[s..])|
  {
    var p := s;
    while mem[p] != NUL
      invariant s <= p <= s + NulIndex(mem[s..])
      invariant forall k :: s <= k < p ==> mem[k] != NUL
      decreases s + NulIndex(mem[s..]) - p
    {
      assert mem[p] == mem[s..][p - s];
      p := p + 1;
    }
    n := p - s;
    forall k | 0 <= k < n
      ensures mem[s..][k] != NUL
    {
      assert mem[s..][k] == mem[s + k];
    }
    NulIndexAt(mem[s..], n);
  }

  /** Lexicographic order on byte strings, bytes compared as unsigned values;
      a proper prefix comes first. */
  predicate LexLess(a: seq<CChar>, b: seq<CChar>)
    decreases |a|
  {
    |b| > 0 && (|a| == 0 || a[0] < b[0] || (a[0] == b[0] && LexLess(a[1..], b[1..])))
  }

  /** What strcmp promises about its result `r`: zero exactly for equal
      strings, negative exactly when the first string orders before the
      second, positive exactly when the second orders before the first, and
      `r` is the difference of the bytes where the comparison stops. */
  predicate Compares(s1: seq<CChar>, s2: seq<CChar>, r: int)
    requires Terminated(s1) && Terminated(s2)
  {
    && (r == 0 <==> Content(s1) == Content(s2))
    && (r < 0 <==> LexLess(Content(s1), Content(s2)))
    && (r > 0 <==> LexLess(Content(s2), Content(s1)))
    && (exists k :: 0 <= k < |s1| && StopsAt(s1, s2, k, r))
  }

  /** `strcmp(s1, s2)`: the difference of the first differing bytes, read as
      unsigned, or of the NUL ending the first string and the byte opposite it. */
  function Strcmp(s1: seq<CChar>, s2: seq<CChar>): (r: int)
    requires Terminated(s1) && Terminated(s2)
    ensures -255 <= r <= 255
    ensures Compares(s1, s2, r)
    decreases |s1|
  {
    if s1[0] != NUL && s1[0] == s2[0] then
      var r := Strcmp(s1[1..], s2[1..]);
      ComparesStep(s1, s2, r);
      r
    else
      ComparesStop(s1, s2);
      s1[0] as int - s2[0] as int
  }

  /** Where the loop stops, the byte difference compares the strings. */
  lemma ComparesStop(s1: seq<CChar>, s2: seq<CChar>)
    requires Terminated(s1) && Terminated(s2)
    requires s1[0] == NUL || s1[0] != s2[0]
    ensures Compares(s1, s2, s1[0] as int - s2[0] as int)
  {
    ContentHead(s1);
    ContentHead(s2);
    assert StopsAt(s1, s2, 0, s1[0] as int - s2[0] as int);
  }

  /** Past an equal non-NUL first byte, comparing the tails compares the strings. */
  lemma ComparesStep(s1: seq<CChar>, s2: seq<CChar>, r: int)
    requires Terminated(s1) && Terminated(s2)
    requires s1[0] != NUL && s1[0] == s2[0]
    requires Terminated(s1[1..]) && Terminated(s2[1..]) && Compares(s1[1..], s2[1..], r)
    ensures Compares(s1, s2, r)
  {
    ContentCons(s1);
    ContentCons(s2);
    StopsOneLater(s1, s2, r);
  }

  /** strcmp returns the byte difference itself, not only its sign. */
  lemma StrcmpExample()
    ensures Strcmp("a\0", "c\0") == -2
  {
  }

  /** strcmp's loop stops at offset `k`: the strings agree before it with no
      NUL, at `k` they differ or the first string ends, and `r` is the
      difference of the two bytes there. */
  predicate StopsAt(s1: seq<CChar>, s2: seq<CChar>, k: int, r: int)
  {
    0 <= k < |s1| && k < |s2| && s1[..k] == s2[..k] && NUL !in s1[..k] &&
    (s1[k] != s2[k] || s1[k] == NUL) && r == s1[k] as int - s2[k] as int
  }

  /** Stopping in the tails after an equal non-NUL first byte is stopping one
      position later in the whole strings. */
  lemma StopsOneLater(s1: seq<CChar>, s2: seq<CChar>, r: int)
    requires |s1| > 0 && |s2| > 0 && s1[0] != NUL && s1[0] == s2[0]
    requires exists k :: StopsAt(s1[1..], s2[1..], k, r)
    ensures exists k :: StopsAt(s1, s2, k, r)
  {
    var k :| StopsAt(s1[1..], s2[1..], k, r);
    assert s1[..k + 1] == [s1[0]] + s1[1..][..k];
    assert s2[..k + 1] == [s2[0]] + s2[1..][..k];
    assert StopsAt(s1, s2, k + 1, r);
  }

  /** Two address ranges `[a, a + n)` and `[b, b + m)` share no byte. */
  predicate Disjoint(a: nat, n: nat, b: nat, m: nat)
  {
    a + n <= b || b + m <= a
  }

  /** `strcpy(dest, src)`: the string at `src`, its NUL included, is copied to
      `dest` and `dest` is returned. The destination must have room for it and
      must not overlap the source. */
  method Strcpy(mem: seq<CChar>, dest: nat, src: nat) returns (ret: nat, m: seq<CChar>)
    requires src <= |mem| && Terminated(mem[src..])
    requires dest + NulIndex(mem[src..]) < |mem|
    requires Disjoint(dest, NulIndex(mem[src..]) + 1, src, NulIndex(mem[src..]) + 1)
    ensures ret == dest && |m| == |mem|
    ensures forall k :: dest <= k <= dest + NulIndex(mem[src..]) ==> m[k] == mem[src + (k - dest)]
    ensures forall k :: 0 <= k < |m| && !(dest <= k <= dest + NulIndex(mem[src..])) ==> m[k] == mem[k]
    ensures Terminated(m[dest..]) && Content(m[dest..]) == Content(mem[src..])
  {
    ghost var n := NulIndex(mem[src..]);
    m := mem;
    var i := 0;
    while true
      invariant 0 <= i <= n && |m| == |mem|
      invariant forall k :: dest <= k < dest + i ==> m[k] == mem[src + (k - dest)]
      invariant forall k :: 0 <= k < |m| && !(dest <= k < dest + i) ==> m[k] == mem[k]
      decreases n - i
    {
      var c := m[src + i];
      assert c == mem[src..][i];
      m := m[dest + i := c];
      if c == NUL {
        break;
      }
      i := i + 1;
    }
    ret := dest;
    CopiedString(mem, m, dest, src);
  }

  /** A byte-for-byte copy of a C string, its NUL included, holds the same string. */
  lemma CopiedString(mem: seq<CChar>, m: seq<CChar>, dest: nat, src: nat)
    requires src <= |mem| && Terminated(mem[src..])
    requires dest + NulIndex(mem[src..]) < |m|
    requires forall k :: dest <= k <= dest + NulIndex(mem[src..]) ==> m[k] == mem[src + (k - dest)]
    ensures Terminated(m[dest..]) && Content(m[dest..]) == Content(mem[src..])
  {
    var n := NulIndex(mem[src..]);
    var copied := m[dest..];
    forall k | 0 <= k <= n
      ensures copied[k] == mem[src..][k]
    {
      assert copied[k] == m[dest + k];
    }
    NulIndexAt(copied, n);
  }

  // ---------------------------------------------------------------- memory

  /** `memcpy(dest, src, n)`: the `n` bytes at `src` are copied to `dest` and
      `dest` is returned. The two ranges must lie inside memory and not overlap. */
  method Memcpy(mem: seq<CChar>, dest: nat, src: nat, n: UInt32) returns (ret: nat, m: seq<CChar>)
    requires dest + n <= |mem| && src + n <= |mem|
    requires Disjoint(dest, n, src, n)
    ensures ret == dest && |m| == |mem|
    ensures forall k :: dest <= k < dest + n ==> m[k] == mem[src + (k - dest)]
    ensures forall k :: 0 <= k < |m| && !(dest <= k < dest + n) ==> m[k] == mem[k]
  {
    m := mem;
    var i := 0;
    while i < n
      invariant 0 <= i <= n && |m| == |mem|
      invariant forall k :: dest <= k < dest + i ==> m[k] == mem[src + (k - dest)]
      invariant forall k :: 0 <= k < |m| && !(dest <= k < dest + i) ==> m[k] == mem[k]
    {
      m := m[dest + i := m[src + i]];
      i := i + 1;
    }
    ret := dest;
  }

  /** `memset(s, c, n)`: the `n` bytes at `s` are set to `(unsigned char) c`
      and `s` is returned. */
  method Memset(mem: seq<CChar>, s: nat, c: Int32, n: UInt32) returns (ret: nat, m: seq<CChar>)
    requires s + n <= |mem|
    ensures ret == s && |m| == |mem|
    ensures forall k :: s <= k < s + n ==> m[k] == ToCChar(c)
    ensures forall k :: 0 <= k < |m| && !(s <= k < s + n) ==> m[k] == mem[k]
  {
    m := mem;
    var i := 0;
    while i < n
      invariant 0 <= i <= n && |m| == |mem|
      invariant forall k :: s <= k < s + i ==> m[k] == ToCChar(c)
      invariant forall k :: 0 <= k < |m| && !(s <= k < s + i) ==> m[k] == mem[k]
    {
      m := m[s + i := ToCChar(c)];
      i := i + 1;
    }
    ret := s;
  }
}
