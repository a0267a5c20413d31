/** Raw memory under the heap allocator: how headers lie in it as bytes, and what reading them back yields. */
module HeapMemory {
  import opened HeapBlocks

  newtype byte = x: int | 0 <= x < 256

  type Memory = int -> byte

  const MAGIC := 0x12345678

  // ---- Writing --------------------------------------------------------------------------------------

  function LittleEndian(n: nat, i: int): byte
    decreases i
  {
    if i <= 0 then (n % 256) as byte else LittleEndian(n / 256, i - 1)
  }

  /** Byte i of a stored header: size, next and prev in 8 bytes each, flag and magic in 4 bytes each. */
  function HeaderByte(h: Header, i: int): byte {
    if i < 8 then LittleEndian(h.size, i)
    else if i < 16 then LittleEndian(h.next, i - 8)
    else if i < 24 then LittleEndian(h.prev, i - 16)
    else if i < 28 then LittleEndian(if h.free then 1 else 0, i - 24)
    else LittleEndian(MAGIC, i - 28)
  }

  /** Memory after a header is stored at w: it overwrites BLOCK_SIZE bytes. */
  function Stored(m: Memory, w: nat, h: Header): Memory {
    x => if w <= x < w + BLOCK_SIZE then HeaderByte(h, x - w) else m(x)
  }

  /** memcpy. */
  function Copied(m: Memory, dst: nat, src: nat, n: nat): Memory {
    x => if dst <= x < dst + n then m(src + (x - dst)) else m(x)
  }

  // ---- Headers in memory ----------------------------------------------------------------------------

  ghost predicate HeaderAt(m: Memory, a: nat, h: Header) {
    forall i | 0 <= i < BLOCK_SIZE :: m(a + i) == HeaderByte(h, i)
  }

  /** The header map is what memory holds. */
  ghost predicate Image(m: Memory, h: Headers) {
    forall a {:trigger HeaderAt(m, a, h[a])} | a in h :: HeaderAt(m, a, h[a])
  }

  /** A header at w overlaps no other header of the set. */
  ghost predicate Apart(w: nat, heads: set<nat>) {
    forall a | a in heads && a != w :: a + BLOCK_SIZE <= w || w + BLOCK_SIZE <= a
  }

  /** No byte outside the headers of the set has changed. */
  ghost predicate OnlyHeaders(m: Memory, m': Memory, heads: set<nat>) {
    forall x {:trigger m'(x)} | Outside(x, heads) :: m'(x) == m(x)
  }

  ghost predicate Outside(x: int, heads: set<nat>) {
    forall a | a in heads :: x < a || a + BLOCK_SIZE <= x
  }

  lemma OnlyTogether(m: Memory, m': Memory, m'': Memory, heads: set<nat>, heads': set<nat>)
    requires OnlyHeaders(m, m', heads) && OnlyHeaders(m', m'', heads') && heads <= heads'
    ensures OnlyHeaders(m, m'', heads')
  {
    forall x | Outside(x, heads')
      ensures m''(x) == m(x)
    {
      assert Outside(x, heads) && m'(x) == m(x);
    }
  }

  lemma OnlyAmongMore(m: Memory, m': Memory, heads: set<nat>, more: set<nat>)
    requires OnlyHeaders(m, m', heads) && heads <= more
    ensures OnlyHeaders(m, m', more)
  {
    forall x | Outside(x, more)
      ensures m'(x) == m(x)
    {
      assert Outside(x, heads);
    }
  }

  lemma NothingWritten(m: Memory, heads: set<nat>)
    ensures OnlyHeaders(m, m, heads)
  {
  }

  /** One more header write. */
  lemma OnlyOneMore(m: Memory, m': Memory, w: nat, h: Header, heads: set<nat>)
    requires OnlyHeaders(m, m', heads) && w in heads
    ensures OnlyHeaders(m, Stored(m', w, h), heads)
  {
    forall x | Outside(x, heads)
      ensures Stored(m', w, h)(x) == m(x)
    {
      assert m'(x) == m(x);
    }
  }

  /** Header bytes that overlap no header of the set outlive writes to those. */
  lemma HeaderOutlives(m: Memory, m': Memory, a: nat, h: Header, heads: set<nat>)
    requires HeaderAt(m, a, h) && OnlyHeaders(m, m', heads) && Apart(a, heads) && a !in heads
    ensures HeaderAt(m', a, h)
  {
    forall i | 0 <= i < BLOCK_SIZE
      ensures m'(a + i) == HeaderByte(h, i)
    {
      assert Outside(a + i, heads);
    }
  }

  lemma ApartHere(h: Headers, b: seq<nat>, start: nat, brk: nat, w: nat)
    requires ListOk(h, b, start, brk) && w in h
    ensures Apart(w, h.Keys)
  {
    forall a | a in h && a != w
      ensures a + BLOCK_SIZE <= w || w + BLOCK_SIZE <= a
    {
      Disjoint(h, b, start, brk, a, w);
    }
  }

  lemma ApartFromFewer(w: nat, heads: set<nat>, fewer: set<nat>)
    requires Apart(w, heads) && fewer <= heads
    ensures Apart(w, fewer)
  {
  }

  lemma ImageStored(m: Memory, h: Headers, w: nat, hdr: Header, heads: set<nat>)
    requires Image(m, h) && Apart(w, heads) && h.Keys <= heads
    ensures Image(Stored(m, w, hdr), h[w := hdr])
  {
    forall a {:trigger HeaderAt(Stored(m, w, hdr), a, h[w := hdr][a])} | a in h[w := hdr]
      ensures HeaderAt(Stored(m, w, hdr), a, h[w := hdr][a])
    {
      if a != w {
        assert a in heads && HeaderAt(m, a, h[a]);
      }
    }
  }

  lemma ImageWithout(m: Memory, h: Headers, a: nat)
    requires Image(m, h)
    ensures Image(m, h - {a})
    ensures a in h ==> HeaderAt(m, a, h[a])
  {
    forall c | c in h - {a}
      ensures HeaderAt(m, c, (h - {a})[c])
    {
      assert HeaderAt(m, c, h[c]);
    }
  }

  /** Writing inside one payload leaves every header alone. */
  lemma ImageAfterPayload(m: Memory, m': Memory, h: Headers, b: seq<nat>, start: nat, brk: nat, c: nat)
    requires ListOk(h, b, start, brk) && c in h && Image(m, h)
    requires forall x | !(c + BLOCK_SIZE <= x < c + BLOCK_SIZE + h[c].size) :: m'(x) == m(x)
    ensures Image(m', h)
  {
    forall a | a in h
      ensures HeaderAt(m', a, h[a])
    {
      assert HeaderAt(m, a, h[a]);
      if a != c {
        Disjoint(h, b, start, brk, a, c);
      }
    }
  }

  // ---- Reading --------------------------------------------------------------------------------------

  /** The number in k bytes at a. */
  function Word(m: Memory, a: int, k: nat): nat
    decreases k
  {
    if k == 0 then 0 else m(a) as nat + 256 * Word(m, a + 1, k - 1)
  }

  function SizeAt(m: Memory, a: int): nat {
    Word(m, a, 8)
  }

  predicate FreeAt(m: Memory, a: int) {
    Word(m, a + 24, 4) != 0
  }

  predicate MagicAt(m: Memory, a: int) {
    Word(m, a + 28, 4) == MAGIC
  }

  function Pow256(k: nat): nat {
    if k == 0 then 1 else 256 * Pow256(k - 1)
  }

  /** Little-endian bytes read back as the number they were written from, when it fits. */
  lemma {:induction false} WordRoundTrip(m: Memory, a: int, k: nat, n: nat)
    requires n < Pow256(k) && forall i | 0 <= i < k :: m(a + i) == LittleEndian(n, i)
    ensures Word(m, a, k) == n
    decreases k
  {
    if k > 0 {
      assert m(a + 0) == LittleEndian(n, 0);
      forall i | 0 <= i < k - 1
        ensures m(a + 1 + i) == LittleEndian(n / 256, i)
      {
        assert m(a + (i + 1)) == LittleEndian(n, i + 1);
      }
      WordRoundTrip(m, a + 1, k - 1, n / 256);
    }
  }

  lemma FieldRoundTrip(m: Memory, a: nat, h: Header, at: nat, k: nat, n: nat)
    requires HeaderAt(m, a, h) && at + k <= BLOCK_SIZE && n < Pow256(k)
    requires forall i | at <= i < at + k :: HeaderByte(h, i) == LittleEndian(n, i - at)
    ensures Word(m, a + at, k) == n
  {
    forall i | 0 <= i < k
      ensures m(a + at + i) == LittleEndian(n, i)
    {
      assert m(a + (at + i)) == HeaderByte(h, at + i);
    }
    WordRoundTrip(m, a + at, k, n);
  }

  /** Every field of a listed header reads back from raw memory as the list has it, in a 64-bit address space. */
  lemma MemoryHoldsTheList(m: Memory, h: Headers, b: seq<nat>, start: nat, brk: nat, a: nat)
    requires Image(m, h) && ListOk(h, b, start, brk) && brk <= TWO_TO_THE_64 && a in h
    ensures SizeAt(m, a) == h[a].size && Word(m, a + 8, 8) == h[a].next && Word(m, a + 16, 8) == h[a].prev
    ensures FreeAt(m, a) == h[a].free && MagicAt(m, a)
  {
    hide Aligned, ListOk, Word, LittleEndian, Pow256, FreeAt, MagicAt;
    FieldsFit(h, b, start, brk, a);
    EightBytes();
    assert HeaderAt(m, a, h[a]);
    FieldRoundTrip(m, a, h[a], 0, 8, h[a].size);
    FieldRoundTrip(m, a, h[a], 8, 8, h[a].next);
    FieldRoundTrip(m, a, h[a], 16, 8, h[a].prev);
    FlagAndMagic(m, a, h[a]);
  }

  /** The bytes of a header in memory: a field's lowest byte comes first. */
  lemma LowestByteFirst(m: Memory, a: nat, h: Header)
    requires HeaderAt(m, a, h)
    ensures m(a) as nat == h.size % 256 && m(a + 1) as nat == h.size / 256 % 256
    ensures m(a + 8) as nat == h.next % 256 && m(a + 16) as nat == h.prev % 256
    ensures m(a + 24) == if h.free then 1 else 0
    ensures m(a + 28) == 0x78 && m(a + 29) == 0x56
  {
    assert m(a + 0) == HeaderByte(h, 0) && m(a + 1) == HeaderByte(h, 1);
    assert m(a + 8) == HeaderByte(h, 8) && m(a + 16) == HeaderByte(h, 16) && m(a + 24) == HeaderByte(h, 24);
    assert m(a + 28) == HeaderByte(h, 28) && m(a + 29) == HeaderByte(h, 29);
  }

  lemma EightBytes()
    ensures Pow256(8) == TWO_TO_THE_64 && Pow256(4) == 0x1_0000_0000
  {
  }

  lemma FieldsFit(h: Headers, b: seq<nat>, start: nat, brk: nat, a: nat)
    requires ListOk(h, b, start, brk) && a in h
    ensures h[a].size < brk && h[a].next < brk && h[a].prev < brk
  {
    hide Aligned;
    var i :| 0 <= i < |b| && b[i] == a;
    AllInOrder(h, b, start, brk);
    Neighbours(h, b, start, brk, i);
    NextStart(h, b, start, brk, i);
  }

  /** Flag and magic number read back whatever the size of the address space. */
  lemma FlagAndMagic(m: Memory, a: nat, h: Header)
    requires HeaderAt(m, a, h)
    ensures FreeAt(m, a) == h.free && MagicAt(m, a)
  {
    hide Word, LittleEndian, Pow256;
    EightBytes();
    FieldRoundTrip(m, a, h, 24, 4, if h.free then 1 else 0);
    FieldRoundTrip(m, a, h, 28, 4, MAGIC);
  }
}
