/** The XOR masking of frame payloads: the bytewise form (mask_safe.go), the
    word-at-a-time form over raw memory (mask.go), and the proof that they agree. */
module Masking {
  type byte = bv8

  /** The byte with number n, counted up from 0. */
  function ByteOf(n: int): (b: byte)
    requires 0 <= n < 256
    ensures b as int == n
  {
    if n == 0 then 0 else ByteOf(n - 1) + 1
  }

  /** The four-byte masking key of section 5.3 of RFC 6455. */
  type Key = k: seq<byte> | |k| == 4 witness [0, 0, 0, 0]

  function XorByte(a: byte, b: byte): byte {
    a ^ b
  }

  /** Masking as section 5.3 of RFC 6455 defines it: octet i is XORed with key octet i modulo 4. */
  function Mask(key: Key, pos: nat, s: seq<byte>): (r: seq<byte>)
    ensures |r| == |s|
    ensures forall i :: 0 <= i < |s| ==> r[i] == XorByte(s[i], key[(pos + i) % 4])
  {
    seq(|s|, i requires 0 <= i < |s| => XorByte(s[i], key[(pos + i) % 4]))
  }

  lemma XorByteInvolution(a: byte, b: byte)
    ensures XorByte(XorByte(a, b), b) == a
  {}

  lemma MaskInvolution(key: Key, pos: nat, s: seq<byte>)
    ensures Mask(key, pos, Mask(key, pos, s)) == s
  {
    var twice := Mask(key, pos, Mask(key, pos, s));
    forall i | 0 <= i < |s|
      ensures twice[i] == s[i]
    {
      XorByteInvolution(s[i], key[(pos + i) % 4]);
    }
  }

  lemma RotatedIndex(pos: nat, n: nat, i: nat)
    ensures (pos + (n + i)) % 4 == ((pos + n) % 4 + i) % 4
  {}

  /** Masking a concatenation is masking the parts, the second from the position the first returns. */
  lemma MaskConcat(key: Key, pos: nat, s: seq<byte>, t: seq<byte>)
    ensures Mask(key, pos, s + t) == Mask(key, pos, s) + Mask(key, (pos + |s|) % 4, t)
  {
    var whole, rest := Mask(key, pos, s + t), Mask(key, (pos + |s|) % 4, t);
    forall j | |s| <= j < |s| + |t|
      ensures whole[j] == rest[j - |s|]
    {
      RotatedIndex(pos, |s|, j - |s|);
      assert (s + t)[j] == t[j - |s|];
    }
  }

  /** Memory after the bytes from lo to hi have been masked. */
  function MaskRange(key: Key, pos: nat, all: seq<byte>, lo: nat, hi: nat): (r: seq<byte>)
    requires lo <= hi <= |all|
    ensures |r| == |all|
  {
    all[..lo] + Mask(key, pos, all[lo..hi]) + all[hi..]
  }

  lemma MaskRangeAt(key: Key, pos: nat, all: seq<byte>, lo: nat, hi: nat, i: nat)
    requires lo <= hi <= |all| && i < |all|
    ensures MaskRange(key, pos, all, lo, hi)[i]
         == if lo <= i < hi then XorByte(all[i], key[(pos + (i - lo)) % 4]) else all[i]
  {
    hide XorByte;
  }

  /** Masking two adjacent ranges, the second from the position the first returns, is masking their union. */
  lemma MaskRangeAdjacent(key: Key, pos: nat, all: seq<byte>, lo: nat, mid: nat, hi: nat)
    requires lo <= mid <= hi <= |all|
    ensures MaskRange(key, (pos + (mid - lo)) % 4, MaskRange(key, pos, all, lo, mid), mid, hi)
         == MaskRange(key, pos, all, lo, hi)
  {
    hide *;
    var half := MaskRange(key, pos, all, lo, mid);
    var twice, once := MaskRange(key, (pos + (mid - lo)) % 4, half, mid, hi), MaskRange(key, pos, all, lo, hi);
    forall i | 0 <= i < |all|
      ensures twice[i] == once[i]
    {
      MaskRangeAt(key, pos, all, lo, mid, i);
      MaskRangeAt(key, (pos + (mid - lo)) % 4, half, mid, hi, i);
      MaskRangeAt(key, pos, all, lo, hi, i);
      if mid <= i {
        RotatedIndex(pos, mid - lo, i - mid);
      }
    }
  }

  /** One byte at a time (mask_safe.go). */
  method MaskBytesSafe(key: Key, pos: nat, b: array<byte>, lo: nat, hi: nat) returns (next: nat)
    requires lo <= hi <= b.Length
    modifies b
    ensures b[..] == MaskRange(key, pos, old(b[..]), lo, hi)
    ensures next == (pos + (hi - lo)) % 4
  {
    var p := pos;
    for i := lo to hi
      invariant p == pos + (i - lo)
      invariant forall k :: lo <= k < i ==> b[k] == XorByte(old(b[k]), key[(pos + (k - lo)) % 4])
      invariant forall k :: 0 <= k < b.Length && !(lo <= k < i) ==> b[k] == old(b[k])
    {
      b[i] := XorByte(b[i], key[p % 4]);
      p := p + 1;
    }
    next := p % 4;
  }

  // Machine words

  /** Four bytes as a 32-bit word, least significant byte first. */
  function Pack(a: byte, b: byte, c: byte, d: byte): bv32 {
    a as bv32 | (b as bv32 << 8) | (c as bv32 << 16) | (d as bv32 << 24)
  }

  function Unpack(x: bv32): (s: seq<byte>)
    ensures |s| == 4
  {
    [(x & 0xff) as byte, ((x >> 8) & 0xff) as byte, ((x >> 16) & 0xff) as byte, ((x >> 24) & 0xff) as byte]
  }

  function XorHalf(x: bv32, y: bv32): bv32 {
    x ^ y
  }

  lemma PackXor(a: byte, b: byte, c: byte, d: byte, p: byte, q: byte, r: byte, s: byte)
    ensures Unpack(XorHalf(Pack(a, b, c, d), Pack(p, q, r, s)))
         == [XorByte(a, p), XorByte(b, q), XorByte(c, r), XorByte(d, s)]
  {}

  /** Two 32-bit halves as a 64-bit word. */
  function Join(low: bv32, high: bv32): bv64 {
    low as bv64 | (high as bv64 << 32)
  }

  function Low(x: bv64): bv32 {
    (x & 0xffff_ffff) as bv32
  }

  function High(x: bv64): bv32 {
    (x >> 32) as bv32
  }

  function XorWhole(x: bv64, y: bv64): bv64 {
    x ^ y
  }

  lemma JoinXor(a: bv32, b: bv32, c: bv32, d: bv32)
    ensures Low(XorWhole(Join(a, b), Join(c, d))) == XorHalf(a, c)
    ensures High(XorWhole(Join(a, b), Join(c, d))) == XorHalf(b, d)
  {}

  /** A big-endian machine numbers the bytes of a word the other way round. */
  function InOrder(s: seq<byte>, bigEndian: bool): (r: seq<byte>)
    ensures |r| == |s|
    ensures forall i :: 0 <= i < |s| ==> r[i] == if bigEndian then s[|s| - 1 - i] else s[i]
  {
    if bigEndian then seq(|s|, i requires 0 <= i < |s| => s[|s| - 1 - i]) else s
  }

  function PackAt(s: seq<byte>, i: nat): bv32
    requires i + 4 <= |s|
  {
    Pack(s[i], s[i + 1], s[i + 2], s[i + 3])
  }

  /** The word in 4 or 8 consecutive bytes of memory; a 4-byte word is the low half of the result. */
  function Load(s: seq<byte>, bigEndian: bool): bv64
    requires |s| == 4 || |s| == 8
  {
    var t := InOrder(s, bigEndian);
    Join(PackAt(t, 0), if |t| == 8 then PackAt(t, 4) else 0)
  }

  /** The bytes of memory that storing a word of w bytes leaves. */
  function Store(x: bv64, w: nat, bigEndian: bool): (s: seq<byte>)
    requires w == 4 || w == 8
    ensures |s| == w
  {
    InOrder(Unpack(Low(x)) + if w == 8 then Unpack(High(x)) else [], bigEndian)
  }

  function Xor(s: seq<byte>, t: seq<byte>): (r: seq<byte>)
    requires |s| == |t|
    ensures |r| == |s|
    ensures forall i :: 0 <= i < |s| ==> r[i] == XorByte(s[i], t[i])
  {
    seq(|s|, i requires 0 <= i < |s| => XorByte(s[i], t[i]))
  }

  lemma UnpackXor(s: seq<byte>, t: seq<byte>, i: nat)
    requires |s| == |t| && i + 4 <= |s|
    ensures Unpack(XorHalf(PackAt(s, i), PackAt(t, i))) == Xor(s, t)[i..i + 4]
  {
    hide Pack, Unpack, XorHalf, XorByte;
    PackXor(s[i], s[i + 1], s[i + 2], s[i + 3], t[i], t[i + 1], t[i + 2], t[i + 3]);
    var x := Xor(s, t);
    assert x[i..i + 4] == [x[i], x[i + 1], x[i + 2], x[i + 3]];
  }

  /** XOR of two words acts on every byte of memory separately, whatever the byte order. */
  lemma WordXor(s: seq<byte>, t: seq<byte>, bigEndian: bool)
    requires |s| == |t| && (|s| == 4 || |s| == 8)
    ensures Store(XorWhole(Load(s, bigEndian), Load(t, bigEndian)), |s|, bigEndian) == Xor(s, t)
  {
    hide *;
    var s', t' := InOrder(s, bigEndian), InOrder(t, bigEndian);
    var x, all := XorWhole(Load(s, bigEndian), Load(t, bigEndian)), Xor(s', t');
    assert && Low(x) == XorHalf(PackAt(s', 0), PackAt(t', 0))
           && (|s| == 8 ==> High(x) == XorHalf(PackAt(s', 4), PackAt(t', 4))) by {
      JoinXor(PackAt(s', 0), if |s| == 8 then PackAt(s', 4) else 0,
              PackAt(t', 0), if |s| == 8 then PackAt(t', 4) else 0);
      LoadIs(s, bigEndian);
      LoadIs(t, bigEndian);
    }
    UnpackXor(s', t', 0);
    if |s| == 8 {
      UnpackXor(s', t', 4);
      assert all == all[0..4] + all[4..8];
    }
    assert Unpack(Low(x)) + (if |s| == 8 then Unpack(High(x)) else []) == all;
    StoreIs(x, |s|, bigEndian);
    OrderXor(s, t, bigEndian);
  }

  lemma LoadIs(s: seq<byte>, bigEndian: bool)
    requires |s| == 4 || |s| == 8
    ensures var t := InOrder(s, bigEndian);
            Load(s, bigEndian) == Join(PackAt(t, 0), if |s| == 8 then PackAt(t, 4) else 0)
  {
    hide Join, PackAt, InOrder;
  }

  lemma StoreIs(x: bv64, w: nat, bigEndian: bool)
    requires w == 4 || w == 8
    ensures Store(x, w, bigEndian) == InOrder(Unpack(Low(x)) + if w == 8 then Unpack(High(x)) else [], bigEndian)
  {
    hide InOrder, Unpack, Low, High;
  }

  lemma OrderXor(s: seq<byte>, t: seq<byte>, bigEndian: bool)
    requires |s| == |t|
    ensures InOrder(Xor(InOrder(s, bigEndian), InOrder(t, bigEndian)), bigEndian) == Xor(s, t)
  {
    hide XorByte;
  }

  predicate WholeWords(n: nat, w: nat) {
    if w == 8 then n % 8 == 0 else n % 4 == 0
  }

  lemma UpTo8(addr: nat)
    ensures addr % 8 != 0 ==> (addr + (8 - addr % 8)) % 8 == 0
  {
    assert addr + (8 - addr % 8) == 8 * (addr / 8 + 1);
  }

  lemma UpTo4(addr: nat)
    ensures addr % 4 != 0 ==> (addr + (4 - addr % 4)) % 4 == 0
  {
    assert addr + (4 - addr % 4) == 4 * (addr / 4 + 1);
  }

  /** The number of bytes from addr to the next word boundary. */
  function Unaligned(addr: nat, w: nat): (n: nat)
    requires w == 4 || w == 8
    ensures n < w && WholeWords(addr + n, w)
  {
    UpTo8(addr);
    UpTo4(addr);
    var over := if w == 8 then addr % 8 else addr % 4;
    if over == 0 then 0 else w - over
  }

  /** The bytes that a word starting at masking position p is XORed with. */
  function KeyBytes(key: Key, p: nat, w: nat): (r: seq<byte>)
    ensures |r| == w
    ensures forall i :: 0 <= i < w ==> r[i] == key[(p + i) % 4]
  {
    seq(w, i requires 0 <= i < w => key[(p + i) % 4])
  }

  /** Because a word is a multiple of the key, one rotated key word serves every word that follows. */
  lemma KeyBytesPeriodic(key: Key, p: nat, q: nat, w: nat)
    requires p % 4 == q % 4
    ensures KeyBytes(key, p, w) == KeyBytes(key, q, w)
  {
    forall i | 0 <= i < w
      ensures KeyBytes(key, p, w)[i] == KeyBytes(key, q, w)[i]
    {
      RotatedIndex(0, p, i);
      RotatedIndex(0, q, i);
    }
  }

  /** Memory after one of its words has been XORed with the word kw. */
  function XorWordIn(all: seq<byte>, at: nat, w: nat, kw: bv64, bigEndian: bool): seq<byte>
    requires (w == 4 || w == 8) && at + w <= |all|
  {
    all[..at] + Store(XorWhole(Load(all[at..at + w], bigEndian), kw), w, bigEndian) + all[at + w..]
  }

  /** XOR one word of memory in place, as a single load and store. */
  method XorWord(b: array<byte>, at: nat, w: nat, kw: bv64, bigEndian: bool)
    requires (w == 4 || w == 8) && at + w <= b.Length
    modifies b
    ensures b[..] == XorWordIn(old(b[..]), at, w, kw, bigEndian)
  {
    hide Load, Store, XorWhole;
    var bytes := Store(XorWhole(Load(b[at..at + w], bigEndian), kw), w, bigEndian);
    forall j | 0 <= j < w {
      b[at + j] := bytes[j];
    }
  }

  /** XORing a word with the rotated key word masks the bytes of that word. */
  lemma XorWordMasks(key: Key, p: nat, q: nat, all: seq<byte>, at: nat, w: nat, bigEndian: bool)
    requires (w == 4 || w == 8) && at + w <= |all|
    requires p % 4 == q
    ensures XorWordIn(all, at, w, Load(KeyBytes(key, p, w), bigEndian), bigEndian) == MaskRange(key, q, all, at, at + w)
  {
    hide Load, Store, XorWhole, XorByte;
    var word := all[at..at + w];
    KeyBytesPeriodic(key, p, q, w);
    WordXor(word, KeyBytes(key, p, w), bigEndian);
    assert Xor(word, KeyBytes(key, q, w)) == Mask(key, q, word);
  }

  /** The bytes that the whole words among n bytes take. */
  function WordBytes(n: nat, w: nat): (r: nat)
    requires w == 4 || w == 8
    ensures r <= n < r + w && WholeWords(r, w)
  {
    if w == 8 then n / 8 * 8 else n / 4 * 4
  }

  lemma WordsKeepPosition(pos: nat, n: nat, words: nat, w: nat)
    requires (w == 4 || w == 8) && WholeWords(words, w)
    ensures (pos + (n + words)) % 4 == (pos + n) % 4
  {
    var k: nat := if w == 8 then 2 * (words / 8) else words / 4;
    assert words == 4 * k;
    FourTimes(pos + n, k);
    assert pos + (n + words) == pos + n + 4 * k;
  }

  lemma FourTimes(a: nat, k: nat)
    ensures (a + 4 * k) % 4 == a % 4
  {}

  lemma PositionAfter(pos: nat, n: nat, m: nat)
    ensures ((pos + n) % 4 + m) % 4 == (pos + (n + m)) % 4
  {}

  lemma NextWord(p: nat, done: nat, left: nat, w: nat)
    requires w == 4 || w == 8
    requires WholeWords(left, w) && left > 0 && done % 4 == 0
    ensures w <= left && WholeWords(left - w, w) && (done + w) % 4 == 0
    ensures (p + done) % 4 == p % 4
  {}

  /** One step of the word loop extends the masked range by one word. */
  lemma MaskOneWord(key: Key, p: nat, all: seq<byte>, lo: nat, at: nat, w: nat, bigEndian: bool)
    requires (w == 4 || w == 8) && lo <= at && at + w <= |all|
    requires (p + (at - lo)) % 4 == p % 4
    ensures XorWordIn(MaskRange(key, p, all, lo, at), at, w, Load(KeyBytes(key, p, w), bigEndian), bigEndian)
         == MaskRange(key, p, all, lo, at + w)
  {
    hide *;
    XorWordMasks(key, p, (p + (at - lo)) % 4, MaskRange(key, p, all, lo, at), at, w, bigEndian);
    MaskRangeAdjacent(key, p, all, lo, at, at + w);
  }

  lemma MaskRangeEmpty(key: Key, pos: nat, all: seq<byte>, at: nat)
    requires at <= |all|
    ensures MaskRange(key, pos, all, at, at) == all
  {}

  /** Mask the aligned words of b[lo..hi] with one precomputed key word. */
  method MaskWords(key: Key, p: nat, b: array<byte>, lo: nat, hi: nat, w: nat, bigEndian: bool)
    requires lo <= hi <= b.Length
    requires (w == 4 || w == 8) && WholeWords(hi - lo, w)
    modifies b
    ensures b[..] == MaskRange(key, p, old(b[..]), lo, hi)
  {
    hide *;
    ghost var before := b[..];
    MaskRangeEmpty(key, p, before, lo);
    var kw := Load(KeyBytes(key, p, w), bigEndian);
    var i := lo;
    while i < hi
      invariant lo <= i <= hi && (i - lo) % 4 == 0 && WholeWords(hi - i, w)
      invariant b[..] == MaskRange(key, p, before, lo, i)
    {
      NextWord(p, i - lo, hi - i, w);
      XorWord(b, i, w, kw, bigEndian);
      MaskOneWord(key, p, before, lo, i, w, bigEndian);
      i := i + w;
    }
  }

  /** An unaligned prefix, whole words and a tail, masked one after the other. */
  lemma MaskThreeRanges(key: Key, pos: nat, all: seq<byte>, lo: nat, start: nat, end: nat, hi: nat, w: nat)
    requires lo <= start <= end <= hi <= |all|
    requires (w == 4 || w == 8) && WholeWords(end - start, w)
    ensures var p := (pos + (start - lo)) % 4;
            && MaskRange(key, p, MaskRange(key, p, MaskRange(key, pos, all, lo, start), start, end), end, hi)
               == MaskRange(key, pos, all, lo, hi)
            && (p + (hi - end)) % 4 == (pos + (hi - lo)) % 4
  {
    hide *;
    var p := (pos + (start - lo)) % 4;
    MaskRangeAdjacent(key, pos, all, lo, start, end);
    WordsKeepPosition(pos, start - lo, end - start, w);
    assert p == (pos + (end - lo)) % 4;
    MaskRangeAdjacent(key, pos, all, lo, end, hi);
    PositionAfter(pos, end - lo, hi - end);
  }

  /** Word-at-a-time masking (mask.go) of b[lo..hi], whose first byte has machine address addr.
      The contract is that of MaskBytesSafe, whatever the alignment, word size and byte order. */
  method MaskBytes(key: Key, pos: nat, b: array<byte>, lo: nat, hi: nat, addr: nat, w: nat, bigEndian: bool)
    returns (next: nat)
    requires lo <= hi <= b.Length
    requires w == 4 || w == 8
    modifies b
    ensures b[..] == MaskRange(key, pos, old(b[..]), lo, hi)
    ensures next == (pos + (hi - lo)) % 4
  {
    hide *;
    if hi - lo < 2 * w {
      next := MaskBytesSafe(key, pos, b, lo, hi);
      return;
    }
    var start := lo + Unaligned(addr, w);
    var end := start + WordBytes(hi - start, w);
    var p := MaskBytesSafe(key, pos, b, lo, start);
    MaskWords(key, p, b, start, end, w, bigEndian);
    next := MaskBytesSafe(key, p, b, end, hi);
    MaskThreeRanges(key, pos, old(b[..]), lo, start, end, hi, w);
  }
}
