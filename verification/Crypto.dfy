/**
 Encrypting and decrypting byte arrays of any whole number of blocks (source/tbx_crypto.c).
 */
module Crypto {
  import opened AesSpec
  import Aes

  const AES_BLOCK_SIZE := 16

  // ---------------------------------------------------------------- sequences of blocks

  function WordIn(s: seq<bv8>, i: nat): Word
    requires i + 4 <= |s|
  {
    Word(s[i], s[i + 1], s[i + 2], s[i + 3])
  }

  function BlockIn(s: seq<bv8>, off: nat): State
    requires off + 16 <= |s|
  {
    State(WordIn(s, off), WordIn(s, off + 4), WordIn(s, off + 8), WordIn(s, off + 12))
  }

  function KeyIn(s: seq<bv8>): Window
    requires |s| >= 32
  {
    Window(WordIn(s, 0), WordIn(s, 4), WordIn(s, 8), WordIn(s, 12),
           WordIn(s, 16), WordIn(s, 20), WordIn(s, 24), WordIn(s, 28))
  }

  function WordBytes(w: Word): seq<bv8> {
    [w.b0, w.b1, w.b2, w.b3]
  }

  function BlockBytes(s: State): (r: seq<bv8>)
    ensures |r| == 16
  {
    WordBytes(s.c0) + WordBytes(s.c1) + WordBytes(s.c2) + WordBytes(s.c3)
  }

  lemma BlockOfBytes(s: State)
    ensures BlockIn(BlockBytes(s), 0) == s
  {
  }

  type BlockMap = State -> State

  function Mapped(f: BlockMap, s: State): State {
    f(s)
  }

  function Enciphering(key: Window): BlockMap {
    s => Cipher(key, s)
  }

  function Deciphering(key: Window): BlockMap {
    s => InvCipher(key, s)
  }

  /** Every block mapped on its own, as in the electronic codebook mode. */
  function Codebook(f: BlockMap, data: seq<bv8>): (r: seq<bv8>)
    requires |data| % 16 == 0
    ensures |r| == |data|
  {
    if data == [] then []
    else BlockBytes(Mapped(f, BlockIn(data, 0))) + Codebook(f, data[16..])
  }

  function Encrypted(key: Window, data: seq<bv8>): (r: seq<bv8>)
    requires |data| % 16 == 0
  {
    Codebook(Enciphering(key), data)
  }

  function Decrypted(key: Window, data: seq<bv8>): (r: seq<bv8>)
    requires |data| % 16 == 0
  {
    Codebook(Deciphering(key), data)
  }

  lemma OneBlock(f: BlockMap, data: seq<bv8>)
    requires |data| == 16
    ensures Codebook(f, data) == BlockBytes(Mapped(f, BlockIn(data, 0)))
  {
    assert data[16..] == [];
  }

  lemma SameWord(a: seq<bv8>, b: seq<bv8>, i: nat)
    requires i + 4 <= |a| && i + 4 <= |b| && WordIn(a, i) == WordIn(b, i)
    ensures a[i..i + 4] == b[i..i + 4]
  {
  }

  lemma SameBlock(a: seq<bv8>, b: seq<bv8>)
    requires |a| >= 16 && |b| == 16 && BlockIn(a, 0) == BlockIn(b, 0)
    ensures a == b + a[16..]
  {
    hide WordIn;
    SameWord(a, b, 0);
    SameWord(a, b, 4);
    SameWord(a, b, 8);
    SameWord(a, b, 12);
    assert a == a[0..4] + a[4..8] + a[8..12] + a[12..16] + a[16..];
    assert b == b[0..4] + b[4..8] + b[8..12] + b[12..16];
  }

  lemma BlockOfSum(b: seq<bv8>, rest: seq<bv8>)
    requires |b| == 16
    ensures BlockIn(b + rest, 0) == BlockIn(b, 0) && (b + rest)[16..] == rest
  {
  }

  lemma {:induction false} CodebookInverse(f: BlockMap, g: BlockMap, data: seq<bv8>)
    requires |data| % 16 == 0
    requires forall s :: Mapped(g, Mapped(f, s)) == s
    ensures Codebook(g, Codebook(f, data)) == data
  {
    if data == [] {
    } else {
      hide BlockIn, BlockBytes, Mapped;
      var block := BlockIn(data, 0);
      CodebookInverse(f, g, data[16..]);
      BlockOfSum(BlockBytes(Mapped(f, block)), Codebook(f, data[16..]));
      BlockOfBytes(Mapped(f, block));
      BlockOfBytes(block);
      SameBlock(data, BlockBytes(block));
    }
  }

  /** Every block of the result is the block of the data at the same place, mapped on its own. */
  lemma {:induction false} BlockMapped(f: BlockMap, data: seq<bv8>, i: nat)
    requires |data| % 16 == 0 && 16 * i + 16 <= |data|
    ensures BlockIn(Codebook(f, data), 16 * i) == Mapped(f, BlockIn(data, 16 * i))
    decreases i
  {
    var first := BlockBytes(Mapped(f, BlockIn(data, 0)));
    assert Codebook(f, data) == first + Codebook(f, data[16..]);
    if i == 0 {
      BlockOfBytes(Mapped(f, BlockIn(data, 0)));
      hide BlockBytes, Codebook, Mapped;
      BlockOfSum(first, Codebook(f, data[16..]));
    } else {
      BlockMapped(f, data[16..], i - 1);
      hide BlockBytes, Codebook, Mapped;
      BlockFurtherOn(data, 16 * (i - 1));
      BlockFurtherOn(first + Codebook(f, data[16..]), 16 * (i - 1));
      assert (first + Codebook(f, data[16..]))[16..] == Codebook(f, data[16..]);
    }
  }

  lemma BlockFurtherOn(data: seq<bv8>, off: nat)
    requires 16 + off + 16 <= |data|
    ensures BlockIn(data, 16 + off) == BlockIn(data[16..], off)
  {
  }

  /** For every key and every number of blocks, decryption restores what was encrypted. */
  lemma DecryptUndoesEncrypt(key: Window, data: seq<bv8>)
    requires |data| % 16 == 0
    ensures Decrypted(key, Encrypted(key, data)) == data
  {
    hide Cipher, InvCipher;
    forall s
      ensures Mapped(Deciphering(key), Mapped(Enciphering(key), s)) == s
    {
      InvCipherUndoesCipher(key, s);
    }
    CodebookInverse(Enciphering(key), Deciphering(key), data);
  }

  /** And encryption restores what was decrypted. */
  lemma EncryptUndoesDecrypt(key: Window, data: seq<bv8>)
    requires |data| % 16 == 0
    ensures Encrypted(key, Decrypted(key, data)) == data
  {
    hide Cipher, InvCipher;
    forall s
      ensures Mapped(Enciphering(key), Mapped(Deciphering(key), s)) == s
    {
      CipherUndoesInvCipher(key, s);
    }
    CodebookInverse(Deciphering(key), Enciphering(key), data);
  }

  // ---------------------------------------------------------------- the loops

  /** One more block at the end is mapped on its own. */
  lemma {:induction false} CodebookAppend(f: BlockMap, data: seq<bv8>, last: seq<bv8>)
    requires |data| % 16 == 0 && |last| == 16
    ensures Codebook(f, data + last) == Codebook(f, data) + BlockBytes(Mapped(f, BlockIn(last, 0)))
  {
    hide BlockIn, BlockBytes, Mapped;
    if data == [] {
      BlockOfSum(last, []);
      assert data + last == last + [];
      assert Codebook(f, []) == [];
    } else {
      BlockOfSum(data[..16], data[16..]);
      BlockOfSum(data[..16], data[16..] + last);
      assert data == data[..16] + data[16..];
      assert data + last == data[..16] + (data[16..] + last);
      CodebookAppend(f, data[16..], last);
    }
  }

  /** A pass over the first n bytes of the data. */
  ghost predicate MappedUpTo(f: BlockMap, was: seq<bv8>, now: seq<bv8>, n: nat) {
    && n <= |was| && n % 16 == 0
    && now == Codebook(f, was[..n]) + was[n..]
  }

  /** The next block of a pass is still what it was, and mapping it takes the pass on. */
  lemma NextBlock(f: BlockMap, was: seq<bv8>, now: seq<bv8>, n: nat)
    requires MappedUpTo(f, was, now, n) && n + 16 <= |was|
    ensures |now| == |was| && now[n..n + 16] == was[n..n + 16]
  {
  }

  lemma PassOn(f: BlockMap, was: seq<bv8>, now: seq<bv8>, next: seq<bv8>, n: nat)
    requires MappedUpTo(f, was, now, n) && n + 16 <= |was| == |now| == |next|
    requires next[..n] == now[..n] && next[n + 16..] == now[n + 16..]
    requires next[n..n + 16] == BlockBytes(Mapped(f, BlockIn(was[n..n + 16], 0)))
    ensures MappedUpTo(f, was, next, n + 16)
  {
    hide BlockIn, BlockBytes, Mapped;
    var last := was[n..n + 16];
    CodebookAppend(f, was[..n], last);
    assert was[..n + 16] == was[..n] + last;
    assert next == next[..n] + next[n..n + 16] + next[n + 16..];
  }

  /** A block of an array that became s. */
  lemma BlockReplaced(a: array<bv8>, off: nat, s: State)
    requires off + 16 <= a.Length && Aes.Block(a, off) == s
    ensures a[off..off + 16] == BlockBytes(s)
  {
  }

  lemma BlockRead(a: array<bv8>, off: nat)
    requires off + 16 <= a.Length
    ensures BlockIn(a[off..off + 16], 0) == Aes.Block(a, off)
  {
  }

  lemma TailRead(a: seq<bv8>, off: nat, n: nat)
    requires off + n + 16 <= |a|
    ensures a[off..][n..n + 16] == a[off + n..off + n + 16]
  {
  }

  lemma TailSplit(a: seq<bv8>, off: nat, len: nat)
    requires off + len <= |a|
    ensures a == a[..off] + a[off..]
    ensures a[off..][..len] == a[off..off + len] && a[off..][len..] == a[off + len..]
  {
  }

  /** Nothing but one block changed, in front of the data and in it. */
  lemma TailKept(was: seq<bv8>, now: seq<bv8>, off: nat, n: nat)
    requires off + n + 16 <= |was| == |now|
    requires forall i | 0 <= i < |was| && !(off + n <= i < off + n + 16) :: now[i] == was[i]
    ensures now[..off] == was[..off] && now[off..][..n] == was[off..][..n]
    ensures now[off..][n + 16..] == was[off..][n + 16..]
  {
  }

  lemma KeyRead(key: array<bv8>, off: nat)
    requires off + 32 <= key.Length
    ensures KeyIn(key[off..off + 32]) == Aes.KeyAt(key, off)
  {
  }

  lemma PassStart(f: BlockMap, was: seq<bv8>)
    ensures MappedUpTo(f, was, was, 0)
  {
  }

  lemma PassEnd(f: BlockMap, was: seq<bv8>, now: seq<bv8>, len: nat)
    requires len % 16 == 0 && MappedUpTo(f, was, now, 16 * (len / 16))
    ensures len <= |was| && now == Codebook(f, was[..len]) + was[len..]
  {
    assert 16 * (len / 16) == len;
  }

  /**
   Encrypts len bytes in place.  Data and key start anywhere in their arrays, which may be the same one,
   and may overlap.
   */
  method Aes256Encrypt(data: array?<bv8>, off: nat, len: nat, key: array?<bv8>, keyOff: nat)
    requires data != null ==> off + len <= data.Length
    requires key != null ==> keyOff + 32 <= key.Length
    modifies data
    ensures data != null && (len == 0 || key == null || len % 16 != 0) ==> data[..] == old(data[..])
    ensures data != null && len > 0 && key != null && len % 16 == 0 ==>
      data[..] == old(data[..off])
                  + Encrypted(KeyIn(old(key[keyOff..keyOff + 32])), old(data[off..off + len]))
                  + old(data[off + len..])
  {
    hide KeyIn, Aes.KeyAt, Aes.WindowOf, MappedUpTo, Codebook, Enciphering;
    if data != null && len > 0 && key != null && len % AES_BLOCK_SIZE == 0 {
      ghost var k, before, was := KeyIn(key[keyOff..keyOff + 32]), data[..off], data[off..];
      var ctx := new Aes.Context();
      KeyRead(key, keyOff);
      ctx.Init(key, keyOff);
      TailSplit(data[..], off, len);
      PassStart(Enciphering(k), was);
      for idx := 0 to len / AES_BLOCK_SIZE
        invariant ctx.Valid() && fresh(ctx.Repr) && ctx.KeyedWith(k)
        invariant data[..off] == before && MappedUpTo(Enciphering(k), was, data[off..], 16 * idx)
      {
        EncryptOneBlock(ctx, data, off, idx, k, was);
      }
      PassEnd(Enciphering(k), was, data[off..], len);
      ctx.Done();
      TailSplit(data[..], off, 0);
    }
  }

  method EncryptOneBlock(ctx: Aes.Context, data: array<bv8>, off: nat, idx: nat, ghost k: Window,
                         ghost was: seq<bv8>)
    requires ctx.Valid() && ctx.KeyedWith(k) && data !in ctx.Repr && off <= data.Length
    requires 16 * idx + 16 <= |was| && MappedUpTo(Enciphering(k), was, data[off..], 16 * idx)
    modifies data, ctx.key
    ensures ctx.KeyedWith(k) && data[..off] == old(data[..off])
    ensures MappedUpTo(Enciphering(k), was, data[off..], 16 * (idx + 1))
  {
    hide Cipher, InvCipher, BlockBytes, BlockIn, MappedUpTo, Codebook, Aes.Block, Aes.WindowOf, WindowAt;
    ghost var n, before := 16 * idx, data[off..];
    NextBlock(Enciphering(k), was, before, n);
    BlockRead(data, off + n);
    TailRead(data[..], off, n);
    ctx.EncryptEcb(data, off + idx * AES_BLOCK_SIZE, k);
    TailKept(old(data[..]), data[..], off, n);
    TailRead(data[..], off, n);
    BlockReplaced(data, off + n, Mapped(Enciphering(k), BlockIn(was[n..n + 16], 0)));
    PassOn(Enciphering(k), was, before, data[off..], n);
  }

  /**
   Decrypts len bytes in place.  Data and key start anywhere in their arrays, which may be the same one,
   and may overlap.
   */
  method Aes256Decrypt(data: array?<bv8>, off: nat, len: nat, key: array?<bv8>, keyOff: nat)
    requires data != null ==> off + len <= data.Length
    requires key != null ==> keyOff + 32 <= key.Length
    modifies data
    ensures data != null && (len == 0 || key == null || len % 16 != 0) ==> data[..] == old(data[..])
    ensures data != null && len > 0 && key != null && len % 16 == 0 ==>
      data[..] == old(data[..off])
                  + Decrypted(KeyIn(old(key[keyOff..keyOff + 32])), old(data[off..off + len]))
                  + old(data[off + len..])
  {
    hide KeyIn, Aes.KeyAt, Aes.WindowOf, MappedUpTo, Codebook, Deciphering;
    if data != null && len > 0 && key != null && len % AES_BLOCK_SIZE == 0 {
      ghost var k, before, was := KeyIn(key[keyOff..keyOff + 32]), data[..off], data[off..];
      var ctx := new Aes.Context();
      KeyRead(key, keyOff);
      ctx.Init(key, keyOff);
      TailSplit(data[..], off, len);
      PassStart(Deciphering(k), was);
      for idx := 0 to len / AES_BLOCK_SIZE
        invariant ctx.Valid() && fresh(ctx.Repr) && ctx.KeyedWith(k)
        invariant data[..off] == before && MappedUpTo(Deciphering(k), was, data[off..], 16 * idx)
      {
        DecryptOneBlock(ctx, data, off, idx, k, was);
      }
      PassEnd(Deciphering(k), was, data[off..], len);
      ctx.Done();
      TailSplit(data[..], off, 0);
    }
  }

  method DecryptOneBlock(ctx: Aes.Context, data: array<bv8>, off: nat, idx: nat, ghost k: Window,
                         ghost was: seq<bv8>)
    requires ctx.Valid() && ctx.KeyedWith(k) && data !in ctx.Repr && off <= data.Length
    requires 16 * idx + 16 <= |was| && MappedUpTo(Deciphering(k), was, data[off..], 16 * idx)
    modifies data, ctx.key
    ensures ctx.KeyedWith(k) && data[..off] == old(data[..off])
    ensures MappedUpTo(Deciphering(k), was, data[off..], 16 * (idx + 1))
  {
    hide Cipher, InvCipher, BlockBytes, BlockIn, MappedUpTo, Codebook, Aes.Block, Aes.WindowOf, WindowAt;
    ghost var n, before := 16 * idx, data[off..];
    NextBlock(Deciphering(k), was, before, n);
    BlockRead(data, off + n);
    TailRead(data[..], off, n);
    ctx.DecryptEcb(data, off + idx * AES_BLOCK_SIZE, k);
    TailKept(old(data[..]), data[..], off, n);
    TailRead(data[..], off, n);
    BlockReplaced(data, off + n, Mapped(Deciphering(k), BlockIn(was[n..n + 16], 0)));
    PassOn(Deciphering(k), was, before, data[off..], n);
  }
}
