// Cipher block chaining with padding that is always added, and the two uses of a null initialisation vector.
module Cbc {
  import opened Bits
  import opened Bytes
  import opened Prelude
  import opened GaloisField
  import opened State
  import opened Rijndael

  const USIZE_BITS: nat := 64
  const USIZE_MAX: nat := 0xFFFF_FFFF_FFFF_FFFF
  const BLOCK_LEN: nat := 16

  type Usize = n: nat | n <= USIZE_MAX

  datatype CipherError =
    | Empty
    | NotBlockAligned(len: nat)
    | BufferTooSmall(needed: nat, available: nat)
    | InvalidPadding

  datatype Iv = Null | Explicit(block: Block) {
    function Bytes(): Block {
      match this
      case Null => ZERO_BLOCK
      case Explicit(block) => block
    }
  }

  // ---- padding

  // !n & 15, the complement being taken in 64 bits
  function MaskedComplement(n: Usize): nat {
    And(Flip(n, USIZE_BITS), BLOCK_LEN - 1)
  }

  lemma MaskedComplementFills(n: Usize)
    ensures MaskedComplement(n) < 16 && (n + MaskedComplement(n) + 1) % 16 == 0
  {
    hide Flip, And;
    UsizePower();
    FlipIsComplement(n, USIZE_BITS);
    AndOnes(USIZE_MAX - n, 4);
    RemainderFills(n);
  }

  lemma RemainderFills(n: Usize)
    ensures (n + (USIZE_MAX - n) % 16 + 1) % 16 == 0
  {}

  lemma UsizePower()
    ensures Pow2(4) == BLOCK_LEN && Pow2(USIZE_BITS) == USIZE_MAX + 1
  {
    hide Pow2;
    FirstPowers();
    PowerDoubles(2);
    PowerDoubles(4);
    PowerDoubles(8);
    PowerDoubles(16);
    PowerDoubles(32);
  }

  lemma FirstPowers()
    ensures Pow2(2) == 4
  {}

  lemma PowerDoubles(k: nat)
    ensures Pow2(2 * k) == Pow2(k) * Pow2(k)
  {
    hide Pow2;
    Pow2Adds(k, k);
  }

  function PaddingLen(plaintextLen: Usize): (pad: nat)
    ensures 1 <= pad <= 16 && (plaintextLen + pad) % 16 == 0
  {
    MaskedComplementFills(plaintextLen);
    MaskedComplement(plaintextLen) + 1
  }

  function PaddedLen(plaintextLen: Usize): (r: Option<Usize>)
    ensures r.None? <==> plaintextLen > USIZE_MAX - 16
    ensures r.Some? ==> plaintextLen < r.value <= plaintextLen + 16 && r.value % 16 == 0
  {
    var sum := plaintextLen + PaddingLen(plaintextLen);
    if sum > USIZE_MAX then None else Some(sum)
  }

  function Filler(count: nat): (s: seq<bv8>)
    requires count <= 16
    ensures |s| == count
  {
    seq(count, _ => count as bv8)
  }

  function Padded(plaintext: seq<bv8>): (s: seq<bv8>)
    requires |plaintext| <= USIZE_MAX
    ensures |s| == |plaintext| + PaddingLen(|plaintext|)
  {
    plaintext + Filler(PaddingLen(|plaintext|))
  }

  function StripPadding(plaintext: seq<bv8>): Result<seq<bv8>, CipherError> {
    if plaintext == [] then Err(Empty)
    else
      var declared := plaintext[|plaintext| - 1];
      var pad := declared as int;
      if pad == 0 || pad > 16 then Err(InvalidPadding)
      else if |plaintext| < pad then Err(InvalidPadding)
      else
        var bodyLen := |plaintext| - pad;
        if exists i :: bodyLen <= i < |plaintext| && plaintext[i] != declared then Err(InvalidPadding)
        else Ok(plaintext[..bodyLen])
  }

  lemma FillerByte(count: nat)
    requires count <= 16
    ensures (count as bv8) as int == count
  {
    ByteIndex(count);
  }

  // A body, and after it 1 to 16 bytes that each hold their number
  ghost predicate IsPadded(plaintext: seq<bv8>, body: seq<bv8>) {
    && |body| < |plaintext| <= |body| + 16 && plaintext[..|body|] == body
    && forall i :: |body| <= i < |plaintext| ==> plaintext[i] as int == |plaintext| - |body|
  }

  // Stripping accepts exactly that.
  lemma StripExact(plaintext: seq<bv8>, body: seq<bv8>)
    ensures StripPadding(plaintext) == Ok(body) <==> IsPadded(plaintext, body)
    ensures StripPadding(plaintext) == Err(Empty) <==> plaintext == []
  {
    if IsPadded(plaintext, body) {
      forall i | |body| <= i < |plaintext| ensures plaintext[i] == plaintext[|plaintext| - 1] {
        ThereAndBack(plaintext[i]);
        ThereAndBack(plaintext[|plaintext| - 1]);
      }
    }
  }

  // Padding adds as many bytes as are wanting to a multiple of 16, or 16, and each holds their number.
  lemma PaddedBytes(plaintext: seq<bv8>)
    requires |plaintext| <= USIZE_MAX
    ensures IsPadded(Padded(plaintext), plaintext) && |Padded(plaintext)| == |plaintext| + 16 - |plaintext| % 16
  {
    hide PaddingLen;
    FillerByte(PaddingLen(|plaintext|));
  }

  lemma StripUndoesPad(plaintext: seq<bv8>)
    requires |plaintext| <= USIZE_MAX
    ensures StripPadding(Padded(plaintext)) == Ok(plaintext)
  {
    PaddedBytes(plaintext);
    StripExact(Padded(plaintext), plaintext);
  }

  // ---- chaining

  function CbcDecrypt(ks: KeySchedule, chain: Block, ciphertext: seq<bv8>): (r: seq<bv8>)
    requires ks.Valid() && |ciphertext| % 16 == 0
    ensures |r| == |ciphertext|
    decreases |ciphertext|
  {
    if ciphertext == [] then []
    else
      var block: Block := ciphertext[..16];
      XorBlock(Decrypt(ks, block), chain) + CbcDecrypt(ks, block, ciphertext[16..])
  }

  function CbcEncrypt(ks: KeySchedule, chain: Block, plaintext: seq<bv8>): (r: seq<bv8>)
    requires ks.Valid() && |plaintext| % 16 == 0
    ensures |r| == |plaintext|
    decreases |plaintext|
  {
    if plaintext == [] then []
    else
      var block := Encrypt(ks, XorBlock(plaintext[..16], chain));
      block + CbcEncrypt(ks, block, plaintext[16..])
  }

  function Join(first: seq<bv8>, rest: seq<bv8>): seq<bv8> { first + rest }

  lemma FirstBlock(block: seq<bv8>, rest: seq<bv8>)
    requires |block| == 16
    ensures (block + rest)[..16] == block && (block + rest)[16..] == rest
  {}

  lemma {:induction false} DecryptUndoesCbc(ks: KeySchedule, chain: Block, plaintext: seq<bv8>)
    requires ks.Valid() && |plaintext| % 16 == 0
    ensures CbcDecrypt(ks, chain, CbcEncrypt(ks, chain, plaintext)) == plaintext
    decreases |plaintext|
  {
    if plaintext != [] {
      var first: Block := plaintext[..16];
      var block: Block := Encrypt(ks, XorBlock(first, chain));
      FirstBlock(block, CbcEncrypt(ks, block, plaintext[16..]));
      DecryptUndoesEncrypt(ks, XorBlock(first, chain));
      XorBlockCancels(first, chain);
      DecryptUndoesCbc(ks, block, plaintext[16..]);
    }
  }

  lemma {:induction false} EncryptUndoesCbc(ks: KeySchedule, chain: Block, ciphertext: seq<bv8>)
    requires ks.Valid() && |ciphertext| % 16 == 0
    ensures CbcEncrypt(ks, chain, CbcDecrypt(ks, chain, ciphertext)) == ciphertext
    decreases |ciphertext|
  {
    if ciphertext != [] {
      var block: Block := ciphertext[..16];
      FirstBlock(XorBlock(Decrypt(ks, block), chain), CbcDecrypt(ks, block, ciphertext[16..]));
      XorBlockCancels(Decrypt(ks, block), chain);
      EncryptUndoesDecrypt(ks, block);
      EncryptUndoesCbc(ks, block, ciphertext[16..]);
    }
  }

  lemma {:induction false} ChainedBytes(ks: KeySchedule, chain: Block, ciphertext: seq<bv8>, k: nat, i: nat)
    requires ks.Valid() && |ciphertext| % 16 == 0 && 16 * k < |ciphertext| && i < 16
    ensures CbcDecrypt(ks, chain, ciphertext)[16 * k + i]
         == Xor(Decrypt(ks, ciphertext[16 * k..16 * k + 16])[i],
                if k == 0 then chain[i] else ciphertext[16 * (k - 1) + i])
    decreases k
  {
    hide Decrypt, Xor;
    var block: Block := ciphertext[..16];
    if k > 0 {
      var rest := ciphertext[16..];
      ChainedBytes(ks, block, rest, k - 1, i);
      assert rest[16 * (k - 1)..16 * (k - 1) + 16] == ciphertext[16 * k..16 * k + 16];
      assert CbcDecrypt(ks, chain, ciphertext)[16 * k + i] == CbcDecrypt(ks, block, rest)[16 * (k - 1) + i];
    }
  }

  // Byte by byte, each block is decrypted and combined with the ciphertext block before it, or with the IV, or with
  // nothing (section 6.2 of NIST SP 800-38A). Encryption is what undoes it.
  lemma DecryptedBytes(ks: KeySchedule, iv: Iv, ciphertext: seq<bv8>, k: nat, i: nat)
    requires ks.Valid() && |ciphertext| % 16 == 0 && 16 * k < |ciphertext| && i < 16
    ensures CbcDecrypt(ks, iv.Bytes(), ciphertext)[16 * k + i]
         == Xor(Decrypt(ks, ciphertext[16 * k..16 * k + 16])[i],
                if k > 0 then ciphertext[16 * (k - 1) + i] else if iv.Null? then 0 else iv.block[i])
  {
    hide Decrypt, Xor, CbcDecrypt;
    ChainedBytes(ks, iv.Bytes(), ciphertext, k, i);
  }

  lemma RoundTrip(ks: KeySchedule, iv: Iv, plaintext: seq<bv8>)
    requires ks.Valid() && |plaintext| <= USIZE_MAX
    ensures StripPadding(CbcDecrypt(ks, iv.Bytes(), CbcEncrypt(ks, iv.Bytes(), Padded(plaintext)))) == Ok(plaintext)
  {
    DecryptUndoesCbc(ks, iv.Bytes(), Padded(plaintext));
    StripUndoesPad(plaintext);
  }

  lemma XorZeroBlock(a: Block)
    ensures XorBlock(a, ZERO_BLOCK) == a
  {
    forall i | 0 <= i < 16 ensures Xor(a[i], ZERO_BLOCK[i]) == a[i] {
      XorZero(a[i]);
    }
  }

  // Decrypting from the IV field on, with a null IV
  lemma NullIvDecrypt(ks: KeySchedule, iv: Block, ciphertext: seq<bv8>)
    requires ks.Valid() && |ciphertext| % 16 == 0
    ensures CbcDecrypt(ks, Null.Bytes(), Join(iv, ciphertext))
         == Join(Decrypt(ks, iv), CbcDecrypt(ks, Explicit(iv).Bytes(), ciphertext))
  {
    FirstBlock(iv, ciphertext);
    XorZeroBlock(Decrypt(ks, iv));
  }

  lemma PadJoin(first: Block, plaintext: seq<bv8>)
    requires |plaintext| <= USIZE_MAX - 16
    ensures Padded(Join(first, plaintext)) == Join(first, Padded(plaintext))
  {
    hide Filler;
    PaddingPeriodic(|plaintext|);
    Associates(first, plaintext, Filler(PaddingLen(|plaintext|)));
  }

  lemma PaddingPeriodic(n: nat)
    requires n <= USIZE_MAX - 16
    ensures PaddingLen(16 + n) == PaddingLen(n)
  {
    hide PaddingLen;
    var p, q := PaddingLen(16 + n), PaddingLen(n);
    assert (16 + n + p) % 16 == (n + q) % 16;
  }

  lemma Associates(a: seq<bv8>, b: seq<bv8>, c: seq<bv8>)
    ensures (a + b) + c == a + (b + c)
  {}

  lemma NullIvEncrypt(ks: KeySchedule, iv: Block, plaintext: seq<bv8>)
    requires ks.Valid() && |plaintext| <= USIZE_MAX - 16
    ensures CbcEncrypt(ks, Null.Bytes(), Padded(Join(Decrypt(ks, iv), plaintext)))
         == Join(iv, CbcEncrypt(ks, Explicit(iv).Bytes(), Padded(plaintext)))
  {
    var secret := Decrypt(ks, iv);
    PadJoin(secret, plaintext);
    FirstBlock(secret, Padded(plaintext));
    XorZeroBlock(secret);
    EncryptUndoesDecrypt(ks, iv);
  }

  // Only the first block of a decryption depends on the IV.
  lemma DecryptionForgetsIv(ks: KeySchedule, a: Block, b: Block, ciphertext: seq<bv8>)
    requires ks.Valid() && |ciphertext| % 16 == 0 && ciphertext != []
    ensures CbcDecrypt(ks, a, ciphertext)[16..] == CbcDecrypt(ks, b, ciphertext)[16..]
  {}

  // ---- on buffers

  method XorInto(target: array<bv8>, source: Block)
    requires target.Length == 16
    modifies target
    ensures target[..] == XorBlock(old(target[..]), source)
  {
    for i := 0 to 16
      invariant forall k :: 0 <= k < i ==> target[k] == Xor(old(target[k]), source[k])
      invariant forall k :: i <= k < 16 ==> target[k] == old(target[k])
    {
      target[i] := Xor(target[i], source[i]);
    }
  }

  method CopyBlock(source: seq<bv8>, to: array<bv8>, offset: nat)
    requires |source| == 16 && offset + 16 <= to.Length
    modifies to
    ensures to[..offset] == old(to[..offset])
    ensures to[..offset + 16] == to[..offset] + source
    ensures to[offset + 16..] == old(to[offset + 16..])
  {
    for i := 0 to 16
      invariant to[offset..offset + i] == source[..i]
      invariant to[..offset] == old(to[..offset]) && to[offset + i..] == old(to[offset + i..])
    {
      to[offset + i] := source[i];
    }
  }

  // One block through the cipher and off the chain
  method DecryptChained(ks: KeySchedule, chain: Block, cipherBlock: Block) returns (working: array<bv8>)
    requires ks.Valid()
    ensures fresh(working) && working.Length == 16
    ensures working[..] == XorBlock(Decrypt(ks, cipherBlock), chain)
  {
    working := new bv8[16](i requires 0 <= i < 16 => cipherBlock[i]);
    assert working[..] == cipherBlock;
    DecryptBlock(ks, working);
    XorInto(working, chain);
  }

  method EncryptChained(ks: KeySchedule, chain: Block, plainBlock: Block) returns (block: array<bv8>)
    requires ks.Valid()
    ensures fresh(block) && block.Length == 16
    ensures block[..] == Encrypt(ks, XorBlock(plainBlock, chain))
  {
    block := new bv8[16](i requires 0 <= i < 16 => plainBlock[i]);
    assert block[..] == plainBlock;
    XorInto(block, chain);
    EncryptBlock(ks, block);
  }

  lemma DecryptStep(ks: KeySchedule, chain: Block, ciphertext: seq<bv8>, at: nat, done: seq<bv8>)
    requires ks.Valid() && at + 16 <= |ciphertext| && (|ciphertext| - at) % 16 == 0
    ensures done + CbcDecrypt(ks, chain, ciphertext[at..])
         == done + XorBlock(Decrypt(ks, ciphertext[at..at + 16]), chain)
            + CbcDecrypt(ks, ciphertext[at..at + 16], ciphertext[at + 16..])
  {
    assert ciphertext[at..][..16] == ciphertext[at..at + 16] && ciphertext[at..][16..] == ciphertext[at + 16..];
  }

  lemma EncryptStep(ks: KeySchedule, chain: Block, plaintext: seq<bv8>, done: seq<bv8>)
    requires ks.Valid() && plaintext != [] && |plaintext| % 16 == 0
    ensures var block := Encrypt(ks, XorBlock(plaintext[..16], chain));
            done + CbcEncrypt(ks, chain, plaintext) == done + block + CbcEncrypt(ks, block, plaintext[16..])
  {}

  method DecryptBuffer(ks: KeySchedule, iv: Iv, ciphertext: seq<bv8>, plaintext: array<bv8>)
    returns (r: Result<(), CipherError>)
    requires ks.Valid()
    modifies plaintext
    ensures r == if |ciphertext| % 16 != 0 then Err(NotBlockAligned(|ciphertext|))
                 else if ciphertext == [] then Err(Empty)
                 else if plaintext.Length < |ciphertext| then Err(BufferTooSmall(|ciphertext|, plaintext.Length))
                 else Ok(())
    ensures r.Ok? ==> plaintext[..|ciphertext|] == CbcDecrypt(ks, iv.Bytes(), ciphertext)
    ensures r.Ok? ==> plaintext[|ciphertext|..] == old(plaintext[|ciphertext|..])
    ensures r.Err? ==> plaintext[..] == old(plaintext[..])
  {
    if |ciphertext| % 16 != 0 {
      return Err(NotBlockAligned(|ciphertext|));
    }
    if |ciphertext| == 0 {
      return Err(Empty);
    }
    if plaintext.Length < |ciphertext| {
      return Err(BufferTooSmall(|ciphertext|, plaintext.Length));
    }
    DecryptRegion(ks, iv, ciphertext, plaintext);
    r := Ok(());
  }

  // One block decrypted to its place in the buffer
  method DecryptAt(ks: KeySchedule, chain: Block, cipherBlock: Block, plaintext: array<bv8>, at: nat)
    requires ks.Valid() && at + 16 <= plaintext.Length
    modifies plaintext
    ensures plaintext[..at + 16] == old(plaintext[..at]) + XorBlock(Decrypt(ks, cipherBlock), chain)
    ensures plaintext[at + 16..] == old(plaintext[at + 16..])
  {
    hide Decrypt, XorBlock;
    var working := DecryptChained(ks, chain, cipherBlock);
    CopyBlock(working[..], plaintext, at);
  }

  method DecryptRegion(ks: KeySchedule, iv: Iv, ciphertext: seq<bv8>, plaintext: array<bv8>)
    requires ks.Valid() && |ciphertext| % 16 == 0 && |ciphertext| <= plaintext.Length
    modifies plaintext
    ensures plaintext[..|ciphertext|] == CbcDecrypt(ks, iv.Bytes(), ciphertext)
    ensures plaintext[|ciphertext|..] == old(plaintext[|ciphertext|..])
  {
    hide Decrypt, XorBlock, CbcDecrypt, Iv.Bytes;
    var chain := iv.Bytes();
    var at := 0;
    ghost var result := CbcDecrypt(ks, iv.Bytes(), ciphertext);
    assert ciphertext[0..] == ciphertext;
    while at < |ciphertext|
      invariant at % 16 == 0 && at <= |ciphertext|
      invariant plaintext[..at] + CbcDecrypt(ks, chain, ciphertext[at..]) == result
      invariant plaintext[|ciphertext|..] == old(plaintext[|ciphertext|..])
    {
      ghost var before := plaintext[..];
      DecryptStep(ks, chain, ciphertext, at, before[..at]);
      var nextChain: Block := ciphertext[at..at + 16];
      DecryptAt(ks, chain, nextChain, plaintext, at);
      chain := nextChain;
      at := at + 16;
      SliceOfRest(before, at, |ciphertext|);
      SliceOfRest(plaintext[..], at, |ciphertext|);
    }
    NothingDecrypted(ks, chain, ciphertext[at..]);
  }

  lemma NothingDecrypted(ks: KeySchedule, chain: Block, ciphertext: seq<bv8>)
    requires ks.Valid() && ciphertext == []
    ensures CbcDecrypt(ks, chain, ciphertext) == []
  {}

  method EncryptInPlace(ks: KeySchedule, iv: Iv, buffer: array<bv8>, plaintextLen: Usize)
    returns (r: Result<Usize, CipherError>)
    requires ks.Valid() && buffer.Length <= USIZE_MAX
    modifies buffer
    ensures r == match PaddedLen(plaintextLen)
                 case None => Err(BufferTooSmall(USIZE_MAX, buffer.Length))
                 case Some(needed) =>
                   if needed > buffer.Length then Err(BufferTooSmall(needed, buffer.Length)) else Ok(needed)
    ensures r.Ok? ==> buffer[..r.value] == CbcEncrypt(ks, iv.Bytes(), Padded(old(buffer[..plaintextLen])))
    ensures r.Ok? ==> buffer[r.value..] == old(buffer[r.value..])
    ensures r.Err? ==> buffer[..] == old(buffer[..])
  {
    var needed: nat;
    match PaddedLen(plaintextLen) {
      case None => return Err(BufferTooSmall(USIZE_MAX, buffer.Length));
      case Some(n) => needed := n;
    }
    if needed > buffer.Length {
      return Err(BufferTooSmall(needed, buffer.Length));
    }
    FillPadding(buffer, plaintextLen, needed);
    EncryptRegion(ks, iv, buffer, needed);
    r := Ok(needed);
  }

  method FillPadding(buffer: array<bv8>, plaintextLen: Usize, needed: nat)
    requires needed == plaintextLen + PaddingLen(plaintextLen) <= buffer.Length
    modifies buffer
    ensures buffer[..needed] == Padded(old(buffer[..plaintextLen]))
    ensures buffer[needed..] == old(buffer[needed..])
  {
    var padByte := PaddingLen(plaintextLen) as bv8;
    for i := plaintextLen to needed
      invariant buffer[..plaintextLen] == old(buffer[..plaintextLen])
      invariant forall k :: plaintextLen <= k < i ==> buffer[k] == padByte
      invariant buffer[needed..] == old(buffer[needed..])
    {
      buffer[i] := padByte;
    }
  }

  // What a block encrypted in place at `at` leaves of the rest
  method EncryptAt(ks: KeySchedule, chain: Block, buffer: array<bv8>, at: nat) returns (next: Block)
    requires ks.Valid() && at + 16 <= buffer.Length
    modifies buffer
    ensures next == Encrypt(ks, XorBlock(old(buffer[at..at + 16]), chain))
    ensures buffer[..at + 16] == old(buffer[..at]) + next
    ensures buffer[at + 16..] == old(buffer[at + 16..])
  {
    hide Encrypt, XorBlock;
    var block := EncryptChained(ks, chain, buffer[at..at + 16]);
    CopyBlock(block[..], buffer, at);
    next := block[..];
  }

  lemma SliceOfRest(s: seq<bv8>, from: nat, to: nat)
    requires from <= to <= |s|
    ensures s[from..to] == s[from..][..to - from] && s[to..] == s[from..][to - from..]
  {}

  lemma FrontOfSlice(s: seq<bv8>, at: nat, to: nat)
    requires at + 16 <= to <= |s|
    ensures s[at..to][..16] == s[at..at + 16] && s[at..to][16..] == s[at + 16..to]
  {}

  method EncryptRegion(ks: KeySchedule, iv: Iv, buffer: array<bv8>, needed: nat)
    requires ks.Valid() && needed <= buffer.Length && needed % 16 == 0
    modifies buffer
    ensures buffer[..needed] == CbcEncrypt(ks, iv.Bytes(), old(buffer[..needed]))
    ensures buffer[needed..] == old(buffer[needed..])
  {
    hide Encrypt, XorBlock, CbcEncrypt, Iv.Bytes;
    var chain: Block := iv.Bytes();
    var at := 0;
    ghost var result := CbcEncrypt(ks, iv.Bytes(), buffer[..needed]);
    assert buffer[0..needed] == buffer[..needed];
    while at < needed
      invariant at % 16 == 0 && at <= needed
      invariant buffer[..at] + CbcEncrypt(ks, chain, buffer[at..needed]) == result
      invariant buffer[needed..] == old(buffer[needed..])
    {
      ghost var before := buffer[..];
      EncryptStep(ks, chain, before[at..needed], before[..at]);
      FrontOfSlice(before, at, needed);
      chain := EncryptAt(ks, chain, buffer, at);
      at := at + 16;
      SliceOfRest(before, at, needed);
      SliceOfRest(buffer[..], at, needed);
    }
    NothingLeft(ks, chain, buffer[at..needed]);
  }

  lemma NothingLeft(ks: KeySchedule, chain: Block, plaintext: seq<bv8>)
    requires ks.Valid() && plaintext == []
    ensures CbcEncrypt(ks, chain, plaintext) == []
  {}
}
