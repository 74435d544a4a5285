// The version 4 tag: a CBC-MAC over the message and its ISO/IEC 7816-4 padding.
module CbcMac {
  import opened GaloisField
  import opened State
  import opened Rijndael
  import opened Cbc

  const PADDING_MARKER: bv8 := 0x80

  // Zeros
  function Zeros(n: nat): (s: seq<bv8>)
    ensures |s| == n
  {
    seq(n, _ => 0)
  }

  // ISO/IEC 7816-4: a marker and zeros up to the next block boundary, never nothing
  function IsoPadded(message: seq<bv8>): (s: seq<bv8>)
    ensures |s| % 16 == 0 && |message| < |s| <= |message| + 16
  {
    message + [PADDING_MARKER] + Zeros(15 - |message| % 16)
  }

  lemma IsoPaddingInjective(a: seq<bv8>, b: seq<bv8>)
    requires IsoPadded(a) == IsoPadded(b)
    ensures a == b
  {
    MarkerLast(a);
    MarkerLast(b);
    assert |a| == |b|;
    assert a == IsoPadded(a)[..|a|] && b == IsoPadded(b)[..|b|];
  }

  // After the message comes the marker, and then zeros.
  lemma MarkerLast(a: seq<bv8>)
    ensures IsoPadded(a)[..|a|] == a && IsoPadded(a)[|a|] == 0x80
    ensures forall k :: |a| < k < |IsoPadded(a)| ==> IsoPadded(a)[k] == 0
  {}

  // The last block of the chain
  function LastBlock(ks: KeySchedule, chain: Block, plaintext: seq<bv8>): Block
    requires ks.Valid() && |plaintext| % 16 == 0
    decreases |plaintext|
  {
    if plaintext == [] then chain else LastBlock(ks, Encrypt(ks, XorBlock(chain, plaintext[..16])), plaintext[16..])
  }

  function Mac(ks: KeySchedule, message: seq<bv8>): Block
    requires ks.Valid()
  {
    LastBlock(ks, ZERO_BLOCK, IsoPadded(message))
  }

  lemma {:induction false} LastBlockOfCbc(ks: KeySchedule, chain: Block, plaintext: seq<bv8>)
    requires ks.Valid() && |plaintext| % 16 == 0 && plaintext != []
    ensures LastBlock(ks, chain, plaintext) == CbcEncrypt(ks, chain, plaintext)[|plaintext| - 16..]
    decreases |plaintext|
  {
    XorBlockCommutes(chain, plaintext[..16]);
    var block: Block := Encrypt(ks, XorBlock(chain, plaintext[..16]));
    if plaintext[16..] != [] {
      LastBlockOfCbc(ks, block, plaintext[16..]);
      var rest := CbcEncrypt(ks, block, plaintext[16..]);
      assert Join(block, rest)[|plaintext| - 16..] == rest[|plaintext| - 32..];
    }
  }

  lemma XorBlockCommutes(a: Block, b: Block)
    ensures XorBlock(a, b) == XorBlock(b, a)
  {
    forall i | 0 <= i < 16 ensures Xor(a[i], b[i]) == Xor(b[i], a[i]) {
      XorCommutes(a[i], b[i]);
    }
  }

  // The tag is the last block of zero-IV CBC encryption of the padded message
  lemma MacIsLastCbcBlock(ks: KeySchedule, message: seq<bv8>)
    requires ks.Valid()
    ensures Mac(ks, message) == CbcEncrypt(ks, Null.Bytes(), IsoPadded(message))[|IsoPadded(message)| - 16..]
  {
    LastBlockOfCbc(ks, ZERO_BLOCK, IsoPadded(message));
  }

  lemma {:induction false} LastBlockJoins(ks: KeySchedule, chain: Block, front: seq<bv8>, back: seq<bv8>)
    requires ks.Valid() && |front| % 16 == 0 && |back| % 16 == 0
    ensures LastBlock(ks, chain, front + back) == LastBlock(ks, LastBlock(ks, chain, front), back)
    decreases |front|
  {
    if front == [] {
      assert front + back == back;
    } else {
      assert (front + back)[..16] == front[..16] && (front + back)[16..] == front[16..] + back;
      LastBlockJoins(ks, Encrypt(ks, XorBlock(chain, front[..16])), front[16..], back);
    }
  }

  // Same whole blocks, different tails: different tags
  lemma TailsSeparate(ks: KeySchedule, front: seq<bv8>, a: seq<bv8>, b: seq<bv8>)
    requires ks.Valid() && |front| % 16 == 0 && |a| < 16 && |b| < 16
    ensures Mac(ks, front + a) == Mac(ks, front + b) <==> a == b
  {
    var chain := LastBlock(ks, ZERO_BLOCK, front);
    var p, q := IsoPadded(a), IsoPadded(b);
    assert (front + a)[..|front|] == front && (front + a)[|front|..] == a;
    assert (front + b)[..|front|] == front && (front + b)[|front|..] == b;
    SplitMac(ks, front + a, |front|);
    SplitMac(ks, front + b, |front|);
    if Mac(ks, front + a) == Mac(ks, front + b) {
      EncryptInjective(ks, XorBlock(chain, p), XorBlock(chain, q));
      XorBlockCommutes(chain, p);
      XorBlockCommutes(chain, q);
      XorBlockCancels(p, chain);
      XorBlockCancels(q, chain);
      IsoPaddingInjective(a, b);
    }
  }

  // One block into the chain
  method Absorb(ks: KeySchedule, mac: array<bv8>, block: Block)
    requires ks.Valid() && mac.Length == 16
    modifies mac
    ensures mac[..] == Encrypt(ks, XorBlock(old(mac[..]), block))
  {
    XorInto(mac, block);
    EncryptBlock(ks, mac);
  }

  method AbsorbAll(ks: KeySchedule, mac: array<bv8>, blocks: seq<bv8>)
    requires ks.Valid() && mac.Length == 16 && |blocks| % 16 == 0
    modifies mac
    ensures mac[..] == LastBlock(ks, old(mac[..]), blocks)
  {
    hide Encrypt, XorBlock;
    var at := 0;
    assert blocks[0..] == blocks;
    while at < |blocks|
      invariant at % 16 == 0 && at <= |blocks|
      invariant LastBlock(ks, mac[..], blocks[at..]) == LastBlock(ks, old(mac[..]), blocks)
    {
      assert blocks[at..][..16] == blocks[at..at + 16] && blocks[at..][16..] == blocks[at + 16..];
      Absorb(ks, mac, blocks[at..at + 16]);
      at := at + 16;
    }
  }

  method Tag(ks: KeySchedule, message: seq<bv8>) returns (tag: Block)
    requires ks.Valid()
    ensures tag == Mac(ks, message)
  {
    var mac := new bv8[16](_ => 0);
    assert mac[..] == ZERO_BLOCK;
    var whole := |message| / 16 * 16;
    AbsorbAll(ks, mac, message[..whole]);
    var finalBlock := FinalBlock(message[whole..]);
    Absorb(ks, mac, finalBlock);
    tag := mac[..];
    SplitMac(ks, message, whole);
  }

  lemma SplitMac(ks: KeySchedule, message: seq<bv8>, whole: nat)
    requires ks.Valid() && whole % 16 == 0 && whole <= |message| < whole + 16
    ensures |IsoPadded(message[whole..])| == 16
    ensures Mac(ks, message)
         == Encrypt(ks, XorBlock(LastBlock(ks, ZERO_BLOCK, message[..whole]), IsoPadded(message[whole..])))
  {
    hide Encrypt, XorBlock;
    var back := IsoPadded(message[whole..]);
    assert IsoPadded(message) == message[..whole] + back;
    LastBlockJoins(ks, ZERO_BLOCK, message[..whole], back);
    assert back[..16] == back && back[16..] == [];
  }

  method FinalBlock(tail: seq<bv8>) returns (block: Block)
    requires |tail| < 16
    ensures block == IsoPadded(tail)
  {
    var finalBlock := new bv8[16](_ => 0);
    for i := 0 to |tail|
      invariant finalBlock[..i] == tail[..i]
      invariant forall k :: i <= k < 16 ==> finalBlock[k] == 0
    {
      finalBlock[i] := tail[i];
    }
    finalBlock[|tail|] := PADDING_MARKER;
    block := finalBlock[..];
  }
}
