// Rijndael on a 128-bit block under keys of 128 and 160 bits, and the tampered schedule of version 6.
module Rijndael {
  import opened GaloisField
  import opened State

  const STATE_WORDS := 4
  const MAX_ROUNDS := 11
  const MIN_KEY_WORDS := 4
  const MAX_KEY_WORDS := 5

  datatype KeySchedule = KeySchedule(roundKeys: seq<Block>, rounds: nat) {
    predicate Valid() {
      |roundKeys| == MAX_ROUNDS + 1
    }
  }

  function Min(a: nat, b: nat): nat { if a < b then a else b }

  // ---- the cipher as a function

  function SubShift(s: Block): Block { ShiftRows(SubstituteBlock(s, SBOX)) }

  function UnshiftUnsub(s: Block): Block { SubstituteBlock(InverseShiftRows(s), INVERSE_SBOX) }

  lemma SubShiftInverts(s: Block)
    ensures UnshiftUnsub(SubShift(s)) == s && SubShift(UnshiftUnsub(s)) == s
  {
    ShiftRowsInverts(SubstituteBlock(s, SBOX));
    ShiftRowsInverts(s);
    SubstituteInverts(s);
    SubstituteInverts(InverseShiftRows(s));
  }

  function EncryptRound(s: Block, key: Block): Block { XorBlock(MixColumns(SubShift(s)), key) }

  function DecryptRound(s: Block, key: Block): Block { InverseMixColumns(XorBlock(UnshiftUnsub(s), key)) }

  // The state after rounds 1 to n
  function EncryptRounds(ks: KeySchedule, s: Block, n: nat): Block
    requires ks.Valid() && n <= MAX_ROUNDS
  {
    if n == 0 then s else EncryptRound(EncryptRounds(ks, s, n - 1), ks.roundKeys[n])
  }

  // The state after undoing rounds n down to 1
  function DecryptRounds(ks: KeySchedule, s: Block, n: nat): Block
    requires ks.Valid() && n <= MAX_ROUNDS
    decreases n
  {
    if n == 0 then s else DecryptRounds(ks, DecryptRound(s, ks.roundKeys[n]), n - 1)
  }

  function MiddleRounds(ks: KeySchedule): nat {
    var rounds := Min(ks.rounds, MAX_ROUNDS);
    if rounds == 0 then 0 else rounds - 1
  }

  function Encrypt(ks: KeySchedule, block: Block): Block
    requires ks.Valid()
  {
    var s := EncryptRounds(ks, XorBlock(block, ks.roundKeys[0]), MiddleRounds(ks));
    XorBlock(SubShift(s), ks.roundKeys[Min(ks.rounds, MAX_ROUNDS)])
  }

  function Decrypt(ks: KeySchedule, block: Block): Block
    requires ks.Valid()
  {
    var s := XorBlock(block, ks.roundKeys[Min(ks.rounds, MAX_ROUNDS)]);
    XorBlock(UnshiftUnsub(DecryptRounds(ks, s, MiddleRounds(ks))), ks.roundKeys[0])
  }

  lemma RoundInverts(s: Block, key: Block)
    ensures DecryptRound(SubShift(EncryptRound(s, key)), key) == SubShift(s)
    ensures EncryptRound(UnshiftUnsub(DecryptRound(s, key)), key) == UnshiftUnsub(s)
  {
    SubShiftInverts(EncryptRound(s, key));
    XorBlockCancels(MixColumns(SubShift(s)), key);
    MixColumnsInverts(SubShift(s));
    SubShiftInverts(DecryptRound(s, key));
    MixColumnsInverts(XorBlock(UnshiftUnsub(s), key));
    XorBlockCancels(UnshiftUnsub(s), key);
  }

  lemma {:induction false} RoundsUndone(ks: KeySchedule, s: Block, n: nat)
    requires ks.Valid() && n <= MAX_ROUNDS
    ensures DecryptRounds(ks, SubShift(EncryptRounds(ks, s, n)), n) == SubShift(s)
  {
    hide EncryptRound, DecryptRound, SubShift;
    if n != 0 {
      RoundInverts(EncryptRounds(ks, s, n - 1), ks.roundKeys[n]);
      RoundsUndone(ks, s, n - 1);
    }
  }

  lemma {:induction false} RoundsRedone(ks: KeySchedule, t: Block, n: nat)
    requires ks.Valid() && n <= MAX_ROUNDS
    ensures EncryptRounds(ks, UnshiftUnsub(DecryptRounds(ks, t, n)), n) == UnshiftUnsub(t)
    decreases n
  {
    hide EncryptRound, DecryptRound, UnshiftUnsub;
    if n != 0 {
      RoundInverts(t, ks.roundKeys[n]);
      RoundsRedone(ks, DecryptRound(t, ks.roundKeys[n]), n - 1);
    }
  }

  lemma DecryptUndoesEncrypt(ks: KeySchedule, block: Block)
    requires ks.Valid()
    ensures Decrypt(ks, Encrypt(ks, block)) == block
  {
    var first, last := ks.roundKeys[0], ks.roundKeys[Min(ks.rounds, MAX_ROUNDS)];
    var start := XorBlock(block, first);
    var n := MiddleRounds(ks);
    XorBlockCancels(SubShift(EncryptRounds(ks, start, n)), last);
    RoundsUndone(ks, start, n);
    SubShiftInverts(start);
    XorBlockCancels(block, first);
  }

  lemma EncryptUndoesDecrypt(ks: KeySchedule, block: Block)
    requires ks.Valid()
    ensures Encrypt(ks, Decrypt(ks, block)) == block
  {
    var first, last := ks.roundKeys[0], ks.roundKeys[Min(ks.rounds, MAX_ROUNDS)];
    var t := XorBlock(block, last);
    var n := MiddleRounds(ks);
    XorBlockCancels(UnshiftUnsub(DecryptRounds(ks, t, n)), first);
    RoundsRedone(ks, t, n);
    SubShiftInverts(t);
    XorBlockCancels(block, last);
  }

  lemma EncryptInjective(ks: KeySchedule, a: Block, b: Block)
    requires ks.Valid()
    requires Encrypt(ks, a) == Encrypt(ks, b)
    ensures a == b
  {
    DecryptUndoesEncrypt(ks, a);
    DecryptUndoesEncrypt(ks, b);
  }

  // ---- in place

  method EncryptBlock(ks: KeySchedule, block: array<bv8>)
    requires ks.Valid() && block.Length == 16
    modifies block
    ensures block[..] == Encrypt(ks, old(block[..]))
  {
    hide XorBlock, SubstituteBlock, ShiftRows, MixColumns, SBOX;
    var rounds := Min(ks.rounds, MAX_ROUNDS);
    AddRoundKey(block, ks.roundKeys[0]);
    ghost var start := block[..];
    var round := 1;
    while round < rounds
      invariant 1 <= round && (round <= rounds || round == 1)
      invariant block[..] == EncryptRounds(ks, start, round - 1)
    {
      Substitute(block, SBOX);
      ShiftRowsInPlace(block);
      MixColumnsInPlace(block);
      AddRoundKey(block, ks.roundKeys[round]);
      round := round + 1;
    }
    Substitute(block, SBOX);
    ShiftRowsInPlace(block);
    AddRoundKey(block, ks.roundKeys[rounds]);
  }

  method DecryptBlock(ks: KeySchedule, block: array<bv8>)
    requires ks.Valid() && block.Length == 16
    modifies block
    ensures block[..] == Decrypt(ks, old(block[..]))
  {
    hide XorBlock, SubstituteBlock, InverseShiftRows, InverseMixColumns, INVERSE_SBOX;
    var rounds := Min(ks.rounds, MAX_ROUNDS);
    AddRoundKey(block, ks.roundKeys[rounds]);
    ghost var start := block[..];
    var round: nat := MiddleRounds(ks);
    while round > 0
      invariant round <= MiddleRounds(ks)
      invariant DecryptRounds(ks, block[..], round) == DecryptRounds(ks, start, MiddleRounds(ks))
    {
      InverseShiftRowsInPlace(block);
      Substitute(block, INVERSE_SBOX);
      AddRoundKey(block, ks.roundKeys[round]);
      InverseMixColumnsInPlace(block);
      round := round - 1;
    }
    InverseShiftRowsInPlace(block);
    Substitute(block, INVERSE_SBOX);
    AddRoundKey(block, ks.roundKeys[0]);
  }

  // ---- the key schedule

  // The leading bytes of the round constants, indexed from 1; entries 0 and 11 are never read.
  const ROUND_CONSTANTS: seq<bv8> := [0x00, 0x01, 0x02, 0x04, 0x08, 0x10, 0x20, 0x40, 0x80, 0x1B, 0x36, 0x00]

  function RoundConstant(index: nat): Word
    requires index <= MAX_ROUNDS
  {
    [ROUND_CONSTANTS[index], 0, 0, 0]
  }

  function XorWord(a: Word, b: Word): Word {
    [Xor(a[0], b[0]), Xor(a[1], b[1]), Xor(a[2], b[2]), Xor(a[3], b[3])]
  }

  function SubWord(w: Word): Word {
    [SBOX[w[0] as int], SBOX[w[1] as int], SBOX[w[2] as int], SBOX[w[3] as int]]
  }

  function RotateWord(w: Word): Word {
    [w[1], w[2], w[3], w[0]]
  }

  // What is added to word index - keyWords to give word index
  function Feedback(previous: Word, keyWords: nat, index: nat): Word
    requires keyWords > 0 && index / keyWords <= MAX_ROUNDS
  {
    if index % keyWords == 0 then XorWord(SubWord(RotateWord(previous)), RoundConstant(index / keyWords))
    else previous
  }

  lemma QuotientInRange(index: nat, keyWords: nat)
    requires MIN_KEY_WORDS <= keyWords <= MAX_KEY_WORDS && index < STATE_WORDS * (keyWords + 7)
    ensures index / keyWords <= 10
  {
    if keyWords == 4 {} else { assert keyWords == 5; }
  }

  predicate KeyFits(key: seq<bv8>, keyWords: nat) {
    MIN_KEY_WORDS <= keyWords <= MAX_KEY_WORDS && |key| == 4 * keyWords
  }

  // The first n words of the expansion
  function Expansion(key: seq<bv8>, keyWords: nat, n: nat): (words: seq<Word>)
    requires KeyFits(key, keyWords) && n <= STATE_WORDS * (keyWords + 7)
    ensures |words| == n
  {
    if n == 0 then []
    else
      var words := Expansion(key, keyWords, n - 1);
      QuotientInRange(n - 1, keyWords);
      words + [if n <= keyWords then key[4 * n - 4..4 * n] else NextWord(words, keyWords)]
  }

  // The word that follows
  function NextWord(words: seq<Word>, keyWords: nat): Word
    requires MIN_KEY_WORDS <= keyWords <= |words| && |words| / keyWords <= MAX_ROUNDS
  {
    XorWord(words[|words| - keyWords], Feedback(words[|words| - 1], keyWords, |words|))
  }

  const ZERO_BLOCK: Block := [0, 0, 0, 0, 0, 0, 0, 0, 0, 0, 0, 0, 0, 0, 0, 0]

  function FourWords(a: Word, b: Word, c: Word, d: Word): Block {
    [a[0], a[1], a[2], a[3], b[0], b[1], b[2], b[3], c[0], c[1], c[2], c[3], d[0], d[1], d[2], d[3]]
  }

  function RoundKey(words: seq<Word>, round: nat): Block {
    if 4 * round + 4 <= |words| then
      FourWords(words[4 * round], words[4 * round + 1], words[4 * round + 2], words[4 * round + 3])
    else ZERO_BLOCK
  }

  function FullExpansion(key: seq<bv8>, keyWords: nat): (words: seq<Word>)
    requires KeyFits(key, keyWords)
  {
    Expansion(key, keyWords, STATE_WORDS * (keyWords + 7))
  }

  function Schedule(key: seq<bv8>, keyWords: nat): (ks: KeySchedule)
    requires KeyFits(key, keyWords)
  {
    var words := FullExpansion(key, keyWords);
    KeySchedule(seq(MAX_ROUNDS + 1, round requires 0 <= round => RoundKey(words, round)), keyWords + 6)
  }

  // The key itself, as the first keyWords words
  method LoadKey(key: seq<bv8>, words: array<Word>)
    requires words.Length == STATE_WORDS * (MAX_ROUNDS + 1) && |key| % 4 == 0 && |key| / 4 <= words.Length
    modifies words
    ensures forall k :: 0 <= k < |key| / 4 ==> words[k] == key[4 * k..4 * k + 4]
  {
    for i := 0 to Min(words.Length, |key| / 4)
      invariant forall k :: 0 <= k < i ==> words[k] == key[4 * k..4 * k + 4]
    {
      words[i] := key[4 * i..4 * i + 4];
    }
  }

  lemma LoadedWord(key: seq<bv8>, keyWords: nat, n: nat)
    requires KeyFits(key, keyWords) && 0 < n <= keyWords
    ensures Expansion(key, keyWords, n) == Expansion(key, keyWords, n - 1) + [key[4 * n - 4..4 * n]]
  {
    hide XorWord, NextWord;
  }

  lemma {:induction false} LoadedKey(key: seq<bv8>, keyWords: nat, n: nat)
    requires KeyFits(key, keyWords) && n <= keyWords
    ensures forall k :: 0 <= k < n ==> Expansion(key, keyWords, n)[k] == key[4 * k..4 * k + 4]
  {
    hide Expansion;
    if n != 0 {
      LoadedKey(key, keyWords, n - 1);
      LoadedWord(key, keyWords, n);
    }
  }

  lemma ExpansionNext(key: seq<bv8>, keyWords: nat, index: nat)
    requires KeyFits(key, keyWords) && keyWords <= index < STATE_WORDS * (keyWords + 7)
    ensures index / keyWords <= MAX_ROUNDS
    ensures var words := Expansion(key, keyWords, index);
      Expansion(key, keyWords, index + 1)
        == words + [XorWord(words[index - keyWords], Feedback(words[index - 1], keyWords, index))]
  {
    hide XorWord, Feedback;
    QuotientInRange(index, keyWords);
  }

  method ExpandWords(key: seq<bv8>, keyWords: nat, words: array<Word>, totalWords: nat)
    requires KeyFits(key, keyWords) && totalWords == STATE_WORDS * (keyWords + 7) <= words.Length
    requires words[..keyWords] == Expansion(key, keyWords, keyWords)
    modifies words
    ensures words[..totalWords] == FullExpansion(key, keyWords)
  {
    hide Expansion, XorWord, Feedback;
    for index := keyWords to totalWords
      invariant words[..index] == Expansion(key, keyWords, index)
    {
      ExpansionNext(key, keyWords, index);
      assert words[..index][index - 1] == words[index - 1];
      assert words[..index][index - keyWords] == words[index - keyWords];
      words[index] := XorWord(words[index - keyWords], Feedback(words[index - 1], keyWords, index));
    }
  }

  method GatherRoundKeys(words: seq<Word>, rounds: nat) returns (roundKeys: seq<Block>)
    requires rounds <= MAX_ROUNDS && |words| == STATE_WORDS * (rounds + 1)
    ensures |roundKeys| == MAX_ROUNDS + 1
    ensures forall r :: 0 <= r <= MAX_ROUNDS ==> roundKeys[r] == RoundKey(words, r)
  {
    roundKeys := [];
    for round := 0 to MAX_ROUNDS + 1
      invariant |roundKeys| == round
      invariant forall r :: 0 <= r < round ==> roundKeys[r] == RoundKey(words, r)
    {
      var roundKey := ZERO_BLOCK;
      if round < rounds + 1 {
        roundKey := FourWords(words[4 * round], words[4 * round + 1], words[4 * round + 2], words[4 * round + 3]);
      }
      roundKeys := roundKeys + [roundKey];
    }
  }

  // ---- the schedule byte by byte (section 5.2 of FIPS-197)

  // Byte j of word i of the round keys
  function ScheduleByte(ks: KeySchedule, i: nat, j: nat): bv8
    requires ks.Valid() && i < 48 && j < 4
  {
    ks.roundKeys[i / 4][4 * (i % 4) + j]
  }

  // x to the n, in the field
  function PowerOfX(n: nat): bv8 {
    if n == 0 then 1 else XTime(PowerOfX(n - 1))
  }

  // What byte j of word i of the schedule of a key is
  ghost predicate StandardByte(ks: KeySchedule, key: seq<bv8>, keyWords: nat, i: nat, j: nat)
    requires ks.Valid() && keyWords in {4, 5} && |key| == 4 * keyWords && i < 48 && j < 4
  {
    ScheduleByte(ks, i, j)
    == if i < keyWords then key[4 * i + j]
       else if i >= 4 * (keyWords + 7) then 0
       else if i % keyWords != 0 then Xor(ScheduleByte(ks, i - keyWords, j), ScheduleByte(ks, i - 1, j))
       else Xor(ScheduleByte(ks, i - keyWords, j),
                Xor(SBOX[ScheduleByte(ks, i - 1, (j + 1) % 4) as int],
                    if j == 0 then PowerOfX(i / keyWords - 1) else 0))
  }

  ghost predicate IsStandard(ks: KeySchedule, key: seq<bv8>, keyWords: nat) {
    && ks.Valid() && keyWords in {4, 5} && |key| == 4 * keyWords && ks.rounds == keyWords + 6
    && forall i, j :: 0 <= i < 48 && 0 <= j < 4 ==> StandardByte(ks, key, keyWords, i, j)
  }

  lemma PowersOfX()
    ensures forall n :: 0 <= n < 10 ==> PowerOfX(n) == ROUND_CONSTANTS[n + 1]
  {
    assert PowerOfX(0) == 0x01;
    assert PowerOfX(1) == 0x02;
    assert PowerOfX(2) == 0x04;
    assert PowerOfX(3) == 0x08;
    assert PowerOfX(4) == 0x10;
    assert PowerOfX(5) == 0x20;
    assert PowerOfX(6) == 0x40;
    assert PowerOfX(7) == 0x80;
    assert PowerOfX(8) == 0x1B;
    assert PowerOfX(9) == 0x36;
  }

  lemma ScheduleBytes(key: seq<bv8>, keyWords: nat, i: nat, j: nat)
    requires KeyFits(key, keyWords) && i < 48 && j < 4
    ensures ScheduleByte(Schedule(key, keyWords), i, j)
         == if i < 4 * (keyWords + 7) then FullExpansion(key, keyWords)[i][j] else 0
  {
    hide FullExpansion;
    var words := FullExpansion(key, keyWords);
    ExpansionLength(key, keyWords);
    RoundKeyByte(words, i / 4, i % 4, j);
  }

  lemma ExpansionLength(key: seq<bv8>, keyWords: nat)
    requires KeyFits(key, keyWords)
    ensures |FullExpansion(key, keyWords)| == 4 * (keyWords + 7)
  {}

  lemma FourWordsByte(a: Word, b: Word, c: Word, d: Word, column: nat, j: nat)
    requires column < 4 && j < 4
    ensures FourWords(a, b, c, d)[4 * column + j] == [a, b, c, d][column][j]
  {
    if column == 0 {} else if column == 1 {} else if column == 2 {} else {}
  }

  lemma RoundKeyByte(words: seq<Word>, round: nat, column: nat, j: nat)
    requires |words| % 4 == 0 && column < 4 && j < 4
    ensures RoundKey(words, round)[4 * column + j]
         == if 4 * round + column < |words| then words[4 * round + column][j] else 0
  {
    hide FourWords;
    if 4 * round + column < |words| {
      assert 4 * round + 4 <= |words|;
      FourWordsByte(words[4 * round], words[4 * round + 1], words[4 * round + 2], words[4 * round + 3], column, j);
    }
  }

  lemma FeedbackByte(previous: Word, keyWords: nat, index: nat, j: nat)
    requires keyWords > 0 && 1 <= index / keyWords <= 10 && j < 4
    ensures Feedback(previous, keyWords, index)[j]
         == if index % keyWords != 0 then previous[j]
            else Xor(SBOX[previous[(j + 1) % 4] as int], if j == 0 then PowerOfX(index / keyWords - 1) else 0)
  {
    hide SBOX, Xor, PowerOfX;
    PowersOfX();
    if j == 0 {} else if j == 1 {} else if j == 2 {} else {}
  }

  lemma XorWordByte(a: Word, b: Word, j: nat)
    requires j < 4
    ensures XorWord(a, b)[j] == Xor(a[j], b[j])
  {
    if j == 0 {} else if j == 1 {} else if j == 2 {} else {}
  }

  lemma ScheduleIsStandard(key: seq<bv8>, keyWords: nat)
    requires KeyFits(key, keyWords)
    ensures IsStandard(Schedule(key, keyWords), key, keyWords)
  {
    hide StandardByte, Schedule;
    ScheduleShape(key, keyWords);
    forall i, j | 0 <= i < 48 && 0 <= j < 4 ensures StandardByte(Schedule(key, keyWords), key, keyWords, i, j) {
      ByteIsStandard(key, keyWords, i, j);
    }
  }

  lemma ScheduleShape(key: seq<bv8>, keyWords: nat)
    requires KeyFits(key, keyWords)
    ensures Schedule(key, keyWords).Valid() && Schedule(key, keyWords).rounds == keyWords + 6
  {}

  lemma WordByte(key: seq<bv8>, keyWords: nat, i: nat, j: nat)
    requires KeyFits(key, keyWords) && keyWords <= i < 4 * (keyWords + 7) && j < 4
    ensures |FullExpansion(key, keyWords)| == 4 * (keyWords + 7)
    ensures var words := FullExpansion(key, keyWords);
      words[i][j] == Xor(words[i - keyWords][j],
        if i % keyWords != 0 then words[i - 1][j]
        else Xor(SBOX[words[i - 1][(j + 1) % 4] as int], if j == 0 then PowerOfX(i / keyWords - 1) else 0))
  {
    hide FullExpansion, XorWord, Feedback, Xor, PowerOfX, SBOX;
    ExpansionLength(key, keyWords);
    var words := FullExpansion(key, keyWords);
    QuotientFrom(i, keyWords);
    WordNext(key, keyWords, i - keyWords);
    XorWordByte(words[i - keyWords], Feedback(words[i - 1], keyWords, i), j);
    FeedbackByte(words[i - 1], keyWords, i, j);
  }

  lemma QuotientFrom(i: nat, keyWords: nat)
    requires MIN_KEY_WORDS <= keyWords <= MAX_KEY_WORDS && keyWords <= i < STATE_WORDS * (keyWords + 7)
    ensures 1 <= i / keyWords <= 10
  {
    if keyWords == 4 {} else { assert keyWords == 5; }
  }

  lemma KeyByte(key: seq<bv8>, keyWords: nat, i: nat, j: nat)
    requires KeyFits(key, keyWords) && i < keyWords && j < 4
    ensures |FullExpansion(key, keyWords)| == 4 * (keyWords + 7)
    ensures FullExpansion(key, keyWords)[i][j] == key[4 * i + j]
  {
    hide FullExpansion;
    ExpansionLength(key, keyWords);
    KeyWordsFirst(key, keyWords);
  }

  lemma ByteIsStandard(key: seq<bv8>, keyWords: nat, i: nat, j: nat)
    requires KeyFits(key, keyWords) && i < 48 && j < 4
    ensures Schedule(key, keyWords).Valid() && StandardByte(Schedule(key, keyWords), key, keyWords, i, j)
  {
    hide Schedule, FullExpansion, ScheduleByte, Xor, PowerOfX, SBOX;
    ScheduleShape(key, keyWords);
    ScheduleBytes(key, keyWords, i, j);
    if i < keyWords {
      KeyByte(key, keyWords, i, j);
    } else if i < 4 * (keyWords + 7) {
      WordByte(key, keyWords, i, j);
      ScheduleBytes(key, keyWords, i - keyWords, j);
      ScheduleBytes(key, keyWords, i - 1, j);
      ScheduleBytes(key, keyWords, i - 1, (j + 1) % 4);
    }
  }

  method Expand(key: seq<bv8>, keyWords0: nat) returns (ks: KeySchedule)
    requires KeyFits(key, keyWords0)
    ensures ks == Schedule(key, keyWords0) && IsStandard(ks, key, keyWords0)
  {
    hide IsStandard;
    ScheduleIsStandard(key, keyWords0);
    var keyWords := if keyWords0 < MIN_KEY_WORDS then MIN_KEY_WORDS
                    else if keyWords0 > MAX_KEY_WORDS then MAX_KEY_WORDS else keyWords0;
    var rounds := keyWords + 6;
    var words := new Word[STATE_WORDS * (MAX_ROUNDS + 1)](_ => [0, 0, 0, 0]);
    var totalWords := Min(STATE_WORDS * (rounds + 1), words.Length);
    LoadKey(key, words);
    LoadedKey(key, keyWords, keyWords);
    ExpandWords(key, keyWords, words, totalWords);
    var roundKeys := GatherRoundKeys(words[..totalWords], rounds);
    ks := KeySchedule(roundKeys, rounds);
  }

  function Tampered(ks: KeySchedule, round: nat, mask: bv8): KeySchedule
    requires ks.Valid() && round <= MAX_ROUNDS
  {
    var roundKey := ks.roundKeys[round];
    ks.(roundKeys := ks.roundKeys[round := roundKey[0 := Xor(roundKey[0], mask)]])
  }

  method Aes128(key: seq<bv8>) returns (ks: KeySchedule)
    requires |key| == 16
    ensures ks == Schedule(key, 4) && IsStandard(ks, key, 4) && ks.Valid() && ks.rounds == 10
  {
    ks := Expand(key, 4);
  }

  method Rijndael160(key: seq<bv8>) returns (ks: KeySchedule)
    requires |key| == 20
    ensures ks == Schedule(key, 5) && IsStandard(ks, key, 5) && ks.Valid() && ks.rounds == 11
  {
    ks := Expand(key, 5);
  }

  method Aes128TweakedForV6(key: seq<bv8>) returns (ks: KeySchedule)
    requires |key| == 16
    ensures ks == TweakedSchedule(key) && ks.Valid() && ks.rounds == 10
  {
    ks := Expand(key, 4);
    ks := Tampered(ks, 4, 0x73);
    ks := Tampered(ks, 6, 0x09);
    ks := Tampered(ks, 8, 0xE4);
  }

  function TweakedSchedule(key: seq<bv8>): KeySchedule
    requires |key| == 16
  {
    Tampered(Tampered(Tampered(Schedule(key, 4), 4, 0x73), 6, 0x09), 8, 0xE4)
  }

  lemma TamperedByte(ks: KeySchedule, tampered: nat, mask: bv8, round: nat, at: nat)
    requires ks.Valid() && tampered <= MAX_ROUNDS && round <= MAX_ROUNDS && at < 16
    ensures var was := ks.roundKeys[round][at];
            Tampered(ks, tampered, mask).roundKeys[round][at]
              == if at == 0 && round == tampered then Xor(was, mask) else was
  {}

  // The v6 tampering changes byte 0 of round keys 4, 6 and 8 by these masks, and no other byte of the standard ones.
  lemma TweakIsThreeBytes(key: seq<bv8>, round: nat, at: nat)
    requires |key| == 16 && round <= MAX_ROUNDS && at < 16
    ensures IsStandard(Schedule(key, 4), key, 4) && TweakedSchedule(key).rounds == Schedule(key, 4).rounds == 10
    ensures TweakedSchedule(key).roundKeys[round][at] == Xor(Schedule(key, 4).roundKeys[round][at],
      if at != 0 then 0 else if round == 4 then 0x73 else if round == 6 then 0x09 else if round == 8 then 0xE4 else 0)
    ensures TweakedSchedule(key).roundKeys[round][at] != Schedule(key, 4).roundKeys[round][at]
        <==> at == 0 && round in {4, 6, 8}
  {
    hide IsStandard;
    ScheduleIsStandard(key, 4);
    var ks := Schedule(key, 4);
    var b := ks.roundKeys[round][at];
    TamperedByte(ks, 4, 0x73, round, at);
    TamperedByte(Tampered(ks, 4, 0x73), 6, 0x09, round, at);
    TamperedByte(Tampered(Tampered(ks, 4, 0x73), 6, 0x09), 8, 0xE4, round, at);
    assert Xor(b, 0x73) != b && Xor(b, 0x09) != b && Xor(b, 0xE4) != b;
  }

  lemma {:induction false} ExpansionPrefix(key: seq<bv8>, keyWords: nat, m: nat, n: nat)
    requires KeyFits(key, keyWords) && m <= n <= STATE_WORDS * (keyWords + 7)
    ensures Expansion(key, keyWords, n)[..m] == Expansion(key, keyWords, m)
  {
    if m < n {
      ExpansionPrefix(key, keyWords, m, n - 1);
    }
  }

  // v and w agree on n words from a place on.
  ghost predicate Agree(v: seq<Word>, w: seq<Word>, from: nat, n: nat) {
    from + n <= |v| && from + n <= |w| && forall i :: from <= i < from + n ==> v[i] == w[i]
  }

  lemma AgreeOnKey(a: seq<bv8>, b: seq<bv8>, keyWords: nat)
    requires KeyFits(a, keyWords) && KeyFits(b, keyWords)
    requires Agree(FullExpansion(a, keyWords), FullExpansion(b, keyWords), 0, keyWords)
    ensures a == b
  {
    KeyWordsFirst(a, keyWords);
    KeyWordsFirst(b, keyWords);
    forall i | 0 <= i < |a| ensures a[i] == b[i] {
      var k, j := i / 4, i % 4;
      assert 0 <= k < keyWords;
      assert FullExpansion(a, keyWords)[k] == FullExpansion(b, keyWords)[k];
      assert a[4 * k..4 * k + 4][j] == a[i] && b[4 * k..4 * k + 4][j] == b[i];
    }
  }

  lemma AgreeEarlier(a: seq<bv8>, b: seq<bv8>, keyWords: nat, from: nat)
    requires KeyFits(a, keyWords) && KeyFits(b, keyWords)
    requires Agree(FullExpansion(a, keyWords), FullExpansion(b, keyWords), from + 1, keyWords)
    ensures Agree(FullExpansion(a, keyWords), FullExpansion(b, keyWords), from, keyWords)
  {
    WordBefore(a, keyWords, from);
    WordBefore(b, keyWords, from);
    var v, w := FullExpansion(a, keyWords), FullExpansion(b, keyWords);
    assert v[from + keyWords] == w[from + keyWords] && v[from + keyWords - 1] == w[from + keyWords - 1];
  }

  // Any keyWords consecutive words of the expansion determine the key.
  lemma {:induction false} ExpansionReverses(a: seq<bv8>, b: seq<bv8>, keyWords: nat, from: nat)
    requires KeyFits(a, keyWords) && KeyFits(b, keyWords)
    requires Agree(FullExpansion(a, keyWords), FullExpansion(b, keyWords), from, keyWords)
    ensures a == b
  {
    if from == 0 {
      AgreeOnKey(a, b, keyWords);
    } else {
      AgreeEarlier(a, b, keyWords, from - 1);
      ExpansionReverses(a, b, keyWords, from - 1);
    }
  }

  lemma KeyWordsFirst(key: seq<bv8>, keyWords: nat)
    requires KeyFits(key, keyWords)
    ensures forall k :: 0 <= k < keyWords ==> FullExpansion(key, keyWords)[k] == key[4 * k..4 * k + 4]
  {
    LoadedKey(key, keyWords, keyWords);
    ExpansionPrefix(key, keyWords, keyWords, STATE_WORDS * (keyWords + 7));
    forall k | 0 <= k < keyWords ensures FullExpansion(key, keyWords)[k] == key[4 * k..4 * k + 4] {
      assert FullExpansion(key, keyWords)[k] == FullExpansion(key, keyWords)[..keyWords][k];
    }
  }

  // Each word after the key's is the one keyWords before it and the feedback of the last.
  lemma WordNext(key: seq<bv8>, keyWords: nat, at: nat)
    requires KeyFits(key, keyWords) && at + keyWords < STATE_WORDS * (keyWords + 7)
    ensures (at + keyWords) / keyWords <= MAX_ROUNDS
    ensures var words := FullExpansion(key, keyWords);
            words[at + keyWords] == XorWord(words[at], Feedback(words[at + keyWords - 1], keyWords, at + keyWords))
  {
    hide XorWord, Feedback;
    var index := at + keyWords;
    var words := FullExpansion(key, keyWords);
    var before := Expansion(key, keyWords, index);
    QuotientInRange(index, keyWords);
    ExpansionPrefix(key, keyWords, index + 1, |words|);
    ExpansionPrefix(key, keyWords, index, index + 1);
    ExpansionNext(key, keyWords, index);
    assert words[index] == words[..index + 1][index];
    assert words[at] == words[..index + 1][at] == before[at];
    assert words[index - 1] == words[..index + 1][index - 1] == before[index - 1];
  }

  lemma WordBefore(key: seq<bv8>, keyWords: nat, at: nat)
    requires KeyFits(key, keyWords) && at + keyWords < STATE_WORDS * (keyWords + 7)
    ensures (at + keyWords) / keyWords <= MAX_ROUNDS
    ensures var words := FullExpansion(key, keyWords);
            words[at] == XorWord(words[at + keyWords], Feedback(words[at + keyWords - 1], keyWords, at + keyWords))
  {
    hide XorWord, Feedback;
    WordNext(key, keyWords, at);
    var words := FullExpansion(key, keyWords);
    XorWordCancels(words[at], Feedback(words[at + keyWords - 1], keyWords, at + keyWords));
  }

  lemma XorWordCancels(a: Word, b: Word)
    ensures XorWord(XorWord(a, b), b) == a
  {
    hide Xor;
    XorCancels(a[0], b[0]);
    XorCancels(a[1], b[1]);
    XorCancels(a[2], b[2]);
    XorCancels(a[3], b[3]);
  }
}
