/** Blowfish, Eksblowfish and bcrypt written down once more from their published descriptions, with numbers in place of
    the names used elsewhere, and the proof that the modelled program computes them. */
module Published {
  import opened Words
  import opened Feistel
  import opened KeySchedule
  import opened KeySetup
  import opened Base64
  import opened Bcrypt
  import opened BcryptProperties

  // ---------- The descriptions ----------

  /** Schneier's F: the bytes of x, highest first, index the four boxes. */
  function BoxSum(s: Boxes, x: Word): Word {
    Add(Xor(Add(s[Octet(x, 3)], s[256 + Octet(x, 2)]), s[512 + Octet(x, 1)]), s[768 + Octet(x, 0)])
  }

  /** n rounds of Blowfish: xL ^= P[i], xR ^= F(xL), swap. */
  function Half(p: Schedule, s: Boxes, n: nat, b: Block): Block
    requires n <= 16
  {
    if n == 0 then b
    else
      var h := Half(p, s, n - 1, b);
      var x := Xor(h.l, p[n - 1]);
      Block(Xor(h.r, BoxSum(s, x)), x)
  }

  /** Sixteen rounds, the last swap undone, xR ^= P[16], xL ^= P[17]. */
  function Blowfish(p: Schedule, s: Boxes, b: Block): Block {
    var h := Half(p, s, 16, b);
    Block(Xor(h.r, p[17]), Xor(h.l, p[16]))
  }

  /** The encryption of a block that is mixed with two salt words first. */
  function Next(t: Table, left: Word, right: Word, b: Block): Block {
    Blowfish(t[..18], t[18..], Block(Xor(b.l, left), Xor(b.r, right)))
  }

  /** The second part of ExpandKey, from block k on; `b` is the block encrypted last. */
  function Fill(t: Table, salt: Salt, k: nat, b: Block): Table
    requires k <= 521
    decreases 521 - k
  {
    if k == 521 then t
    else
      var e := Next(t, salt[2 * (k % 2)], salt[2 * (k % 2) + 1], b);
      Fill(t[2 * k := e.l][2 * k + 1 := e.r], salt, k + 1, e)
  }

  /** ExpandKey(state, salt, key). */
  function Expanded(t: Table, salt: Salt, key: Schedule): Table {
    Fill(seq(1042, i requires 0 <= i < 1042 => if i < 18 then Xor(t[i], key[i]) else t[i]), salt, 0, Block(0, 0))
  }

  /** m passes without salt, with the key and with the salt as key in turn, the key first. */
  function Passes(t: Table, key: Schedule, salt: Salt, m: nat): Table {
    if m == 0 then t
    else
      var t' := Passes(t, key, salt, m - 1);
      Expanded(t', [0, 0, 0, 0], if m % 2 == 1 then key else seq(18, i requires 0 <= i < 18 => salt[i % 4]))
  }

  function TwoTo(n: nat): nat {
    if n == 0 then 1 else TwoTo(n - 1) + TwoTo(n - 1)
  }

  /** EksBlowfishSetup(cost, salt, key). */
  function EksSetup(p: Schedule, s: Boxes, key: Schedule, salt: Salt, cost: nat): Table {
    Passes(Expanded(p + s, salt, key), key, salt, 2 * TwoTo(cost))
  }

  function Ecb(t: Table, text: seq<Block>): seq<Block> {
    seq(|text|, i requires 0 <= i < |text| => Blowfish(t[..18], t[18..], text[i]))
  }

  function EcbTimes(t: Table, text: seq<Block>, n: nat): (c: seq<Block>)
    ensures |c| == |text|
  {
    if n == 0 then text else Ecb(t, EcbTimes(t, text, n - 1))
  }

  /** "OrpheanBeholderScryDoubt" in ASCII, the text that is encrypted. */
  const TEXT: seq<Byte> :=
    [79, 114, 112, 104, 101, 97, 110, 66, 101, 104, 111, 108, 100, 101, 114, 83, 99, 114, 121, 68, 111, 117, 98, 116]

  /** Four bytes of a text as a word. */
  function WordAt(b: seq<Byte>, i: nat): Word
    requires i + 4 <= |b|
  {
    FromBytes(b[i], b[i + 1], b[i + 2], b[i + 3])
  }

  function TextBlock(i: nat): Block
    requires i < 3
  {
    Block(WordAt(TEXT, 8 * i), WordAt(TEXT, 8 * i + 4))
  }

  /** The key words: the password and its NUL over and over, four bytes to a word. */
  function KeyWords(key: Key): Schedule {
    var k := key + [0];
    seq(18, i requires 0 <= i < 18 =>
              FromBytes(k[4 * i % |k|], k[(4 * i + 1) % |k|], k[(4 * i + 2) % |k|], k[(4 * i + 3) % |k|]))
  }

  function SaltOf16(b: seq<Byte>): Salt
    requires |b| == 16
  {
    seq(4, i requires 0 <= i < 4 => WordAt(b, 4 * i))
  }

  function BytesOf(b: Block): (r: seq<Byte>)
    ensures |r| == 8
  {
    [OctetByte(b.l, 3), OctetByte(b.l, 2), OctetByte(b.l, 1), OctetByte(b.l, 0),
     OctetByte(b.r, 3), OctetByte(b.r, 2), OctetByte(b.r, 1), OctetByte(b.r, 0)]
  }

  /** The first 23 bytes of the text encrypted 64 times. */
  function Bcrypt23(p: Schedule, s: Boxes, key: Schedule, salt: seq<Byte>, cost: nat): seq<Byte>
    requires |salt| == 16
  {
    var c := EcbTimes(EksSetup(p, s, key, SaltOf16(salt), cost), [TextBlock(0), TextBlock(1), TextBlock(2)], 64);
    (BytesOf(c[0]) + BytesOf(c[1]) + BytesOf(c[2]))[..23]
  }

  // ---------- The program computes them ----------

  lemma BoxSumIsF(s: Boxes, x: Word)
    ensures BoxSum(s, x) == F(s, x)
  {
    AddTurns(s[Octet(x, 3)], s[256 + Octet(x, 2)]);
    hide Octet, Xor, Add;
  }

  lemma AddTurns(a: Word, b: Word)
    ensures Add(a, b) == Add(b, a)
  {
  }

  lemma {:induction false} HalfIsRounds(p: Schedule, s: Boxes, n: nat, b: Block)
    requires n <= 16
    ensures var h, c := Half(p, s, n, b), Rounds(p, s, n, Block(Xor(b.l, p[0]), b.r));
            c == Block(Xor(h.l, p[n]), h.r)
  {
    hide BoxSum, F, Xor;
    if n > 0 {
      HalfIsRounds(p, s, n - 1, b);
      var h := Half(p, s, n - 1, b);
      var f := BoxSum(s, Xor(h.l, p[n - 1]));
      BoxSumIsF(s, Xor(h.l, p[n - 1]));
      XorTurns(h.r, f, p[n]);
    }
  }

  lemma BlowfishIsEncrypt(p: Schedule, s: Boxes, b: Block)
    ensures Blowfish(p, s, b) == Encrypt(p, s, b)
  {
    hide Half, Rounds, Xor;
    HalfIsRounds(p, s, 16, b);
  }

  /** Filling from block k on completes what the pass has done up to there. */
  lemma {:induction false} FillIsExpand(t: Table, salt: Salt, k: nat)
    requires k <= 521
    ensures var u := ExpandPrefix(t, salt, k);
            Fill(u, salt, k, Chain(u, k)) == Expand(t, salt)
    decreases 521 - k
  {
    hide Xor, Blowfish, Encrypt, Chain, ExpandPrefix;
    if k < 521 {
      var u := ExpandPrefix(t, salt, k);
      var x := Chain(u, k).Xor(SaltHalf(salt, k));
      BlowfishIsEncrypt(u[..18], u[18..], x);
      PrefixGrows(t, salt, k, x, EncryptUnder(u, x));
      FillStep(u, salt, k, Chain(u, k));
      FillIsExpand(t, salt, k + 1);
    }
  }

  lemma FillStep(t: Table, salt: Salt, k: nat, b: Block)
    requires k < 521
    ensures var e := Blowfish(t[..18], t[18..], b.Xor(SaltHalf(salt, k)));
            Fill(t, salt, k, b) == Fill(Put(t, k, e), salt, k + 1, e)
  {
    NextIs(t, salt, k, b);
    hide Xor, Blowfish, Next, Block.Xor, SaltHalf;
  }

  lemma NextIs(t: Table, salt: Salt, k: nat, b: Block)
    ensures Next(t, salt[2 * (k % 2)], salt[2 * (k % 2) + 1], b)
         == Blowfish(t[..18], t[18..], b.Xor(SaltHalf(salt, k)))
  {
    hide Xor, Blowfish;
  }

  lemma ExpandedIsExpandKey(t: Table, salt: Salt, key: Schedule)
    ensures Expanded(t, salt, key) == ExpandKey(t, salt, key)
  {
    hide Xor, Fill, Expand;
    var x := XorKey(t, key);
    assert forall i :: 0 <= i < 1042 ==> x[i] == if i < 18 then Xor(t[i], key[i]) else t[i];
    assert x == seq(1042, i requires 0 <= i < 1042 => if i < 18 then Xor(t[i], key[i]) else t[i]);
    FillIsExpand(x, salt, 0);
    PrefixStarts(x, salt);
  }

  lemma SaltKeyIs(salt: Salt)
    ensures SaltKey(salt) == seq(18, i requires 0 <= i < 18 => salt[i % 4])
  {
    forall i: nat | i < 18
      ensures SaltKey(salt)[i] == salt[i % 4]
    {
      SaltKeyAt(salt, i);
    }
  }

  lemma {:induction false} PassesAreSteps(t: Table, key: Schedule, salt: Salt, n: nat)
    ensures Passes(t, key, salt, 2 * n) == CostSteps(t, key, salt, n)
  {
    hide Expanded, ExpandKey, SaltKey;
    if n > 0 {
      PassesAreSteps(t, key, salt, n - 1);
      var u := Passes(t, key, salt, 2 * (n - 1));
      SaltKeyIs(salt);
      ExpandedIsExpandKey(u, ZERO_SALT, key);
      var v := Passes(t, key, salt, 2 * n - 1);
      assert v == Expanded(u, [0, 0, 0, 0], key);
      ExpandedIsExpandKey(v, ZERO_SALT, SaltKey(salt));
      assert Passes(t, key, salt, 2 * n) == Expanded(v, [0, 0, 0, 0], SaltKey(salt));
    }
  }

  lemma {:induction false} TwoToIs(n: nat)
    ensures TwoTo(n) == Pow2(n)
  {
    if n > 0 {
      TwoToIs(n - 1);
    }
  }

  lemma SetupIsEks(p: Schedule, s: Boxes, key: Schedule, salt: Salt, cost: nat)
    ensures EksSetup(p, s, key, salt, cost) == EksBlowfishSetup(Tables(p, s), key, salt, cost)
  {
    hide Passes, CostSteps, Expanded, ExpandKey;
    ExpandedIsExpandKey(p + s, salt, key);
    PassesAreSteps(Expanded(p + s, salt, key), key, salt, TwoTo(cost));
    TwoToIs(cost);
  }

  lemma {:induction false} EcbIsEncryptN(t: Table, text: seq<Block>, n: nat, i: nat)
    requires i < |text|
    ensures EcbTimes(t, text, n)[i] == EncryptN(t[..18], t[18..], n, text[i])
  {
    hide Blowfish, Encrypt;
    if n > 0 {
      EcbIsEncryptN(t, text, n - 1, i);
      BlowfishIsEncrypt(t[..18], t[18..], EcbTimes(t, text, n - 1)[i]);
    }
  }

  lemma MagicIsText(i: nat)
    requires i < 3
    ensures MagicPair(i) == TextBlock(i)
  {
  }

  lemma SaltIs(b: seq<Byte>)
    requires |b| == 16
    ensures SaltOf16(b) == SaltWords(b)
  {
    hide FromBytes;
  }

  lemma BigBytesAre(w: Word)
    ensures BigBytes(w) == [OctetByte(w, 3), OctetByte(w, 2), OctetByte(w, 1), OctetByte(w, 0)]
  {
  }

  lemma BytesOfIs(b: Block)
    ensures BytesOf(b) == BigBytes(b.l) + BigBytes(b.r)
  {
    hide BigBytes, OctetByte;
    BigBytesAre(b.l);
    BigBytesAre(b.r);
  }

  lemma SixWords(w: seq<Word>)
    requires |w| == 6
    ensures WordsToBytes(w) == BytesOf(Block(w[0], w[1])) + BytesOf(Block(w[2], w[3])) + BytesOf(Block(w[4], w[5]))
  {
    hide BytesOf, OctetByte, WordsToBytes;
    TwoWords(w);
    TwoWords(w[2..]);
    TwoWords(w[4..]);
    assert w[2..][2..] == w[4..] && w[4..][2..] == [];
    NoWords();
  }

  lemma NoWords()
    ensures WordsToBytes([]) == []
  {
  }

  lemma TwoWords(w: seq<Word>)
    requires |w| >= 2
    ensures WordsToBytes(w) == BytesOf(Block(w[0], w[1])) + WordsToBytes(w[2..])
  {
    hide BigBytes, BytesOf, WordsToBytes;
    BytesOfIs(Block(w[0], w[1]));
    OneWord(w);
    OneWord(w[1..]);
    assert w[1..][1..] == w[2..];
    var a, b, c := BigBytes(w[0]), BigBytes(w[1]), WordsToBytes(w[2..]);
    assert a + (b + c) == (a + b) + c;
  }

  lemma OneWord(w: seq<Word>)
    requires w != []
    ensures WordsToBytes(w) == BigBytes(w[0]) + WordsToBytes(w[1..])
  {
    hide BigBytes;
  }

  lemma KeyWordsAre(key: Key)
    ensures KeyWords(key) == Packed(key, false)
  {
    forall i | 0 <= i < 18
      ensures KeyWords(key)[i] == Packed(key, false)[i]
    {
      KeyWordIs(key, i);
    }
  }

  lemma KeyWordIs(key: Key, i: nat)
    requires i < 18
    ensures KeyWords(key)[i] == Join(KeySetup.Group(key, i), false)
  {
    hide FromBytes, Join;
    var k, g := key + [0], KeySetup.Group(key, i);
    forall m: nat
      ensures k[m % |k|] == StreamByte(key, m)
    {
    }
    JoinFour(g, false);
    PlainWord(g[0], g[1], g[2], g[3]);
    hide StreamByte, Word4;
  }

  lemma PlainWord(a: Byte, b: Byte, c: Byte, d: Byte)
    ensures Word4(a, b, c, d, false) == FromBytes(a, b, c, d)
  {
  }

  /** The digest is that of the published algorithm, unless the collision measure fires. */
  lemma DigestIsPublished(init: Tables, key: Key, flags: Byte, cost: nat, salt: seq<Byte>)
    requires |salt| == 16 && !(SafetyFlag(flags) && MustDeviate(key))
    ensures Digest(init, key, flags, cost, salt)
         == Bcrypt23(init.p, init.s, Packed(key, BugFlag(flags)), salt, cost)
  {
    hide FinalTable, EksBlowfishSetup, EksSetup, Packed, BugFlag, SafetyFlag, MustDeviate, EncryptN, EcbTimes,
      OctetByte, FromBytes, SaltWords, SaltOf16, WordsToBytes, MagicPair, TextBlock;
    PublishedSetup(init, key, flags, cost, SaltWords(salt));
    SaltIs(salt);
    SetupIsEks(init.p, init.s, Packed(key, BugFlag(flags)), SaltWords(salt), cost);
    var t := FinalTable(init, key, flags, cost, SaltWords(salt));
    var text := [TextBlock(0), TextBlock(1), TextBlock(2)];
    forall i | 0 <= i < 3
      ensures FinalPair(t, i) == EcbTimes(t, text, 64)[i]
    {
      MagicIsText(i);
      EcbIsEncryptN(t, text, 64, i);
    }
    SixWords(FinalWords(t));
  }
}
