/** The Eksblowfish key schedule: the in-place loops of BF_crypt against the
    ExpandKey / EksBlowfishSetup algorithms of Provos and Mazieres. */
module KeySchedule {
  import opened Words
  import opened Feistel

  const BLOCKS := 521

  /** The whole cipher state: the 18 round keys followed by the 1024 box words. */
  type Table = t: seq<Word> | |t| == 2 * BLOCKS witness seq(1042, _ => 0)

  type Salt = s: seq<Word> | |s| == 4 witness [0, 0, 0, 0]

  const ZERO_SALT: Salt := [0, 0, 0, 0]

  function EncryptUnder(t: Table, b: Block): Block {
    Encrypt(t[..18], t[18..], b)
  }

  /** The 64-bit half of the salt that block `k` uses. */
  function SaltHalf(salt: Salt, k: nat): Block {
    if k % 2 == 0 then Block(salt[0], salt[1]) else Block(salt[2], salt[3])
  }

  /** The ciphertext block just before block `k`; the chain starts at zero. */
  function Chain(t: Table, k: nat): Block
    requires k <= BLOCKS
  {
    if k == 0 then Block(0, 0) else Block(t[2 * k - 2], t[2 * k - 1])
  }

  function Put(t: Table, k: nat, b: Block): Table
    requires k < BLOCKS
  {
    t[2 * k := b.l][2 * k + 1 := b.r]
  }

  /** The first `n` blocks of one uniform pass over the table. */
  function ExpandPrefix(t: Table, salt: Salt, n: nat): Table
    requires n <= BLOCKS
  {
    if n == 0 then t
    else
      var u := ExpandPrefix(t, salt, n - 1);
      Put(u, n - 1, EncryptUnder(u, Chain(u, n - 1).Xor(SaltHalf(salt, n - 1))))
  }

  function Expand(t: Table, salt: Salt): Table {
    ExpandPrefix(t, salt, BLOCKS)
  }

  /** Mixes a key into the round keys. */
  function XorKey(t: Table, key: Schedule): Table {
    XorSeq(t[..18], key) + t[18..]
  }

  /** The salt repeated over the round keys, used as a key by the second half of a cost step. */
  function SaltKey(salt: Salt): Schedule {
    salt + salt + salt + salt + salt[..2]
  }

  /** ExpandKey of the paper. */
  function ExpandKey(t: Table, salt: Salt, key: Schedule): Table {
    Expand(XorKey(t, key), salt)
  }

  /** `n` cost steps: each is a key pass and then a salt pass. */
  function CostSteps(t: Table, key: Schedule, salt: Salt, n: nat): Table {
    if n == 0 then t
    else ExpandKey(ExpandKey(CostSteps(t, key, salt, n - 1), ZERO_SALT, key), ZERO_SALT, SaltKey(salt))
  }

  // ---------- What a pass means, without the order of the writes ----------

  /** Block `k` of `u` is the encryption of the chained salt under the table
      whose first `k` blocks are new and whose other blocks are still old. */
  ghost predicate BlockExpanded(t: Table, salt: Salt, u: Table, k: nat)
    requires k < BLOCKS
  {
    Chain(u, k + 1) == EncryptUnder(u[..2 * k] + t[2 * k..], Chain(u, k).Xor(SaltHalf(salt, k)))
  }

  ghost predicate IsExpansion(t: Table, salt: Salt, u: Table) {
    forall k: nat :: k < BLOCKS ==> BlockExpanded(t, salt, u, k)
  }

  lemma {:induction false} ExpandPrefixIsExpansion(t: Table, salt: Salt, n: nat)
    requires n <= BLOCKS
    ensures var u := ExpandPrefix(t, salt, n);
            u[2 * n..] == t[2 * n..] && forall k: nat :: k < n ==> BlockExpanded(t, salt, u, k)
  {
    hide EncryptUnder, SaltHalf, Xor;
    if n > 0 {
      ExpandPrefixIsExpansion(t, salt, n - 1);
      var v := ExpandPrefix(t, salt, n - 1);
      var u := ExpandPrefix(t, salt, n);
      assert v == v[..2 * (n - 1)] + t[2 * (n - 1)..];
      assert u[..2 * (n - 1)] == v[..2 * (n - 1)];
      forall k: nat | k < n
        ensures BlockExpanded(t, salt, u, k)
      {
        assert u[..2 * k] == v[..2 * k];
        assert Chain(u, k) == Chain(v, k);
        if k < n - 1 {
          assert BlockExpanded(t, salt, v, k);
          assert Chain(u, k + 1) == Chain(v, k + 1);
        }
      }
    }
  }

  lemma {:induction false} ExpansionPrefixUnique(t: Table, salt: Salt, u: Table, v: Table, n: nat)
    requires IsExpansion(t, salt, u) && IsExpansion(t, salt, v) && n <= BLOCKS
    ensures u[..2 * n] == v[..2 * n]
  {
    hide EncryptUnder, SaltHalf, Xor;
    if n > 0 {
      ExpansionPrefixUnique(t, salt, u, v, n - 1);
      var k := n - 1;
      assert BlockExpanded(t, salt, u, k) && BlockExpanded(t, salt, v, k);
      if k > 0 {
        assert u[2 * k - 2] == u[..2 * k][2 * k - 2] && u[2 * k - 1] == u[..2 * k][2 * k - 1];
        assert v[2 * k - 2] == v[..2 * k][2 * k - 2] && v[2 * k - 1] == v[..2 * k][2 * k - 1];
      }
      assert Chain(u, k) == Chain(v, k);
      assert Chain(u, n) == Chain(v, n);
      assert u[..2 * n] == u[..2 * k] + [u[2 * k], u[2 * k + 1]];
      assert v[..2 * n] == v[..2 * k] + [v[2 * k], v[2 * k + 1]];
    }
  }

  /** A pass writes each of the 521 blocks exactly once, and its result is the
      one and only table in which every block is chained to the one before it. */
  lemma ExpandCharacterised(t: Table, salt: Salt, u: Table)
    ensures u == Expand(t, salt) <==> IsExpansion(t, salt, u)
  {
    ExpandPrefixIsExpansion(t, salt, BLOCKS);
    var v := Expand(t, salt);
    assert IsExpansion(t, salt, v);
    if IsExpansion(t, salt, u) {
      ExpansionPrefixUnique(t, salt, u, v, BLOCKS);
      assert u == u[..2 * BLOCKS] && v == v[..2 * BLOCKS];
    }
  }

  // ---------- The in-place loops ----------

  ghost predicate Shapes(P: array<Word>, S: array<Word>) {
    P.Length == 18 && S.Length == 1024 && P != S
  }

  ghost function TableOf(P: array<Word>, S: array<Word>): Table
    requires Shapes(P, S)
    reads P, S
  {
    P[..] + S[..]
  }

  /** One encryption of the chained block under the current tables. */
  method NextBlock(P: array<Word>, S: array<Word>, l: Word, r: Word) returns (L: Word, R: Word)
    requires Shapes(P, S)
    ensures Block(L, R) == EncryptUnder(TableOf(P, S), Block(l, r))
  {
    hide Encrypt;
    L, R := EncryptBlock(P, S, l, r);
    assert TableOf(P, S)[..18] == P[..] && TableOf(P, S)[18..] == S[..];
  }

  method StoreP(P: array<Word>, S: array<Word>, i: nat, L: Word, R: Word)
    requires Shapes(P, S) && i % 2 == 0 && i + 1 < 18
    modifies P
    ensures TableOf(P, S) == Put(old(TableOf(P, S)), i / 2, Block(L, R))
  {
    P[i] := L;
    P[i + 1] := R;
    assert P[..] == old(P[..])[i := L][i + 1 := R];
    assert P[..] + S[..] == old(P[..] + S[..])[i := L][i + 1 := R];
  }

  method StoreS(P: array<Word>, S: array<Word>, i: nat, L: Word, R: Word)
    requires Shapes(P, S) && i % 2 == 0 && i + 1 < 1024
    modifies S
    ensures TableOf(P, S) == Put(old(TableOf(P, S)), 9 + i / 2, Block(L, R))
  {
    S[i] := L;
    S[i + 1] := R;
    assert S[..] == old(S[..])[i := L][i + 1 := R];
    assert P[..] + S[..] == old(P[..] + S[..])[18 + i := L][18 + i + 1 := R];
  }

  lemma PutChain(t: Table, k: nat, b: Block)
    requires k < BLOCKS
    ensures Chain(Put(t, k, b), k + 1) == b
  {
  }

  lemma ZeroHalf(k: nat, b: Block)
    ensures b.Xor(SaltHalf(ZERO_SALT, k)) == b
  {
    XorZero(b.l);
    XorZero(b.r);
  }

  /** One salted block more. */
  lemma PrefixGrows(t: Table, salt: Salt, k: nat, x: Block, y: Block)
    requires k < BLOCKS && x == Chain(ExpandPrefix(t, salt, k), k).Xor(SaltHalf(salt, k))
    requires y == EncryptUnder(ExpandPrefix(t, salt, k), x)
    ensures ExpandPrefix(t, salt, k + 1) == Put(ExpandPrefix(t, salt, k), k, y)
    ensures Chain(ExpandPrefix(t, salt, k + 1), k + 1) == y
  {
    hide Put, EncryptUnder, Block.Xor, SaltHalf, Chain;
    PutChain(ExpandPrefix(t, salt, k), k, y);
  }

  /** The first loop of BF_crypt: the salted pass over P. */
  method SaltP(P: array<Word>, S: array<Word>, salt: array<Word>) returns (L: Word, R: Word)
    requires Shapes(P, S) && salt.Length == 4 && salt != P
    modifies P
    ensures TableOf(P, S) == ExpandPrefix(old(TableOf(P, S)), salt[..], 9)
    ensures Block(L, R) == Chain(TableOf(P, S), 9)
  {
    hide Xor, EncryptUnder, Put, ExpandPrefix, Chain;
    ghost var t, sa := TableOf(P, S), salt[..];
    L, R := 0, 0;
    PrefixStarts(t, sa);
    var i := 0;
    while i < 18
      invariant 0 <= i <= 18 && i % 2 == 0
      invariant salt[..] == sa
      invariant TableOf(P, S) == ExpandPrefix(t, sa, i / 2)
      invariant Block(L, R) == Chain(TableOf(P, S), i / 2)
    {
      var h := if i % 4 == 0 then 0 else 2;   // i & 2
      L := Xor(L, salt[h]);
      R := Xor(R, salt[h + 1]);
      ghost var x := Block(L, R);
      L, R := NextBlock(P, S, L, R);
      StoreP(P, S, i, L, R);
      PrefixGrows(t, sa, i / 2, x, Block(L, R));
      i := i + 2;
    }
  }

  lemma PrefixStarts(t: Table, salt: Salt)
    ensures ExpandPrefix(t, salt, 0) == t && Chain(t, 0) == Block(0, 0)
  {
  }

  /** Half an iteration of the second loop: one salted block of S. */
  method SaltBlockS(P: array<Word>, S: array<Word>, salt: array<Word>, h: nat, p: nat, l: Word, r: Word,
                    ghost t: Table)
      returns (L: Word, R: Word)
    requires Shapes(P, S) && salt.Length == 4 && salt != S && p + 1 < 1024 && p % 2 == 0
    requires h == if p % 4 == 0 then 2 else 0
    requires TableOf(P, S) == ExpandPrefix(t, salt[..], 9 + p / 2) && Block(l, r) == Chain(TableOf(P, S), 9 + p / 2)
    modifies S
    ensures TableOf(P, S) == ExpandPrefix(t, salt[..], 10 + p / 2) && Block(L, R) == Chain(TableOf(P, S), 10 + p / 2)
  {
    hide Xor, EncryptUnder, Put, ExpandPrefix, Chain;
    assert SaltHalf(salt[..], 9 + p / 2) == Block(salt[h], salt[h + 1]);
    L := Xor(l, salt[h]);
    R := Xor(r, salt[h + 1]);
    ghost var x := Block(L, R);
    L, R := NextBlock(P, S, L, R);
    StoreS(P, S, p, L, R);
    PrefixGrows(t, salt[..], 9 + p / 2, x, Block(L, R));
  }

  /** The first two loops of BF_crypt: one salted pass split over P and S. */
  method SaltedPass(P: array<Word>, S: array<Word>, salt: array<Word>)
    requires Shapes(P, S) && salt.Length == 4 && salt != P && salt != S
    modifies P, S
    ensures TableOf(P, S) == Expand(old(TableOf(P, S)), salt[..])
  {
    hide ExpandPrefix, Chain, TableOf;
    ghost var t, sa := TableOf(P, S), salt[..];
    var L, R := SaltP(P, S, salt);
    var p := 0;
    while p < 1023
      invariant 0 <= p <= 1024 && p % 4 == 0
      invariant salt[..] == sa
      invariant TableOf(P, S) == ExpandPrefix(t, sa, 9 + p / 2)
      invariant Block(L, R) == Chain(TableOf(P, S), 9 + p / 2)
    {
      p := p + 4;
      L, R := SaltBlockS(P, S, salt, 2, p - 4, L, R, t);
      L, R := SaltBlockS(P, S, salt, 0, p - 2, L, R, t);
    }
  }

  /** BF_body: one unsalted pass. */
  method Body(P: array<Word>, S: array<Word>)
    requires Shapes(P, S)
    modifies P, S
    ensures TableOf(P, S) == Expand(old(TableOf(P, S)), ZERO_SALT)
  {
    hide EncryptUnder, Put, SaltHalf, Block.Xor;
    ghost var t := TableOf(P, S);
    var L, R := 0, 0;
    var p := 0;
    while p < 18
      invariant 0 <= p <= 18 && p % 2 == 0
      invariant TableOf(P, S) == ExpandPrefix(t, ZERO_SALT, p / 2)
      invariant Block(L, R) == Chain(TableOf(P, S), p / 2)
    {
      ghost var u := TableOf(P, S);
      ZeroHalf(p / 2, Block(L, R));
      p := p + 2;
      L, R := NextBlock(P, S, L, R);
      StoreP(P, S, p - 2, L, R);
      PutChain(u, (p - 2) / 2, Block(L, R));
    }
    p := 0;
    while p < 1023
      invariant 0 <= p <= 1024 && p % 2 == 0
      invariant TableOf(P, S) == ExpandPrefix(t, ZERO_SALT, 9 + p / 2)
      invariant Block(L, R) == Chain(TableOf(P, S), 9 + p / 2)
    {
      ghost var u := TableOf(P, S);
      ZeroHalf(9 + p / 2, Block(L, R));
      p := p + 2;
      L, R := NextBlock(P, S, L, R);
      StoreS(P, S, p - 2, L, R);
      PutChain(u, 9 + (p - 2) / 2, Block(L, R));
    }
  }

  /** The loop that mixes the expanded key into P. */
  method MixKey(P: array<Word>, S: array<Word>, key: array<Word>)
    requires Shapes(P, S) && key.Length == 18 && key != P
    modifies P
    ensures TableOf(P, S) == XorKey(old(TableOf(P, S)), key[..])
  {
    hide Xor;
    var i := 0;
    while i < 18
      invariant 0 <= i <= 18 && i % 2 == 0
      invariant forall j :: 0 <= j < i ==> P[j] == Xor(old(P[j]), key[j])
      invariant forall j :: i <= j < 18 ==> P[j] == old(P[j])
    {
      P[i] := Xor(P[i], key[i]);
      P[i + 1] := Xor(P[i + 1], key[i + 1]);
      i := i + 2;
    }
    assert old(TableOf(P, S))[..18] == old(P[..]);
    assert P[..] == XorSeq(old(P[..]), key[..]);
  }

  function SaltAt(salt: Salt, j: nat): Word {
    salt[j % 4]
  }

  lemma SaltKeyAt(salt: Salt, j: nat)
    requires j < 18
    ensures SaltKey(salt)[j] == SaltAt(salt, j)
  {
  }

  lemma FourSalts(salt: Salt, i: nat)
    requires i % 4 == 0
    ensures SaltAt(salt, i) == salt[0] && SaltAt(salt, i + 1) == salt[1]
    ensures SaltAt(salt, i + 2) == salt[2] && SaltAt(salt, i + 3) == salt[3]
  {
  }

  method MixFour(P: array<Word>, i: nat, tmp1: Word, tmp2: Word, tmp3: Word, tmp4: Word)
    requires i + 4 <= P.Length
    modifies P
    ensures P[i] == Xor(old(P[i]), tmp1) && P[i + 1] == Xor(old(P[i + 1]), tmp2)
    ensures P[i + 2] == Xor(old(P[i + 2]), tmp3) && P[i + 3] == Xor(old(P[i + 3]), tmp4)
    ensures forall j :: 0 <= j < P.Length && !(i <= j < i + 4) ==> P[j] == old(P[j])
  {
    hide Xor;
    P[i] := Xor(P[i], tmp1);
    P[i + 1] := Xor(P[i + 1], tmp2);
    P[i + 2] := Xor(P[i + 2], tmp3);
    P[i + 3] := Xor(P[i + 3], tmp4);
  }

  lemma SaltMixed(was: seq<Word>, p: seq<Word>, s: seq<Word>, salt: Salt)
    requires |was| == |p| == 18 && |s| == 1024
    requires forall j: nat :: j < 18 ==> p[j] == Xor(was[j], SaltAt(salt, j))
    ensures p + s == XorKey(was + s, SaltKey(salt))
  {
    hide Xor, SaltKey, SaltAt;
    assert (was + s)[..18] == was && (was + s)[18..] == s;
    forall j: nat | j < 18 {
      SaltKeyAt(salt, j);
    }
    assert p == XorSeq(was, SaltKey(salt));
  }

  /** The loop that mixes the four salt words into P, plus the last two words by hand. */
  method MixSalt(P: array<Word>, S: array<Word>, salt: array<Word>)
    requires Shapes(P, S) && salt.Length == 4 && salt != P
    modifies P
    ensures TableOf(P, S) == XorKey(old(TableOf(P, S)), SaltKey(salt[..]))
  {
    hide Xor, SaltKey, XorKey, SaltAt;
    ghost var sa := salt[..];
    var tmp1, tmp2, tmp3, tmp4 := salt[0], salt[1], salt[2], salt[3];
    var i := 0;
    while i < 16
      invariant 0 <= i <= 16 && i % 4 == 0
      invariant forall j: nat :: j < i ==> P[j] == Xor(old(P[j]), SaltAt(sa, j))
      invariant forall j :: i <= j < 18 ==> P[j] == old(P[j])
    {
      FourSalts(sa, i);
      MixFour(P, i, tmp1, tmp2, tmp3, tmp4);
      i := i + 4;
    }
    FourSalts(sa, 16);
    P[16] := Xor(P[16], tmp1);
    P[17] := Xor(P[17], tmp2);
    SaltMixed(old(P[..]), P[..], S[..], sa);
  }

  /** The cost loop of BF_crypt: `count` iterations, each running its inner
      loop twice, once after the key and once after the salt. */
  method CostLoop(P: array<Word>, S: array<Word>, expanded: array<Word>, salt: array<Word>, count: nat)
    requires Shapes(P, S) && expanded.Length == 18 && salt.Length == 4 && count >= 1
    requires expanded != P && expanded != S && salt != P && salt != S
    modifies P, S
    ensures TableOf(P, S) == CostSteps(old(TableOf(P, S)), expanded[..], salt[..], count)
  {
    hide XorKey, Expand, SaltKey;
    ghost var t, key, sa := TableOf(P, S), expanded[..], salt[..];
    var n := count;
    while true
      invariant 1 <= n <= count
      invariant expanded[..] == key && salt[..] == sa
      invariant TableOf(P, S) == CostSteps(t, key, sa, count - n)
      decreases n
    {
      ghost var u := TableOf(P, S);
      MixKey(P, S, expanded);
      var done := false;
      while true
        invariant expanded[..] == key && salt[..] == sa
        invariant !done ==> TableOf(P, S) == XorKey(u, key)
        invariant done ==> TableOf(P, S) == XorKey(ExpandKey(u, ZERO_SALT, key), SaltKey(sa))
        decreases !done
      {
        Body(P, S);
        if done {
          break;
        }
        done := true;
        MixSalt(P, S, salt);
      }
      n := n - 1;
      if n == 0 {
        break;
      }
    }
  }
}
