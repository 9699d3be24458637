/** The Blowfish block transform (BF_ROUND, BF_ENCRYPT_1B). */
module Feistel {
  import opened Words

  const ROUNDS := 16

  /** The round keys, BF_ROUNDS + 2 words. */
  type Schedule = p: seq<Word> | |p| == ROUNDS + 2 witness seq(18, _ => 0)

  /** The four substitution boxes, laid out one after the other. */
  type Boxes = s: seq<Word> | |s| == 1024 witness seq(1024, _ => 0)

  datatype Block = Block(l: Word, r: Word) {
    function Xor(o: Block): Block { Block(Words.Xor(l, o.l), Words.Xor(r, o.r)) }
    function Swap(): Block { Block(r, l) }
  }

  /** The round function: one byte of `x` indexes each box. */
  function F(s: Boxes, x: Word): Word {
    Add(Xor(Add(s[0x100 + Octet(x, 2)], s[Octet(x, 3)]), s[0x200 + Octet(x, 1)]), s[0x300 + Octet(x, 0)])
  }

  /** `n` rounds of a textbook Feistel network, which swaps the halves after every round. */
  function Rounds(p: Schedule, s: Boxes, n: nat, b: Block): Block
    requires n <= ROUNDS
  {
    if n == 0 then b
    else
      var c := Rounds(p, s, n - 1, b);
      Block(Xor(Xor(c.r, p[n]), F(s, c.l)), c.l)
  }

  function Encrypt(p: Schedule, s: Boxes, b: Block): Block {
    var c := Rounds(p, s, ROUNDS, Block(Xor(b.l, p[0]), b.r));
    Block(Xor(c.r, p[ROUNDS + 1]), c.l)
  }

  function Reverse(p: Schedule): Schedule {
    seq(ROUNDS + 2, i requires 0 <= i < ROUNDS + 2 => p[ROUNDS + 1 - i])
  }

  /** One BF_ROUND: the new value of the half that is being mixed. */
  method Round(P: array<Word>, S: array<Word>, L: Word, R: Word, n: nat) returns (R': Word)
    requires P.Length == ROUNDS + 2 && S.Length == 1024 && n < ROUNDS
    ensures R' == Xor(Xor(R, P[n + 1]), F(S[..], L))
  {
    hide Xor, Add, Octet;
    var tmp1 := Octet(L, 0);
    var tmp2 := Octet(L, 1);
    var tmp3 := Octet(L, 2);
    var tmp4 := Octet(L, 3);
    var t1 := S[0x300 + tmp1];
    var t2 := S[0x200 + tmp2];
    var t3 := S[0x100 + tmp3];
    t3 := Add(t3, S[tmp4]);
    t3 := Xor(t3, t2);
    R' := Xor(R, P[n + 1]);
    t3 := Add(t3, t1);
    R' := Xor(R', t3);
  }

  /** Four consecutive BF_ROUNDs, which mix the halves alternately instead of swapping them. */
  method FourRounds(P: array<Word>, S: array<Word>, l: Word, r: Word, n: nat, ghost b: Block) returns (L: Word, R: Word)
    requires P.Length == ROUNDS + 2 && S.Length == 1024 && n + 4 <= ROUNDS
    requires Block(l, r) == Rounds(P[..], S[..], n, b)
    ensures Block(L, R) == Rounds(P[..], S[..], n + 4, b)
  {
    hide Xor, F;
    ghost var p, s := P[..], S[..];
    R := Round(P, S, l, r, n);
    assert Block(R, l) == Rounds(p, s, n + 1, b);
    L := Round(P, S, R, l, n + 1);
    assert Block(L, R) == Rounds(p, s, n + 2, b);
    R := Round(P, S, L, R, n + 2);
    assert Block(R, L) == Rounds(p, s, n + 3, b);
    L := Round(P, S, R, L, n + 3);
  }

  /** BF_ENCRYPT_1B. */
  method EncryptBlock(P: array<Word>, S: array<Word>, l: Word, r: Word) returns (L: Word, R: Word)
    requires P.Length == ROUNDS + 2 && S.Length == 1024
    ensures Block(L, R) == Encrypt(P[..], S[..], Block(l, r))
  {
    hide Xor, F;
    L, R := Xor(l, P[0]), r;
    ghost var b := Block(L, R);
    L, R := FourRounds(P, S, L, R, 0, b);
    L, R := FourRounds(P, S, L, R, 4, b);
    L, R := FourRounds(P, S, L, R, 8, b);
    L, R := FourRounds(P, S, L, R, 12, b);
    var tmp4 := R;
    R := L;
    L := Xor(tmp4, P[ROUNDS + 1]);
  }

  // ---------- The transform is a bijection on blocks ----------

  /** Running k rounds with the keys reversed walks back over the last k rounds. */
  lemma {:induction false} RoundsUndone(p: Schedule, s: Boxes, k: nat, b: Block)
    requires k <= ROUNDS
    ensures Rounds(Reverse(p), s, k, Rounds(p, s, ROUNDS, b).Swap()) == Rounds(p, s, ROUNDS - k, b).Swap()
  {
    hide Xor, F;
    if k > 0 {
      var m := ROUNDS - k + 1;
      RoundsUndone(p, s, k - 1, b);
      var c := Rounds(p, s, m - 1, b);
      assert Reverse(p)[k] == p[m];
      XorCancels(c.r, p[m], F(s, c.l));
    }
  }

  /** Encrypting under the reversed schedule decrypts, for every schedule and every table. */
  lemma {:induction false} EncryptUndone(p: Schedule, s: Boxes, b: Block)
    ensures Encrypt(Reverse(p), s, Encrypt(p, s, b)) == b
    ensures Encrypt(p, s, Encrypt(Reverse(p), s, b)) == b
  {
    hide Encrypt;
    EncryptUndoneOneWay(p, s, b);
    EncryptUndoneOneWay(Reverse(p), s, b);
    assert Reverse(Reverse(p)) == p;
  }

  lemma {:induction false} EncryptUndoneOneWay(p: Schedule, s: Boxes, b: Block)
    ensures Encrypt(Reverse(p), s, Encrypt(p, s, b)) == b
  {
    hide Xor, F;
    var start := Block(Xor(b.l, p[0]), b.r);
    var c := Rounds(p, s, ROUNDS, start);
    var e := Encrypt(p, s, b);
    var q := Reverse(p);
    assert q[0] == p[ROUNDS + 1] && q[ROUNDS + 1] == p[0];
    XorCancels(c.r, p[ROUNDS + 1], p[0]);
    assert Block(Xor(e.l, q[0]), e.r) == c.Swap();
    RoundsUndone(p, s, ROUNDS, start);
    XorCancels(b.l, p[0], p[1]);
  }

  /** The transform applied `n` times, as in the final 64-fold encryption of the magic words. */
  function EncryptN(p: Schedule, s: Boxes, n: nat, b: Block): Block {
    if n == 0 then b else Encrypt(p, s, EncryptN(p, s, n - 1, b))
  }

  lemma {:induction false} EncryptNInjective(p: Schedule, s: Boxes, n: nat, a: Block, b: Block)
    ensures EncryptN(p, s, n, a) == EncryptN(p, s, n, b) <==> a == b
  {
    hide Encrypt;
    if n > 0 {
      EncryptNInjective(p, s, n - 1, a, b);
      EncryptUndone(p, s, EncryptN(p, s, n - 1, a));
      EncryptUndone(p, s, EncryptN(p, s, n - 1, b));
    }
  }

  /** Every block is reached: the n-fold transform is onto as well. */
  lemma {:induction false} EncryptNOnto(p: Schedule, s: Boxes, n: nat, b: Block)
    ensures EncryptN(p, s, n, EncryptN(Reverse(p), s, n, b)) == b
  {
    hide Encrypt;
    if n > 0 {
      EncryptNFront(p, s, n, EncryptN(Reverse(p), s, n, b));
      EncryptUndone(p, s, EncryptN(Reverse(p), s, n - 1, b));
      EncryptNOnto(p, s, n - 1, b);
    }
  }

  lemma {:induction false} EncryptNFront(p: Schedule, s: Boxes, n: nat, b: Block)
    requires n > 0
    ensures EncryptN(p, s, n, b) == EncryptN(p, s, n - 1, Encrypt(p, s, b))
  {
    hide Encrypt;
    if n > 1 {
      EncryptNFront(p, s, n - 1, b);
    }
  }
}
