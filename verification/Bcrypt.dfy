/** BF_crypt, the public crypt and the password comparison of User::login. */
module Bcrypt {
  import opened Words
  import opened Feistel
  import opened KeySchedule
  import opened KeySetup
  import opened Base64

  /** The constant tables bf_init; nothing below depends on their values. */
  datatype Tables = Tables(p: Schedule, s: Boxes)

  const MAGIC: seq<Word> := [0x4F727068, 0x65616E42, 0x65686F6C, 0x64657253, 0x63727944, 0x6F756274]
  const HEADER := 29        // "$2y$10$" and 22 salt characters
  const HASH_LENGTH := 60
  const STAR: Byte := 0x2a
  const ZERO: Byte := 0x30
  const ONE: Byte := 0x31
  const TWO: Byte := 0x32
  const THREE: Byte := 0x33
  const NINE: Byte := 0x39

  // ---------- Specification ----------

  function UpToNul(s: seq<Byte>): (k: Key)
    ensures |k| <= |s| && k == s[..|k|] && (|k| < |s| ==> s[|k|] == 0)
  {
    if s == [] || s[0] == 0 then [] else [s[0]] + UpToNul(s[1..])
  }

  function FlagsBySubtype(c: Byte): Byte {
    if c == 0x61 then 2        // 'a'
    else if c == 0x62 then 4   // 'b'
    else if c == 0x78 then 1   // 'x'
    else if c == 0x79 then 4   // 'y'
    else 0
  }

  predicate PrefixOk(setting: seq<Byte>) {
    && At(setting, 0) == DOLLAR && At(setting, 1) == TWO
    && FlagsBySubtype(At(setting, 2)) != 0
    && At(setting, 3) == DOLLAR
    && ZERO <= At(setting, 4) <= THREE && ZERO <= At(setting, 5) <= NINE
    && !(At(setting, 4) == THREE && At(setting, 5) > ONE)
    && At(setting, 6) == DOLLAR
  }

  /** The two cost digits. */
  function Cost(setting: seq<Byte>): (c: nat)
    requires PrefixOk(setting)
    ensures c <= 31
  {
    (At(setting, 4) - ZERO) as int * 10 + (At(setting, 5) - ZERO) as int
  }

  function Pow2(n: nat): (r: nat)
    ensures r >= 1
  {
    if n == 0 then 1 else 2 * Pow2(n - 1)
  }

  /** The shift of a one to the left by `n`, in 32 bits. */
  function OneShifted(n: nat): (r: nat)
    ensures r < 0x1_0000_0000
  {
    if n == 0 then 1 else 2 * OneShifted(n - 1) % 0x1_0000_0000
  }

  lemma Pow2Of32()
    ensures Pow2(32) == 0x1_0000_0000
  {
    assert Pow2(8) == 16 * Pow2(4) == 256;
    assert Pow2(16) == 16 * Pow2(12) && Pow2(12) == 16 * Pow2(8);
    assert Pow2(24) == 16 * Pow2(20) && Pow2(20) == 16 * Pow2(16);
    assert Pow2(32) == 16 * Pow2(28) && Pow2(28) == 16 * Pow2(24);
  }

  lemma {:induction false} Pow2Grows(m: nat, n: nat)
    requires m < n
    ensures 2 * Pow2(m) <= Pow2(n)
    decreases n
  {
    if m < n - 1 {
      Pow2Grows(m, n - 1);
    }
  }

  /** The shift loses its one bit iff it goes beyond the word, so for every cost two digits can
      stand for, the 32-bit count is exact and starts above zero. */
  lemma {:induction false} ShiftExact(n: nat)
    ensures OneShifted(n) == if n <= 31 then Pow2(n) else 0
  {
    if 0 < n {
      ShiftExact(n - 1);
    }
    Pow2Of32();
    if n <= 31 {
      Pow2Grows(n, 32);
    }
  }

  predicate Accepted(setting: seq<Byte>, min: nat) {
    PrefixOk(setting) && Pow2(Cost(setting)) >= min && Decode(Drop(setting, 7), 16).Ok?
  }

  function SaltOf(setting: seq<Byte>): (salt: seq<Byte>)
    requires Decode(Drop(setting, 7), 16).Ok?
    ensures |salt| == 16
  {
    Decode(Drop(setting, 7), 16).value
  }

  function Big(b: seq<Byte>): Word
    requires |b| == 4
  {
    FromBytes(b[0], b[1], b[2], b[3])
  }

  function BigBytes(w: Word): (b: seq<Byte>)
    ensures |b| == 4
  {
    [((w >> 24) & 0xFF) as Byte, ((w >> 16) & 0xFF) as Byte, ((w >> 8) & 0xFF) as Byte, (w & 0xFF) as Byte]
  }

  /** 16 salt bytes as four big-endian words. */
  function SaltWords(b: seq<Byte>): Salt
    requires |b| == 16
  {
    [Big(b[0..4]), Big(b[4..8]), Big(b[8..12]), Big(b[12..16])]
  }

  function WordsToBytes(w: seq<Word>): (b: seq<Byte>)
    ensures |b| == 4 * |w|
  {
    if w == [] then [] else BigBytes(w[0]) + WordsToBytes(w[1..])
  }

  /** The state after the whole key setup. */
  ghost function FinalTable(init: Tables, key: Key, flags: Byte, cost: nat, salt: Salt): Table {
    var setup := KeySetup.KeySetup(init.p, key, flags);
    CostSteps(Expand(setup.initial + init.s, salt), setup.expanded, salt, Pow2(cost))
  }

  function MagicPair(i: nat): Block
    requires i < 3
  {
    Block(MAGIC[2 * i], MAGIC[2 * i + 1])
  }

  function FinalPair(t: Table, i: nat): Block
    requires i < 3
  {
    EncryptN(t[..18], t[18..], 64, MagicPair(i))
  }

  function FinalWords(t: Table): (w: seq<Word>)
    ensures |w| == 6
  {
    seq(6, i requires 0 <= i < 6 => if i % 2 == 0 then FinalPair(t, i / 2).l else FinalPair(t, i / 2).r)
  }

  /** The 23 hash bytes that are kept. */
  ghost function Digest(init: Tables, key: Key, flags: Byte, cost: nat, salt: seq<Byte>): (d: seq<Byte>)
    requires |salt| == 16
    ensures |d| == 23
  {
    WordsToBytes(FinalWords(FinalTable(init, key, flags, cost, SaltWords(salt))))[..23]
  }

  /** The setting as it is copied to the output, with its last salt character rewritten. */
  function Header(setting: seq<Byte>): (h: seq<Byte>)
    ensures |h| == HEADER
  {
    seq(28, i requires 0 <= i < 28 => At(setting, i)) + [ClearLow(At(setting, 28))]
  }

  ghost function DigestFor(init: Tables, key: Key, setting: seq<Byte>): (d: seq<Byte>)
    requires Accepted(setting, 0)
    ensures |d| == 23
  {
    Digest(init, key, FlagsBySubtype(At(setting, 2)), Cost(setting), SaltOf(setting))
  }

  ghost function BfCryptSpec(init: Tables, key: Key, setting: seq<Byte>, min: nat): Result<seq<Byte>> {
    if Accepted(setting, min) then Ok(Header(setting) + Encode(DigestFor(init, key, setting))) else Err
  }

  /** _crypt_output_magic */
  function FailureToken(setting: seq<Byte>): seq<Byte> {
    if At(setting, 0) == STAR && At(setting, 1) == ZERO then [STAR, ONE] else [STAR, ZERO]
  }

  /** Blowfish::crypt with a given setting. */
  ghost function Crypt(init: Tables, password: seq<Byte>, setting: seq<Byte>): seq<Byte> {
    match BfCryptSpec(init, UpToNul(password), setting, 16)
    case Ok(out) => UpToNul(out)
    case Err => FailureToken(setting)
  }

  /** The setting crypt makes up when it is given none, from 22 random characters. */
  function FreshSetting(chars: seq<Byte>): seq<Byte> {
    [0x24, 0x32, 0x79, 0x24, 0x31, 0x30, 0x24] + chars
  }

  /** Blowfish::crypt; `chars` is what the random source would choose. */
  ghost function CryptText(init: Tables, password: seq<Byte>, algo: seq<Byte>, chars: seq<Byte>): seq<Byte> {
    Crypt(init, password, if algo == [] then FreshSetting(chars) else algo)
  }

  /** The comparison in User::login. */
  ghost predicate LoginAccepts(init: Tables, password: seq<Byte>, stored: seq<Byte>, chars: seq<Byte>) {
    stored == CryptText(init, password, stored, chars)
  }

  // ---------- Byte order ----------

  function Little(b: seq<Byte>): Word
    requires |b| == 4
  {
    FromBytes(b[3], b[2], b[1], b[0])
  }

  function LittleBytes(w: Word): (b: seq<Byte>)
    ensures |b| == 4
  {
    var b := BigBytes(w);
    [b[3], b[2], b[1], b[0]]
  }

  function LoadWord(b: seq<Byte>, little: bool): Word
    requires |b| == 4
  {
    if little then Little(b) else Big(b)
  }

  function StoreWord(w: Word, little: bool): (b: seq<Byte>)
    ensures |b| == 4
  {
    if little then LittleBytes(w) else BigBytes(w)
  }

  function SwapWord(w: Word): Word {
    var half := (w << 16) | (w >> 16);
    ((half & 0x00FF00FF) << 8) | ((half >> 8) & 0x00FF00FF)
  }

  lemma SwapLoad(a: Byte, b: Byte, c: Byte, d: Byte)
    ensures SwapWord(FromBytes(d, c, b, a)) == FromBytes(a, b, c, d)
  {
  }

  lemma SwapStore(w: Word)
    ensures LittleBytes(SwapWord(w)) == BigBytes(w)
  {
  }

  /** BF_swap: turns machine words into big-endian words and back. */
  method BfSwap(x: array<Word>, count: nat, little: bool)
    requires 1 <= count <= x.Length
    modifies x
    ensures forall i :: 0 <= i < count ==> x[i] == if little then SwapWord(old(x[i])) else old(x[i])
    ensures forall i :: count <= i < x.Length ==> x[i] == old(x[i])
  {
    hide SwapWord;
    if little {
      var i, n := 0, count;
      while true
        invariant 0 <= i < count && n == count - i
        invariant forall j :: 0 <= j < i ==> x[j] == SwapWord(old(x[j]))
        invariant forall j :: i <= j < x.Length ==> x[j] == old(x[j])
        decreases n
      {
        x[i] := SwapWord(x[i]);
        i := i + 1;
        n := n - 1;
        if n == 0 {
          break;
        }
      }
    }
  }

  function LoadWords(b: seq<Byte>, little: bool): (w: seq<Word>)
    requires |b| % 4 == 0
    ensures |w| == |b| / 4
  {
    if b == [] then [] else [LoadWord(b[..4], little)] + LoadWords(b[4..], little)
  }

  function StoreWords(w: seq<Word>, little: bool): (b: seq<Byte>)
    ensures |b| == 4 * |w|
  {
    if w == [] then [] else StoreWord(w[0], little) + StoreWords(w[1..], little)
  }

  lemma {:induction false} StoreSwapped(w: seq<Word>, x: seq<Word>, little: bool)
    requires |x| == |w|
    requires forall i :: 0 <= i < |w| ==> x[i] == if little then SwapWord(w[i]) else w[i]
    ensures StoreWords(x, little) == WordsToBytes(w)
  {
    hide SwapWord, LittleBytes, BigBytes;
    if w != [] {
      SwapStore(w[0]);
      StoreSwapped(w[1..], x[1..], little);
    }
  }

  lemma LoadSwapped(b: seq<Byte>, x: seq<Word>, little: bool)
    requires |b| == 16 && |x| == 4
    requires forall i :: 0 <= i < 4 ==>
               x[i] == if little then SwapWord(LoadWords(b, little)[i]) else LoadWords(b, little)[i]
    ensures x == SaltWords(b)
  {
    hide SwapWord, FromBytes;
    forall i | 0 <= i < 4
      ensures x[i] == Big(b[4 * i..4 * i + 4])
    {
      LoadWordAt(b, i, little);
      SwapLoad(b[4 * i], b[4 * i + 1], b[4 * i + 2], b[4 * i + 3]);
    }
  }

  lemma {:induction false} LoadWordAt(b: seq<Byte>, i: nat, little: bool)
    requires |b| % 4 == 0 && i < |b| / 4
    ensures LoadWords(b, little)[i] == LoadWord(b[4 * i..4 * i + 4], little)
  {
    hide LoadWord;
    if i > 0 {
      LoadWordAt(b[4..], i - 1, little);
      var n := 4 * (i - 1);
      assert b[4..][n..n + 4] == b[n + 4..n + 8];
    }
  }

  // ---------- The program ----------

  /** The inner loop at the end of BF_crypt. */
  method EncryptPair(P: array<Word>, S: array<Word>, b: Block) returns (L: Word, R: Word)
    requires Shapes(P, S)
    ensures Block(L, R) == EncryptN(P[..], S[..], 64, b)
  {
    hide Encrypt;
    L, R := b.l, b.r;
    var count := 64;
    while true
      invariant 1 <= count <= 64
      invariant Block(L, R) == EncryptN(P[..], S[..], 64 - count, b)
      decreases count
    {
      L, R := EncryptBlock(P, S, L, R);
      count := count - 1;
      if count == 0 {
        break;
      }
    }
  }

  lemma FinalPairAt(t: Table, p: Schedule, s: Boxes, i: nat)
    requires t == p + s && i < 3
    ensures FinalPair(t, i) == EncryptN(p, s, 64, MagicPair(i))
  {
    hide EncryptN;
    assert t[..18] == p && t[18..] == s;
  }

  /** The last loop of BF_crypt: each magic pair is encrypted 64 times. */
  method EncryptMagic(P: array<Word>, S: array<Word>) returns (output: array<Word>)
    requires Shapes(P, S)
    ensures fresh(output) && output.Length == 6 && output[..] == FinalWords(TableOf(P, S))
  {
    hide EncryptN, MagicPair, FinalPair;
    ghost var t := TableOf(P, S);
    output := new Word[6];
    var i := 0;
    while i < 6
      invariant 0 <= i <= 6 && i % 2 == 0
      invariant TableOf(P, S) == t
      invariant forall k :: 0 <= k < i ==> output[k] == FinalWords(t)[k]
    {
      var L, R := EncryptPair(P, S, MagicPair(i / 2));
      FinalPairAt(t, P[..], S[..], i / 2);
      output[i] := L;
      output[i + 1] := R;
      i := i + 2;
    }
  }

  /** The middle of BF_crypt, from BF_set_key to the end of the cost loop. */
  method RunSchedule(init: Tables, key: Key, flags: Byte, ghost cost: nat, count: nat, salt: array<Word>)
    returns (P: array<Word>, S: array<Word>)
    requires salt.Length == 4 && count == Pow2(cost)
    ensures fresh(P) && fresh(S) && Shapes(P, S)
    ensures TableOf(P, S) == FinalTable(init, key, flags, cost, salt[..])
  {
    hide Expand, CostSteps;
    P := new Word[18];
    var expanded := new Word[18];
    SetKey(key, expanded, P, flags, init.p);
    S := new Word[1024](i requires 0 <= i < 1024 => init.s[i]);
    assert S[..] == init.s;
    ghost var setup := KeySetup.KeySetup(init.p, key, flags);
    assert setup == Setup(expanded[..], P[..]);
    assert TableOf(P, S) == setup.initial + init.s;
    SaltedPass(P, S, salt);
    CostLoop(P, S, expanded, salt, count);
  }

  /** Reads and byte-swaps the salt. */
  method ReadSalt(setting: seq<Byte>, little: bool) returns (ok: bool, salt: array<Word>)
    ensures fresh(salt) && salt.Length == 4
    ensures ok <==> Decode(Drop(setting, 7), 16).Ok?
    ensures ok ==> salt[..] == SaltWords(SaltOf(setting))
  {
    hide Decode;
    salt := new Word[4];
    var raw := new Byte[16];
    var rc := BfDecode(raw, Drop(setting, 7), 16);
    ok := rc == 0;
    if ok {
      ghost var saltBytes := SaltOf(setting);
      assert raw[..16] == raw[..];
      var words := LoadWords(raw[..], little);
      salt := new Word[4](i requires 0 <= i < 4 => words[i]);
      BfSwap(salt, 4, little);
      LoadSwapped(saltBytes, salt[..], little);
    }
  }

  /** Writes the 60 characters and the NUL. */
  method WriteHash(setting: seq<Byte>, binary: array<Word>, output: array<Byte>, little: bool)
    requires output.Length >= HASH_LENGTH + 1 && binary.Length == 6
    modifies output, binary
    ensures output[..HASH_LENGTH] == Header(setting) + Encode(WordsToBytes(old(binary[..]))[..23])
    ensures output[HASH_LENGTH] == 0
    ensures forall i :: HASH_LENGTH < i < output.Length ==> output[i] == old(output[i])
  {
    hide Header, Encode;
    ghost var before := output[..];
    WriteHeader(setting, output);
    ghost var header := output[..];
    BfSwap(binary, 6, little);
    StoreSwapped(old(binary[..]), binary[..], little);
    var bytes := StoreWords(binary[..], little);
    BfEncode(output, 7 + 22, bytes, 23);
    assert output[..] == header[..29] + Encode(bytes[..23]) + header[60..];
    output[7 + 22 + 31] := 0;
  }

  /** BF_crypt. On failure the output buffer is left alone. */
  method BfCrypt(init: Tables, key: Key, setting: seq<Byte>, output: array<Byte>, size: nat, min: nat, little: bool)
      returns (ok: bool)
    requires size <= output.Length
    modifies output
    ensures ok <==> size >= HASH_LENGTH + 1 && BfCryptSpec(init, key, setting, min).Ok?
    ensures ok ==> BfCryptSpec(init, key, setting, min) == Ok(output[..HASH_LENGTH]) && output[HASH_LENGTH] == 0
    ensures !ok ==> output[..] == old(output[..])
    ensures forall i :: HASH_LENGTH < i < output.Length ==> output[i] == old(output[i])
  {
    hide PrefixOk, Cost, Pow2, OneShifted, Decode, FinalTable, FinalWords, Header, Encode, TableOf;
    if size < 7 + 22 + 31 + 1 {
      return false;
    }
    if !PrefixOk(setting) {
      return false;
    }
    var count := OneShifted(Cost(setting));
    ShiftExact(Cost(setting));
    if count < min {
      return false;
    }
    var readable, salt := ReadSalt(setting, little);
    if !readable {
      return false;
    }
    var P, S := RunSchedule(init, key, FlagsBySubtype(At(setting, 2)), Cost(setting), count, salt);
    var binary := EncryptMagic(P, S);
    WriteHash(setting, binary, output, little);
    ok := true;
  }

  /** The two lines that copy the setting and rewrite its last character. */
  method WriteHeader(setting: seq<Byte>, output: array<Byte>)
    requires output.Length >= HASH_LENGTH + 1
    modifies output
    ensures output[..HEADER] == Header(setting)
    ensures forall i :: HEADER <= i < output.Length ==> output[i] == old(output[i])
  {
    hide ClearLow;
    forall i | 0 <= i < 28 {
      output[i] := At(setting, i);
    }
    output[28] := ClearLow(At(setting, 28));
  }

  /** Blowfish::crypt; the run-time self-test is taken to pass. */
  method CryptString(init: Tables, password: seq<Byte>, algo: seq<Byte>, chars: seq<Byte>, little: bool)
    returns (r: seq<Byte>)
    requires |chars| == 22
    ensures r == CryptText(init, password, algo, chars)
  {
    hide BfCryptSpec;
    var setting := [];
    if algo == [] {
      setting := [0x24, 0x32, 0x79, 0x24, 0x31, 0x30, 0x24];
      var i := 0;
      while i < 22
        invariant 0 <= i <= 22 && setting == FreshSetting(chars[..i])
      {
        assert chars[..i + 1] == chars[..i] + [chars[i]];
        setting := setting + [chars[i]];
        i := i + 1;
      }
      assert chars[..22] == chars;
    } else {
      setting := algo;
    }
    var out := new Byte[61];
    out[0], out[1], out[2] := STAR, ZERO, 0;
    if At(setting, 0) == STAR && At(setting, 1) == ZERO {
      out[1] := ONE;
    }
    ghost var token := out[..];
    var ok := BfCrypt(init, UpToNul(password), setting, out, 61, 16, little);
    r := UpToNul(out[..]);
    if ok {
      assert out[..] == out[..60] + [0];
      UpToNulStops(out[..60]);
    } else {
      assert token[..3] == FailureToken(setting) + [0];
      TokenPrefix(token, FailureToken(setting));
    }
  }

  lemma {:induction false} UpToNulStops(s: seq<Byte>)
    ensures UpToNul(s + [0]) == UpToNul(s)
  {
    if s != [] && s[0] != 0 {
      assert (s + [0])[1..] == s[1..] + [0];
      UpToNulStops(s[1..]);
    }
  }

  lemma TokenPrefix(s: seq<Byte>, token: seq<Byte>)
    requires |s| >= 3 && |token| == 2 && s[..3] == token + [0] && token[0] != 0 && token[1] != 0
    ensures UpToNul(s) == token
  {
    assert s[0] == s[..3][0] && s[1] == s[..3][1] && s[2] == s[..3][2];
    assert s[1..][1..] == s[2..];
    assert UpToNul(s[2..]) == [];
    assert UpToNul(s[1..]) == [s[1]];
  }
}
