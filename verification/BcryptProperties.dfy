/** What crypt promises its callers: verification of registered passwords,
    rejection tokens, and agreement with the published algorithm. */
module BcryptProperties {
  import opened Words
  import opened Feistel
  import opened KeySchedule
  import opened KeySetup
  import opened Base64
  import opened Bcrypt

  /** A setting that crypt accepts, whose header is fully present, and whose last salt character can be looked
      up. BF_decode does not look at that one when a `$` ends the salt before it. */
  ghost predicate Usable(s: seq<Byte>) {
    && Accepted(s, 16) && |s| >= HEADER
    && (forall i :: 0 <= i < HEADER ==> s[i] != 0)
    && InTable(s[28])
  }

  /** An index into BF_atoi64. */
  predicate InTable(c: Byte) {
    0x20 <= c < 0x80
  }

  /** The salt text ends in a `$` that cut off non-zero bits; see Base64.LastDollar. */
  ghost predicate CutSalt(s: seq<Byte>)
    requires |s| >= HEADER
  {
    LastDollar(s[7..], 16)
  }

  /** EksBlowfishSetup as published: mix in the key under the salt, then 2^cost cost steps. */
  ghost function EksBlowfishSetup(init: Tables, key: Schedule, salt: Salt, cost: nat): Table {
    CostSteps(ExpandKey(init.p + init.s, salt, key), key, salt, Pow2(cost))
  }

  /** Unless the collision measure fires, the program computes the published setup
      with the password packed cyclically into 18 words. */
  lemma PublishedSetup(init: Tables, key: Key, flags: Byte, cost: nat, salt: Salt)
    requires !(SafetyFlag(flags) && MustDeviate(key))
    ensures FinalTable(init, key, flags, cost, salt)
         == EksBlowfishSetup(init, Packed(key, BugFlag(flags)), salt, cost)
  {
    hide Expand, CostSteps, Packed, BugFlag, SafetyFlag, MustDeviate;
    var t := init.p + init.s;
    assert t[..18] == init.p && t[18..] == init.s;
  }

  // ---------- Hash strings ----------

  lemma {:induction false} EncodeInAlphabet(b: seq<Byte>)
    ensures Alphabet(Encode(b))
  {
    hide Itoa64, InAlphabet, Enc1, Enc2, Enc3, Enc4;
    if b != [] {
      var b1, b2 := if |b| > 1 then b[1] else 0, if |b| > 2 then b[2] else 0;
      Regroup(b[0], b1, b2);
      AlphabetInverse(Enc1(b[0]), 0);
      AlphabetInverse(Enc2(b[0], b1), 0);
      AlphabetInverse(Enc3(b1, b2), 0);
      AlphabetInverse(Enc4(b2), 0);
      if |b| >= 3 {
        EncodeInAlphabet(b[3..]);
        var front := [Itoa64(Enc1(b[0])), Itoa64(Enc2(b[0], b1)), Itoa64(Enc3(b1, b2)), Itoa64(Enc4(b2))];
        assert Alphabet(front);
        AlphabetConcat(front, Encode(b[3..]));
      }
    }
  }

  lemma AlphabetNonZero(c: Byte)
    ensures InAlphabet(c) ==> c != 0 && InTable(c)
    ensures InAlphabet(ClearLow(c))
    ensures Atoi64(ClearLow(c)) & 0x30 == Atoi64(c) & 0x30
  {
  }

  lemma {:induction false} NoNul(s: seq<Byte>)
    requires forall i :: 0 <= i < |s| ==> s[i] != 0
    ensures UpToNul(s) == s
  {
    if s != [] {
      NoNul(s[1..]);
    }
  }

  ghost function HashString(init: Tables, key: Key, s: seq<Byte>): (h: seq<Byte>)
    requires Accepted(s, 0)
  {
    Header(s) + Encode(DigestFor(init, key, s))
  }

  /** Crypt of a usable setting is exactly the 60-character hash string. */
  lemma CryptIsHash(init: Tables, password: seq<Byte>, s: seq<Byte>)
    requires Usable(s)
    ensures var h := HashString(init, UpToNul(password), s);
            && |h| == HASH_LENGTH && Crypt(init, password, s) == h && InTable(h[28])
            && forall i :: 0 <= i < |h| ==> h[i] != 0
  {
    hide DigestFor, ClearLow, InAlphabet, Decode, PrefixOk, InTable;
    var d := DigestFor(init, UpToNul(password), s);
    var h := HashString(init, UpToNul(password), s);
    EncodeSize(d);
    EncodeInAlphabet(d);
    AlphabetNonZero(s[28]);
    AlphabetNonZero(ClearLow(s[28]));
    forall i | 0 <= i < |h|
      ensures h[i] != 0
    {
      if i > 28 {
        assert h[i] == Encode(d)[i - 29];
        AlphabetNonZero(h[i]);
      }
    }
    NoNul(h);
  }

  /** A hash string is itself a usable setting with the same prefix and cost. It carries
      the same salt iff the original salt text was not cut. */
  lemma HashIsSetting(init: Tables, key: Key, s: seq<Byte>)
    requires Usable(s)
    ensures var h := HashString(init, key, s);
            && |h| == HASH_LENGTH && PrefixOk(h) && Cost(h) == Cost(s) && At(h, 2) == At(s, 2) && Header(h) == Header(s)
            && (Decode(Drop(h, 7), 16) == Decode(Drop(s, 7), 16) <==> !CutSalt(s))
  {
    hide DigestFor, Encode, ClearLow, Header, PrefixOk, Cost, Decode, CutSalt;
    var d := DigestFor(init, key, s);
    var h := Header(s) + Encode(d);
    EncodeSize(d);
    HeaderStable(s, h, Encode(d));
    SamePrefix(s, h);
    RewrittenSalt(s, h, Encode(d));
  }

  lemma RewrittenSalt(s: seq<Byte>, h: seq<Byte>, tail: seq<Byte>)
    requires Usable(s) && h == Header(s) + tail
    ensures Decode(Drop(h, 7), 16) == Decode(Drop(s, 7), 16) <==> !CutSalt(s)
  {
    hide Decode, PrefixOk, Cost, LastDollar, ClearLow;
    HeaderSplit(s);
    assert h[7..] == Rewrite(s[7..], 16, tail);
    RewriteKeeps(s[7..], 16, tail);
  }

  /** The salt characters of the hash are the encoding of the salt that was used exactly when the salt text
      stays within the alphabet, but for a last `$` that cut off nothing. */
  lemma CanonicalSalt(s: seq<Byte>)
    requires Usable(s)
    ensures Header(s)[7..] == Encode(SaltOf(s)) <==> Alphabet(s[7..28]) && !CutSalt(s)
  {
    hide PrefixOk, Cost, Decode, Encode, CutSalt, ClearLow;
    var t := Header(s)[7..];
    HeaderSplit(s);
    assert t[..21] == s[7..28] && t[21] == ClearLow(s[28]);
    assert t == s[7..28] + [ClearLow(s[28])];
    RewrittenSalt(s, Header(s), []);
    assert Header(s) + [] == Header(s);
    AlphabetNonZero(s[28]);
    AlphabetConcat(s[7..28], [ClearLow(s[28])]);
    if t == Encode(SaltOf(s)) {
      EncodeInAlphabet(SaltOf(s));
      DecodeEncode(SaltOf(s), []);
      assert t + [] == t;
    }
    if Alphabet(s[7..28]) && !CutSalt(s) {
      EncodeDecode(t, 16);
      CanonicalIs(t);
      ClearedTwice(s[28]);
    }
  }

  lemma ClearedTwice(c: Byte)
    ensures ClearLow(ClearLow(c)) == ClearLow(c)
  {
  }

  lemma CanonicalIs(t: seq<Byte>)
    requires |t| == 22
    ensures Canonical(t, 16) == t[..21] + [ClearLow(t[21])]
  {
    hide Itoa64, Atoi64;
  }

  /** Within the alphabet, the hash carries the canonical encoding of its salt. */
  lemma CanonicalInAlphabet(s: seq<Byte>)
    requires Usable(s) && Alphabet(s[7..HEADER])
    ensures Header(s)[7..HEADER] == Encode(SaltOf(s)) == Canonical(s[7..HEADER], 16)
  {
    hide PrefixOk, Cost, Decode, Encode, ClearLow;
    AlphabetSaltUncut(s);
    HeaderSplit(s);
    assert s[7..HEADER] == s[7..28] + [s[28]];
    AlphabetConcat(s[7..28], [s[28]]);
    CanonicalSalt(s);
    CanonicalIs(s[7..HEADER]);
    assert Header(s)[7..HEADER] == Header(s)[7..];
  }

  lemma SamePrefix(s: seq<Byte>, h: seq<Byte>)
    requires forall i :: 0 <= i < 28 ==> At(h, i) == At(s, i)
    ensures PrefixOk(s) <==> PrefixOk(h)
    ensures PrefixOk(s) ==> Cost(h) == Cost(s)
  {
    hide FlagsBySubtype, At;
  }

  lemma HeaderSplit(s: seq<Byte>)
    requires |s| >= HEADER
    ensures Header(s) == s[..28] + [ClearLow(s[28])]
  {
    hide ClearLow;
  }

  lemma HeaderStable(s: seq<Byte>, h: seq<Byte>, tail: seq<Byte>)
    requires |s| >= HEADER && h == Header(s) + tail
    ensures Header(h) == Header(s) && forall i :: 0 <= i < 28 ==> At(h, i) == At(s, i)
  {
    AlphabetNonZero(s[28]);
    hide ClearLow;
    assert Header(h)[..28] == Header(s)[..28];
    assert h[28] == ClearLow(s[28]);
    assert Header(h)[28] == ClearLow(s[28]);
  }

  lemma EncodeInjective(a: seq<Byte>, b: seq<Byte>)
    requires |a| == |b|
    ensures Encode(a) == Encode(b) <==> a == b
  {
    DecodeEncode(a, []);
    DecodeEncode(b, []);
  }

  // ---------- Verification ----------

  /** A hash of a usable setting is usable again, and stands for the same digests. */
  lemma HashUsable(init: Tables, registered: seq<Byte>, k': Key, s: seq<Byte>)
    requires Usable(s) && !CutSalt(s)
    ensures var h := HashString(init, UpToNul(registered), s);
            Usable(h) && DigestFor(init, k', h) == DigestFor(init, k', s) && Header(h) == Header(s)
  {
    CryptIsHash(init, registered, s);
    HashIsSetting(init, UpToNul(registered), s);
    hide InTable, HashString, PrefixOk, Cost, Decode, Pow2, CutSalt, Header, Encode, Crypt, Digest;
  }

  /** A stored hash accepts exactly the passwords whose digest under its setting is the
      registered one. */
  lemma VerificationExact(init: Tables, registered: seq<Byte>, attempt: seq<Byte>, s: seq<Byte>, chars: seq<Byte>)
    requires Usable(s) && !CutSalt(s)
    ensures LoginAccepts(init, attempt, Crypt(init, registered, s), chars)
       <==> DigestFor(init, UpToNul(attempt), s) == DigestFor(init, UpToNul(registered), s)
  {
    var k, k' := UpToNul(registered), UpToNul(attempt);
    var h := HashString(init, k, s);
    CryptIsHash(init, registered, s);
    HashUsable(init, registered, k', s);
    CryptIsHash(init, attempt, h);
    hide DigestFor, Encode, Header, CutSalt, Usable, Accepted, InTable, Crypt;
    SameEnd(Header(s), DigestFor(init, k, s), DigestFor(init, k', s));
  }

  lemma SameEnd(front: seq<Byte>, d: seq<Byte>, d': seq<Byte>)
    requires |d| == |d'|
    ensures front + Encode(d) == front + Encode(d') <==> d == d'
  {
    hide Encode;
    EncodeInjective(d, d');
    assert (front + Encode(d))[|front|..] == Encode(d);
    assert (front + Encode(d'))[|front|..] == Encode(d');
  }

  /** Verification accepts what registration produced: crypt(p, crypt(p, s)) = crypt(p, s),
      and the same holds for every password with the same first 72 bytes. */
  lemma RegisteredAccepted(init: Tables, registered: seq<Byte>, attempt: seq<Byte>, s: seq<Byte>, chars: seq<Byte>)
    requires Usable(s) && !CutSalt(s)
    requires First72(UpToNul(registered)) == First72(UpToNul(attempt))
    ensures LoginAccepts(init, attempt, Crypt(init, registered, s), chars)
  {
    hide LoginAccepts, Crypt;
    VerificationExact(init, registered, attempt, s, chars);
    SetupDependsOn72(init.p, UpToNul(registered), UpToNul(attempt), FlagsBySubtype(At(s, 2)));
    hide KeySetup.KeySetup, FinalWords, First72, UpToNul, Accepted;
  }

  /** A salt text within the alphabet is never cut. */
  lemma AlphabetSaltUncut(s: seq<Byte>)
    requires |s| >= HEADER && Alphabet(s[7..HEADER])
    ensures !CutSalt(s)
  {
    AlphabetInverse(0, s[28]);
    hide InAlphabet;
    assert InAlphabet(s[7..HEADER][21]);
  }

  /** The restriction is needed: this setting is accepted, yet its hash carries another salt. */
  lemma CutSaltLosesBits(init: Tables, key: Key) returns (s: seq<Byte>)
    ensures Usable(s) && CutSalt(s)
    ensures Decode(Drop(HashString(init, key, s), 7), 16) != Decode(Drop(s, 7), 16)
  {
    var a: Byte := 0x61;
    var chars := seq(21, _ => a) + [DOLLAR];
    s := FreshSetting(chars);
    FreshAccepted(chars);
    assert chars[..21] == seq(21, _ => a);
    AlphabetDecodes(chars, 16);
    assert s[7..] == chars;
    hide Decode;
    HashIsSetting(init, key, s);
  }

  lemma FreshAccepted(chars: seq<Byte>)
    ensures var s := FreshSetting(chars); PrefixOk(s) && Pow2(Cost(s)) >= 16 && Drop(s, 7) == chars
  {
    var s := FreshSetting(chars);
    assert PrefixOk(s) && Cost(s) == 10;
    assert Pow2(10) == 4 * Pow2(8) && Pow2(8) == 4 * Pow2(6) && Pow2(6) == 4 * Pow2(4);
  }

  /** Alphabet characters up to a final `$` always decode. */
  lemma {:induction false} AlphabetDecodes(t: seq<Byte>, n: nat)
    requires n % 3 == 1 && |t| == EncodedLength(n)
    requires Alphabet(t[..|t| - 1]) && t[|t| - 1] == DOLLAR
    ensures Decode(t, n).Ok?
  {
    hide Atoi64, InAlphabet, Dec1, Dec2, Dec3, Decode;
    if n > 1 {
      assert EncodedLength(n) == 4 + EncodedLength(n - 3);
      hide EncodedLength;
      FirstFour(t);
      AlphabetDecodes(t[4..], n - 3);
      DecodeFour(t, n);
    } else {
      assert t[0] == t[..1][0];
      DollarDecodes(t);
    }
  }

  lemma DollarDecodes(t: seq<Byte>)
    requires |t| == 2 && InAlphabet(t[0]) && t[1] == DOLLAR
    ensures Decode(t, 1).Ok?
  {
    AlphabetInverse(0, t[0]);
    hide Atoi64, InAlphabet, Dec1, Dec2, Dec3;
  }

  lemma FirstFour(t: seq<Byte>)
    requires |t| > 4 && Alphabet(t[..|t| - 1])
    ensures Alphabet(t[..4]) && Alphabet(t[4..][..|t| - 5]) && t[4..][|t| - 5] == t[|t| - 1]
  {
    hide InAlphabet;
    assert t[..|t| - 1] == t[..4] + t[4..][..|t| - 5];
    AlphabetConcat(t[..4], t[4..][..|t| - 5]);
  }

  // ---------- Both sides of login ----------

  lemma {:induction false} AlphabetTextDecodes(t: seq<Byte>, n: nat)
    requires |t| >= EncodedLength(n) && Alphabet(t[..EncodedLength(n)])
    ensures Decode(t, n).Ok?
  {
    var m := EncodedLength(n);
    assert forall i :: 0 <= i < m ==> t[i] == t[..m][i];
    hide Atoi64, InAlphabet, Dec1, Dec2, Dec3;
    if n >= 3 {
      assert t[..4] == t[..m][..4];
      assert t[4..][..m - 4] == t[..m][4..];
      AlphabetTextDecodes(t[4..], n - 3);
      DecodeFour(t, n);
    }
  }

  lemma FreshUsable(chars: seq<Byte>)
    requires |chars| == 22 && Alphabet(chars)
    ensures Usable(FreshSetting(chars)) && !CutSalt(FreshSetting(chars))
  {
    var s := FreshSetting(chars);
    assert s[7..] == chars && s[7..HEADER] == chars && chars[..22] == chars;
    FreshAccepted(chars);
    hide PrefixOk, Cost, Pow2, InAlphabet, InTable, Decode, CutSalt;
    AlphabetTextDecodes(chars, 16);
    forall i | 0 <= i < HEADER
      ensures s[i] != 0
    {
      if i >= 7 {
        assert s[i] == chars[i - 7];
        AlphabetNonZero(s[i]);
      }
    }
    assert s[28] == chars[21];
    AlphabetNonZero(s[28]);
    AlphabetSaltUncut(s);
  }

  /** Registering a password, for which crypt draws a salt, and then logging in with it succeeds. */
  lemma RegisterThenLogin(init: Tables, password: seq<Byte>, chars: seq<Byte>, later: seq<Byte>)
    requires |chars| == 22 && Alphabet(chars)
    ensures LoginAccepts(init, password, CryptText(init, password, [], chars), later)
  {
    var s := FreshSetting(chars);
    FreshUsable(chars);
    hide LoginAccepts, Crypt;
    RegisteredAccepted(init, password, password, s, later);
  }

  /** A stored text that crypt rejects as a setting, or that is missing, never lets anyone in. */
  lemma RejectedNeverAccepted(init: Tables, attempt: seq<Byte>, stored: seq<Byte>, chars: seq<Byte>)
    requires !Accepted(stored, 16)
    ensures stored != [] ==>
              CryptText(init, attempt, stored, chars) == FailureToken(stored) && FailureToken(stored) != stored
    ensures !LoginAccepts(init, attempt, stored, chars)
  {
    hide Accepted;
    CryptNotEmpty(init, attempt, FreshSetting(chars));
  }

  lemma CryptNotEmpty(init: Tables, password: seq<Byte>, s: seq<Byte>)
    ensures Crypt(init, password, s) != []
  {
    hide DigestFor, Encode, ClearLow, Decode, Cost, Pow2;
    if Accepted(s, 16) {
      assert Header(s)[0] == DOLLAR;
    }
    hide Accepted;
  }
}
