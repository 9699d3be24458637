/** What the characters of a setting mean, in numbers, and what crypt therefore computes. */
module Settings {
  import opened Words
  import opened Feistel
  import opened KeySchedule
  import opened KeySetup
  import opened Base64
  import opened Bcrypt
  import opened BcryptProperties
  import opened Published

  // ---------- The base64 alphabet ----------

  /** The alphabet is `.` `/` `A` to `Z` `a` to `z` `0` to `9`, in this order. */
  lemma AlphabetOrder(v: Byte)
    ensures Itoa64(0) == 46 && Itoa64(1) == 47 && Itoa64(2) == 65 && Itoa64(27) == 90
    ensures Itoa64(28) == 97 && Itoa64(53) == 122 && Itoa64(54) == 48 && Itoa64(63) == 57
    ensures v < 63 && v != 1 && v != 27 && v != 53 ==> Itoa64(v + 1) == Itoa64(v) + 1
  {
  }

  lemma AlphabetIs(c: Byte)
    ensures InAlphabet(c) <==> 46 <= c <= 57 || 65 <= c <= 90 || 97 <= c <= 122
  {
  }

  /** Three bytes and their four characters are the same 24 bits, the first highest. */
  lemma SameBits(a: Byte, b: Byte, c: Byte)
    ensures ((a as Word) << 16) | ((b as Word) << 8) | (c as Word)
         == ((Enc1(a) as Word) << 18) | ((Enc2(a, b) as Word) << 12) | ((Enc3(b, c) as Word) << 6) | (Enc4(c) as Word)
  {
  }

  /** A character that can be read: one of the alphabet, or any from a `$` on. */
  ghost predicate Readable(t: seq<Byte>, i: nat) {
    InAlphabet(At(t, i)) || exists j :: 0 <= j <= i && At(t, j) == 36
  }

  ghost predicate TextReadable(t: seq<Byte>, n: nat) {
    forall i: nat :: i < EncodedLength(n) ==> Readable(t, i)
  }

  /** A text decodes exactly when all its characters up to the length needed can be read. */
  lemma {:induction false} DecodeReadable(t: seq<Byte>, n: nat)
    ensures Decode(t, n).Ok? <==> TextReadable(t, n)
    decreases n
  {
    hide InAlphabet, Dec1, Dec2, Dec3, Atoi64;
    if n > 0 {
      var status := Base64.Group(t, n).1;
      GroupReadable(t, n);
      if status.More? {
        DecodeReadable(Drop(t, 4), n - 3);
        RestReadable(t, n);
      }
    }
  }

  /** Nothing can be read from a byte outside the alphabet that no `$` precedes, anything can after one. */
  lemma FirstBad(t: seq<Byte>, i: nat)
    requires forall j: nat :: j < i ==> InAlphabet(At(t, j))
    ensures !InAlphabet(At(t, i)) ==> (Readable(t, i) <==> At(t, i) == 36)
    ensures At(t, i) == 36 ==> forall k: nat :: Readable(t, k)
  {
    AlphabetIs(36);
    hide InAlphabet;
    if !InAlphabet(At(t, i)) && At(t, i) != 36 {
      forall j | 0 <= j <= i
        ensures At(t, j) != 36
      {
      }
    }
  }

  lemma GroupReadable(t: seq<Byte>, n: nat)
    requires n > 0
    ensures match Base64.Group(t, n).1
            case Fail => !TextReadable(t, n)
            case Stop => TextReadable(t, n)
            case More => n >= 3 && forall i: nat :: i < 4 ==> InAlphabet(At(t, i)) && At(t, i) != 36
  {
    hide Dec1, Dec2, Dec3, InAlphabet, Atoi64, Readable, At;
    assert EncodedLength(n) >= if n == 1 then 2 else if n == 2 then 3 else 4;
    assert n == 1 ==> EncodedLength(n) == 2;
    assert n == 2 ==> EncodedLength(n) == 3;
    AlphabetReadable(t, 0);
    AlphabetReadable(t, 1);
    AlphabetReadable(t, 2);
    AlphabetReadable(t, 3);
    FirstBad(t, 0);
    if InAlphabet(At(t, 0)) {
      FirstBad(t, 1);
      if InAlphabet(At(t, 1)) {
        FirstBad(t, 2);
        if InAlphabet(At(t, 2)) {
          FirstBad(t, 3);
        }
      }
    }
    hide EncodedLength;
  }

  lemma AlphabetReadable(t: seq<Byte>, i: nat)
    ensures InAlphabet(At(t, i)) ==> Readable(t, i)
    ensures InAlphabet(At(t, i)) ==> At(t, i) != 36
  {
    AlphabetIs(36);
  }

  lemma RestReadable(t: seq<Byte>, n: nat)
    requires n >= 3 && forall i: nat :: i < 4 ==> InAlphabet(At(t, i)) && At(t, i) != 36
    ensures TextReadable(t, n) <==> TextReadable(Drop(t, 4), n - 3)
  {
    hide InAlphabet;
    var m := EncodedLength(n - 3);
    assert EncodedLength(n) == m + 4;
    forall i: nat
      ensures Readable(t, i + 4) <==> Readable(Drop(t, 4), i)
    {
      ReadableShifts(t, i);
    }
    assert forall i: nat :: i < 4 ==> Readable(t, i);
    hide EncodedLength, Readable;
    if TextReadable(Drop(t, 4), n - 3) {
      forall i: nat | i < m + 4
        ensures Readable(t, i)
      {
        if i >= 4 {
          assert Readable(Drop(t, 4), i - 4);
        }
      }
    }
  }

  lemma ReadableShifts(t: seq<Byte>, i: nat)
    requires forall j: nat :: j < 4 ==> At(t, j) != 36
    ensures Readable(t, i + 4) <==> Readable(Drop(t, 4), i)
  {
    hide InAlphabet;
    var u := Drop(t, 4);
    assert forall j: nat :: At(u, j) == At(t, j + 4);
    if j: nat :| j <= i && At(u, j) == 36 {
      assert At(t, j + 4) == 36;
    }
    if j: nat :| j <= i + 4 && At(t, j) == 36 {
      assert At(u, j - 4) == 36;
    }
  }

  // ---------- Settings ----------

  lemma {:induction false} SixteenIterations(n: nat)
    requires n <= 31
    ensures Pow2(n) >= 16 <==> n >= 4
  {
    assert Pow2(4) == 16 && Pow2(3) == 8;
    if n > 4 {
      Pow2Grows(4, n);
    } else if n < 3 {
      Pow2Grows(n, 3);
    }
  }

  /** The two cost digits as a number. */
  function Digits(s: seq<Byte>): nat {
    if At(s, 4) >= 48 && At(s, 5) >= 48 then 10 * (At(s, 4) as int - 48) + (At(s, 5) as int - 48) else 0
  }

  /** crypt accepts `$2a$`, `$2b$`, `$2x$` and `$2y$` with a cost of 04 to 31, a `$` and a salt that can be read. */
  lemma AcceptedMeans(s: seq<Byte>)
    ensures Accepted(s, 16) <==>
            && |s| >= 7 && s[0] == 36 && s[1] == 50 && s[2] in {97, 98, 120, 121} && s[3] == 36
            && 48 <= s[4] <= 57 && 48 <= s[5] <= 57 && 4 <= Digits(s) <= 31 && s[6] == 36
            && TextReadable(s[7..], 16)
    ensures Accepted(s, 16) ==> Cost(s) == Digits(s)
  {
    if PrefixOk(s) {
      SixteenIterations(Cost(s));
      DecodeReadable(s[7..], 16);
    }
    hide Decode, TextReadable, Pow2;
  }

  /** The flags that the letter of a setting stands for. */
  lemma LettersMean()
    ensures SafetyFlag(FlagsBySubtype(97)) && !BugFlag(FlagsBySubtype(97))
    ensures !SafetyFlag(FlagsBySubtype(98)) && !BugFlag(FlagsBySubtype(98))
    ensures !SafetyFlag(FlagsBySubtype(120)) && BugFlag(FlagsBySubtype(120))
    ensures !SafetyFlag(FlagsBySubtype(121)) && !BugFlag(FlagsBySubtype(121))
  {
  }

  /** The key setup that crypt runs for a setting. */
  ghost function SetupFor(init: Tables, key: Key, s: seq<Byte>): KeySetup.Setup {
    KeySetup.KeySetup(init.p, key, FlagsBySubtype(At(s, 2)))
  }

  /** The state after the whole schedule for a setting. */
  ghost function TableFor(init: Tables, key: Key, s: seq<Byte>): Table
    requires Accepted(s, 16)
  {
    FinalTable(init, key, FlagsBySubtype(At(s, 2)), Cost(s), SaltWords(SaltOf(s)))
  }

  ghost function PlainSetup(init: Tables, e: Schedule): KeySetup.Setup {
    KeySetup.Setup(e, XorSeq(init.p, e))
  }

  /** By letter: `b` and `y` pack the key correctly, `x` with the bug, and `a` correctly but with bit 16 of the first
      word flipped when the measure fires, so that its setup is that of `y` exactly when it does not. */
  lemma SetupByLetter(init: Tables, key: Key, s: seq<Byte>)
    requires Accepted(s, 16)
    ensures var good, bad := PlainSetup(init, Packed(key, false)), PlainSetup(init, Packed(key, true));
            && (At(s, 2) == 98 || At(s, 2) == 121 ==> SetupFor(init, key, s) == good)
            && (At(s, 2) == 120 ==> SetupFor(init, key, s) == bad)
            && (At(s, 2) == 97 && MustDeviate(key) ==>
                  SetupFor(init, key, s) == good.(initial := good.initial[0 := Xor(good.initial[0], 0x10000)]))
            && (At(s, 2) == 97 ==> (SetupFor(init, key, s) == good <==> !MustDeviate(key)))
  {
    AcceptedMeans(s);
    LettersMean();
    DeviationVisible(init.p, Packed(key, false));
    hide Accepted, FlagsBySubtype, BugFlag, SafetyFlag, Packed, MustDeviate, XorSeq, TextReadable;
  }

  /** By letter: the state is that of the published setup for the packed key. */
  lemma TableByLetter(init: Tables, key: Key, s: seq<Byte>)
    requires Accepted(s, 16)
    ensures var salt := SaltWords(SaltOf(s));
            && (At(s, 2) == 98 || At(s, 2) == 121 || (At(s, 2) == 97 && !MustDeviate(key)) ==>
                  TableFor(init, key, s) == EksSetup(init.p, init.s, KeyWords(key), salt, Digits(s)))
            && (At(s, 2) == 120 ==>
                  TableFor(init, key, s) == EksSetup(init.p, init.s, Packed(key, true), salt, Digits(s)))
  {
    AcceptedMeans(s);
    LettersMean();
    KeyWordsAre(key);
    var salt, flags := SaltWords(SaltOf(s)), FlagsBySubtype(At(s, 2));
    hide Accepted, FlagsBySubtype, BugFlag, SafetyFlag, Packed, MustDeviate, FinalTable, EksBlowfishSetup, EksSetup,
      SaltWords, SaltOf, TextReadable, KeyWords, PrefixOk, Cost;
    if !(SafetyFlag(flags) && MustDeviate(key)) {
      PublishedSetup(init, key, flags, Cost(s), salt);
      SetupIsEks(init.p, init.s, Packed(key, BugFlag(flags)), salt, Cost(s));
    }
  }

  /** The measure works for settings: `$2a$` with k and `$2x$` with k' run the same key setup exactly when the keys
      agree on 72 bytes and hold no non-benign byte. */
  lemma SettingsDoNotCross(init: Tables, k: Key, k': Key, s: seq<Byte>, s': seq<Byte>)
    requires Accepted(s, 16) && Accepted(s', 16) && At(s, 2) == 97 && At(s', 2) == 120
    ensures SetupFor(init, k, s) == SetupFor(init, k', s') <==> First72(k) == First72(k') && !SomeNonBenign(k)
  {
    SameFlags();
    NoCrossCollision(init.p, k, k');
    hide Accepted, KeySetup.KeySetup, SomeNonBenign, First72, FlagsBySubtype;
  }

  lemma SameFlags()
    ensures FlagsBySubtype(97) == FLAGS_A && FlagsBySubtype(120) == FLAGS_X
  {
  }

  /** Under one setting other than `$2x$`, two passwords run the same key setup exactly when they agree on 72 bytes. */
  lemma SettingsSeparate(init: Tables, k: Key, k': Key, s: seq<Byte>)
    requires Accepted(s, 16) && At(s, 2) != 120
    ensures SetupFor(init, k, s) == SetupFor(init, k', s) <==> First72(k) == First72(k')
  {
    AcceptedMeans(s);
    LettersMean();
    SetupExact(init.p, k, k', FlagsBySubtype(At(s, 2)));
    hide Accepted, KeySetup.KeySetup, First72, FlagsBySubtype, TextReadable, BugFlag, SafetyFlag;
  }

  /** The hash string: 28 characters of the setting, the last salt character in canonical form, and the encoded first 23
      bytes of the published algorithm. */
  lemma HashByLetter(init: Tables, password: seq<Byte>, s: seq<Byte>)
    requires Usable(s) && (s[2] == 98 || s[2] == 121 || (s[2] == 97 && !MustDeviate(UpToNul(password))))
    ensures Crypt(init, password, s)
         == s[..28] + [ClearLow(s[28])]
            + Encode(Bcrypt23(init.p, init.s, KeyWords(UpToNul(password)), SaltOf(s), Digits(s)))
  {
    var key, flags := UpToNul(password), FlagsBySubtype(s[2]);
    AcceptedMeans(s);
    LettersMean();
    KeyWordsAre(key);
    CryptIsHash(init, password, s);
    HeaderSplit(s);
    DigestIsPublished(init, key, flags, Cost(s), SaltOf(s));
    hide Accepted, FlagsBySubtype, BugFlag, SafetyFlag, Packed, MustDeviate, Digest, Bcrypt23, SaltOf, TextReadable,
      KeyWords, PrefixOk, Cost, Encode, Header, ClearLow, InTable;
  }

  /** A new password: crypt is given no setting and draws 22 characters. */
  lemma FreshHash(init: Tables, password: seq<Byte>, chars: seq<Byte>)
    requires |chars| == 22 && Alphabet(chars)
    ensures Decode(chars, 16).Ok?
    ensures CryptText(init, password, [], chars)
         == [36, 50, 121, 36, 49, 48, 36] + chars[..21] + [ClearLow(chars[21])]
            + Encode(Bcrypt23(init.p, init.s, KeyWords(UpToNul(password)), Decode(chars, 16).value, 10))
  {
    var s := FreshSetting(chars);
    FreshUsable(chars);
    FreshParts(chars);
    HashByLetter(init, password, s);
    hide Crypt, Usable, Decode, Bcrypt23, Encode, ClearLow, KeyWords, UpToNul, Digits, FreshSetting;
  }

  lemma FreshParts(chars: seq<Byte>)
    requires |chars| == 22 && Alphabet(chars)
    ensures var s := FreshSetting(chars);
            && |s| == 29 && s[2] == 121 && Digits(s) == 10 && s[28] == chars[21]
            && s[..28] == [36, 50, 121, 36, 49, 48, 36] + chars[..21]
            && Decode(Drop(s, 7), 16) == Decode(chars, 16) && Decode(chars, 16).Ok?
  {
    hide Decode, InAlphabet;
    var s := FreshSetting(chars);
    assert Drop(s, 7) == chars && chars[..22] == chars;
    AlphabetTextDecodes(chars, 16);
  }
}
