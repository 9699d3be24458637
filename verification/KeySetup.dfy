/** BF_set_key: cyclic key packing, the sign-extension bug of "$2x$" and the
    branch-free collision measure of "$2a$". */
module KeySetup {
  import opened Words
  import opened Feistel

  const KEY_BYTES := 72

  /** A password as BF_set_key sees it: the bytes before the terminating NUL. */
  type Key = k: seq<Byte> | forall i :: 0 <= i < |k| ==> k[i] != 0

  datatype Setup = Setup(expanded: Schedule, initial: Schedule)

  // flags_by_subtype: bit 0 emulates the bug, bit 1 asks for the safety measure
  const FLAGS_A: Byte := 2
  const FLAGS_X: Byte := 1
  const FLAGS_Y: Byte := 4

  // ---------- Specification ----------

  /** Byte `m` of the endless key stream: the password and its NUL, over and over. */
  function StreamByte(key: Key, m: nat): Byte {
    var pos := m % (|key| + 1);
    if pos < |key| then key[pos] else 0
  }

  /** The four stream bytes of word `i`. */
  function Group(key: Key, i: nat): (g: seq<Byte>)
    ensures |g| == 4
  {
    [StreamByte(key, 4 * i), StreamByte(key, 4 * i + 1), StreamByte(key, 4 * i + 2), StreamByte(key, 4 * i + 3)]
  }

  function First72(key: Key): seq<Byte> {
    if |key| < KEY_BYTES then key else key[..KEY_BYTES]
  }

  /** A key byte as an operand of the packing: the bug extends its sign. */
  function Widen(b: Byte, bug: bool): Word {
    if bug && b >= 0x80 then 0xFFFF_FF00 | (b as Word) else b as Word
  }

  function Shift8Or(acc: Word, e: Word): Word {
    (acc << 8) | e
  }

  /** Packs bytes big-endian into one word, keeping the last four. */
  function Join(g: seq<Byte>, bug: bool): Word {
    if g == [] then 0 else Shift8Or(Join(g[..|g| - 1], bug), Widen(g[|g| - 1], bug))
  }

  predicate Top(b: Byte) { b >= 0x80 }

  /** The group holds a byte whose sign extension overwrites something. */
  predicate NonBenign(g: seq<Byte>)
    requires |g| == 4
  {
    Top(g[1]) || Top(g[2]) || Top(g[3])
  }

  function Packed(key: Key, bug: bool): Schedule {
    seq(18, i requires 0 <= i < 18 => Join(Group(key, i), bug))
  }

  ghost predicate SomeNonBenign(key: Key) {
    exists i :: 0 <= i < 18 && NonBenign(Group(key, i))
  }

  /** Whether "$2a$" has to leave the correct algorithm for this key. */
  ghost predicate MustDeviate(key: Key) {
    Packed(key, false) == Packed(key, true) && SomeNonBenign(key)
  }

  predicate BugFlag(flags: Byte) { flags & 1 != 0 }

  predicate SafetyFlag(flags: Byte) { flags & 2 != 0 }

  ghost function KeySetup(init: Schedule, key: Key, flags: Byte): Setup {
    var e := Packed(key, BugFlag(flags));
    var i := XorSeq(init, e);
    Setup(e, if SafetyFlag(flags) && MustDeviate(key) then i[0 := Xor(i[0], 0x10000)] else i)
  }

  // ---------- The loops ----------

  lemma ModSmall(m: nat, n: nat)
    requires m < n
    ensures m % n == m
  {
  }

  lemma {:induction false} MulMono(a: nat, b: nat, n: nat)
    requires a < b
    ensures a * n + n <= b * n
  {
    if a < b - 1 {
      MulMono(a, b - 1, n);
    }
    assert b * n == (b - 1) * n + n;
  }

  lemma ModOf(q: nat, n: nat, r: nat)
    requires r < n
    ensures (q * n + r) % n == r
  {
    var q' := (q * n + r) / n;
    if q < q' {
      MulMono(q, q', n);
    } else if q' < q {
      MulMono(q', q, n);
    }
  }

  lemma ModSucc(m: nat, n: nat)
    requires n > 0
    ensures (m + 1) % n == if m % n == n - 1 then 0 else m % n + 1
  {
    var q, r := m / n, m % n;
    if r == n - 1 {
      assert m + 1 == (q + 1) * n + 0;
      ModOf(q + 1, n, 0);
    } else {
      assert m + 1 == q * n + (r + 1);
      ModOf(q, n, r + 1);
    }
  }

  lemma SignBit(acc: Word, b: Byte)
    ensures Shift8Or(acc, Widen(b, true)) & 0x80 == if Top(b) then 0x80 else 0
  {
  }

  /** The bit arithmetic after the loops; `diff` is zero iff the two packings
      agree, and `sign` is 0x80 iff a non-benign sign extension occurred. */
  function Deviation(diff: Word, sign: Word, safety: Word): (r: Word)
    requires sign == 0 || sign == 0x80
    requires safety == 0 || safety == 0x10000
    ensures r == if diff == 0 && sign != 0 && safety != 0 then 0x10000 else 0
  {
    var folded := (diff | (diff >> 16)) & 0xffff;
    var carried := folded + 0xffff;
    (sign << 9) & (!carried & safety)
  }

  /** The inner loop: packs four bytes both ways and records overwriting sign bits. */
  method PackGroup(key: Key, start: nat, sign0: Word, ghost i: nat)
      returns (ptr: nat, tmp: (Word, Word), sign: Word)
    requires start == (4 * i) % (|key| + 1)
    requires sign0 == 0 || sign0 == 0x80
    ensures ptr == (4 * i + 4) % (|key| + 1)
    ensures tmp.0 == Join(Group(key, i), false) && tmp.1 == Join(Group(key, i), true)
    ensures sign == if NonBenign(Group(key, i)) then 0x80 else sign0
  {
    hide Shift8Or, Widen;
    ghost var g := Group(key, i);
    ptr, tmp, sign := start, (0, 0), sign0;
    var j := 0;
    while j < 4
      invariant 0 <= j <= 4
      invariant ptr == (4 * i + j) % (|key| + 1)
      invariant tmp.0 == Join(g[..j], false) && tmp.1 == Join(g[..j], true)
      invariant sign == if exists k :: 1 <= k < j && Top(g[k]) then 0x80 else sign0
    {
      var c := if ptr < |key| then key[ptr] else 0;
      assert c == g[j] && g[..j + 1][..j] == g[..j];
      SignBit(tmp.1, c);
      tmp := (Shift8Or(tmp.0, Widen(c, false)), Shift8Or(tmp.1, Widen(c, true)));
      if j != 0 {
        sign := sign | (tmp.1 & 0x80);
      }
      ModSucc(4 * i + j, |key| + 1);
      if c == 0 {
        ptr := 0;
      } else {
        ptr := ptr + 1;
      }
      j := j + 1;
    }
    assert g[..4] == g;
  }

  lemma DiffZero(diff: Word, a: Word, b: Word)
    ensures diff | Xor(a, b) == 0 <==> diff == 0 && a == b
  {
    OrZero(diff, Xor(a, b));
    XorIsZero(a, b);
    hide Xor;
  }

  lemma OrZero(x: Word, y: Word)
    ensures x | y == 0 <==> x == 0 && y == 0
  {
  }

  lemma XorIsZero(a: Word, b: Word)
    ensures Xor(a, b) == 0 <==> a == b
  {
    XorCancels(a, b, 0);
    XorZero(b);
    XorSelf(b);
    hide Xor;
  }

  lemma XorSelf(a: Word)
    ensures Xor(a, a) == 0 && Xor(0, a) == a
  {
  }

  /** Among the first n groups, one holds a non-benign byte, or all are packed the same both ways. */
  ghost predicate NonBenignBelow(key: Key, n: nat) {
    exists k :: 0 <= k < n && NonBenign(Group(key, k))
  }

  ghost predicate SameBelow(key: Key, n: nat) {
    forall k :: 0 <= k < n ==> Join(Group(key, k), false) == Join(Group(key, k), true)
  }

  lemma BelowSteps(key: Key, n: nat)
    ensures !NonBenignBelow(key, 0) && SameBelow(key, 0)
    ensures NonBenignBelow(key, n + 1) <==> NonBenignBelow(key, n) || NonBenign(Group(key, n))
    ensures SameBelow(key, n + 1) <==> SameBelow(key, n) && Join(Group(key, n), false) == Join(Group(key, n), true)
    ensures NonBenignBelow(key, 18) <==> SomeNonBenign(key)
    ensures SameBelow(key, 18) <==> Packed(key, false) == Packed(key, true)
  {
    hide Group, Join, NonBenign, Packed;
    SamePacking(key);
  }

  /** BF_set_key. */
  method SetKey(key: Key, expanded: array<Word>, initial: array<Word>, flags: Byte, init: Schedule)
    requires expanded.Length == 18 && initial.Length == 18 && expanded != initial
    modifies expanded, initial
    ensures Setup(expanded[..], initial[..]) == KeySetup(init, key, flags)
  {
    hide Xor, Join, Group, Packed, XorSeq, NonBenign, NonBenignBelow, SameBelow, SomeNonBenign;
    var bug := BugFlag(flags);
    var safety := SafetyWord(flags);
    var sign: Word, diff: Word := 0, 0;
    var ptr := 0;
    var i := 0;
    BelowSteps(key, 0);
    while i < 18
      invariant 0 <= i <= 18
      invariant ptr == (4 * i) % (|key| + 1)
      invariant sign == if NonBenignBelow(key, i) then 0x80 else 0
      invariant diff == 0 <==> SameBelow(key, i)
      invariant forall k :: 0 <= k < i ==> expanded[k] == Join(Group(key, k), bug)
      invariant forall k :: 0 <= k < i ==> initial[k] == Xor(init[k], Join(Group(key, k), bug))
    {
      var tmp;
      ptr, tmp, sign := PackGroup(key, ptr, sign, i);
      BelowSteps(key, i);
      DiffZero(diff, tmp.0, tmp.1);
      diff := diff | Xor(tmp.0, tmp.1);
      expanded[i] := if bug then tmp.1 else tmp.0;
      initial[i] := Xor(init[i], if bug then tmp.1 else tmp.0);
      i := i + 1;
    }
    var e := Deviation(diff, sign, safety);
    PackedIs(expanded[..], initial[..], key, bug, init);
    BelowSteps(key, 18);
    XorZero(initial[0]);
    initial[0] := Xor(initial[0], e);
  }

  lemma PackedIs(e: seq<Word>, initial: seq<Word>, key: Key, bug: bool, init: Schedule)
    requires |e| == |initial| == 18
    requires forall k :: 0 <= k < 18 ==>
               e[k] == Join(Group(key, k), bug) && initial[k] == Xor(init[k], Join(Group(key, k), bug))
    ensures e == Packed(key, bug) && initial == XorSeq(init, Packed(key, bug))
  {
    hide Xor, Join, Group;
  }

  function SafetyWord(flags: Byte): (r: Word)
    ensures r == if SafetyFlag(flags) then 0x10000 else 0
  {
    ((flags as Word) & 2) << 15
  }

  lemma SamePacking(key: Key)
    ensures Packed(key, false) == Packed(key, true)
       <==> forall k :: 0 <= k < 18 ==> Join(Group(key, k), false) == Join(Group(key, k), true)
  {
    hide Join, Group;
    if Packed(key, false) == Packed(key, true) {
      forall k | 0 <= k < 18
        ensures Join(Group(key, k), false) == Join(Group(key, k), true)
      {
        assert Packed(key, false)[k] == Packed(key, true)[k];
      }
    }
  }

  // ---------- Facts about one word ----------

  function Word4(a: Byte, b: Byte, c: Byte, d: Byte, bug: bool): Word {
    Shift8Or(Shift8Or(Shift8Or(Widen(a, bug), Widen(b, bug)), Widen(c, bug)), Widen(d, bug))
  }

  lemma JoinFour(g: seq<Byte>, bug: bool)
    requires |g| == 4
    ensures Join(g, bug) == Word4(g[0], g[1], g[2], g[3], bug)
  {
    hide Shift8Or, Widen;
    assert g[..3][..2] == g[..2] && g[..2][..1] == g[..1] && g[..1][..0] == [];
    assert Join(g[..1], bug) == Shift8Or(0, Widen(g[0], bug));
    ShiftZero(Widen(g[0], bug));
    assert Join(g[..2], bug) == Shift8Or(Join(g[..1], bug), Widen(g[1], bug));
    assert Join(g[..3], bug) == Shift8Or(Join(g[..2], bug), Widen(g[2], bug));
  }

  lemma ShiftZero(e: Word)
    ensures Shift8Or(0, e) == e
  {
  }

  lemma WordInjective(a: Byte, b: Byte, c: Byte, d: Byte, a': Byte, b': Byte, c': Byte, d': Byte)
    requires Word4(a, b, c, d, false) == Word4(a', b', c', d', false)
    ensures a == a' && b == b' && c == c' && d == d'
  {
  }

  /** When a correct word equals a buggy one, packing the correct bytes with the
      bug changes nothing: the buggy packing is idempotent. */
  lemma WordIdempotent(a: Byte, b: Byte, c: Byte, d: Byte, a': Byte, b': Byte, c': Byte, d': Byte)
    requires Word4(a, b, c, d, false) == Word4(a', b', c', d', true)
    ensures Word4(a, b, c, d, true) == Word4(a, b, c, d, false)
    ensures Top(b') || Top(c') || Top(d') ==> Top(b) || Top(c) || Top(d)
  {
  }

  lemma BugLastByte(a: Byte, b: Byte, c: Byte, d: Byte)
    requires Top(d)
    ensures Word4(a, b, c, d, true) == Word4(a, b, c, d, false) <==> a == 0xff && b == 0xff && c == 0xff
  {
  }

  lemma BugThirdByte(a: Byte, b: Byte, c: Byte, d: Byte)
    requires Top(c) && !Top(d)
    ensures Word4(a, b, c, d, true) == Word4(a, b, c, d, false) <==> a == 0xff && b == 0xff
  {
  }

  lemma BugSecondByte(a: Byte, b: Byte, c: Byte, d: Byte)
    requires Top(b) && !Top(c) && !Top(d)
    ensures Word4(a, b, c, d, true) == Word4(a, b, c, d, false) <==> a == 0xff
  {
  }

  lemma BenignWord(a: Byte, b: Byte, c: Byte, d: Byte)
    requires !Top(b) && !Top(c) && !Top(d)
    ensures Word4(a, b, c, d, true) == Word4(a, b, c, d, false)
  {
  }

  lemma WordCoincides(a: Byte, b: Byte, c: Byte, d: Byte)
    ensures Word4(a, b, c, d, true) == Word4(a, b, c, d, false)
       <==> && (Top(b) ==> a == 0xff)
            && (Top(c) ==> a == 0xff && b == 0xff)
            && (Top(d) ==> a == 0xff && b == 0xff && c == 0xff)
  {
    hide Word4;
    if Top(d) {
      BugLastByte(a, b, c, d);
    } else if Top(c) {
      BugThirdByte(a, b, c, d);
    } else if Top(b) {
      BugSecondByte(a, b, c, d);
    } else {
      BenignWord(a, b, c, d);
    }
  }

  // ---------- Facts about whole keys ----------

  lemma GroupByte(key: Key, m: nat)
    ensures Group(key, m / 4)[m % 4] == StreamByte(key, m)
  {
    hide StreamByte;
    assert m == 4 * (m / 4) + m % 4;
  }

  /** Equal groups mean equal stream bytes. */
  lemma GroupsToStream(k: Key, k': Key)
    requires forall i :: 0 <= i < 18 ==> Group(k, i) == Group(k', i)
    ensures forall m: nat :: m < KEY_BYTES ==> StreamByte(k, m) == StreamByte(k', m)
  {
    hide StreamByte, Group;
    forall m: nat | m < KEY_BYTES
      ensures StreamByte(k, m) == StreamByte(k', m)
    {
      GroupByte(k, m);
      GroupByte(k', m);
      assert Group(k, m / 4) == Group(k', m / 4);
    }
  }

  lemma StreamFront(key: Key, m: nat)
    requires m <= |key|
    ensures StreamByte(key, m) == if m < |key| then key[m] else 0
  {
    ModSmall(m, |key| + 1);
  }

  /** The first 72 stream bytes determine the first 72 key bytes: a shorter key
      is delimited by its NUL. */
  lemma StreamToKey(k: Key, k': Key)
    requires forall m: nat :: m < KEY_BYTES ==> StreamByte(k, m) == StreamByte(k', m)
    requires |k| <= |k'|
    ensures First72(k) == First72(k')
  {
    hide StreamByte;
    forall m: nat | m < KEY_BYTES && m < |k|
      ensures k[m] == k'[m]
    {
      StreamFront(k, m);
      StreamFront(k', m);
    }
    if |k| < KEY_BYTES && |k| < |k'| {
      StreamFront(k, |k|);
      StreamFront(k', |k|);
      assert false;
    }
  }

  /** The stream depends on the first 72 bytes only. */
  lemma KeyToStream(k: Key, k': Key, m: nat)
    requires First72(k) == First72(k') && m < KEY_BYTES
    ensures StreamByte(k, m) == StreamByte(k', m)
  {
    hide StreamByte;
    if |k| >= KEY_BYTES {
      assert |k'| >= KEY_BYTES;
      assert k[m] == First72(k)[m] && k'[m] == First72(k')[m];
      StreamFront(k, m);
      StreamFront(k', m);
    }
  }

  lemma KeyToGroups(k: Key, k': Key)
    requires First72(k) == First72(k')
    ensures forall i :: 0 <= i < 18 ==> Group(k, i) == Group(k', i)
  {
    forall m: nat | m < KEY_BYTES
      ensures StreamByte(k, m) == StreamByte(k', m)
    {
      KeyToStream(k, k', m);
    }
    hide StreamByte;
  }

  /** Key packing is exact: passwords give the same correct expanded key iff
      their first 72 bytes agree. */
  lemma PackingExact(k: Key, k': Key)
    ensures Packed(k, false) == Packed(k', false) <==> First72(k) == First72(k')
  {
    hide StreamByte, Join, Group;
    if First72(k) == First72(k') {
      KeyToGroups(k, k');
      assert Packed(k, false) == Packed(k', false);
    }
    if Packed(k, false) == Packed(k', false) {
      forall i | 0 <= i < 18
        ensures Group(k, i) == Group(k', i)
      {
        hide Word4;
        var g, g' := Group(k, i), Group(k', i);
        assert Packed(k, false)[i] == Packed(k', false)[i];
        JoinFour(g, false);
        JoinFour(g', false);
        WordInjective(g[0], g[1], g[2], g[3], g'[0], g'[1], g'[2], g'[3]);
      }
      GroupsToStream(k, k');
      if |k| <= |k'| {
        StreamToKey(k, k');
      } else {
        StreamToKey(k', k);
      }
    }
  }

  /** The correct and buggy packings of a key coincide iff every byte of
      128 or more that is not first in its group follows only 0xff bytes. */
  lemma PackingsCoincide(key: Key)
    ensures Packed(key, false) == Packed(key, true)
       <==> forall i, j, l :: 0 <= i < 18 && 0 <= l < j < 4 && Top(Group(key, i)[j]) ==> Group(key, i)[l] == 0xff
  {
    hide Group, Join, Word4;
    SamePacking(key);
    forall i | 0 <= i < 18
      ensures Join(Group(key, i), false) == Join(Group(key, i), true)
         <==> forall j, l :: 0 <= l < j < 4 && Top(Group(key, i)[j]) ==> Group(key, i)[l] == 0xff
    {
      var g := Group(key, i);
      JoinFour(g, false);
      JoinFour(g, true);
      WordCoincides(g[0], g[1], g[2], g[3]);
    }
  }

  // ---------- The collision measure ----------

  /** Step one: if k packed correctly equals k' packed with the bug, then packing k with
      the bug gives the same words, and a key k without non-benign bytes forces the same on k'. */
  lemma CrossPacking(k: Key, k': Key)
    requires Packed(k, false) == Packed(k', true)
    ensures Packed(k, true) == Packed(k, false)
    ensures SomeNonBenign(k') ==> SomeNonBenign(k)
  {
    hide Group, Join, Word4;
    forall i | 0 <= i < 18
      ensures Join(Group(k, i), true) == Join(Group(k, i), false)
      ensures NonBenign(Group(k', i)) ==> NonBenign(Group(k, i))
    {
      var g, g' := Group(k, i), Group(k', i);
      assert Packed(k, false)[i] == Packed(k', true)[i];
      JoinFour(g, false);
      JoinFour(g, true);
      JoinFour(g', true);
      WordIdempotent(g[0], g[1], g[2], g[3], g'[0], g'[1], g'[2], g'[3]);
    }
    SamePacking(k);
  }

  lemma BenignPacking(key: Key)
    requires !SomeNonBenign(key)
    ensures Packed(key, true) == Packed(key, false)
  {
    hide Group, Join, Word4;
    forall i | 0 <= i < 18
      ensures Join(Group(key, i), true) == Join(Group(key, i), false)
    {
      var g := Group(key, i);
      assert !NonBenign(g);
      JoinFour(g, false);
      JoinFour(g, true);
      WordCoincides(g[0], g[1], g[2], g[3]);
    }
    SamePacking(key);
  }

  lemma DeviationVisible(init: Schedule, e: Schedule)
    ensures XorSeq(init, e)[0 := Xor(XorSeq(init, e)[0], 0x10000)] != XorSeq(init, e)
  {
    assert Xor(XorSeq(init, e)[0], 0x10000) != XorSeq(init, e)[0];
  }

  lemma SetupFlags()
    ensures !BugFlag(FLAGS_A) && SafetyFlag(FLAGS_A)
    ensures BugFlag(FLAGS_X) && !SafetyFlag(FLAGS_X)
    ensures !BugFlag(FLAGS_Y) && !SafetyFlag(FLAGS_Y)
  {
  }

  /** The anti-collision measure works. A "$2a$" setup of k and a "$2x$" setup of k' are
      the same pair exactly when the keys agree on 72 bytes and hold no non-benign byte. */
  lemma NoCrossCollision(init: Schedule, k: Key, k': Key)
    ensures KeySetup(init, k, FLAGS_A) == KeySetup(init, k', FLAGS_X)
       <==> First72(k) == First72(k') && !SomeNonBenign(k)
  {
    hide Packed, SomeNonBenign, First72, XorSeq, BugFlag, SafetyFlag;
    SetupFlags();
    if KeySetup(init, k, FLAGS_A) == KeySetup(init, k', FLAGS_X) {
      CrossPacking(k, k');
      DeviationVisible(init, Packed(k, false));
      BenignPacking(k');
      PackingExact(k, k');
    }
    if First72(k) == First72(k') && !SomeNonBenign(k) {
      SameBenign(k, k');
      BenignPacking(k');
      PackingExact(k, k');
    }
  }

  lemma SameBenign(k: Key, k': Key)
    requires First72(k) == First72(k')
    ensures SomeNonBenign(k) <==> SomeNonBenign(k')
  {
    hide Group;
    KeyToGroups(k, k');
  }

  /** Within one setting prefix the setup separates exactly the keys that differ in 72 bytes. */
  lemma SetupExact(init: Schedule, k: Key, k': Key, flags: Byte)
    requires !BugFlag(flags)
    ensures KeySetup(init, k, flags) == KeySetup(init, k', flags) <==> First72(k) == First72(k')
  {
    hide Packed, SomeNonBenign, First72, XorSeq, BugFlag, SafetyFlag;
    PackingExact(k, k');
    if First72(k) == First72(k') {
      SameBenign(k, k');
      SameBuggy(k, k');
    }
  }

  lemma SameBuggy(k: Key, k': Key)
    requires First72(k) == First72(k')
    ensures Packed(k, true) == Packed(k', true) && Packed(k, false) == Packed(k', false)
  {
    hide Group, Join;
    KeyToGroups(k, k');
  }

  /** Equal first 72 bytes give equal setups under every flag byte, buggy or not. */
  lemma SetupDependsOn72(init: Schedule, k: Key, k': Key, flags: Byte)
    requires First72(k) == First72(k')
    ensures KeySetup(init, k, flags) == KeySetup(init, k', flags)
  {
    hide Packed, SomeNonBenign, First72, XorSeq;
    SameBenign(k, k');
    SameBuggy(k, k');
  }

  function Cycle(a: Byte, b: Byte, c: Byte, d: Byte): (k: seq<Byte>)
    ensures |k| == 72
    ensures forall i :: 0 <= i < 72 ==>
              k[i] == if i % 4 == 0 then a else if i % 4 == 1 then b else if i % 4 == 2 then c else d
  {
    seq(72, i => if i % 4 == 0 then a else if i % 4 == 1 then b else if i % 4 == 2 then c else d)
  }

  lemma CycleGroup(a: Byte, b: Byte, c: Byte, d: Byte, i: nat)
    requires a != 0 && b != 0 && c != 0 && d != 0 && i < 18
    ensures Group(Cycle(a, b, c, d), i) == [a, b, c, d]
  {
    hide StreamByte;
    var k: Key := Cycle(a, b, c, d);
    StreamFront(k, 4 * i);
    StreamFront(k, 4 * i + 1);
    StreamFront(k, 4 * i + 2);
    StreamFront(k, 4 * i + 3);
  }

  // ---------- Collisions without the measure ----------

  /** Group g packed correctly gives the same word as group g' packed with the bug: the last byte of g' whose sign is
      extended has turned everything before it into 0xff. */
  predicate Collides(g: seq<Byte>, g': seq<Byte>)
    requires |g| == 4 && |g'| == 4
  {
    if Top(g'[3]) then g[0] == 0xff && g[1] == 0xff && g[2] == 0xff && g[3] == g'[3]
    else if Top(g'[2]) then g[0] == 0xff && g[1] == 0xff && g[2] == g'[2] && g[3] == g'[3]
    else if Top(g'[1]) then g[0] == 0xff && g[1] == g'[1] && g[2] == g'[2] && g[3] == g'[3]
    else g == g'
  }

  // A buggy word is the correct word of the bytes it ends up with.

  lemma BuggyLast(a: Byte, b: Byte, c: Byte, d: Byte)
    requires Top(d)
    ensures Word4(a, b, c, d, true) == Word4(0xff, 0xff, 0xff, d, false)
  {
  }

  lemma BuggyThird(a: Byte, b: Byte, c: Byte, d: Byte)
    requires Top(c) && !Top(d)
    ensures Word4(a, b, c, d, true) == Word4(0xff, 0xff, c, d, false)
  {
  }

  lemma BuggySecond(a: Byte, b: Byte, c: Byte, d: Byte)
    requires Top(b) && !Top(c) && !Top(d)
    ensures Word4(a, b, c, d, true) == Word4(0xff, b, c, d, false)
  {
  }

  lemma SameWord(a: Byte, b: Byte, c: Byte, d: Byte, a': Byte, b': Byte, c': Byte, d': Byte)
    ensures Word4(a, b, c, d, false) == Word4(a', b', c', d', false) <==> a == a' && b == b' && c == c' && d == d'
  {
    hide Word4;
    if Word4(a, b, c, d, false) == Word4(a', b', c', d', false) {
      WordInjective(a, b, c, d, a', b', c', d');
    }
  }

  lemma BytesCollide(a: Byte, b: Byte, c: Byte, d: Byte, a': Byte, b': Byte, c': Byte, d': Byte)
    ensures Word4(a, b, c, d, false) == Word4(a', b', c', d', true)
       <==> if Top(d') then a == 0xff && b == 0xff && c == 0xff && d == d'
            else if Top(c') then a == 0xff && b == 0xff && c == c' && d == d'
            else if Top(b') then a == 0xff && b == b' && c == c' && d == d'
            else a == a' && b == b' && c == c' && d == d'
  {
    hide Word4, Top;
    if Top(d') {
      BuggyLast(a', b', c', d');
      SameWord(a, b, c, d, 0xff, 0xff, 0xff, d');
    } else if Top(c') {
      BuggyThird(a', b', c', d');
      SameWord(a, b, c, d, 0xff, 0xff, c', d');
    } else if Top(b') {
      BuggySecond(a', b', c', d');
      SameWord(a, b, c, d, 0xff, b', c', d');
    } else {
      BenignWord(a', b', c', d');
      SameWord(a, b, c, d, a', b', c', d');
    }
  }

  lemma WordCollides(g: seq<Byte>, g': seq<Byte>)
    requires |g| == 4 && |g'| == 4
    ensures Join(g, false) == Join(g', true) <==> Collides(g, g')
  {
    hide Word4, Join, Top;
    JoinFour(g, false);
    JoinFour(g', true);
    BytesCollide(g[0], g[1], g[2], g[3], g'[0], g'[1], g'[2], g'[3]);
    assert g == g' <==> g[0] == g'[0] && g[1] == g'[1] && g[2] == g'[2] && g[3] == g'[3];
  }

  /** Without the measure, a correct "$2y$" setup of k equals a buggy "$2x$" setup of k' exactly when all 18 groups of
      the keys collide. */
  lemma CollisionExact(init: Schedule, k: Key, k': Key)
    ensures KeySetup(init, k, FLAGS_Y) == KeySetup(init, k', FLAGS_X)
       <==> forall i :: 0 <= i < 18 ==> Collides(Group(k, i), Group(k', i))
  {
    hide XorSeq, BugFlag, SafetyFlag, Join, Group, Collides;
    SetupFlags();
    forall i | 0 <= i < 18
      ensures Packed(k, false)[i] == Packed(k', true)[i] <==> Collides(Group(k, i), Group(k', i))
    {
      WordCollides(Group(k, i), Group(k', i));
    }
    if forall i :: 0 <= i < 18 ==> Collides(Group(k, i), Group(k', i)) {
      assert Packed(k, false) == Packed(k', true);
    }
  }

  /** The measure fires on every key that takes part in a collision of different keys. */
  lemma MeasureFires(init: Schedule, k: Key, k': Key)
    requires KeySetup(init, k, FLAGS_Y) == KeySetup(init, k', FLAGS_X)
    ensures First72(k) == First72(k') || MustDeviate(k)
  {
    hide Packed, SomeNonBenign, First72, XorSeq, BugFlag, SafetyFlag;
    SetupFlags();
    CrossPacking(k, k');
    if !SomeNonBenign(k) {
      BenignPacking(k');
      PackingExact(k, k');
    }
  }

  /** Why the measure is needed: without it ("$2y$") two different keys, one of
      them packed with the bug, share one setup. */
  lemma CollisionWithoutMeasure(init: Schedule)
    returns (k: Key, k': Key)
    ensures First72(k) != First72(k') && KeySetup(init, k, FLAGS_Y) == KeySetup(init, k', FLAGS_X)
  {
    hide XorSeq, BugFlag, SafetyFlag, Join, Group, KeySetup;
    k, k' := Cycle(0xff, 0xa3, 0x34, 0x34), Cycle(0x01, 0xa3, 0x34, 0x34);
    assert First72(k)[0] != First72(k')[0];
    forall i | 0 <= i < 18
      ensures Collides(Group(k, i), Group(k', i))
    {
      CycleGroup(0xff, 0xa3, 0x34, 0x34, i);
      CycleGroup(0x01, 0xa3, 0x34, 0x34, i);
    }
    CollisionExact(init, k, k');
  }
}
