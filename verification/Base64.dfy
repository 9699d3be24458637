/** The non-standard base64 of BF_encode and BF_decode. Texts are byte
    sequences; reading past the end of one yields its NUL terminator. */
module Base64 {
  import opened Words

  const INVALID: Byte := 64
  const DOLLAR: Byte := 0x24

  datatype Result<T> = Ok(value: T) | Err

  /** BF_itoa64: "./A-Za-z0-9". */
  function Itoa64(v: Byte): Byte
  {
    if v < 2 then 0x2e + v
    else if v < 28 then 0x41 + (v - 2)
    else if v < 54 then 0x61 + (v - 28)
    else 0x30 + (v - 54)
  }

  /** BF_atoi64 with its range check; INVALID for every byte outside the alphabet. */
  function Atoi64(c: Byte): Byte {
    if 0x2e <= c <= 0x2f then c - 0x2e
    else if 0x30 <= c <= 0x39 then c - 0x30 + 54
    else if 0x41 <= c <= 0x5a then c - 0x41 + 2
    else if 0x61 <= c <= 0x7a then c - 0x61 + 28
    else INVALID
  }

  /** A character with its four low bits cleared, as the last one of a 16-byte salt is. */
  function ClearLow(c: Byte): Byte {
    Itoa64(Atoi64(c) & 0x30)
  }

  predicate InAlphabet(c: Byte) { Atoi64(c) != INVALID }

  ghost predicate Alphabet(s: seq<Byte>) {
    forall i :: 0 <= i < |s| ==> InAlphabet(s[i])
  }

  function At(s: seq<Byte>, i: nat): Byte {
    if i < |s| then s[i] else 0
  }

  function Drop(s: seq<Byte>, n: nat): seq<Byte> {
    if n <= |s| then s[n..] else []
  }

  function Zeros(n: nat): (z: seq<Byte>)
    ensures |z| == n
  {
    seq(n, _ => 0)
  }

  // The six-bit regrouping, both ways
  function Enc1(a: Byte): Byte { a >> 2 }
  function Enc2(a: Byte, b: Byte): Byte { ((a & 0x03) << 4) | (b >> 4) }
  function Enc3(b: Byte, c: Byte): Byte { ((b & 0x0f) << 2) | (c >> 6) }
  function Enc4(c: Byte): Byte { c & 0x3f }
  function Dec1(c1: Byte, c2: Byte): Byte { (c1 << 2) | ((c2 & 0x30) >> 4) }
  function Dec2(c2: Byte, c3: Byte): Byte { ((c2 & 0x0f) << 4) | ((c3 & 0x3c) >> 2) }
  function Dec3(c3: Byte, c4: Byte): Byte { ((c3 & 0x03) << 6) | c4 }

  function Encode(b: seq<Byte>): seq<Byte> {
    if |b| == 0 then []
    else if |b| == 1 then [Itoa64(Enc1(b[0])), Itoa64(Enc2(b[0], 0))]
    else if |b| == 2 then [Itoa64(Enc1(b[0])), Itoa64(Enc2(b[0], b[1])), Itoa64(Enc3(b[1], 0))]
    else [Itoa64(Enc1(b[0])), Itoa64(Enc2(b[0], b[1])), Itoa64(Enc3(b[1], b[2])), Itoa64(Enc4(b[2]))] + Encode(b[3..])
  }

  function EncodedLength(n: nat): nat {
    4 * (n / 3) + (if n % 3 == 0 then 0 else n % 3 + 1)
  }

  datatype Status = More | Stop | Fail

  /** At most three bytes from the next four characters: `More` when the text goes on,
      `Stop` at a '$' or when `n` bytes are there, `Fail` at a byte outside the alphabet. */
  function Group(s: seq<Byte>, n: nat): (r: (seq<Byte>, Status))
    requires n > 0
    ensures |r.0| <= n && (r.1.More? ==> |r.0| == 3)
  {
    if At(s, 0) == DOLLAR then ([], Stop)
    else if !InAlphabet(At(s, 0)) then ([], Fail)
    else if At(s, 1) == DOLLAR then ([], Stop)
    else if !InAlphabet(At(s, 1)) then ([], Fail)
    else
      var b1 := Dec1(Atoi64(At(s, 0)), Atoi64(At(s, 1)));
      if n == 1 || At(s, 2) == DOLLAR then ([b1], Stop)
      else if !InAlphabet(At(s, 2)) then ([b1], Fail)
      else
        var b2 := Dec2(Atoi64(At(s, 1)), Atoi64(At(s, 2)));
        if n == 2 || At(s, 3) == DOLLAR then ([b1, b2], Stop)
        else if !InAlphabet(At(s, 3)) then ([b1, b2], Fail)
        else ([b1, b2, Dec3(Atoi64(At(s, 2)), Atoi64(At(s, 3)))], More)
  }

  /** Decodes `n` bytes. A '$' ends the text early and leaves zero bytes. */
  function Decode(s: seq<Byte>, n: nat): (r: Result<seq<Byte>>)
    ensures r.Ok? ==> |r.value| == n
  {
    if n == 0 then Ok([])
    else
      var (b, status) := Group(s, n);
      match status
      case Fail => Err
      case Stop => Ok(b + Zeros(n - |b|))
      case More =>
        var rest := Decode(Drop(s, 4), n - 3);
        if rest.Err? then Err else Ok(b + rest.value)
  }

  // ---------- The loops ----------

  /** `*dptr++ = v` */
  method Emit(dst: array<Byte>, dptr: nat, v: Byte) returns (next: nat)
    requires dptr < dst.Length
    modifies dst
    ensures next == dptr + 1
    ensures dst[..next] == old(dst[..dptr]) + [v]
    ensures forall lo :: 0 <= lo <= dptr ==> dst[lo..next] == old(dst[lo..dptr]) + [v]
    ensures forall i :: 0 <= i < dst.Length ==> dst[i] == if i == dptr then v else old(dst[i])
  {
    dst[dptr] := v;
    next := dptr + 1;
  }

  /** The body of BF_encode's loop: up to three bytes. */
  method EncodeGroup(dst: array<Byte>, dptr0: nat, src: seq<Byte>, sptr0: nat, size: nat) returns (dptr: nat, sptr: nat)
    requires sptr0 < size <= |src| && dptr0 + |Encode(src[sptr0..size])| <= dst.Length
    modifies dst
    ensures sptr == if sptr0 + 3 <= size then sptr0 + 3 else size
    ensures dptr == dptr0 + |Encode(src[sptr0..sptr])|
    ensures dptr <= dst.Length && dst[..dptr] == old(dst[..dptr0]) + Encode(src[sptr0..sptr])
    ensures forall i :: dptr <= i < dst.Length ==> dst[i] == old(dst[i])
  {
    hide Itoa64, Enc1, Enc2, Enc3, Enc4;
    sptr, dptr := sptr0, dptr0;
    var c1 := src[sptr];
    sptr := sptr + 1;
    dptr := Emit(dst, dptr, Itoa64(Enc1(c1)));
    if sptr >= size {
      dptr := Emit(dst, dptr, Itoa64(Enc2(c1, 0)));
      return;
    }
    var c2 := src[sptr];
    sptr := sptr + 1;
    dptr := Emit(dst, dptr, Itoa64(Enc2(c1, c2)));
    if sptr >= size {
      dptr := Emit(dst, dptr, Itoa64(Enc3(c2, 0)));
      return;
    }
    var c3 := src[sptr];
    sptr := sptr + 1;
    dptr := Emit(dst, dptr, Itoa64(Enc3(c2, c3)));
    dptr := Emit(dst, dptr, Itoa64(Enc4(c3)));
  }

  lemma EncodeSplit(b: seq<Byte>)
    requires |b| > 0
    ensures var n := if |b| < 3 then |b| else 3; Encode(b) == Encode(b[..n]) + Encode(b[n..])
  {
    hide Encode, Itoa64, Enc1, Enc2, Enc3, Enc4;
    if |b| >= 3 {
      EncodeFirst(b);
      EncodeFirst(b[..3]);
      assert b[..3][3..] == [];
    } else {
      assert b[..|b|] == b && b[|b|..] == [];
    }
    EncodeNothing();
  }

  lemma EncodeFirst(b: seq<Byte>)
    requires |b| >= 3
    ensures Encode(b) == [Itoa64(Enc1(b[0])), Itoa64(Enc2(b[0], b[1])), Itoa64(Enc3(b[1], b[2])), Itoa64(Enc4(b[2]))]
                         + Encode(b[3..])
  {
    hide Itoa64, Enc1, Enc2, Enc3, Enc4;
  }

  lemma EncodeNothing()
    ensures Encode([]) == []
  {
  }

  /** BF_encode writes the encoding of `size` bytes and nothing else. */
  method BfEncode(dst: array<Byte>, start: nat, src: seq<Byte>, size: nat)
    requires 1 <= size <= |src| && start + EncodedLength(size) <= dst.Length
    modifies dst
    ensures |Encode(src[..size])| == EncodedLength(size)
    ensures dst[..] == old(dst[..start]) + Encode(src[..size]) + old(dst[start + EncodedLength(size)..])
  {
    hide Encode;
    ghost var before := dst[..];
    ghost var goal := dst[..start] + Encode(src[..size]);
    EncodeSize(src[..size]);
    var sptr: nat, dptr: nat := 0, start;
    while true
      invariant sptr < size && start <= dptr <= dst.Length
      invariant forall i :: dptr <= i < dst.Length ==> dst[i] == before[i]
      invariant goal == dst[..dptr] + Encode(src[sptr..size])
      decreases size - sptr
    {
      ghost var rest := src[sptr..size];
      EncodeSplit(rest);
      ghost var from := sptr;
      dptr, sptr := EncodeGroup(dst, dptr, src, sptr, size);
      assert rest[..sptr - from] == src[from..sptr] && rest[sptr - from..] == src[sptr..size];
      if sptr >= size {
        break;
      }
    }
    EncodeSize([]);
    assert dst[..dptr] == goal;
    assert dst[..] == dst[..dptr] + dst[dptr..];
  }

  lemma {:induction false} EncodeSize(b: seq<Byte>)
    ensures |Encode(b)| == EncodedLength(|b|)
  {
    if |b| > 3 {
      EncodeSize(b[3..]);
    }
  }

  /** The body of BF_decode's first loop. */
  method DecodeGroup(dst: array<Byte>, dptr0: nat, src: seq<Byte>, sptr0: nat, end: nat)
      returns (dptr: nat, sptr: nat, status: Status)
    requires dptr0 < end <= dst.Length
    modifies dst
    ensures dptr0 <= dptr <= end && (status == More ==> sptr == sptr0 + 4)
    ensures (dst[dptr0..dptr], status) == Group(Drop(src, sptr0), end - dptr0)
    ensures dst[..dptr0] == old(dst[..dptr0])
    ensures forall i :: dptr <= i < dst.Length ==> dst[i] == old(dst[i])
  {
    hide Atoi64, InAlphabet, Dec1, Dec2, Dec3;
    ghost var text := Drop(src, sptr0);
    assert At(src, sptr0) == At(text, 0) && At(src, sptr0 + 1) == At(text, 1);
    assert At(src, sptr0 + 2) == At(text, 2) && At(src, sptr0 + 3) == At(text, 3);
    sptr, dptr, status := sptr0, dptr0, Stop;
    assert dst[dptr0..dptr] == [];
    var tmp := At(src, sptr);
    sptr := sptr + 1;
    if tmp == DOLLAR { return; }
    if !InAlphabet(tmp) { status := Fail; return; }
    var c1 := Atoi64(tmp);
    tmp := At(src, sptr);
    sptr := sptr + 1;
    if tmp == DOLLAR { return; }
    if !InAlphabet(tmp) { status := Fail; return; }
    var c2 := Atoi64(tmp);
    dptr := Emit(dst, dptr, Dec1(c1, c2));
    assert dst[dptr0..dptr] == [Dec1(c1, c2)];
    if dptr >= end { return; }

    tmp := At(src, sptr);
    sptr := sptr + 1;
    if tmp == DOLLAR { return; }
    if !InAlphabet(tmp) { status := Fail; return; }
    var c3 := Atoi64(tmp);
    dptr := Emit(dst, dptr, Dec2(c2, c3));
    assert dst[dptr0..dptr] == [Dec1(c1, c2), Dec2(c2, c3)];
    if dptr >= end { return; }

    tmp := At(src, sptr);
    sptr := sptr + 1;
    if tmp == DOLLAR { return; }
    if !InAlphabet(tmp) { status := Fail; return; }
    var c4 := Atoi64(tmp);
    dptr := Emit(dst, dptr, Dec3(c3, c4));
    assert dst[dptr0..dptr] == [Dec1(c1, c2), Dec2(c2, c3), Dec3(c3, c4)];
    status := More;
  }

  /** BF_decode: fills `size` bytes, or reports an out-of-alphabet byte. */
  method BfDecode(dst: array<Byte>, src: seq<Byte>, size: nat) returns (rc: int)
    requires 1 <= size <= dst.Length
    modifies dst
    ensures rc == 0 || rc == -1
    ensures rc == 0 ==> Decode(src, size) == Ok(dst[..size])
    ensures rc == -1 ==> Decode(src, size) == Err
    ensures forall i :: size <= i < dst.Length ==> dst[i] == old(dst[i])
  {
    hide Decode;
    ghost var whole := Decode(src, size);
    var sptr: nat, dptr: nat := 0, 0;
    var status := More;
    Continues(whole, dst[..0], src, 0, size);
    while dptr < size
      invariant dptr <= size && status == More
      invariant forall i :: size <= i < dst.Length ==> dst[i] == old(dst[i])
      invariant ContinuesWith(whole, dst[..dptr], src, sptr, size)
      decreases size - dptr
    {
      ghost var done, from, at := dst[..dptr], dptr, sptr;
      dptr, sptr, status := DecodeGroup(dst, dptr, src, sptr, size);
      assert dst[..dptr] == done + dst[from..dptr];
      DecodeOneGroup(Drop(src, at), size - from);
      assert Drop(Drop(src, at), 4) == Drop(src, at + 4);
      if status == Fail {
        return -1;
      }
      if status == Stop {
        assert done + (dst[from..dptr] + Zeros(size - dptr)) == dst[..dptr] + Zeros(size - dptr);
        break;
      }
      Associates(whole, done, dst[from..dptr], src, at, sptr, size);
    }
    if status == More {
      DecodeNothing(Drop(src, sptr));
      assert dst[..dptr] + [] == dst[..dptr] + Zeros(0);
    }
    assert whole == Ok(dst[..dptr] + Zeros(size - dptr));
    ghost var decoded, stop := dst[..dptr], dptr;
    while dptr < size
      invariant stop <= dptr <= size
      invariant forall i :: size <= i < dst.Length ==> dst[i] == old(dst[i])
      invariant dst[..dptr] == decoded + Zeros(dptr - stop)
    {
      dptr := Emit(dst, dptr, 0);
    }
    rc := 0;
  }

  /** The whole result is `done` followed by what the rest of the text decodes to. */
  ghost predicate ContinuesWith(whole: Result<seq<Byte>>, done: seq<Byte>, src: seq<Byte>, sptr: nat, size: nat)
    requires |done| <= size
  {
    var rest := Decode(Drop(src, sptr), size - |done|);
    whole == if rest.Err? then Err else Ok(done + rest.value)
  }

  lemma Continues(whole: Result<seq<Byte>>, done: seq<Byte>, src: seq<Byte>, sptr: nat, size: nat)
    requires whole == Decode(src, size) && done == [] && sptr == 0
    ensures ContinuesWith(whole, done, src, sptr, size)
  {
    hide Decode;
    assert Drop(src, 0) == src;
    assert whole.Ok? ==> done + whole.value == whole.value;
  }

  lemma Associates(whole: Result<seq<Byte>>, done: seq<Byte>, more: seq<Byte>, src: seq<Byte>,
                   sptr0: nat, sptr: nat, size: nat)
    requires |done| + |more| <= size && ContinuesWith(whole, done, src, sptr0, size)
    requires ContinuesWith(Decode(Drop(src, sptr0), size - |done|), more, src, sptr, size - |done|)
    ensures ContinuesWith(whole, done + more, src, sptr, size)
  {
    hide Decode;
    var rest := Decode(Drop(src, sptr), size - |done + more|);
    assert rest.Ok? ==> done + (more + rest.value) == (done + more) + rest.value;
  }

  lemma DecodeOneGroup(s: seq<Byte>, n: nat)
    requires n > 0
    ensures var (b, status) := Group(s, n);
            var rest := if status.More? then Decode(Drop(s, 4), n - 3) else Err;
            Decode(s, n) == match status
              case Fail => Err
              case Stop => Ok(b + Zeros(n - |b|))
              case More => if rest.Err? then Err else Ok(b + rest.value)
  {
    hide Group;
  }

  lemma DecodeNothing(s: seq<Byte>)
    ensures Decode(s, 0) == Ok([])
  {
  }

  // ---------- Round trips ----------

  lemma Regroup(a: Byte, b: Byte, c: Byte)
    ensures Enc1(a) < 64 && Enc2(a, b) < 64 && Enc3(b, c) < 64 && Enc4(c) < 64
    ensures Dec1(Enc1(a), Enc2(a, b)) == a
    ensures Dec2(Enc2(a, b), Enc3(b, c)) == b
    ensures Dec3(Enc3(b, c), Enc4(c)) == c
  {
  }

  lemma Ungroup(c1: Byte, c2: Byte, c3: Byte, c4: Byte)
    requires c1 < 64 && c2 < 64 && c3 < 64 && c4 < 64
    ensures Enc1(Dec1(c1, c2)) == c1
    ensures Enc2(Dec1(c1, c2), Dec2(c2, c3)) == c2
    ensures Enc3(Dec2(c2, c3), Dec3(c3, c4)) == c3
    ensures Enc4(Dec3(c3, c4)) == c4
    ensures Enc2(Dec1(c1, c2), 0) == c2 & 0x30
    ensures Enc3(Dec2(c2, c3), 0) == c3 & 0x3c
  {
  }

  lemma AlphabetInverse(v: Byte, c: Byte)
    ensures v < 64 ==> InAlphabet(Itoa64(v)) && Itoa64(v) != DOLLAR && Atoi64(Itoa64(v)) == v
    ensures InAlphabet(c) ==> Atoi64(c) < 64 && Itoa64(Atoi64(c)) == c && c != DOLLAR
  {
  }

  /** Decoding an encoding gives the bytes back, whatever text follows. */
  lemma {:induction false} DecodeEncode(b: seq<Byte>, tail: seq<Byte>)
    ensures Decode(Encode(b) + tail, |b|) == Ok(b)
  {
    if |b| >= 3 {
      DecodeEncode(b[3..], tail);
      DecodeEncodeStep(b, tail);
    } else if |b| > 0 {
      hide Itoa64, Atoi64, InAlphabet, Enc1, Enc2, Enc3, Enc4, Dec1, Dec2, Dec3;
      var b1 := if |b| > 1 then b[1] else 0;
      Regroup(b[0], b1, 0);
      AlphabetInverse(Enc1(b[0]), 0);
      AlphabetInverse(Enc2(b[0], b1), 0);
      AlphabetInverse(Enc3(b1, 0), 0);
      assert b == if |b| == 1 then [b[0]] else [b[0], b[1]];
      assert b + Zeros(0) == b;
    }
  }

  lemma DecodeEncodeStep(b: seq<Byte>, tail: seq<Byte>)
    requires |b| >= 3 && Decode(Encode(b[3..]) + tail, |b| - 3) == Ok(b[3..])
    ensures Decode(Encode(b) + tail, |b|) == Ok(b)
  {
    hide Itoa64, Atoi64, InAlphabet, Enc1, Enc2, Enc3, Enc4, Dec1, Dec2, Dec3, Decode;
    var front := [Itoa64(Enc1(b[0])), Itoa64(Enc2(b[0], b[1])), Itoa64(Enc3(b[1], b[2])), Itoa64(Enc4(b[2]))];
    assert Encode(b) + tail == front + (Encode(b[3..]) + tail);
    hide Encode;
    FrontDecoded(b[0], b[1], b[2], Encode(b[3..]) + tail, |b|);
    assert b == [b[0], b[1], b[2]] + b[3..];
  }

  /** Four characters that encode three bytes are decoded, whatever follows. */
  lemma FrontDecoded(x: Byte, y: Byte, z: Byte, more: seq<Byte>, n: nat)
    requires n >= 3
    ensures var s := [Itoa64(Enc1(x)), Itoa64(Enc2(x, y)), Itoa64(Enc3(y, z)), Itoa64(Enc4(z))] + more;
            var rest := Decode(more, n - 3);
            Decode(s, n) == if rest.Err? then Err else Ok([x, y, z] + rest.value)
  {
    hide Itoa64, Atoi64, InAlphabet, Enc1, Enc2, Enc3, Enc4, Dec1, Dec2, Dec3, Decode;
    var front := [Itoa64(Enc1(x)), Itoa64(Enc2(x, y)), Itoa64(Enc3(y, z)), Itoa64(Enc4(z))];
    Regroup(x, y, z);
    AlphabetInverse(Enc1(x), 0);
    AlphabetInverse(Enc2(x, y), 0);
    AlphabetInverse(Enc3(y, z), 0);
    AlphabetInverse(Enc4(z), 0);
    assert (front + more)[..4] == front && (front + more)[4..] == more;
    DecodeFour(front + more, n);
  }

  lemma DecodeFour(s: seq<Byte>, n: nat)
    requires n >= 3 && |s| >= 4 && Alphabet(s[..4])
    ensures var c1, c2, c3, c4 := Atoi64(s[0]), Atoi64(s[1]), Atoi64(s[2]), Atoi64(s[3]);
            var rest := Decode(s[4..], n - 3);
            Decode(s, n) == if rest.Err? then Err else Ok([Dec1(c1, c2), Dec2(c2, c3), Dec3(c3, c4)] + rest.value)
  {
    hide Itoa64, Dec1, Dec2, Dec3;
    assert forall i :: 0 <= i < 4 ==> s[..4][i] == s[i];
    AlphabetInverse(0, s[0]);
    AlphabetInverse(0, s[1]);
    AlphabetInverse(0, s[2]);
    AlphabetInverse(0, s[3]);
    hide Atoi64, InAlphabet;
  }

  /** A text with the unused low bits of its last character cleared. */
  function Canonical(s: seq<Byte>, n: nat): seq<Byte>
    requires |s| == EncodedLength(n)
  {
    if n % 3 == 0 then s
    else s[..|s| - 1] + [Itoa64(Atoi64(s[|s| - 1]) & (if n % 3 == 1 then 0x30 else 0x3c))]
  }

  /** Re-encoding what a text decodes to clears the unused bits and changes nothing else. */
  lemma {:induction false} EncodeDecode(s: seq<Byte>, n: nat)
    requires Alphabet(s) && |s| == EncodedLength(n)
    ensures Decode(s, n).Ok? && Encode(Decode(s, n).value) == Canonical(s, n)
  {
    hide Itoa64, Atoi64, InAlphabet, Enc1, Enc2, Enc3, Enc4, Dec1, Dec2, Dec3;
    if 0 < n < 3 {
      EncodeDecodeShort(s, n);
    } else if n >= 3 {
      EncodeDecode(s[4..], n - 3);
      DecodeFour(s, n);
      hide Decode;
      EncodeDecodeStep(s, n, Decode(s, n).value, Decode(s[4..], n - 3).value);
    }
  }

  lemma EncodeDecodeStep(s: seq<Byte>, n: nat, v: seq<Byte>, rest: seq<Byte>)
    requires Alphabet(s) && |s| == EncodedLength(n) && n >= 3
    requires Encode(rest) == Canonical(s[4..], n - 3)
    requires var c1, c2, c3, c4 := Atoi64(s[0]), Atoi64(s[1]), Atoi64(s[2]), Atoi64(s[3]);
             v == [Dec1(c1, c2), Dec2(c2, c3), Dec3(c3, c4)] + rest
    ensures Encode(v) == Canonical(s, n)
  {
    hide Itoa64, Atoi64, InAlphabet, Enc1, Enc2, Enc3, Enc4, Dec1, Dec2, Dec3, Encode;
    assert v[3..] == rest;
    EncodeFirst(v);
    CanonicalStep(s, n);
    hide Canonical;
    AlphabetInverse(0, s[0]);
    AlphabetInverse(0, s[1]);
    AlphabetInverse(0, s[2]);
    AlphabetInverse(0, s[3]);
    Ungroup(Atoi64(s[0]), Atoi64(s[1]), Atoi64(s[2]), Atoi64(s[3]));
  }

  lemma CanonicalStep(s: seq<Byte>, n: nat)
    requires |s| == EncodedLength(n) && n >= 3
    ensures |s| >= 4 && Canonical(s, n) == [s[0], s[1], s[2], s[3]] + Canonical(s[4..], n - 3)
  {
    hide Itoa64, Atoi64;
  }

  lemma EncodeDecodeShort(s: seq<Byte>, n: nat)
    requires Alphabet(s) && |s| == EncodedLength(n) && 0 < n < 3
    ensures Decode(s, n).Ok? && Encode(Decode(s, n).value) == Canonical(s, n)
  {
    hide Itoa64, Atoi64, InAlphabet, Enc1, Enc2, Enc3, Enc4, Dec1, Dec2, Dec3;
    var c3 := if n == 2 then s[2] else s[0];
    AlphabetInverse(0, s[0]);
    AlphabetInverse(0, s[1]);
    AlphabetInverse(0, c3);
    Ungroup(Atoi64(s[0]), Atoi64(s[1]), Atoi64(c3), 0);
  }

  /** `n` bytes, one more than a multiple of three, whose text ends in `$` after a
      character that does not decode to zero. */
  ghost predicate LastDollar(s: seq<Byte>, n: nat)
    requires n % 3 == 1 && |s| >= EncodedLength(n)
  {
    var m := EncodedLength(n) - 1;
    Alphabet(s[..m]) && s[m] == DOLLAR && s[m - 1] != Itoa64(0)
  }

  /** The text BF_crypt writes back: the last character of the salt in its canonical form. */
  function Rewrite(s: seq<Byte>, n: nat, tail: seq<Byte>): (t: seq<Byte>)
    requires n % 3 == 1 && |s| >= EncodedLength(n)
    ensures |t| >= EncodedLength(n)
  {
    var m := EncodedLength(n) - 1;
    s[..m] + [ClearLow(s[m])] + tail
  }

  /** Rewriting the last character to its canonical form keeps the decoded bytes,
      unless that character is a `$` that cut off non-zero bits. */
  lemma {:induction false} RewriteKeeps(s: seq<Byte>, n: nat, tail: seq<Byte>)
    requires n % 3 == 1 && |s| >= EncodedLength(n) && Decode(s, n).Ok?
    ensures Decode(Rewrite(s, n, tail), n) == Decode(s, n) <==> !LastDollar(s, n)
  {
    hide Decode, InAlphabet, LastDollar, ClearLow;
    var t := Rewrite(s, n, tail);
    if n == 1 {
      RewriteKeepsOne(s, t);
    } else {
      hide Rewrite, Alphabet;
      RewriteRest(s, n, tail);
      LastDollarRest(s, n);
      if Alphabet(s[..4]) {
        RestDetermines(s, t, n);
        RewriteKeeps(s[4..], n - 3, tail);
      } else {
        CutShort(s, t, n);
      }
    }
  }

  lemma RewriteRest(s: seq<Byte>, n: nat, tail: seq<Byte>)
    requires n % 3 == 1 && n > 1 && |s| >= EncodedLength(n)
    ensures var t := Rewrite(s, n, tail); t[..4] == s[..4] && t[4..] == Rewrite(s[4..], n - 3, tail)
  {
    hide ClearLow;
  }

  lemma RewriteKeepsOne(s: seq<Byte>, t: seq<Byte>)
    requires |s| >= 2 && |t| >= 2 && Decode(s, 1).Ok?
    requires t[0] == s[0] && t[1] == ClearLow(s[1])
    ensures Decode(t, 1) == Decode(s, 1) <==> !LastDollar(s, 1)
  {
    RewriteBits(s[0], s[1]);
    hide Itoa64, Atoi64, InAlphabet, Dec1, Dec2, Dec3;
    assert s[..1] == [s[0]];
    assert forall b: Byte :: [b] + Zeros(0) == [b];
    assert [] + Zeros(1) == [0];
  }

  lemma LastDollarRest(s: seq<Byte>, n: nat)
    requires n % 3 == 1 && n > 1 && |s| >= EncodedLength(n)
    ensures LastDollar(s, n) <==> Alphabet(s[..4]) && LastDollar(s[4..], n - 3)
  {
    hide Itoa64, Atoi64, InAlphabet;
    var m := EncodedLength(n) - 1;
    assert s[..m] == s[..4] + s[4..][..m - 4];
    var a, b := s[..4], s[4..][..m - 4];
    AlphabetConcat(a, b);
  }

  lemma AlphabetConcat(a: seq<Byte>, b: seq<Byte>)
    ensures Alphabet(a + b) <==> Alphabet(a) && Alphabet(b)
  {
    hide InAlphabet;
    assert forall i :: 0 <= i < |a| ==> (a + b)[i] == a[i];
    if Alphabet(a + b) {
      forall i | 0 <= i < |b|
        ensures InAlphabet(b[i])
      {
        assert (a + b)[|a| + i] == b[i];
      }
    }
  }

  lemma RestDetermines(s: seq<Byte>, t: seq<Byte>, n: nat)
    requires n >= 3 && |s| >= 4 && |t| >= 4 && s[..4] == t[..4] && Alphabet(s[..4]) && Decode(s, n).Ok?
    ensures Decode(s[4..], n - 3).Ok?
    ensures Decode(s, n) == Decode(t, n) <==> Decode(s[4..], n - 3) == Decode(t[4..], n - 3)
  {
    DecodeFour(s, n);
    DecodeFour(t, n);
    hide Decode, Dec1, Dec2, Dec3, Atoi64, InAlphabet;
    assert forall i :: 0 <= i < 4 ==> s[i] == s[..4][i] && t[i] == t[..4][i];
    if Decode(s, n) == Decode(t, n) {
      assert Decode(s, n).value[3..] == Decode(s[4..], n - 3).value;
      assert Decode(t, n).value[3..] == Decode(t[4..], n - 3).value;
    }
  }

  /** A byte outside the alphabet among the first four settles the result. */
  lemma CutShort(s: seq<Byte>, t: seq<Byte>, n: nat)
    requires n >= 3 && |s| >= 4 && |t| >= 4 && s[..4] == t[..4] && !Alphabet(s[..4])
    ensures Decode(s, n) == Decode(t, n)
  {
    assert forall i :: 0 <= i < 4 ==> s[i] == s[..4][i] && t[i] == t[..4][i];
    assert Group(s, n) == Group(t, n) && !Group(s, n).1.More? by {
      hide Dec1, Dec2, Dec3, Atoi64, InAlphabet;
    }
    hide Group;
  }

  lemma RewriteBits(c: Byte, last: Byte)
    ensures var r := ClearLow(last);
            && InAlphabet(r) && r != DOLLAR
            && (InAlphabet(last) ==> Dec1(Atoi64(c), Atoi64(r)) == Dec1(Atoi64(c), Atoi64(last)))
            && (last == DOLLAR ==> (InAlphabet(c) ==> (Dec1(Atoi64(c), Atoi64(r)) == 0 <==> c == Itoa64(0))))
    ensures !InAlphabet(DOLLAR)
  {
  }
}
