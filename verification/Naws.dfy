/** The window-size sub-negotiation (RFC 1073, section 2): what getTermsize reads, against the encoder.
    The method itself is Telnet.User.GetTermsize. */
module Naws {
  import opened Octets
  import opened Wrappers

  type Size16 = n: int | 0 <= n < 0x1_0000

  const SE: Byte := 240

  // ---------- What a client sends ----------

  /** A data byte inside a sub-negotiation: IAC is sent twice. */
  function Doubled(b: Byte): seq<Byte> {
    if b == IAC then [IAC, IAC] else [b]
  }

  function Frame(a: Byte, b: Byte, c: Byte, d: Byte): seq<Byte> {
    [IAC, SB, OPT_NAWS] + Doubled(a) + Doubled(b) + Doubled(c) + Doubled(d) + [IAC, SE]
  }

  /** IAC SB NAWS, both sizes high byte first, IAC SE. */
  function Encode(w: Size16, h: Size16): seq<Byte> {
    Frame(w / 256, w % 256, h / 256, h % 256)
  }

  // ---------- What getTermsize reads ----------

  /** std::string's operator[]: a NUL at the end of the string. */
  function At(s: seq<Byte>, i: nat): Byte
    requires i <= |s|
  {
    if i < |s| then s[i] else 0
  }

  /** The position of the byte after `pos`, skipping the first of a doubled IAC. */
  function After(s: seq<Byte>, pos: nat): (next: nat)
    requires pos < |s|
    ensures pos < next <= pos + 2 && next <= |s|
  {
    if At(s, pos + 1) == IAC then pos + 2 else pos + 1
  }

  /** A char widened to uint16_t: the sign is extended and then cut off again by the assignment. */
  function Combine(high: Byte, low: Byte): Size16 {
    var asChar := if high >= 128 then high - 256 else high;
    var asU16 := asChar % 0x1_0000;
    (asU16 * 256 + low) % 0x1_0000
  }

  lemma CombineExact(w: Size16)
    ensures Combine(w / 256, w % 256) == w
  {
  }

  lemma PositionsAre(s: seq<Byte>)
    requires |s| >= 9
    ensures var p := Positions(s);
            && p.0 == (if s[3] == IAC then 4 else 3)
            && p.1 == p.0 + (if s[p.0 + 1] == IAC then 2 else 1)
            && p.2 == p.1 + (if s[p.1 + 1] == IAC then 2 else 1)
            && p.3 == p.2 + (if At(s, p.2 + 1) == IAC then 2 else 1)
  {
  }

  datatype Reading = Incomplete | Corrupt(length: nat) | Size(length: nat, w: Size16, h: Size16)

  /** The four byte positions in a buffer of at least nine bytes. */
  function Positions(s: seq<Byte>): (p: (nat, nat, nat, nat))
    requires |s| >= 9
    ensures 3 <= p.0 < p.1 < p.2 < p.3 <= |s|
    ensures p.1 <= 6
  {
    var p1 := After(s, 2);
    var p2 := After(s, p1);
    var p3 := After(s, p2);
    (p1, p2, p3, After(s, p3))
  }

  /** What the first `bpos` bytes of a buffer mean; bytes beyond are stale. */
  function Read(buff: seq<Byte>, bpos: nat): Reading
    requires bpos <= |buff|
  {
    if bpos < 9 then Incomplete
    else
      var (p1, p2, p3, p4) := Positions(buff);
      if p4 + 3 > bpos then Incomplete
      else if buff[p4 + 1] != IAC || buff[p4 + 2] != SE then Corrupt(p4 + 3)
      else Size(p4 + 3, Combine(buff[p1], buff[p2]), Combine(buff[p3], buff[p4]))
  }

  datatype Sizes = Sizes(cols: Size16, rows: Size16)

  /** The sizes after a call. A complete option sets the sizes that are not zero, a corrupt one none. An incomplete
      option that is long enough to be looked at has overwritten both with whatever lies at the four positions. */
  function SizesAfter(held: Sizes, buff: seq<Byte>, bpos: nat): Sizes
    requires bpos <= |buff|
  {
    match Read(buff, bpos)
    case Incomplete =>
      if bpos < 9 then held
      else
        var (p1, p2, p3, p4) := Positions(buff);
        Sizes(Combine(buff[p1], buff[p2]), Combine(At(buff, p3), At(buff, p4)))
    case Corrupt(_) => held
    case Size(_, w, h) => Sizes(if w == 0 then held.cols else w, if h == 0 then held.rows else h)
  }

  /** Read and SizesAfter in terms of the four positions. */
  lemma ReadIs(held: Sizes, buff: seq<Byte>, bpos: nat)
    requires bpos <= |buff|
    ensures bpos < 9 ==> Read(buff, bpos) == Incomplete && SizesAfter(held, buff, bpos) == held
    ensures bpos >= 9 ==>
              var (p1, p2, p3, p4) := Positions(buff);
              var w, h := Combine(buff[p1], buff[p2]), Combine(At(buff, p3), At(buff, p4));
              var r, held' := Read(buff, bpos), SizesAfter(held, buff, bpos);
              if p4 + 3 > bpos then r == Incomplete && held' == Sizes(w, h)
              else if buff[p4 + 1] != IAC || buff[p4 + 2] != SE then r == Corrupt(p4 + 3) && held' == held
              else
                && r == Size(p4 + 3, w, h)
                && held' == Sizes(if w == 0 then held.cols else w, if h == 0 then held.rows else h)
  {
    hide Combine, After;
  }

  // ---------- Decoding inverts encoding ----------

  /** `rest` is what comes after position `pos`. */
  ghost predicate Follows(s: seq<Byte>, pos: nat, rest: seq<Byte>) {
    pos < |s| && s[pos + 1..] == rest
  }

  /** Stepping over a doubled or plain byte. */
  lemma AfterDoubled(s: seq<Byte>, pos: nat, b: Byte, rest: seq<Byte>)
    requires Follows(s, pos, Doubled(b) + rest)
    ensures After(s, pos) == pos + |Doubled(b)| && Follows(s, After(s, pos), rest)
    ensures After(s, pos) < |s| && s[After(s, pos)] == b
  {
    assert s[pos + 1] == s[pos + 1..][0];
    if b == IAC {
      assert s[pos + 2] == s[pos + 1..][1];
      assert s[pos + 3..] == s[pos + 1..][2..];
    } else {
      assert s[pos + 2..] == s[pos + 1..][1..];
    }
  }

  /** For all sizes and any bytes that follow, a complete option is read exactly: its own length and
      both values. */
  lemma ReadsEncoded(w: Size16, h: Size16, tail: seq<Byte>, stale: seq<Byte>)
    ensures Read(Encode(w, h) + tail + stale, |Encode(w, h) + tail|) == Size(|Encode(w, h)|, w, h)
  {
    hide Combine, Frame, Positions;
    var e := Encode(w, h);
    var s := e + tail + stale;
    assert s == e + (tail + stale);
    FramePositions(s, w / 256, w % 256, h / 256, h % 256, tail + stale);
    CombineExact(w);
    CombineExact(h);
  }

  lemma FramePositions(s: seq<Byte>, a: Byte, b: Byte, c: Byte, d: Byte, rest: seq<Byte>)
    requires s == Frame(a, b, c, d) + rest
    ensures |s| >= 9
    ensures var (p1, p2, p3, p4) := Positions(s);
            && p4 + 3 == |Frame(a, b, c, d)| && s[p4 + 1] == IAC && s[p4 + 2] == SE
            && s[p1] == a && s[p2] == b && s[p3] == c && p4 < |s| && s[p4] == d
  {
    FrameSplit(a, b, c, d, rest);
    var r4 := [IAC, SE] + rest;
    var r3 := Doubled(d) + r4;
    var r2 := Doubled(c) + r3;
    var r1 := Doubled(b) + r2;
    FollowsHeader(s, Doubled(a) + r1);
    hide After, Doubled, Frame, Follows;
    AfterDoubled(s, 2, a, r1);
    var p1 := After(s, 2);
    AfterDoubled(s, p1, b, r2);
    var p2 := After(s, p1);
    AfterDoubled(s, p2, c, r3);
    var p3 := After(s, p2);
    AfterDoubled(s, p3, d, r4);
    var p4 := After(s, p3);
    FollowsEnd(s, p4, rest);
  }

  lemma FollowsHeader(s: seq<Byte>, rest: seq<Byte>)
    requires s == [IAC, SB, OPT_NAWS] + rest
    ensures Follows(s, 2, rest)
  {
  }

  lemma FollowsEnd(s: seq<Byte>, pos: nat, rest: seq<Byte>)
    requires Follows(s, pos, [IAC, SE] + rest)
    ensures pos + 2 < |s| && s[pos + 1] == IAC && s[pos + 2] == SE
  {
    assert s[pos + 1] == s[pos + 1..][0] && s[pos + 2] == s[pos + 1..][1];
  }

  lemma FrameSplit(a: Byte, b: Byte, c: Byte, d: Byte, rest: seq<Byte>)
    ensures Frame(a, b, c, d) + rest
         == [IAC, SB, OPT_NAWS] + (Doubled(a) + (Doubled(b) + (Doubled(c) + (Doubled(d) + ([IAC, SE] + rest)))))
    ensures |Frame(a, b, c, d)| == 5 + |Doubled(a)| + |Doubled(b)| + |Doubled(c)| + |Doubled(d)| >= 9
  {
    var x, y, z, u, v := Doubled(a), Doubled(b), Doubled(c), Doubled(d), [IAC, SE];
    var header := [IAC, SB, OPT_NAWS];
    assert |x| >= 1 && |y| >= 1 && |z| >= 1 && |u| >= 1;
    hide Doubled;
    Reassociate(header + x + y + z + u, v, rest);
    Reassociate(header + x + y + z, u, v + rest);
    Reassociate(header + x + y, z, u + (v + rest));
    Reassociate(header + x, y, z + (u + (v + rest)));
    Reassociate(header, x, y + (z + (u + (v + rest))));
  }

  lemma Reassociate(x: seq<Byte>, y: seq<Byte>, z: seq<Byte>)
    ensures (x + y) + z == x + (y + z)
  {
  }

  /** Two buffers that agree up to `n` put every position they reach below `n` in the same place. */
  lemma AfterAgrees(s: seq<Byte>, t: seq<Byte>, n: nat, pos: nat, pos': nat)
    requires n <= |s| && n <= |t| && s[..n] == t[..n]
    requires pos < |s| && pos' < |t| && (pos == pos' || (pos >= n - 2 && pos' >= n - 2))
    ensures After(s, pos) == After(t, pos') || (After(s, pos) >= n - 2 && After(t, pos') >= n - 2)
  {
    if pos == pos' && pos + 1 < n {
      assert s[pos + 1] == s[..n][pos + 1] && t[pos + 1] == t[..n][pos + 1];
    }
  }

  /** Bytes beyond the cut do not matter, and an option is complete from its own length on, no earlier and
      with nothing that follows changing its meaning. */
  lemma ReadCut(s: seq<Byte>, n: nat, t: seq<Byte>, k: nat)
    requires k <= n <= |s| && k <= |t| && s[..k] == t[..k]
    ensures Read(s, n).Incomplete? ==> Read(t, k) == Incomplete
    ensures !Read(s, n).Incomplete? ==>
              && 9 <= Read(s, n).length <= n
              && Read(t, k) == if k < Read(s, n).length then Incomplete else Read(s, n)
  {
    hide Combine, After;
    if k >= 9 {
      SamePositions(s, t, k);
      var p4 := Positions(s).3;
      if p4 + 3 <= k {
        forall i: nat | i <= p4 + 2
          ensures s[i] == t[i]
        {
          assert s[i] == s[..k][i] && t[i] == t[..k][i];
        }
      }
    }
  }

  /** The positions in two buffers that agree up to `n` are the same unless the option goes beyond. */
  lemma SamePositions(s: seq<Byte>, t: seq<Byte>, n: nat)
    requires 9 <= n <= |s| && n <= |t| && s[..n] == t[..n]
    ensures Positions(s) == Positions(t) || (Positions(s).3 + 3 > n && Positions(t).3 + 3 > n)
  {
    var (p1, p2, p3, p4) := Positions(s);
    var (q1, q2, q3, q4) := Positions(t);
    AfterAgrees(s, t, n, 2, 2);
    AfterAgrees(s, t, n, p1, q1);
    AfterAgrees(s, t, n, p2, q2);
    AfterAgrees(s, t, n, p3, q3);
  }

  /** On every proper prefix of an encoded option the reader reports it incomplete, whatever stale
      bytes follow in the buffer. */
  lemma PrefixIncomplete(w: Size16, h: Size16, n: nat, stale: seq<Byte>)
    requires n < |Encode(w, h)|
    ensures Read(Encode(w, h)[..n] + stale, n) == Incomplete
  {
    var e := Encode(w, h);
    ReadsEncoded(w, h, [], []);
    assert e + [] + [] == e && e + [] == e;
    assert (e[..n] + stale)[..n] == e[..n];
    ReadCut(e, |e|, e[..n] + stale, n);
  }

  // ---------- Sizes across packets ----------

  /** What an earlier call saw: the option up to a cut, and stale bytes beyond it. */
  datatype Cut = Cut(n: nat, stale: seq<Byte>)

  /** The sizes after a call for each of the cuts. */
  function SizesOver(held: Sizes, option: seq<Byte>, cuts: seq<Cut>): Sizes
    requires forall i :: 0 <= i < |cuts| ==> cuts[i].n <= |option|
    decreases |cuts|
  {
    if cuts == [] then held
    else SizesOver(SizesAfter(held, option[..cuts[0].n] + cuts[0].stale, cuts[0].n), option, cuts[1..])
  }

  /** A cut is harmless when it is too early for the sizes to be looked at. */
  ghost predicate AllEarly(cuts: seq<Cut>) {
    forall i :: 0 <= i < |cuts| ==> cuts[i].n < 9
  }

  lemma ZeroColumns(s: seq<Byte>, t: seq<Byte>, n: nat, h: Size16)
    requires 9 <= n <= |s| && n <= |t| && s[..n] == t[..n] && t == Encode(0, h) + [0]
    ensures var (p1, p2, _, _) := Positions(s); s[p1] == 0 && s[p2] == 0
  {
    assert t[3] == 0 && t[4] == 0;
    assert s[3] == s[..n][3] && s[4] == s[..n][4];
    assert t[3] == t[..n][3] && t[4] == t[..n][4];
  }

  /** Rows of zero lie within the first nine bytes. */
  lemma RowsEarly(t: seq<Byte>, w: Size16)
    requires t == Encode(w, 0) + [0]
    ensures |t| >= 9
    ensures var (_, _, q3, q4) := Positions(t); q3 <= 7 && q4 <= 8 && t[q3] == 0 && t[q4] == 0
  {
    FramePositions(t, w / 256, w % 256, 0, 0, [0]);
    FrameSplit(w / 256, w % 256, 0, 0, [0]);
    assert |Doubled(w / 256)| <= 2 && |Doubled(w % 256)| <= 2;
    hide Frame, Doubled, After;
  }

  lemma AfterSame(s: seq<Byte>, t: seq<Byte>, pos: nat)
    requires |s| >= 9 && |t| >= 9 && s[..9] == t[..9] && pos <= 7
    ensures After(s, pos) == After(t, pos)
  {
    assert s[pos + 1] == s[..9][pos + 1] && t[pos + 1] == t[..9][pos + 1];
  }

  lemma ZeroRows(s: seq<Byte>, t: seq<Byte>, n: nat, w: Size16)
    requires 9 <= n <= |s| && n <= |t| && s[..n] == t[..n] && t == Encode(w, 0) + [0]
    ensures var (_, _, p3, p4) := Positions(s); At(s, p3) == 0 && At(s, p4) == 0
  {
    RowsEarly(t, w);
    hide Encode, After;
    assert s[..9] == s[..n][..9] && t[..9] == t[..n][..9];
    var (q1, q2, q3, q4) := Positions(t);
    AfterSame(s, t, 2);
    AfterSame(s, t, q1);
    AfterSame(s, t, q2);
    AfterSame(s, t, q3);
    assert s[q3] == s[..9][q3] && t[q3] == t[..9][q3];
    assert s[q4] == s[..9][q4] && t[q4] == t[..9][q4];
  }

  /** A size of zero lies before any cut at which sizes are looked at, and is stored. */
  lemma LateCutStoresZero(held: Sizes, w: Size16, h: Size16, c: Cut)
    requires 9 <= c.n < |Encode(w, h)|
    ensures var r := SizesAfter(held, Encode(w, h)[..c.n] + c.stale, c.n);
            (w == 0 ==> r.cols == 0) && (h == 0 ==> r.rows == 0)
  {
    var e := Encode(w, h);
    var s, t := e[..c.n] + c.stale, e + [0];
    PrefixIncomplete(w, h, c.n, c.stale);
    FramePositions(t, w / 256, w % 256, h / 256, h % 256, [0]);
    hide Frame, Combine, After;
    CombineExact(0);
    if w == 0 {
      ZeroColumns(s, t, c.n, h);
    }
    if h == 0 {
      ZeroRows(s, t, c.n, w);
    }
  }

  /** A whole option, possibly corrupt. */
  predicate Complete(option: seq<Byte>) {
    !Read(option, |option|).Incomplete? && Read(option, |option|).length == |option|
  }

  /** The last cut at which sizes are looked at. */
  function LastLate(cuts: seq<Cut>): (r: Option<Cut>)
    ensures r.Some? ==> r.value in cuts && r.value.n >= 9
  {
    if cuts == [] then None
    else if LastLate(cuts[1..]).Some? then LastLate(cuts[1..])
    else if cuts[0].n >= 9 then Some(cuts[0])
    else None
  }

  /** What a call at such a cut leaves, whatever was held before. */
  function Stored(option: seq<Byte>, c: Cut): Sizes
    requires c.n <= |option|
  {
    SizesAfter(Sizes(0, 0), option[..c.n] + c.stale, c.n)
  }

  lemma CutStores(held: Sizes, option: seq<Byte>, c: Cut)
    requires Complete(option) && c.n < |option|
    ensures SizesAfter(held, option[..c.n] + c.stale, c.n) == if c.n < 9 then held else Stored(option, c)
  {
    assert (option[..c.n] + c.stale)[..c.n] == option[..c.n];
    ReadCut(option, |option|, option[..c.n] + c.stale, c.n);
    hide Read, Positions, Combine;
  }

  lemma {:induction false} LastCutDecides(held: Sizes, option: seq<Byte>, cuts: seq<Cut>)
    requires Complete(option) && forall i :: 0 <= i < |cuts| ==> cuts[i].n < |option|
    ensures SizesOver(held, option, cuts)
         == match LastLate(cuts) case None => held case Some(c) => Stored(option, c)
    decreases |cuts|
  {
    hide Complete, Stored, SizesAfter;
    if cuts != [] {
      var c := cuts[0];
      CutStores(held, option, c);
      LastCutDecides(SizesAfter(held, option[..c.n] + c.stale, c.n), option, cuts[1..]);
    }
  }

  /** Reading any complete option in pieces, with any number of calls before it is complete, leaves the sizes that one
      call would have left exactly when no cut comes after the eighth byte, or what the last such cut stored agrees with
      the held sizes wherever the option falls back to them: in its zeros, and in both sizes if it is corrupt. */
  lemma CutsMatter(held: Sizes, option: seq<Byte>, cuts: seq<Cut>, tail: seq<Byte>, stale: seq<Byte>)
    requires Complete(option) && forall i :: 0 <= i < |cuts| ==> cuts[i].n < |option|
    ensures var all, n := option + tail + stale, |option + tail|;
            (SizesAfter(SizesOver(held, option, cuts), all, n) == SizesAfter(held, all, n)
             <==> match LastLate(cuts)
                  case None => true
                  case Some(c) =>
                    var r := Read(option, |option|);
                    if r.Corrupt? then Stored(option, c) == held
                    else && (r.w == 0 ==> Stored(option, c).cols == held.cols)
                         && (r.h == 0 ==> Stored(option, c).rows == held.rows))
  {
    var all, n := option + tail + stale, |option + tail|;
    LastCutDecides(held, option, cuts);
    assert all[..|option|] == option[..|option|];
    ReadCut(all, n, option, |option|);
    hide Read, Positions, Combine, Stored, SizesOver, LastLate;
  }

  lemma EncodedComplete(w: Size16, h: Size16)
    ensures Complete(Encode(w, h)) && Read(Encode(w, h), |Encode(w, h)|) == Size(|Encode(w, h)|, w, h)
  {
    var e := Encode(w, h);
    assert e + [] + [] == e && e + [] == e;
    ReadsEncoded(w, h, [], []);
    hide Encode, Read;
  }

  /** A well-formed option that is read at once sets the columns and the rows it carries, unless they are zero. */
  lemma EncodedSets(held: Sizes, w: Size16, h: Size16, tail: seq<Byte>, stale: seq<Byte>)
    ensures var r := SizesAfter(held, Encode(w, h) + tail + stale, |Encode(w, h) + tail|);
            r.cols == (if w == 0 then held.cols else w) && r.rows == (if h == 0 then held.rows else h)
  {
    ReadsEncoded(w, h, tail, stale);
    hide Encode, Read, Positions, Combine;
  }

  /** For what a client encodes, this says: no cut comes after the eighth byte, or each size that is zero in the option
      was zero before. */
  lemma EncodedCutsMatter(held: Sizes, w: Size16, h: Size16, cuts: seq<Cut>, tail: seq<Byte>, stale: seq<Byte>)
    requires forall i :: 0 <= i < |cuts| ==> cuts[i].n < |Encode(w, h)|
    ensures var e := Encode(w, h);
            var all, n := e + tail + stale, |e + tail|;
            (SizesAfter(SizesOver(held, e, cuts), all, n) == SizesAfter(held, all, n)
             <==> AllEarly(cuts) || ((w == 0 ==> held.cols == 0) && (h == 0 ==> held.rows == 0)))
  {
    EncodedComplete(w, h);
    CutsMatter(held, Encode(w, h), cuts, tail, stale);
    EarlyIs(cuts);
    if LastLate(cuts).Some? {
      LateCutStoresZero(Sizes(0, 0), w, h, LastLate(cuts).value);
    }
    hide Encode, Read, SizesAfter, SizesOver, LastLate, Complete;
  }

  lemma {:induction false} EarlyIs(cuts: seq<Cut>)
    ensures AllEarly(cuts) <==> LastLate(cuts).None?
  {
    if cuts != [] {
      EarlyIs(cuts[1..]);
      EarlyTail(cuts);
      hide AllEarly;
    }
  }

  lemma EarlyTail(cuts: seq<Cut>)
    requires cuts != []
    ensures AllEarly(cuts) <==> cuts[0].n < 9 && AllEarly(cuts[1..])
  {
    assert forall i :: 1 <= i < |cuts| ==> cuts[i] == cuts[1..][i - 1];
  }

  /** A client reports 0 columns and 65535 rows; the option arrives with its last two bytes in a second packet.
      The columns end as zero instead of the held ones. */
  lemma LateCutLosesColumns(held: Sizes) returns (cut: Cut)
    requires held.cols != 0
    ensures cut.n < |Encode(0, 65535)|
    ensures var e := Encode(0, 65535);
            && SizesAfter(SizesOver(held, e, [cut]), e, |e|) == Sizes(0, 65535)
            && SizesAfter(held, e, |e|) == Sizes(held.cols, 65535)
  {
    var e := Encode(0, 65535);
    cut := Cut(9, []);
    assert e == [IAC, SB, OPT_NAWS, 0, 0, IAC, IAC, IAC, IAC, IAC, SE];
    ReadsEncoded(0, 65535, [], []);
    assert e + [] + [] == e;
    LateCutStoresZero(held, 0, 65535, cut);
    hide Encode, Read, Positions, Combine;
    var held1 := SizesAfter(held, e[..9] + [], 9);
    assert SizesOver(held1, e, [cut][1..]) == held1;
  }

  /** A corrupt option changes no size when it arrives whole, but its bytes have been stored when its last byte arrives
      alone, although none of its sizes is zero. */
  lemma LateCutStoresCorrupt() returns (option: seq<Byte>, cut: Cut)
    ensures option == [IAC, SB, OPT_NAWS, IAC, 255, 0, 0, 50, 1, 1] && cut == Cut(9, [])
    ensures Read(option, |option|) == Corrupt(10)
    ensures forall held: Sizes ::
              && SizesAfter(held, option, 10) == held
              && SizesAfter(SizesOver(held, option, [cut]), option, 10) == Sizes(65280, 50)
  {
    option, cut := [IAC, SB, OPT_NAWS, IAC, 255, 0, 0, 50, 1, 1], Cut(9, []);
    var b := option[..9] + [];
    assert Positions(option) == (4, 5, 6, 7);
    assert Read(option, 10) == Corrupt(10);
    assert Positions(b) == (4, 5, 6, 7);
    assert Combine(255, 0) == 65280 && Combine(0, 50) == 50;
    forall held: Sizes
      ensures SizesAfter(SizesOver(held, option, [cut]), option, 10) == Sizes(65280, 50)
    {
      assert SizesAfter(held, b, 9) == Sizes(65280, 50);
      assert [cut][1..] == [];
      assert SizesOver(Sizes(65280, 50), option, []) == Sizes(65280, 50);
    }
  }
}
