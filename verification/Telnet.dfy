/** The telnet byte-stream reader of User: uRead and parseTelopt with their
    carry-over buffer and in-place text buffers, against a per-byte automaton. */
module Telnet {
  import opened Octets
  import N = Naws

  type Line = seq<Byte>

  // TelnetCmd, TelnetOpt and the characters uRead looks for
  const WILL: Byte := 251
  const WONT: Byte := 252
  const DO: Byte := 253
  const DONT: Byte := 254
  const OPT_ECHO: Byte := 1
  const OPT_SGA: Byte := 3
  const OPT_TERM: Byte := 24
  const NUL: Byte := 0
  const BS: Byte := 8
  const LF: Byte := 10
  const CR: Byte := 13
  const DEL: Byte := 127

  datatype Stage = New | LoginId | Other(n: nat)

  datatype Flags = Flags(echo: bool, sga: bool, termType: bool, termSize: bool, gotInfo: bool)

  /** The rest of a user: whether it is still logging in, and everything that login and
      parseLine look at or change, which stays abstract. */
  datatype Core = Core(stage: Stage, loggingIn: bool, rest: seq<int>)

  datatype Session = Session(flags: Flags, core: Core)

  /** What a delivered line does: login or parseLine may change the core and the text buffer the
      line was in, or throw, which ends the session. They never touch the telnet flags. */
  datatype Outcome = Goes(core: Core, leftover: Line) | Ends

  type Handler = (Core, Line) -> Outcome

  // ---------- The per-byte automaton ----------

  /** Between commands, after IAC, after IAC and a command that takes an option, or inside a sub-negotiation,
      with what has been seen of it from its IAC on. */
  datatype Mode = Ground | Command | Option(cmd: Byte) | Sub(seen: seq<Byte>)

  const AFTER_SB := Sub([IAC, SB])

  datatype Reader = Reader(mode: Mode, text: Line, session: Session, alive: bool, lines: seq<Line>)

  predicate TakesOption(cmd: Byte) {
    cmd == WILL || cmd == WONT || cmd == DO || cmd == DONT
  }

  function CommandLength(cmd: Byte): nat {
    if TakesOption(cmd) then 3 else 2
  }

  /** The flags a command with an option sets. */
  function Negotiated(f: Flags, cmd: Byte, opt: Byte): Flags {
    if cmd == WONT && opt == OPT_NAWS then f.(termSize := true)
    else if cmd == WONT && opt == OPT_TERM then f.(termType := true)
    else if (cmd == DO || cmd == DONT) && opt == OPT_SGA then f.(sga := true)
    else if (cmd == DO || cmd == DONT) && opt == OPT_ECHO then f.(echo := true)
    else f
  }

  /** A window size has arrived; it counts as an answer while logging in. */
  function SizeKnown(s: Session): Session {
    if s.core.loggingIn then s.(flags := s.flags.(termSize := true)) else s
  }

  predicate AllKnown(f: Flags) {
    f.echo && f.sga && f.termType && f.termSize
  }

  /** No login is waiting to be started. */
  predicate Settled(s: Session) {
    AllKnown(s.flags) ==> s.flags.gotInfo
  }

  /** The end of parseTelopt: once all options are known, the login starts. */
  function Check(s: Session): Session {
    if !s.flags.gotInfo && s.flags.echo && s.flags.sga && s.flags.termType && s.flags.termSize then
      Session(s.flags.(gotInfo := true), s.core.(stage := LoginId))
    else s
  }

  /** A data byte: the text is a stack that CR delivers. */
  function Data(h: Handler, r: Reader, b: Byte): Reader {
    if r.session.core.stage == New then r
    else if b == CR then
      var r1 := r.(text := [], lines := r.lines + [r.text]);
      match h(r.session.core, r.text)
      case Goes(core, _) => r1.(session := r.session.(core := core))
      case Ends => r1.(alive := false)
    else if b == NUL || b == LF then r
    else if b == BS || b == DEL then
      if r.text == [] then r else r.(text := r.text[..|r.text| - 1])
    else r.(text := r.text + [b])
  }

  function Feed(h: Handler, r: Reader, b: Byte): Reader {
    if !r.alive then r
    else match r.mode
      case Ground => if b == IAC then r.(mode := Command) else Data(h, r, b)
      case Command =>
        if b == SB then r.(mode := AFTER_SB)
        else if TakesOption(b) then r.(mode := Option(b))
        else r.(mode := Ground, session := Check(r.session))
      case Option(cmd) =>
        r.(mode := Ground, session := Check(r.session.(flags := Negotiated(r.session.flags, cmd, b))))
      case Sub(seen) =>
        if InsideSub(seen + [b]) then r.(mode := Sub(seen + [b]))
        else r.(mode := Ground, session := Check(SizeKnown(r.session)))
  }

  /** The window-size option is not complete yet. */
  predicate InsideSub(seen: seq<Byte>) {
    N.Read(seen, |seen|).Incomplete?
  }

  function Run(h: Handler, r: Reader, s: seq<Byte>): Reader
    decreases |s|
  {
    if s == [] then r else Run(h, Feed(h, r, s[0]), s[1..])
  }

  function NextMode(m: Mode, b: Byte): Mode {
    match m
    case Ground => if b == IAC then Command else Ground
    case Command => if b == SB then AFTER_SB else if TakesOption(b) then Option(b) else Ground
    case Option(_) => Ground
    case Sub(seen) => if InsideSub(seen + [b]) then Sub(seen + [b]) else Ground
  }

  /** Every sub-negotiation in the stream is about the window size. */
  predicate Clean(m: Mode, s: seq<Byte>)
    decreases |s|
  {
    s == [] || ((m == AFTER_SB ==> s[0] == OPT_NAWS) && Clean(NextMode(m, s[0]), s[1..]))
  }

  lemma {:induction false} RunConcat(h: Handler, r: Reader, s: seq<Byte>, t: seq<Byte>)
    ensures Run(h, r, s + t) == Run(h, Run(h, r, s), t)
    decreases |s|
  {
    if s == [] {
      assert s + t == t;
    } else {
      assert (s + t)[1..] == s[1..] + t;
      RunConcat(h, Feed(h, r, s[0]), s[1..], t);
    }
  }

  function EndMode(m: Mode, s: seq<Byte>): Mode
    decreases |s|
  {
    if s == [] then m else EndMode(NextMode(m, s[0]), s[1..])
  }

  lemma {:induction false} CleanConcat(m: Mode, s: seq<Byte>, t: seq<Byte>)
    ensures Clean(m, s + t) <==> Clean(m, s) && Clean(EndMode(m, s), t)
    ensures EndMode(m, s + t) == EndMode(EndMode(m, s), t)
    decreases |s|
  {
    hide NextMode;
    if s == [] {
      assert s + t == t;
    } else {
      assert (s + t)[1..] == s[1..] + t;
      CleanConcat(NextMode(m, s[0]), s[1..], t);
    }
  }

  lemma {:induction false} DeadStays(h: Handler, r: Reader, s: seq<Byte>)
    requires !r.alive
    ensures Run(h, r, s) == r
  {
    if s != [] {
      DeadStays(h, r, s[1..]);
    }
  }

  lemma {:induction false} ModeTracked(h: Handler, r: Reader, s: seq<Byte>)
    ensures Run(h, r, s).alive ==> Run(h, r, s).mode == EndMode(r.mode, s)
    decreases |s|
  {
    if s != [] {
      var r' := Feed(h, r, s[0]);
      ModeTracked(h, r', s[1..]);
      if !r'.alive {
        DeadStays(h, r', s[1..]);
      }
    }
  }

  // ---------- The carry-over buffer ----------

  /** std::string::replace */
  function Replace(s: seq<Byte>, pos: nat, n: nat, t: seq<Byte>): seq<Byte>
    requires pos <= |s|
  {
    s[..pos] + t + if pos + n <= |s| then s[pos + n..] else []
  }

  /** What may be carried over to the next packet: the start of a command. */
  predicate Incomplete(p: seq<Byte>) {
    || p == [IAC]
    || (|p| == 2 && p[0] == IAC && TakesOption(p[1]))
    || (StartsSize(p) && InsideSub(p))
  }

  predicate StartsSize(p: seq<Byte>) {
    |p| >= 3 && p[0] == IAC && p[1] == SB && p[2] == OPT_NAWS
  }

  function PendingMode(p: seq<Byte>): Mode {
    if |p| == 0 then Ground else if |p| == 1 then Command else if p[1] == SB then Sub(p) else Option(p[1])
  }

  lemma CheckFacts(s: Session)
    ensures Check(Check(s)) == Check(s)
    ensures Settled(Check(s)) && (Settled(s) <==> Check(s) == s)
  {
  }

  /** The login starts, in stage LOGIN_ID, when the options have become complete, and only then. */
  lemma CheckStarts(s: Session)
    ensures var s' := Check(s);
            && s'.flags == s.flags.(gotInfo := s.flags.gotInfo || AllKnown(s.flags))
            && (AllKnown(s'.flags) <==> AllKnown(s.flags))
            && s'.core == if s.flags.gotInfo || !AllKnown(s.flags) then s.core else s.core.(stage := LoginId)
  {
  }

  /** What a complete command says about the session. */
  function Answered(s: Session, c: seq<Byte>): Session
    requires |c| >= 2
  {
    if c[1] == SB then SizeKnown(s)
    else if |c| == 3 then s.(flags := Negotiated(s.flags, c[1], c[2]))
    else s
  }

  /** An options check that is owed may be done before or after the next answer. */
  lemma AnswerCommutes(s: Session, c: seq<Byte>)
    requires |c| >= 2
    ensures Check(Answered(Check(s), c)) == Check(Answered(s, c))
  {
  }

  lemma RunOne(h: Handler, r: Reader, b: Byte)
    ensures Run(h, r, [b]) == Feed(h, r, b)
  {
    hide Feed;
    assert [b][1..] == [];
    assert Run(h, r, [b]) == Run(h, Feed(h, r, b), []);
  }

  /** Inside a sub-negotiation the automaton remembers every byte of it. */
  lemma {:induction false} SubRun(h: Handler, r: Reader, p: seq<Byte>)
    requires |p| >= 2 && p[0] == IAC && p[1] == SB && InsideSub(p) && r.alive && r.mode == Ground
    ensures Run(h, r, p) == r.(mode := Sub(p))
  {
    var k := |p| - 1;
    var q := p[..k];
    assert p == q + [p[k]];
    RunConcat(h, r, q, [p[k]]);
    RunOne(h, Run(h, r, q), p[k]);
    if k == 1 {
      assert q == [IAC] && p == [IAC, SB];
      RunOne(h, r, IAC);
    } else {
      N.ReadCut(p, |p|, q, k);
      SubRun(h, r, q);
    }
  }

  /** Feeding the carried bytes from the ground state reaches the pending mode. */
  lemma PendingRun(h: Handler, r: Reader, p: seq<Byte>)
    requires Incomplete(p) && r.alive && r.mode == Ground
    ensures Run(h, r, p) == r.(mode := PendingMode(p))
  {
    if StartsSize(p) {
      SubRun(h, r, p);
    } else {
      RunOne(h, r, IAC);
      if |p| == 2 {
        assert p == [IAC] + [p[1]];
        RunConcat(h, r, [IAC], [p[1]]);
        RunOne(h, Run(h, r, [IAC]), p[1]);
      }
    }
  }

  /** Complete commands other than sub-negotiations, as they appear inside a stream: IAC and a byte other than 250 to
      254, or IAC, 251 to 254 (WILL, WONT, DO or DONT) and an option. */
  predicate IsCommand(c: seq<Byte>) {
    || (|c| == 2 && c[0] == 255 && !(250 <= c[1] <= 254))
    || (|c| == 3 && c[0] == 255 && 251 <= c[1] <= 254)
  }

  /** A complete window-size option, possibly corrupt. */
  predicate IsSize(c: seq<Byte>) {
    StartsSize(c) && N.Complete(c)
  }

  /** A complete command changes the session and nothing else. */
  lemma CommandRun(h: Handler, r: Reader, c: seq<Byte>)
    requires r.alive && r.mode == Ground && (IsCommand(c) || IsSize(c))
    ensures Run(h, r, c) == r.(session := Check(Answered(r.session, c)))
  {
    hide Check, Negotiated, SizeKnown;
    var k := |c| - 1;
    var q := c[..k];
    assert c == q + [c[k]];
    RunConcat(h, r, q, [c[k]]);
    RunOne(h, Run(h, r, q), c[k]);
    if IsSize(c) {
      N.ReadCut(c, |c|, q, k);
      SubRun(h, r, q);
    } else {
      assert q == if |c| == 2 then [IAC] else [IAC, c[1]];
      PendingRun(h, r, q);
    }
  }

  /** The option at the front of the buffer, of the length that was read, is a complete one. */
  lemma FrontIsSize(buff: seq<Byte>, bpos: nat)
    requires bpos <= |buff| && StartsSize(buff[..bpos]) && !N.Read(buff, bpos).Incomplete?
    ensures var n := N.Read(buff, bpos).length;
            9 <= n <= bpos && IsSize(buff[..bpos][..n])
  {
    var p := buff[..bpos];
    N.ReadCut(buff, bpos, p, bpos);
    var n := N.Read(buff, bpos).length;
    assert p[..n][..n] == p[..n];
    N.ReadCut(p, bpos, p[..n], n);
  }

  lemma InsideIs(buff: seq<Byte>, bpos: nat)
    requires bpos <= |buff|
    ensures InsideSub(buff[..bpos]) <==> N.Read(buff, bpos).Incomplete?
  {
    N.ReadCut(buff, bpos, buff[..bpos], bpos);
  }

  lemma RunSplit(h: Handler, r: Reader, p: seq<Byte>, n: nat)
    requires n <= |p|
    ensures Run(h, r, p) == Run(h, Run(h, r, p[..n]), p[n..])
  {
    assert p == p[..n] + p[n..];
    RunConcat(h, r, p[..n], p[n..]);
  }

  /** What a command at the front means for the rest of a stream. */
  lemma FrontEaten(p: seq<Byte>, n: nat)
    requires 2 <= n <= |p| && (IsCommand(p[..n]) || IsSize(p[..n])) && Clean(Ground, p)
    ensures Clean(Ground, p[n..]) && EndMode(Ground, p) == EndMode(Ground, p[n..])
  {
    var c := p[..n];
    assert p == c + p[n..];
    CleanConcat(Ground, c, p[n..]);
    var h: Handler := (core, line) => Ends;
    var session := Session(Flags(false, false, false, false, false), Core(New, false, []));
    var r := Reader(Ground, [], session, true, []);
    CommandRun(h, r, c);
    ModeTracked(h, r, c);
  }

  /** A complete command of n bytes is at the front, and what it does to the session. */
  ghost predicate Eats(p: seq<Byte>, n: nat, before: Session, after: Session) {
    && 2 <= n <= |p|
    && (IsCommand(p[..n]) || IsSize(p[..n]))
    && after == Answered(before, p[..n])
  }

  /** Eating it keeps the meaning of the stream. */
  lemma EatenRun(h: Handler, r: Reader, p: seq<Byte>, n: nat, before: Session, after: Session)
    requires r.alive && r.mode == Ground && Eats(p, n, before, after)
    ensures Run(h, r.(session := Check(before)), p) == Run(h, r.(session := Check(after)), p[n..])
  {
    hide Run, Check, Answered, IsSize, IsCommand;
    var r0 := r.(session := Check(before));
    RunSplit(h, r0, p, n);
    CommandRun(h, r0, p[..n]);
    AnswerCommutes(before, p[..n]);
  }

  lemma EatenKeeps(p: seq<Byte>, n: nat, before: Session, after: Session)
    requires Eats(p, n, before, after)
    ensures after.core == before.core && after.flags.gotInfo == before.flags.gotInfo
  {
    hide IsSize, IsCommand;
  }

  lemma EatenRest(p: seq<Byte>, n: nat, before: Session, after: Session, whole: seq<Byte>, carried: nat)
    requires Eats(p, n, before, after) && Clean(Ground, p) && EndMode(Ground, p) != AFTER_SB
    requires carried <= |whole| && (carried == 0 || Incomplete(whole[..carried]))
    requires p == whole || |p| + carried <= |whole|
    ensures Clean(Ground, p[n..]) && EndMode(Ground, p[n..]) != AFTER_SB
    ensures n <= |p| && |p[n..]| + carried <= |whole|
  {
    hide Clean, EndMode, IsSize, IsCommand, Incomplete;
    FrontEaten(p, n);
    if p == whole {
      LongerThanPending(p, n, carried);
    }
  }

  /** A command is longer than any unfinished start of it. */
  lemma LongerThanPending(p: seq<Byte>, n: nat, k: nat)
    requires n <= |p| && k <= |p| && (IsCommand(p[..n]) || IsSize(p[..n]))
    requires k == 0 || Incomplete(p[..k])
    ensures k < n
  {
    if k >= n {
      assert p[..k][..n] == p[..n];
      if IsSize(p[..n]) {
        N.ReadCut(p[..k], k, p[..n], n);
      }
    }
  }

  /** In a stream whose sub-negotiations are all about the window size, what starts with IAC SB goes on like that. */
  lemma SizeNext(p: seq<Byte>)
    requires |p| >= 2 && p[0] == IAC && p[1] == SB && Clean(Ground, p) && EndMode(Ground, p) != AFTER_SB
    ensures StartsSize(p)
  {
    var front := [IAC, SB];
    assert front[1..] == [SB] && [SB][1..] == [];
    assert EndMode(Ground, front) == EndMode(Command, [SB]) == EndMode(AFTER_SB, []);
    assert p == front + p[2..];
    CleanConcat(Ground, front, p[2..]);
  }

  class User {
    const handler: Handler
    var buff: seq<Byte>
    var bpos: nat
    var textBuffer: seq<Line>
    var buffnum: nat
    var tbpos: nat
    var session: Session
    var alive: bool
    var termCols: N.Size16
    var termRows: N.Size16
    ghost var lines: seq<Line>

    ghost predicate Shaped()
      reads this
    {
      bpos <= |buff| && |textBuffer| == 2 && buffnum < 2 && tbpos <= |textBuffer[buffnum]|
    }

    ghost predicate Valid()
      reads this
    {
      && Shaped()
      && (bpos == 0 || Incomplete(buff[..bpos]))
      && (bpos == 0 ==> Check(session) == session)
    }

    ghost function Text(): Line
      requires Shaped()
      reads this
    {
      textBuffer[buffnum][..tbpos]
    }

    /** The automaton state this object stands for. While a command is pending the options check
        may still be owed, so the session is taken as if it had been done. The sizes are not part of it:
        they may depend on where an option is cut, see Naws.CutsMatter. */
    ghost function View(): Reader
      requires Shaped()
      reads this
    {
      Reader(PendingMode(buff[..bpos]), Text(), Check(session), alive, lines)
    }

    constructor (handler: Handler, core: Core, cols: N.Size16, rows: N.Size16)
      ensures Valid() && this.handler == handler
      ensures View() == Reader(Ground, [], Session(Flags(false, false, false, false, false), core), true, [])
    {
      this.handler := handler;
      buff, bpos, textBuffer, buffnum, tbpos := [], 0, [[], []], 0, 0;
      session := Session(Flags(false, false, false, false, false), core);
      alive, lines, termCols, termRows := true, [], cols, rows;
    }

    /** getTermsize. An incomplete option is left for later; a complete one, corrupt or not, is to be eaten. */
    method GetTermsize() returns (shift: nat)
      requires bpos <= |buff|
      modifies this`termCols, this`termRows, this`session
      ensures shift == (if N.Read(buff, bpos).Incomplete? then 0 else N.Read(buff, bpos).length)
      ensures session == if N.Read(buff, bpos).Incomplete? then old(session) else SizeKnown(old(session))
      ensures N.Sizes(termCols, termRows) == N.SizesAfter(N.Sizes(old(termCols), old(termRows)), buff, bpos)
      ensures bpos < 9 ==> shift == 0
      ensures shift == 0 ==> session == old(session)
      ensures shift == 0 && bpos < 9 ==> termCols == old(termCols) && termRows == old(termRows)
      ensures shift != 0 ==> 9 <= shift <= bpos
      ensures shift != 0 && !(buff[shift - 2] == 255 && buff[shift - 1] == 240) ==>
                termCols == old(termCols) && termRows == old(termRows)
    {
      hide N.Combine, N.After, N.Read, N.SizesAfter, N.Positions, SizeKnown;
      shift := 0;
      N.ReadIs(N.Sizes(termCols, termRows), buff, bpos);
      if bpos < 9 {
        return;
      }
      ghost var p := N.Positions(buff);
      N.PositionsAre(buff);
      var dCols, dRows := termCols, termRows;
      termCols, termRows := 0, 0;
      var pos1: nat := 3 + if buff[3] == IAC then 1 else 0;
      var pos2: nat := pos1 + 1 + if buff[pos1 + 1] == IAC then 1 else 0;
      if pos2 > bpos {
        return;
      }
      termCols := N.Combine(buff[pos1], buff[pos2]);

      pos1 := pos2 + 1 + if buff[pos2 + 1] == IAC then 1 else 0;
      pos2 := pos1 + 1 + if N.At(buff, pos1 + 1) == IAC then 1 else 0;
      termRows := N.Combine(N.At(buff, pos1), N.At(buff, pos2));
      assert pos1 == p.2 && pos2 == p.3;

      if pos2 > bpos - 3 {
        return;
      }
      if buff[pos2 + 1] != IAC || buff[pos2 + 2] != N.SE {
        termCols, termRows := 0, 0;
      }
      if termCols == 0 {
        termCols := dCols;
      }
      if termRows == 0 {
        termRows := dRows;
      }
      session := SizeKnown(session);
      return pos2 + 3;
    }

    /** parseTelopt: eats complete commands from the front of the buffer. False means that an
        incomplete command is left. A buffer that ends right after IAC SB is outside its contract: the
        original then reads a byte that has not arrived. */
    method ParseTelopt(ghost carried: nat) returns (ok: bool)
      requires Shaped() && alive && carried <= bpos && (carried == 0 || Incomplete(buff[..carried]))
      requires Clean(Ground, buff[..bpos]) && EndMode(Ground, buff[..bpos]) != AFTER_SB
      modifies this`buff, this`bpos, this`session, this`termCols, this`termRows
      ensures Shaped() && bpos <= old(bpos)
      ensures Clean(Ground, buff[..bpos]) && EndMode(Ground, buff[..bpos]) != AFTER_SB
      ensures ok ==> bpos == 0 || buff[0] != IAC
      ensures ok ==> Check(session) == session && bpos + carried <= old(bpos)
      ensures ok ==> session.flags.gotInfo == (old(session).flags.gotInfo || AllKnown(session.flags))
      ensures session.core == if session.flags.gotInfo && !old(session).flags.gotInfo
                              then old(session).core.(stage := LoginId)
                              else old(session).core
      ensures !ok ==> bpos > 0 && Incomplete(buff[..bpos])
      ensures var r := Reader(Ground, Text(), Check(old(session)), true, lines);
              Run(handler, r, old(buff[..bpos])) == Run(handler, r.(session := Check(session)), buff[..bpos])
    {
      hide Run, Clean, EndMode, Check, Negotiated, SizeKnown, InsideSub, N.Read, N.SizesAfter, Eats, Incomplete;
      hide AllKnown;
      ghost var whole := buff[..bpos];
      ghost var r := Reader(Ground, Text(), Check(session), true, lines);
      assert whole[..carried] == buff[..carried];
      if carried > 0 {
        PendingStart(whole[..carried]);
      }
      while bpos > 0 && buff[0] == IAC
        invariant Shaped() && bpos <= |whole|
        invariant Clean(Ground, buff[..bpos]) && EndMode(Ground, buff[..bpos]) != AFTER_SB
        invariant buff[..bpos] == whole || bpos + carried <= |whole|
        invariant Run(handler, r, whole) == Run(handler, r.(session := Check(session)), buff[..bpos])
        invariant session.core == old(session).core && session.flags.gotInfo == old(session).flags.gotInfo
        decreases bpos
      {
        ghost var p, before := buff[..bpos], session;
        if bpos < 2 {
          CutCommand(p);
          return false;
        }
        var shift := 2;
        var cmd := buff[1];
        if cmd == SB {
          SizeNext(p);
          shift := GetTermsize();
          SizeAtFront(buff, bpos, before, session);
          if shift == 0 {
            return false;
          }
        } else {
          if TakesOption(cmd) {
            if bpos < 3 {
              CutCommand(p);
              return false;
            }
            session := session.(flags := Negotiated(session.flags, cmd, buff[2]));
            shift := 3;
          }
          CommandAtFront(p, shift, before, session);
        }
        EatenKeeps(p, shift, before, session);
        EatenRun(handler, r, p, shift, before, session);
        EatenRest(p, shift, before, session, whole, carried);
        DropFront(buff, bpos, shift);
        bpos := bpos - shift;
        buff := buff[shift..];
      }
      CheckFacts(session);
      CheckStarts(session);
      session := Check(session);
      ok := true;
    }

    lemma DropFront(b: seq<Byte>, bpos: nat, n: nat)
      requires n <= bpos <= |b|
      ensures b[n..][..bpos - n] == b[..bpos][n..]
    {
    }

    lemma PendingStart(p: seq<Byte>)
      requires Incomplete(p)
      ensures p != [] && p[0] == IAC
    {
    }

    lemma CutCommand(p: seq<Byte>)
      requires p != [] && p[0] == IAC && |p| <= 2 && (|p| == 2 ==> TakesOption(p[1]))
      ensures Incomplete(p)
    {
    }

    /** What getTermsize found at the front. */
    lemma SizeAtFront(buff: seq<Byte>, bpos: nat, before: Session, after: Session)
      requires bpos <= |buff| && StartsSize(buff[..bpos])
      requires after == if N.Read(buff, bpos).Incomplete? then before else SizeKnown(before)
      ensures if N.Read(buff, bpos).Incomplete? then Incomplete(buff[..bpos])
              else N.Read(buff, bpos).length > 0 && Eats(buff[..bpos], N.Read(buff, bpos).length, before, after)
    {
      hide IsSize, SizeKnown, N.Read;
      if N.Read(buff, bpos).Incomplete? {
        InsideIs(buff, bpos);
        hide InsideSub;
      } else {
        FrontIsSize(buff, bpos);
      }
    }

    lemma CommandAtFront(p: seq<Byte>, n: nat, before: Session, after: Session)
      requires |p| >= n && n >= 2 && p[0] == IAC && p[1] != SB && n == CommandLength(p[1])
      requires after == if n == 3 then before.(flags := Negotiated(before.flags, p[1], p[2])) else before
      ensures Eats(p, n, before, after)
    {
      hide Negotiated;
    }

    /** The data part of uRead's loop body, for one byte. The text buffer is overwritten in place
        and keeps whatever it held beyond the cursor. */
    method DataByte(b: Byte)
      requires Shaped() && alive && bpos == 0 && Check(session) == session
      modifies this`textBuffer, this`buffnum, this`tbpos, this`session, this`alive, this`lines
      ensures Shaped() && Check(session) == session
      ensures View() == Data(handler, old(View()), b)
    {
      if session.core.stage == New {
        return;
      }
      if b == CR {
        var line := textBuffer[buffnum][..tbpos];
        textBuffer := textBuffer[buffnum := line];
        tbpos := 0;
        lines := lines + [line];
        match handler(session.core, textBuffer[buffnum])
        case Goes(core, leftover) =>
          textBuffer := textBuffer[buffnum := leftover];
          if !session.core.loggingIn {
            buffnum := 1 - buffnum;
          }
          session := session.(core := core);
        case Ends =>
          alive := false;
      } else if b == NUL || b == LF {
      } else if b == BS || b == DEL {
        if tbpos > 0 {
          ghost var was := Text();
          tbpos := tbpos - 1;
          textBuffer := textBuffer[buffnum := textBuffer[buffnum][..tbpos]];
          assert Text() == was[..|was| - 1];
        }
      } else {
        textBuffer := textBuffer[buffnum := Replace(textBuffer[buffnum], tbpos, 1, [b])];
        tbpos := tbpos + 1;
      }
    }

    /** The command part of uRead's loop body: the new bytes join the carried ones, and complete commands
        are eaten. Unless a command is cut short, what is left is data. */
    method Absorb(arrived: seq<Byte>) returns (ok: bool)
      requires Valid() && alive && arrived != [] && (arrived[0] == IAC || bpos > 0)
      requires Clean(View().mode, arrived) && EndMode(View().mode, arrived) != AFTER_SB
      modifies this`buff, this`bpos, this`session, this`termCols, this`termRows
      ensures Shaped() && (!ok || bpos == 0 ==> Valid())
      ensures !ok || bpos == 0 ==> View() == Run(handler, old(View()), arrived)
      ensures ok ==> Check(session) == session
      ensures ok ==> Clean(Ground, buff[..bpos]) && EndMode(Ground, buff[..bpos]) != AFTER_SB
      ensures ok && bpos > 0 ==> buff[0] != IAC && bpos <= |arrived|
      ensures ok && bpos > 0 ==>
                var r := Reader(Ground, Text(), session, true, lines);
                Run(handler, r, buff[..bpos]) == Run(handler, old(View()), arrived)
    {
      hide Run, Clean, EndMode, Check, Incomplete;
      ghost var b0, p0 := buff, bpos;
      ghost var v := View();
      var remain := |arrived|;
      buff := Replace(buff, bpos, remain, arrived);
      bpos := bpos + remain;
      assert buff[..bpos] == b0[..p0] + arrived && buff[..p0] == b0[..p0];
      Joined(handler, v, b0[..p0], arrived);
      ok := ParseTelopt(p0);
      ghost var r := v.(mode := Ground, session := Check(session));
      CheckFacts(session);
      if !ok {
        PendingRun(handler, r, buff[..bpos]);
      } else if bpos == 0 {
        assert buff[..bpos] == [];
        RunNothing(handler, r);
      }
    }

    lemma RunNothing(h: Handler, r: Reader)
      ensures Run(h, r, []) == r
    {
    }

    /** uRead, for one packet. */
    method URead(packet: seq<Byte>)
      requires Valid() && Clean(View().mode, packet) && EndMode(View().mode, packet) != AFTER_SB
      modifies this`buff, this`bpos, this`textBuffer, this`buffnum, this`tbpos, this`session, this`alive, this`lines,
               this`termCols, this`termRows
      ensures Valid()
      ensures View() == Run(handler, old(View()), packet)
    {
      hide Run, Clean, EndMode, Check, Incomplete, Data;
      if !alive {
        DeadStays(handler, View(), packet);
        return;
      }
      ghost var goal := Run(handler, View(), packet);
      var input, len, i := packet, |packet|, 0;
      assert input[0..] == input;
      while i < len
        invariant Valid() && alive
        invariant i <= len == |input| && (bpos > 0 ==> i == 0)
        invariant Clean(View().mode, input[i..]) && EndMode(View().mode, input[i..]) != AFTER_SB
        invariant goal == Run(handler, View(), input[i..])
        decreases len - i
      {
        if input[i] == IAC || bpos > 0 {
          var ok := Absorb(input[i..]);
          if !ok || bpos == 0 {
            return;
          }
          len := bpos;
          input := buff[..len];
          i, bpos := 0, 0;
          assert input[0..] == input;
        }
        ghost var w := View();
        DataFront(handler, w, input[i..]);
        assert input[i..][1..] == input[i + 1..];
        DataByte(input[i]);
        i := i + 1;
        if !alive {
          DeadStays(handler, View(), input[i..]);
          return;
        }
      }
      assert input[i..] == [];
      RunNothing(handler, View());
    }

    /** A data byte at the front of a stream. */
    lemma DataFront(h: Handler, r: Reader, s: seq<Byte>)
      requires r.alive && r.mode == Ground && s != [] && s[0] != IAC
      ensures Run(h, r, s) == Run(h, Data(h, r, s[0]), s[1..]) && Data(h, r, s[0]).mode == Ground
      ensures Clean(Ground, s) ==> Clean(Ground, s[1..])
      ensures EndMode(Ground, s) == EndMode(Ground, s[1..])
    {
    }

    /** Carried bytes and new bytes together, seen from the ground state. */
    lemma Joined(h: Handler, v: Reader, p: seq<Byte>, s: seq<Byte>)
      requires p == [] || Incomplete(p)
      requires v.alive && v.mode == PendingMode(p) && Clean(v.mode, s)
      ensures Clean(Ground, p + s) && EndMode(Ground, p + s) == EndMode(v.mode, s)
      ensures Run(h, v, s) == Run(h, v.(mode := Ground), p + s)
    {
      hide Feed, Incomplete, NextMode;
      RunConcat(h, v.(mode := Ground), p, s);
      CleanConcat(Ground, p, s);
      if p == [] {
        assert p + s == s;
      } else {
        PendingRun(h, v.(mode := Ground), p);
        ModeTracked(h, v.(mode := Ground), p);
        PendingClean(p);
      }
    }

    lemma {:induction false} PendingClean(p: seq<Byte>)
      requires Incomplete(p)
      ensures Clean(Ground, p) && EndMode(Ground, p) == PendingMode(p)
      decreases |p|
    {
      if |p| > 2 {
        var k := |p| - 1;
        var q := p[..k];
        N.ReadCut(p, |p|, q, k);
        assert p == q + [p[k]];
        if k == 2 {
          AfterSb(q);
        } else {
          PendingClean(q);
        }
        CleanConcat(Ground, q, [p[k]]);
        OneMode(Sub(q), p[k]);
      } else {
        OneMode(Ground, IAC);
        if |p| == 2 {
          assert p == [IAC] + [p[1]];
          CleanConcat(Ground, [IAC], [p[1]]);
          OneMode(Command, p[1]);
        }
      }
    }

    lemma OneMode(m: Mode, b: Byte)
      ensures EndMode(m, [b]) == NextMode(m, b) && (Clean(m, [b]) <==> m == AFTER_SB ==> b == OPT_NAWS)
    {
      hide NextMode;
      assert [b][1..] == [];
    }

    lemma AfterSb(q: seq<Byte>)
      requires q == [IAC, SB]
      ensures Clean(Ground, q) && EndMode(Ground, q) == AFTER_SB
    {
      assert q == [IAC] + [SB];
      CleanConcat(Ground, [IAC], [SB]);
      OneMode(Ground, IAC);
      OneMode(Command, SB);
    }

    /** A connection's life so far: one uRead for each packet that arrived. */
    method ReadPackets(packets: seq<seq<Byte>>)
      requires Valid() && Clean(View().mode, Flatten(packets)) && WellCut(View().mode, packets)
      modifies this`buff, this`bpos, this`textBuffer, this`buffnum, this`tbpos, this`session, this`alive, this`lines,
               this`termCols, this`termRows
      ensures Valid()
      ensures View() == Run(handler, old(View()), Flatten(packets))
      ensures bpos == 0 ==> session == View().session
    {
      hide Feed, Incomplete, Clean, NextMode, Check;
      ghost var r0 := View();
      ghost var all := Flatten(packets);
      var k := 0;
      assert packets[..0] == [] && packets[0..] == packets;
      while k < |packets|
        invariant 0 <= k <= |packets|
        invariant Valid()
        invariant all == Flatten(packets[..k]) + Flatten(packets[k..])
        invariant View() == Run(handler, r0, Flatten(packets[..k]))
      {
        ghost var done := Flatten(packets[..k]);
        FlattenAt(packets, k);
        RunConcat(handler, r0, done, packets[k]);
        if alive {
          Ahead(handler, r0, done, packets[k], Flatten(packets[k + 1..]));
          URead(packets[k]);
        } else {
          DeadStays(handler, View(), packets[k]);
        }
        k := k + 1;
      }
      assert packets[..k] == packets && Flatten(packets[k..]) == [];
      assert all == Flatten(packets);
    }
  }

  // ---------- Packet boundaries ----------

  function Flatten(packets: seq<seq<Byte>>): seq<Byte> {
    if packets == [] then [] else packets[0] + Flatten(packets[1..])
  }

  lemma {:induction false} FlattenAppend(packets: seq<seq<Byte>>, p: seq<Byte>)
    ensures Flatten(packets + [p]) == Flatten(packets) + p
  {
    if packets == [] {
      assert packets + [p] == [p] && [p][1..] == [];
    } else {
      assert (packets + [p])[1..] == packets[1..] + [p];
      FlattenAppend(packets[1..], p);
      assert packets[0] + (Flatten(packets[1..]) + p) == (packets[0] + Flatten(packets[1..])) + p;
    }
  }

  lemma FlattenAt(packets: seq<seq<Byte>>, k: nat)
    requires k < |packets|
    ensures Flatten(packets[..k + 1]) == Flatten(packets[..k]) + packets[k]
    ensures Flatten(packets[..k]) + Flatten(packets[k..])
         == Flatten(packets[..k]) + (packets[k] + Flatten(packets[k + 1..]))
    ensures Flatten(packets[..k]) + Flatten(packets[k..]) == Flatten(packets[..k + 1]) + Flatten(packets[k + 1..])
  {
    FlattenAppend(packets[..k], packets[k]);
    assert packets[..k] + [packets[k]] == packets[..k + 1];
    assert packets[k..][1..] == packets[k + 1..];
  }

  /** No packet ends between the SB of a sub-negotiation and its option byte. */
  ghost predicate WellCut(m: Mode, packets: seq<seq<Byte>>) {
    forall k :: 0 <= k <= |packets| ==> EndMode(m, Flatten(packets[..k])) != AFTER_SB
  }

  /** What is known of a whole stream is known of the packet that comes next. */
  lemma Ahead(h: Handler, r: Reader, done: seq<Byte>, next: seq<Byte>, rest: seq<Byte>)
    requires Clean(r.mode, done + (next + rest)) && Run(h, r, done).alive
    ensures Clean(Run(h, r, done).mode, next)
    ensures EndMode(Run(h, r, done).mode, next) == EndMode(r.mode, done + next)
  {
    CleanConcat(r.mode, done, next);
    CleanConcat(r.mode, done, next + rest);
    ModeTracked(h, r, done);
    CleanConcat(EndMode(r.mode, done), next, rest);
  }

  /** Packet boundaries do not matter: two users in the same state, whatever stale bytes their buffers hold, that
      receive the same bytes split in different ways, end with the same delivered lines, telnet flags, stage, text
      being typed and pending command. */
  method SplitsAgree(u: User, v: User, p: seq<seq<Byte>>, q: seq<seq<Byte>>)
    requires u != v && u.Valid() && v.Valid() && u.handler == v.handler && u.View() == v.View()
    requires Flatten(p) == Flatten(q) && Clean(u.View().mode, Flatten(p))
    requires WellCut(u.View().mode, p) && WellCut(u.View().mode, q)
    modifies u, v
    ensures u.Valid() && v.Valid() && u.View() == v.View()
    ensures u.lines == v.lines && u.alive == v.alive && u.Text() == v.Text()
    ensures u.buff[..u.bpos] == v.buff[..v.bpos]
    ensures u.bpos == 0 ==> u.session == v.session
  {
    u.ReadPackets(p);
    v.ReadPackets(q);
    SamePending(u.buff[..u.bpos], v.buff[..v.bpos]);
  }

  lemma SamePending(p: seq<Byte>, q: seq<Byte>)
    requires (p == [] || Incomplete(p)) && (q == [] || Incomplete(q)) && PendingMode(p) == PendingMode(q)
    ensures p == q
  {
  }

  // ---------- The line editor ----------

  /** What a terminal user sees on the line: printable bytes appended, the last one rubbed out. */
  function Edited(text: Line, typed: seq<Byte>): Line
    decreases |typed|
  {
    if typed == [] then text
    else
      var b := typed[0];
      var text' :=
        if b == BS || b == DEL then (if text == [] then [] else text[..|text| - 1])
        else if b == NUL || b == LF then text
        else text + [b];
      Edited(text', typed[1..])
  }

  /** BS and DEL rub out, NUL and LF are ignored, and everything else is appended. */
  lemma EditedMeans(text: Line, b: Byte, more: seq<Byte>)
    ensures b == 8 || b == 127 ==>
              Edited(text, [b] + more) == Edited(if text == [] then [] else text[..|text| - 1], more)
    ensures b == 0 || b == 10 ==> Edited(text, [b] + more) == Edited(text, more)
    ensures b !in {0, 8, 10, 127} ==> Edited(text, [b] + more) == Edited(text + [b], more)
    ensures Edited(text, []) == text
  {
    assert ([b] + more)[1..] == more;
  }

  /** A data byte that does not end the line. */
  predicate IsTyped(p: seq<Byte>) {
    |p| == 1 && p[0] != 255 && p[0] != 13
  }

  /** The typed bytes among commands. */
  function Typed(parts: seq<seq<Byte>>): seq<Byte> {
    if parts == [] then []
    else if IsTyped(parts[0]) then parts[0] + Typed(parts[1..])
    else Typed(parts[1..])
  }

  /** One part of a line: a command or a size leaves the text alone, and the core too unless the options are
      complete with it. */
  lemma PartRun(h: Handler, r: Reader, p: seq<Byte>, more: seq<Byte>)
    requires r.alive && r.mode == Ground && r.session.core.stage != New
    requires IsTyped(p) || IsCommand(p) || IsSize(p)
    ensures var r' := Run(h, r, p);
            && r'.alive && r'.mode == Ground && r'.session.core.stage != New && r'.lines == r.lines
            && Edited(r.text, if IsTyped(p) then p + more else more) == Edited(r'.text, more)
            && (r.session.flags.gotInfo ==> r'.session.flags.gotInfo && r'.session.core == r.session.core)
  {
    if IsTyped(p) {
      assert p == [p[0]];
      RunOne(h, r, p[0]);
      EditedMeans(r.text, p[0], more);
      hide Edited, Run;
    } else {
      CommandRun(h, r, p);
      hide Run, Edited;
    }
  }

  /** Typing a line, with any commands between its bytes: the text is the edited one. */
  lemma {:induction false} TypedText(h: Handler, r: Reader, parts: seq<seq<Byte>>)
    requires r.alive && r.mode == Ground && r.session.core.stage != New
    requires forall i :: 0 <= i < |parts| ==> IsTyped(parts[i]) || IsCommand(parts[i]) || IsSize(parts[i])
    ensures var e := Run(h, r, Flatten(parts));
            && e.alive && e.mode == Ground && e.session.core.stage != New && e.lines == r.lines
            && e.text == Edited(r.text, Typed(parts))
            && (r.session.flags.gotInfo ==> e.session.flags.gotInfo && e.session.core == r.session.core)
    decreases |parts|
  {
    hide IsCommand, IsSize, IsTyped;
    if parts == [] {
      EditedMeans(r.text, 0, []);
    } else {
      RunConcat(h, r, parts[0], Flatten(parts[1..]));
      PartRun(h, r, parts[0], Typed(parts[1..]));
      hide Run, Edited;
      TypedText(h, Run(h, r, parts[0]), parts[1..]);
    }
  }

  /** Ending the line with CR delivers it: login or parseLine gets exactly the text, its effect on the core is kept, and
      the next line starts empty. */
  lemma LineEnds(h: Handler, r: Reader)
    requires r.alive && r.mode == Ground && r.session.core.stage != New
    ensures var e := Run(h, r, [13]);
            && e.lines == r.lines + [r.text] && e.text == [] && e.session.flags == r.session.flags
            && match h(r.session.core, r.text)
               case Goes(core, _) => e.alive && e.mode == Ground && e.session.core == core
               case Ends => !e.alive
  {
    RunOne(h, r, 13);
  }

  /** Typing a line, with any commands between its bytes, and ending it with CR delivers exactly the edited
      text, whatever was typed, rubbed out or left in the buffers before. */
  lemma TypedLineDelivered(h: Handler, r: Reader, parts: seq<seq<Byte>>)
    requires r.alive && r.mode == Ground && r.session.core.stage != New
    requires forall i :: 0 <= i < |parts| ==> IsTyped(parts[i]) || IsCommand(parts[i]) || IsSize(parts[i])
    ensures var e, line := Run(h, r, Flatten(parts) + [13]), Edited(r.text, Typed(parts));
            && e.lines == r.lines + [line] && e.text == []
            && (r.session.flags.gotInfo ==>
                  match h(r.session.core, line)
                  case Goes(core, _) => e.alive && e.mode == Ground && e.session.core == core
                  case Ends => !e.alive)
  {
    hide IsCommand, IsSize, IsTyped, Run, Edited;
    RunConcat(h, r, Flatten(parts), [13]);
    TypedText(h, r, parts);
    LineEnds(h, Run(h, r, Flatten(parts)));
  }

  // ---------- Negotiation ----------

  /** One unit of a stream: a command, a window size or a data byte. */
  predicate IsPart(p: seq<Byte>) {
    IsCommand(p) || IsSize(p) || (|p| == 1 && p[0] != 255)
  }

  predicate Says(p: seq<Byte>, cmds: set<Byte>, opt: Byte) {
    |p| == 3 && p[0] == 255 && p[1] in cmds && p[2] == opt
  }

  /** Some part of the stream is one of these commands about this option. */
  predicate Sent(parts: seq<seq<Byte>>, cmds: set<Byte>, opt: Byte) {
    exists i :: 0 <= i < |parts| && Says(parts[i], cmds, opt)
  }

  lemma SentStep(parts: seq<seq<Byte>>, cmds: set<Byte>, opt: Byte)
    requires parts != []
    ensures Sent(parts, cmds, opt) <==> Says(parts[0], cmds, opt) || Sent(parts[1..], cmds, opt)
  {
    if Sent(parts[1..], cmds, opt) {
      var i :| 0 <= i < |parts[1..]| && Says(parts[1..][i], cmds, opt);
      assert Says(parts[i + 1], cmds, opt);
    }
    if Sent(parts, cmds, opt) && !Says(parts[0], cmds, opt) {
      var i :| 0 <= i < |parts| && Says(parts[i], cmds, opt);
      assert parts[1..][i - 1] == parts[i];
    }
  }

  /** A window size arrives while the user is logging in. */
  ghost predicate SizeAt(h: Handler, r: Reader, parts: seq<seq<Byte>>, i: nat)
    requires i < |parts|
  {
    IsSize(parts[i]) && Run(h, r, Flatten(parts[..i])).session.core.loggingIn
  }

  ghost predicate SizeSent(h: Handler, r: Reader, parts: seq<seq<Byte>>) {
    exists i: nat :: i < |parts| && SizeAt(h, r, parts, i)
  }

  lemma SizeAtStep(h: Handler, r: Reader, parts: seq<seq<Byte>>, i: nat)
    requires 0 < i < |parts|
    ensures SizeAt(h, r, parts, i) <==> SizeAt(h, Run(h, r, parts[0]), parts[1..], i - 1)
  {
    hide Feed, IsSize;
    assert parts[..i][1..] == parts[1..][..i - 1];
    RunConcat(h, r, parts[0], Flatten(parts[1..][..i - 1]));
  }

  lemma SizeSentStep(h: Handler, r: Reader, parts: seq<seq<Byte>>)
    requires parts != []
    ensures SizeSent(h, r, parts) <==>
            (IsSize(parts[0]) && r.session.core.loggingIn) || SizeSent(h, Run(h, r, parts[0]), parts[1..])
  {
    var r', rest := Run(h, r, parts[0]), parts[1..];
    assert SizeAt(h, r, parts, 0) <==> IsSize(parts[0]) && r.session.core.loggingIn by {
      assert Flatten(parts[..0]) == [];
    }
    hide SizeAt, IsSize, Run;
    if SizeSent(h, r', rest) {
      var i: nat :| i < |rest| && SizeAt(h, r', rest, i);
      SizeAtStep(h, r, parts, i + 1);
    }
    if SizeSent(h, r, parts) && !SizeAt(h, r, parts, 0) {
      var i: nat :| i < |parts| && SizeAt(h, r, parts, i);
      SizeAtStep(h, r, parts, i);
    }
  }

  /** What one part does to the session. */
  lemma PartFlags(h: Handler, r: Reader, p: seq<Byte>)
    requires r.alive && r.mode == Ground && Settled(r.session) && IsPart(p)
    ensures var e, f := Run(h, r, p), r.session.flags;
            var f' := e.session.flags;
            && e.mode == Ground && Settled(e.session)
            && f'.echo == (f.echo || Says(p, {253, 254}, 1))
            && f'.sga == (f.sga || Says(p, {253, 254}, 3))
            && f'.termType == (f.termType || Says(p, {252}, 24))
            && f'.termSize == (f.termSize || Says(p, {252}, 31) || (IsSize(p) && r.session.core.loggingIn))
            && f'.gotInfo == (f.gotInfo || AllKnown(f'))
            && (r.session.core.stage == New && !f'.gotInfo ==> e == r.(session := Session(f', r.session.core)))
            && (r.session.core.stage == New || IsCommand(p) || IsSize(p) ==>
                  && e == r.(session := e.session)
                  && e.session.core == if f'.gotInfo && !f.gotInfo then r.session.core.(stage := LoginId)
                                        else r.session.core)
  {
    CheckFacts(r.session);
    if IsSize(p) {
      CommandRun(h, r, p);
      SizeIsLong(p);
      hide InsideSub;
    } else if IsCommand(p) {
      CommandRun(h, r, p);
    } else {
      assert p == [p[0]];
      RunOne(h, r, p[0]);
    }
    hide Run;
  }

  lemma SizeIsLong(p: seq<Byte>)
    requires IsSize(p)
    ensures |p| >= 9
  {
  }

  /** A flag is set exactly when it was or when an answer about its option has been in the stream: DO or DONT (253, 254)
      about ECHO (1) or SGA (3), WONT (252) about the terminal type (24) or size (31), or a size. The options are
      complete exactly when all four are known, and until then a new session takes no input. */
  lemma {:induction false} FlagsExact(h: Handler, r: Reader, parts: seq<seq<Byte>>)
    requires r.alive && r.mode == Ground && Settled(r.session)
    requires forall i :: 0 <= i < |parts| ==> IsPart(parts[i])
    ensures var e, f := Run(h, r, Flatten(parts)), r.session.flags;
            var f' := e.session.flags;
            && (e.alive ==>
                  && f'.echo == (f.echo || Sent(parts, {253, 254}, 1))
                  && f'.sga == (f.sga || Sent(parts, {253, 254}, 3))
                  && f'.termType == (f.termType || Sent(parts, {252}, 24))
                  && f'.termSize == (f.termSize || Sent(parts, {252}, 31) || SizeSent(h, r, parts))
                  && f'.gotInfo == (f.gotInfo || AllKnown(f')))
            && (f.gotInfo ==> f'.gotInfo)
            && (r.session.core.stage == New && !f'.gotInfo ==> e == r.(session := Session(f', r.session.core)))
    decreases |parts|
  {
    if parts != [] {
      hide IsPart, Says, Sent, SizeSent, IsSize, Feed;
      var p := parts[0];
      var r' := Run(h, r, p);
      RunConcat(h, r, p, Flatten(parts[1..]));
      PartFlags(h, r, p);
      SentStep(parts, {253, 254}, 1);
      SentStep(parts, {253, 254}, 3);
      SentStep(parts, {252}, 24);
      SentStep(parts, {252}, 31);
      SizeSentStep(h, r, parts);
      hide Run, Check;
      if r'.alive {
        FlagsExact(h, r', parts[1..]);
      } else {
        DeadStays(h, r', Flatten(parts[1..]));
      }
    }
  }

  /** The part with which the options of a new session become complete starts the login: right after it the core is the
      old one in stage LOGIN_ID, and nothing else has changed. */
  lemma LoginStarts(h: Handler, r: Reader, parts: seq<seq<Byte>>, k: nat)
    requires r.alive && r.mode == Ground && Settled(r.session) && r.session.core.stage == New
    requires k < |parts| && forall i :: 0 <= i <= k ==> IsPart(parts[i])
    requires !Run(h, r, Flatten(parts[..k])).session.flags.gotInfo
    ensures var e := Run(h, r, Flatten(parts[..k + 1]));
            && e == r.(session := e.session)
            && e.session.core == if e.session.flags.gotInfo then r.session.core.(stage := LoginId) else r.session.core
  {
    hide IsPart, Says, Sent, SizeSent, IsSize, IsCommand, Feed, Run;
    var before := parts[..k];
    var s := Run(h, r, Flatten(before));
    FlagsExact(h, r, before);
    assert parts[..k + 1] == before + [parts[k]];
    FlattenAppend(before, parts[k]);
    RunConcat(h, r, Flatten(before), parts[k]);
    PartFlags(h, s, parts[k]);
  }

  /** Logging in: negotiation, in whatever order and with whatever typed meanwhile, and then a typed line with CR
      delivers exactly the edited line, to a login in stage LOGIN_ID. */
  lemma LoginLine(h: Handler, r: Reader, parts: seq<seq<Byte>>, line: seq<seq<Byte>>)
    requires r.alive && r.mode == Ground && Settled(r.session) && r.session.core.stage == New
    requires parts != [] && forall i :: 0 <= i < |parts| ==> IsPart(parts[i])
    requires !Run(h, r, Flatten(parts[..|parts| - 1])).session.flags.gotInfo
    requires Run(h, r, Flatten(parts)).session.flags.gotInfo
    requires forall i :: 0 <= i < |line| ==> IsTyped(line[i]) || IsCommand(line[i]) || IsSize(line[i])
    ensures var e, text := Run(h, r, Flatten(parts) + (Flatten(line) + [13])), Edited(r.text, Typed(line));
            && e.lines == r.lines + [text] && e.text == []
            && match h(r.session.core.(stage := LoginId), text)
               case Goes(core, _) => e.alive && e.mode == Ground && e.session.core == core
               case Ends => !e.alive
  {
    hide IsPart, IsTyped, IsSize, IsCommand, Run, Edited;
    var k := |parts| - 1;
    assert parts[..k + 1] == parts;
    LoginStarts(h, r, parts, k);
    RunConcat(h, r, Flatten(parts), Flatten(line) + [13]);
    TypedLineDelivered(h, Run(h, r, Flatten(parts)), line);
  }
}
