/** LineReader and AsynchronousReader of csv.h: a window of two blocks, and a third block that a worker
    fills while the lines of the window are handed out. */
module CsvReader {
  import opened CsvLines
  import Lists
  import opened ReadAhead

  const BLOCK_LEN: nat := 0x100000

  /** How often finish_read or the worker still has to move before finish_read returns. */
  function TurnsLeft(s: State): nat {
    match s.main
    case Waiting => if Answered(s) then 1 else 3
    case Dozing => 2
    case _ => 0
  }

  lemma WakesUp(s: State)
    requires Inv(s) && s.worker == Asleep
    ensures Inv(s.(worker := Checking)) && (!s.terminate ==> s.desired == -1 && s.main != Dozing)
  {
  }

  lemma TurnKeeps(s: State, n: nat)
    requires Inv(s) && s.worker == Checking && !s.terminate && !s.error && n <= s.desired + 1
    requires s.desired == -1 || n <= s.desired
    ensures Inv(WorkerTurn(s, Bytes(n)))
    ensures s.desired != -1 ==> s.open && s.count == -1 && !s.ended
    ensures s.main == Dozing ==> s.desired != -1
    ensures s.open && s.count == 0 ==> s.worker == Exited
  {
  }

  lemma MayEnter(s: State)
    requires Inv(s) && s.main == Away && s.open && !s.ended
    ensures Inv(s.(main := Waiting))
  {
  }

  lemma TestKeeps(s: State)
    requires Inv(s) && s.main == Waiting && !s.error
    ensures Inv(Tested(s)) && s.count >= -1 && !s.ended && s.open
    ensures s.count == 0 ==> s.worker == Exited
    ensures Tested(s).main == Away || Tested(s).main == Dozing
    ensures Tested(s).main == Away ==> s.count >= 0 && !Tested(s).open && (Tested(s).ended <==> s.count == 0)
    ensures Tested(s).main == Dozing ==> Tested(s) == s.(main := Dozing) && !Answered(s)
  {
  }

  lemma IsEnded(s: State)
    requires Inv(s) && s.worker == Exited && !s.terminate && !s.error
    ensures s.main != Dozing
  {
  }

  /** The asynchronous reader, over a source that reads as many bytes as it is asked for until its end. */
  class AsynchronousReader {
    const buffer: array<char>
    /** whether there is a byte source */
    var valid: bool
    /** what the byte source still holds */
    var source: string
    var state: State

    constructor (buffer: array<char>)
      ensures this.buffer == buffer && !valid
    {
      this.buffer, this.valid, this.source := buffer, false, [];
      this.state := State(Checking, Away, -1, -1, false, false, false, false);
    }

    /** What holds at every step; the reading thread may be inside finish_read. */
    ghost predicate Core(): (b: bool)
      reads this
      ensures b ==> buffer.Length == 3 * BLOCK_LEN
    {
      && buffer.Length == 3 * BLOCK_LEN
      && (valid ==> Inv(state) && !state.terminate && !state.error)
      && (valid && state.desired != -1 ==> state.desired == BLOCK_LEN)
      && (valid && state.open && state.count != -1 ==>
         state.count <= BLOCK_LEN && (state.count < BLOCK_LEN ==> source == []))
      && (valid && state.worker == Exited ==> source == [])
    }

    ghost predicate Ok(): (b: bool)
      reads this
      ensures b ==> Core()
    {
      Core() && (valid ==> state.main == Away)
    }

    /** The two blocks the worker does not touch. */
    ghost function Window(): (w: string)
      requires buffer.Length == 3 * BLOCK_LEN
      reads buffer
      ensures |w| == 2 * BLOCK_LEN
    {
      buffer[..2 * BLOCK_LEN]
    }

    /** What has been read into the third block but not been collected. */
    ghost function Block(): string
      requires Core()
      reads this, buffer
    {
      if valid && state.open && state.count != -1 then buffer[2 * BLOCK_LEN..2 * BLOCK_LEN + state.count] else []
    }

    /** All that is still to be collected. */
    ghost function Ahead(): (r: string)
      requires Core()
      reads this, buffer
      ensures !valid ==> r == []
    {
      if valid then Block() + source else []
    }

    /** The end of the source has been collected. */
    predicate Ended(): (b: bool)
      reads this
      ensures b ==> valid
    {
      valid && state.ended
    }

    /** One turn of the worker, whenever it holds the lock. */
    method WorkerTurns()
      requires Core()
      modifies this`source, this`state, buffer
      ensures Core() && Ahead() == old(Ahead()) && state.open == old(state.open) && Ended() == old(Ended())
      ensures Window() == old(Window())
      ensures state.main == old(state.main) || (old(state.main) == Dozing && state.main == Waiting)
      ensures old(valid && state.main == Dozing) ==> Answered(state) && state.main == Waiting
    {
      hide Inv;
      if valid {
        ghost var s := state;
        if state.worker == Asleep {
          state := state.(worker := Checking);
          WakesUp(s);
        } else if state.worker == Checking {
          var n := if state.desired == -1 then 0 else if |source| < state.desired then |source| else state.desired;
          TurnKeeps(state, n);
          if state.desired != -1 {
            FillBlock(n);
          }
          state := WorkerTurn(state, Bytes(n));
        } else {
          IsEnded(s);
        }
      }
    }

    /** read of the byte source into the third block */
    method FillBlock(n: nat)
      requires buffer.Length == 3 * BLOCK_LEN && n <= |source| && n <= BLOCK_LEN
      modifies this`source, buffer
      ensures source == old(source)[n..] && buffer[2 * BLOCK_LEN..2 * BLOCK_LEN + n] + source == old(source)
      ensures Window() == old(Window())
    {
      forall i | 0 <= i < n { buffer[2 * BLOCK_LEN + i] := source[i]; }
      assert buffer[2 * BLOCK_LEN..2 * BLOCK_LEN + n] == source[..n];
      assert source[..n] + source[n..] == source;
      source := source[n..];
    }

    /** Any number of turns of the worker, at any time. */
    method Interleave()
      requires Ok()
      modifies this`source, this`state, buffer
      ensures Ok() && Ahead() == old(Ahead()) && state.open == old(state.open) && Ended() == old(Ended())
      ensures Window() == old(Window())
    {
      var turns: nat :| true;
      for i := 0 to turns
        invariant Ok() && Ahead() == old(Ahead()) && state.open == old(state.open) && Ended() == old(Ended())
        invariant Window() == old(Window())
      {
        WorkerTurns();
      }
    }

    /** memcpy of the second block over the first */
    method MoveDown()
      requires Ok()
      modifies buffer
      ensures Window() == old(Window())[BLOCK_LEN..] + old(Window())[BLOCK_LEN..]
      ensures Ok() && Ahead() == old(Ahead()) && Ended() == old(Ended())
    {
      ghost var third := buffer[2 * BLOCK_LEN..];
      forall i | 0 <= i < BLOCK_LEN { buffer[i] := buffer[BLOCK_LEN + i]; }
      assert buffer[2 * BLOCK_LEN..] == third;
      BlockOf(third);
    }

    /** memcpy of the third block over the second, when no read is under way */
    method MoveUp()
      requires Ok() && !state.open
      modifies buffer
      ensures Window() == old(Window())[..BLOCK_LEN] + old(buffer[2 * BLOCK_LEN..])
      ensures Ok() && Ahead() == old(Ahead()) && Ended() == old(Ended())
    {
      forall i | BLOCK_LEN <= i < 2 * BLOCK_LEN { buffer[i] := buffer[BLOCK_LEN + i]; }
    }

    /** A character written into the window */
    method Put(i: nat, c: char)
      requires Ok() && i < 2 * BLOCK_LEN
      modifies buffer
      ensures Window() == old(Window())[i := c] && Window() == buffer[..][..2 * BLOCK_LEN]
      ensures Ok() && Ahead() == old(Ahead()) && Ended() == old(Ended())
    {
      ghost var third := buffer[2 * BLOCK_LEN..];
      buffer[i] := c;
      assert buffer[2 * BLOCK_LEN..] == third;
      BlockOf(third);
    }

    lemma BlockOf(third: string)
      requires Core() && buffer[2 * BLOCK_LEN..] == third
      ensures Block() == if valid && state.open && state.count != -1 then third[..state.count] else []
    {
    }

    method Init(rest: string)
      requires Ok() && !valid
      modifies this`valid, this`source, this`state
      ensures Ok() && valid && Ahead() == rest && !state.open && !Ended()
    {
      valid, source := true, rest;
      state := State(Checking, Away, -1, -1, false, false, false, false);
    }

    method StartRead()
      requires Ok() && valid && !state.open
      modifies this`state
      ensures Ok() && state.open && Ahead() == old(Ahead()) && Ended() == old(Ended())
    {
      state := Started(state, BLOCK_LEN);
    }

    /** A read has been collected: n bytes of what was ahead, none only at the end. */
    ghost predicate Collected(ahead: string, n: nat)
      reads this, buffer
    {
      && Ok() && valid && !state.open && n <= BLOCK_LEN && (n < BLOCK_LEN ==> Ahead() == [])
      && (Ended() <==> n == 0) && ahead == buffer[2 * BLOCK_LEN..2 * BLOCK_LEN + n] + Ahead()
    }

    /** Inside finish_read, with nothing collected yet */
    ghost predicate Expecting(ahead: string)
      reads this, buffer
    {
      Core() && valid && (state.main.Waiting? || state.main.Dozing?) && Ahead() == ahead && !Ended() && state.open
    }

    /** finish_read tests its condition: it collects the block, or goes to sleep. */
    method TestCondition(ghost ahead: string) returns (n: nat)
      requires Expecting(ahead) && state.main == Waiting
      modifies this`state
      ensures if state.main == Away then Collected(ahead, n) else Expecting(ahead)
      ensures TurnsLeft(state) < old(TurnsLeft(state))
    {
      hide Inv, Called;
      TestKeeps(state);
      state := Tested(state);
      n := if state.main == Away then state.count else 0;
    }

    /** finish_read sleeps while the worker takes a turn. */
    method Doze(ghost ahead: string)
      requires Expecting(ahead) && state.main == Dozing
      modifies this`source, this`state, buffer
      ensures Expecting(ahead) && Window() == old(Window())
      ensures TurnsLeft(state) < old(TurnsLeft(state))
    {
      hide Inv, Called;
      WorkerTurns();
    }

    /** Waits for the worker, which is there to answer as long as the end has not been collected. */
    method FinishRead() returns (n: nat)
      requires Ok() && valid && state.open && !Ended()
      modifies this`source, this`state, buffer
      ensures Ok() && valid && !state.open && n <= BLOCK_LEN && (n < BLOCK_LEN ==> Ahead() == [])
      ensures old(Ahead()) == buffer[2 * BLOCK_LEN..2 * BLOCK_LEN + n] + Ahead()
      ensures Ended() <==> n == 0
      ensures Window() == old(Window())
    {
      hide Inv, Called, WakeWorker, WakeMain, WorkerTurn;
      ghost var ahead := Ahead();
      n := 0;
      MayEnter(state);
      state := state.(main := Waiting);
      while state.main != Away
        invariant buffer.Length == 3 * BLOCK_LEN && Window() == old(Window())
        invariant if state.main == Away then Collected(ahead, n) else Expecting(ahead)
        decreases TurnsLeft(state)
      {
        if state.main == Waiting {
          n := TestCondition(ahead);
        } else {
          Doze(ahead);
        }
      }
    }
  }

  /** What next_line answers: no line, a pointer to one, or an exception that names the line. */
  datatype Answer = End | LineAt(p: nat) | TooLong(fileLine: nat)

  class LineReader {
    const buffer: array<char>
    const reader: AsynchronousReader
    var dataBegin: nat
    var dataEnd: nat
    var fileLine: nat

    /** init */
    constructor (file: string)
      ensures Valid() && Unread() == Text(file) && fileLine == 0 && fresh(buffer) && fresh(reader)
    {
      hide HasBom, Text, Inv;
      fileLine := 0;
      var b, n := FirstRead(file);
      buffer := b;
      var r := new AsynchronousReader(b);
      reader := r;
      dataBegin, dataEnd := 0, n;
      new;
      BomIn(b[..n]);
      if dataEnd >= 3 && buffer[0] == '\U{EF}' && buffer[1] == '\U{BB}' && buffer[2] == '\U{BF}' {
        dataBegin := 3;
      }
      TextOf(file, n, dataBegin);
      assert reader.Window()[dataBegin..dataEnd] == file[..n][dataBegin..];
      if dataEnd == 2 * BLOCK_LEN {
        reader.Init(file[2 * BLOCK_LEN..]);
        reader.StartRead();
      }
    }

    static method FirstRead(file: string) returns (b: array<char>, n: nat)
      ensures fresh(b) && b.Length == 3 * BLOCK_LEN && n <= |file| && n <= 2 * BLOCK_LEN
        && (n < 2 * BLOCK_LEN ==> n == |file|)
      ensures b[..n] == file[..n]
    {
      b := new char[3 * BLOCK_LEN];
      n := if |file| < 2 * BLOCK_LEN then |file| else 2 * BLOCK_LEN;
      forall i | 0 <= i < n { b[i] := file[i]; }
    }

    static lemma BomIn(s: string)
      ensures HasBom(s) <==> |s| >= 3 && s[0] == '\U{EF}' && s[1] == '\U{BB}' && s[2] == '\U{BF}'
    {
      assert |s| >= 3 ==> s[..3] == [s[0], s[1], s[2]];
    }

    static lemma TextOf(file: string, n: nat, begin: nat)
      requires n <= |file| && n <= 2 * BLOCK_LEN && (n < 2 * BLOCK_LEN ==> n == |file|)
        && begin == if HasBom(file[..n]) then 3 else 0
      ensures begin <= n && file[..n][begin..] + file[n..] == Text(file) && (n == |file| ==> file[n..] == [])
    {
      assert HasBom(file[..n]) <==> HasBom(file) by {
        assert n >= 3 ==> file[..n][..3] == file[..3];
      }
      assert file[..n][begin..] + file[n..] == file[begin..];
    }

    /** A window of at most two blocks; it is full while anything is left to read. Between two lines a
        read is always under way, unless the whole file fitted into the window. */
    ghost predicate Valid()
      reads this, reader, buffer
    {
      && reader.buffer == buffer && reader.Ok() && dataBegin <= dataEnd <= 2 * BLOCK_LEN
      && (reader.valid ==> reader.state.open)
      && (reader.Ahead() != [] ==> dataBegin < dataEnd == 2 * BLOCK_LEN)
      && (reader.Ended() ==> dataEnd <= BLOCK_LEN || dataBegin == dataEnd)
    }

    /** The text that has not been handed out. */
    ghost function Unread(): string
      requires Valid()
      reads this, reader, buffer
    {
      reader.Window()[dataBegin..dataEnd] + reader.Ahead()
    }

    /** Drop the first block, and append the one that has been read meanwhile. */
    method Shift()
      requires Valid() && BLOCK_LEN <= dataBegin < dataEnd
      modifies this`dataBegin, this`dataEnd, reader, buffer
      ensures Valid() && Unread() == old(Unread()) && dataBegin < dataEnd && dataBegin < BLOCK_LEN
    {
      hide AsynchronousReader.Ok, AsynchronousReader.Core, AsynchronousReader.Ahead, AsynchronousReader.Window,
        AsynchronousReader.Ended;
      ghost var w := reader.Window();
      reader.MoveDown();
      ShiftedWindow(w, reader.Window(), dataBegin, dataEnd);
      dataBegin, dataEnd := dataBegin - BLOCK_LEN, dataEnd - BLOCK_LEN;
      if reader.valid {
        Refill();
      }
    }

    method Refill()
      requires reader.buffer == buffer && reader.Ok() && reader.valid && reader.state.open && !reader.Ended()
      requires dataBegin < dataEnd <= BLOCK_LEN && (reader.Ahead() != [] ==> dataEnd == BLOCK_LEN)
      modifies this`dataEnd, reader, buffer
      ensures Valid() && dataBegin < dataEnd && Unread() == old(reader.Window()[dataBegin..dataEnd] + reader.Ahead())
    {
      hide AsynchronousReader.Ok, AsynchronousReader.Core, AsynchronousReader.Ahead, AsynchronousReader.Window,
        AsynchronousReader.Ended;
      ghost var w, ahead := reader.Window(), reader.Ahead();
      var n := reader.FinishRead();
      ghost var third := buffer[2 * BLOCK_LEN..];
      assert third[..n] == buffer[2 * BLOCK_LEN..2 * BLOCK_LEN + n];
      reader.MoveUp();
      AppendedBlock(w, third, reader.Window(), dataBegin, dataEnd, n);
      dataEnd := dataEnd + n;
      reader.StartRead();
    }

    /** How far the line at the start of the window goes in it. */
    method FindEnd() returns (lineEnd: nat)
      requires Valid()
      modifies reader, buffer
      ensures Valid() && reader.Window() == old(reader.Window()) && reader.Ahead() == old(reader.Ahead())
      ensures reader.Ended() == old(reader.Ended())
      ensures dataBegin <= lineEnd <= dataEnd && NEWLINE !in reader.Window()[dataBegin..lineEnd]
      ensures lineEnd < dataEnd ==> reader.Window()[lineEnd] == NEWLINE
    {
      hide AsynchronousReader.Ok, AsynchronousReader.Core, AsynchronousReader.Ahead, AsynchronousReader.Ended;
      lineEnd := dataBegin;
      ghost var w := reader.Window();
      while lineEnd != dataEnd && buffer[lineEnd] != NEWLINE
        invariant dataBegin <= lineEnd <= dataEnd && NEWLINE !in w[dataBegin..lineEnd]
        invariant Valid() && reader.Ahead() == old(reader.Ahead()) && reader.Window() == w
          && reader.Ended() == old(reader.Ended())
        decreases dataEnd - lineEnd
      {
        assert buffer[lineEnd] == w[lineEnd];
        assert w[dataBegin..lineEnd + 1] == w[dataBegin..lineEnd] + [w[lineEnd]];
        lineEnd := lineEnd + 1;
        reader.Interleave();
      }
    }

    /** Ends the line in the buffer, and steps behind it. */
    method CutLine(lineEnd: nat) returns (p: nat)
      requires Valid() && dataBegin <= lineEnd <= dataEnd && dataBegin < dataEnd && lineEnd - dataBegin < BLOCK_LEN
        && dataBegin < BLOCK_LEN
      requires lineEnd == dataEnd ==> reader.Ahead() == []
      requires reader.Ended() ==> dataEnd <= BLOCK_LEN
      modifies this`dataBegin, this`dataEnd, buffer
      ensures Valid() && p <= buffer.Length
        && CString(buffer[p..]) == old(CString(StripCr(reader.Window()[dataBegin..lineEnd])))
      ensures Unread() == if old(lineEnd == dataEnd) then [] else old(Unread())[lineEnd + 1 - old(dataBegin)..]
    {
      hide AsynchronousReader.Ok, AsynchronousReader.Core, AsynchronousReader.Ahead, AsynchronousReader.Window,
        AsynchronousReader.Ended;
      hide CString, StripCr;
      ghost var w, ahead, last := reader.Window(), reader.Ahead(), lineEnd == dataEnd;
      if lineEnd == dataEnd {
        dataEnd := dataEnd + 1;
      }
      Terminate(lineEnd, dataEnd);
      p := dataBegin;
      UnreadAfter(w, reader.Window(), ahead, p, lineEnd, dataEnd, last);
      dataBegin := lineEnd + 1;
    }

    /** The line's end, and a carriage return before it, become terminators. */
    method Terminate(lineEnd: nat, ghost end: nat)
      requires reader.buffer == buffer && reader.Ok() && dataBegin <= lineEnd < end <= 2 * BLOCK_LEN
      modifies buffer
      ensures reader.Ok() && reader.Ahead() == old(reader.Ahead()) && reader.Ended() == old(reader.Ended())
      ensures dataBegin <= buffer.Length
      ensures CString(buffer[dataBegin..]) == old(CString(StripCr(reader.Window()[dataBegin..lineEnd])))
      ensures reader.Window()[lineEnd + 1..end] == old(reader.Window())[lineEnd + 1..end]
    {
      hide AsynchronousReader.Ok, AsynchronousReader.Core, AsynchronousReader.Ahead, AsynchronousReader.Window,
        AsynchronousReader.Ended;
      hide CString, StripCr;
      ghost var w := reader.Window();
      reader.Put(lineEnd, NUL);
      ghost var v := reader.Window();
      if lineEnd != dataBegin && buffer[lineEnd - 1] == CR {
        reader.Put(lineEnd - 1, NUL);
      }
      LineInBuffer(w, v, reader.Window(), buffer[..], dataBegin, lineEnd, end);
      assert buffer[dataBegin..] == buffer[..][dataBegin..];
    }

    /** next_line: the next line of the text as a C string in the buffer, unless it is too long; the
        worker may move at any time. */
    method NextLine() returns (a: Answer)
      requires Valid()
      modifies this, reader, buffer
      ensures Valid()
      ensures old(Unread()) == [] ==> a == End && Unread() == [] && fileLine == old(fileLine)
      ensures old(Unread()) != [] ==> fileLine == NextNumber(old(fileLine))
      ensures old(Unread()) != [] && |RawLine(old(Unread()))| >= BLOCK_LEN ==>
        a == TooLong(fileLine) && Unread() == old(Unread())
      ensures old(Unread()) != [] && |RawLine(old(Unread()))| < BLOCK_LEN ==>
        && a.LineAt? && a.p <= buffer.Length && CString(buffer[a.p..]) == CString(StripCr(RawLine(old(Unread()))))
        && Unread() == Rest(old(Unread()))
    {
      hide AsynchronousReader.Ok, AsynchronousReader.Core, AsynchronousReader.Ahead, AsynchronousReader.Window,
        AsynchronousReader.Ended;
      hide CString, StripCr, RawLine, Rest;
      reader.Interleave();
      if dataBegin == dataEnd {
        return End;
      }
      fileLine := NextNumber(fileLine);
      if dataBegin >= BLOCK_LEN {
        Shift();
      }
      ghost var u := Unread();
      var lineEnd := FindEnd();
      ghost var w := reader.Window();
      FirstLineOf(u, w, dataBegin, dataEnd, reader.Ahead(), lineEnd);
      if lineEnd - dataBegin + 1 > BLOCK_LEN {
        return TooLong(fileLine);
      }
      var p := CutLine(lineEnd);
      a := LineAt(p);
    }

    /** The line counter has 32 bits. */
    static function NextNumber(n: nat): nat { (n + 1) % 0x1_0000_0000 }
  }

  lemma ShiftedWindow(w: string, v: string, begin: nat, end: nat)
    requires |w| == 2 * BLOCK_LEN && v == w[BLOCK_LEN..] + w[BLOCK_LEN..] && BLOCK_LEN <= begin <= end <= 2 * BLOCK_LEN
    ensures v[begin - BLOCK_LEN..end - BLOCK_LEN] == w[begin..end]
  {
  }

  lemma AppendedBlock(w: string, third: string, v: string, begin: nat, end: nat, n: nat)
    requires |w| == 2 * BLOCK_LEN && |third| == BLOCK_LEN && v == w[..BLOCK_LEN] + third
    requires begin <= end <= BLOCK_LEN && n <= BLOCK_LEN && (n > 0 ==> end == BLOCK_LEN)
    ensures v[begin..end + n] == w[begin..end] + third[..n]
  {
    assert w[..BLOCK_LEN][begin..end] == w[begin..end];
    forall i | begin <= i < end + n ensures v[i] == (w[begin..end] + third[..n])[i - begin] {
      assert i < end ==> v[i] == w[i];
    }
  }

  /** The two terminators: at the end of the line, and over its carriage return. */
  lemma Terminated(w: string, v: string, x: string, begin: nat, lineEnd: nat, end: nat)
    requires |w| == 2 * BLOCK_LEN && begin <= lineEnd < 2 * BLOCK_LEN && lineEnd < end <= |w| && v == w[lineEnd := NUL]
    requires x == if lineEnd != begin && v[lineEnd - 1] == CR then v[lineEnd - 1 := NUL] else v
    ensures var line := StripCr(w[begin..lineEnd]);
      |line| <= lineEnd - begin && x[begin..begin + |line|] == line && x[begin + |line|] == NUL
    ensures x[lineEnd + 1..end] == w[lineEnd + 1..end]
  {
    var line := StripCr(w[begin..lineEnd]);
    forall i | 0 <= i < |line| ensures x[begin + i] == line[i] { assert line[i] == w[begin..lineEnd][i]; }
  }

  lemma LineInBuffer(w: string, v: string, x: string, all: string, begin: nat, lineEnd: nat, end: nat)
    requires |w| == 2 * BLOCK_LEN && begin <= lineEnd < 2 * BLOCK_LEN && lineEnd < end <= |w| && v == w[lineEnd := NUL]
    requires x == if lineEnd != begin && v[lineEnd - 1] == CR then v[lineEnd - 1 := NUL] else v
    requires |x| <= |all| && x == all[..|x|]
    ensures CString(all[begin..]) == CString(StripCr(w[begin..lineEnd]))
    ensures x[lineEnd + 1..end] == w[lineEnd + 1..end]
  {
    Terminated(w, v, x, begin, lineEnd, end);
    hide StripCr, CString;
    var line := StripCr(w[begin..lineEnd]);
    InFrontPart(all, x, begin, begin + |line|);
    CutAt(all, begin, line);
  }

  lemma UnreadAfter(w: string, x: string, ahead: string, begin: nat, lineEnd: nat, end: nat, last: bool)
    requires |x| == |w| == 2 * BLOCK_LEN && begin <= lineEnd < end <= |w| && x[lineEnd + 1..end] == w[lineEnd + 1..end]
    requires last ==> ahead == [] && lineEnd + 1 == end
    ensures last ==> x[lineEnd + 1..end] + ahead == []
    ensures !last ==> x[lineEnd + 1..end] + ahead == (w[begin..end] + ahead)[lineEnd + 1 - begin..]
  {
  }

  lemma CutAt(all: string, begin: nat, line: string)
    requires begin + |line| < |all| && all[begin..begin + |line|] == line && all[begin + |line|] == NUL
    ensures CString(all[begin..]) == CString(line)
  {
    hide CString;
    var q := begin + |line|;
    Lists.TailInThree(all, begin, q);
    CStringCut(line, all[q + 1..]);
  }

  lemma InFrontPart(all: string, x: string, a: nat, b: nat)
    requires |x| <= |all| && x == all[..|x|] && a <= b <= |x|
    ensures all[a..b] == x[a..b] && (b < |x| ==> all[b] == x[b])
  {
    forall i | a <= i < b ensures all[i] == x[i] { }
  }

  /** The window decides where the first line of the unread text ends, if it is short enough. */
  lemma FirstLineOf(u: string, w: string, begin: nat, end: nat, ahead: string, lineEnd: nat)
    requires |w| == 2 * BLOCK_LEN && begin < end <= |w| && begin <= lineEnd <= end && begin < BLOCK_LEN
    requires u == w[begin..end] + ahead && NEWLINE !in w[begin..lineEnd]
    requires lineEnd < end ==> w[lineEnd] == NEWLINE
    requires ahead != [] ==> end == 2 * BLOCK_LEN
    ensures u != [] && (|RawLine(u)| < BLOCK_LEN <==> lineEnd - begin < BLOCK_LEN)
    ensures lineEnd - begin < BLOCK_LEN ==>
      && RawLine(u) == w[begin..lineEnd] && (lineEnd == end ==> ahead == [])
      && Rest(u) == if lineEnd == end then [] else u[lineEnd + 1 - begin..]
  {
    hide RawLine;
    var line, tail := w[begin..lineEnd], w[lineEnd..end] + ahead;
    TwoParts(w, begin, lineEnd, end, ahead);
    NoNewlineYet(line, tail);
    if lineEnd < end || ahead == [] { RawLineOf(line, tail); }
  }

  lemma TwoParts(w: string, begin: nat, mid: nat, end: nat, ahead: string)
    requires begin <= mid <= end <= |w|
    ensures w[begin..end] + ahead == w[begin..mid] + (w[mid..end] + ahead)
    ensures mid < end ==> (w[mid..end] + ahead)[0] == w[mid]
  {
  }

  /** A client that reads to the end gets the lines of the whole file, up to the first that is too long. */
  method ReadAll(file: string) returns (lines: seq<string>, failed: bool)
    ensures lines == LinesUpTo(Text(file), 0x100000) && (failed <==> !AllShort(Text(file), 0x100000))
    ensures !failed ==> lines == Lines(Text(file))
  {
    hide LineReader.Valid, LineReader.Unread, CString, StripCr, RawLine, Rest, Text, Lines;
    var reader := new LineReader(file);
    lines, failed := [], false;
    ghost var text := Text(file);
    var more := true;
    while more
      invariant reader.Valid() && fresh(reader) && fresh(reader.buffer) && fresh(reader.reader)
      invariant more ==> !failed && lines + LinesUpTo(reader.Unread(), BLOCK_LEN) == LinesUpTo(text, BLOCK_LEN)
      invariant more ==> (AllShort(reader.Unread(), BLOCK_LEN) <==> AllShort(text, BLOCK_LEN))
      invariant !more ==> lines == LinesUpTo(text, BLOCK_LEN) && (failed <==> !AllShort(text, BLOCK_LEN))
      decreases |reader.Unread()|, more
    {
      var a := reader.NextLine();
      match a
      case End => more := false;
      case TooLong(_) => more, failed := false, true;
      case LineAt(p) => lines := lines + [CString(reader.buffer[p..])];
    }
    if !failed { ShortLinesAreAll(text, BLOCK_LEN); }
  }
}
