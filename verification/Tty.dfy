/** The line discipline of kernel/tty.c: a line buffer in front of a ring buffer. */
module Tty {
  const SIZE: nat := 4096
  const ERASE: char := 127 as char

  // ----- the discipline on values

  /** The ring contents, oldest first, and the line being edited. */
  datatype State = State(ring: seq<char>, line: seq<char>)

  function Mapped(c: char, icrnl: bool): (r: char) {
    if icrnl && c == '\r' then '\n' else c
  }

  /** One character of line editing; a character that does not fit drops the whole line. */
  function Edited(line: seq<char>, c: char): (r: seq<char>) {
    if c == ERASE then if line == [] then [] else line[..|line| - 1]
    else if |line| >= SIZE - 1 then []
    else line + [c]
  }

  /** A newline that still fits the line commits it. */
  predicate Commits(line: seq<char>, c: char) {
    c == '\n' && |line| < SIZE - 1
  }

  /** How much of a line the ring can take. */
  function Fitting(ring: seq<char>, line: seq<char>): (n: nat)
    ensures n <= |line|
  {
    if |ring| >= SIZE - 1 then 0
    else if |line| <= SIZE - 1 - |ring| then |line| else SIZE - 1 - |ring|
  }

  /** An input character in canonical mode. */
  function Input(s: State, c: char): (s': State) {
    var line := Edited(s.line, c);
    if Commits(s.line, c) then State(s.ring + line[..Fitting(s.ring, line)], []) else State(s.ring, line)
  }

  /** An input character in raw mode. */
  function RawInput(s: State, c: char): (s': State) {
    if |s.ring| < SIZE - 1 then s.(ring := s.ring + [c]) else s
  }

  /** The number of characters a nonblocking read returns: up to `count`, in canonical mode no further than a newline. */
  function ReadLength(ring: seq<char>, count: nat, canonical: bool): (n: nat)
    ensures n <= |ring| && n <= count
    decreases count
  {
    if count == 0 || ring == [] then 0
    else if canonical && ring[0] == '\n' then 1
    else 1 + ReadLength(ring[1..], count - 1, canonical)
  }

  /** A canonical read stops behind the first newline, at the requested count, or when the ring is empty. */
  lemma {:induction false} ReadStops(ring: seq<char>, count: nat)
    ensures var n := ReadLength(ring, count, true);
      && (forall i :: 0 <= i < n - 1 ==> ring[i] != '\n')
      && (n == count || n == |ring| || (n > 0 && ring[n - 1] == '\n'))
    decreases count
  {
    if count > 0 && ring != [] && ring[0] != '\n' {
      ReadStops(ring[1..], count - 1);
      var n := ReadLength(ring[1..], count - 1, true);
      forall i | 0 <= i < n ensures ring[i] != '\n' {
        if i > 0 {
          assert ring[i] == ring[1..][i - 1];
        }
      }
      assert n > 0 ==> ring[1..][n - 1] == ring[n];
    }
  }

  // ----- the ring in place

  function Count(tail: nat, head: nat): (n: nat)
    requires tail < SIZE && head < SIZE
    ensures n < SIZE
  {
    if head >= tail then head - tail else head + SIZE - tail
  }

  function Wrap(i: nat): (r: nat)
    requires i < 2 * SIZE
    ensures r < SIZE
  {
    if i >= SIZE then i - SIZE else i
  }

  /** The `n` characters from `tail` on. */
  function Ring(buf: seq<char>, tail: nat, n: nat): (r: seq<char>)
    requires |buf| == SIZE && tail < SIZE && n < SIZE
    ensures |r| == n && forall i :: 0 <= i < n ==> r[i] == buf[Wrap(tail + i)]
  {
    seq(n, i requires 0 <= i < n => buf[Wrap(tail + i)])
  }

  lemma {:induction false} RingPut(buf: seq<char>, tail: nat, head: nat, c: char)
    requires |buf| == SIZE && tail < SIZE && head < SIZE && Count(tail, head) < SIZE - 1
    ensures (head + 1) % SIZE == Wrap(head + 1) && Count(tail, Wrap(head + 1)) == Count(tail, head) + 1
    ensures Ring(buf[head := c], tail, Count(tail, head) + 1) == Ring(buf, tail, Count(tail, head)) + [c]
  {
  }

  lemma {:induction false} RingGet(buf: seq<char>, tail: nat, head: nat)
    requires |buf| == SIZE && tail < SIZE && head < SIZE && Count(tail, head) > 0
    ensures (tail + 1) % SIZE == Wrap(tail + 1) && Count(Wrap(tail + 1), head) == Count(tail, head) - 1
    ensures Ring(buf, tail, Count(tail, head)) == [buf[tail]] + Ring(buf, Wrap(tail + 1), Count(tail, head) - 1)
  {
  }

  class Terminal {
    const cookedBuf: array<char>
    const lineBuf: array<char>
    var head: nat
    var tail: nat
    var lineLen: nat
    var canonical: bool
    var icrnl: bool

    ghost predicate Valid()
      reads this
    {
      && cookedBuf.Length == SIZE && lineBuf.Length == SIZE && cookedBuf != lineBuf
      && head < SIZE && tail < SIZE && lineLen <= SIZE - 1
    }

    ghost function View(): (s: State)
      requires Valid()
      reads this, cookedBuf, lineBuf
    {
      State(Ring(cookedBuf[..], tail, Count(tail, head)), lineBuf[..lineLen])
    }

    constructor (canonical: bool, icrnl: bool)
      ensures Valid() && View() == State([], []) && this.canonical == canonical && this.icrnl == icrnl
      ensures fresh(cookedBuf) && fresh(lineBuf)
    {
      cookedBuf := new char[SIZE];
      lineBuf := new char[SIZE];
      head, tail, lineLen := 0, 0, 0;
      this.canonical, this.icrnl := canonical, icrnl;
    }

    /** `tty_buf_full` decides whether the ring can take a character. */
    predicate Full()
      requires head < SIZE && tail < SIZE
      reads this
      ensures Full() <==> Count(tail, head) == SIZE - 1
    {
      (head + 1) % SIZE == tail
    }

    /** `tty_buf_put`: a full ring stays as it is. */
    method Put(c: char)
      requires Valid()
      modifies this`head, cookedBuf
      ensures Valid() && View() == RawInput(old(View()), c)
    {
      if !Full() {
        RingPut(cookedBuf[..], tail, head, c);
        ghost var was := cookedBuf[..];
        cookedBuf[head] := c;
        assert cookedBuf[..] == was[head := c];
        head := (head + 1) % SIZE;
      }
    }

    /** `tty_buf_empty` */
    method Empty() returns (r: bool)
      requires Valid()
      ensures r == (View().ring == []) == (head == tail)
    {
      r := head == tail;
    }

    /** `tty_buf_get` */
    method Get() returns (c: char)
      requires Valid() && head != tail
      modifies this`tail
      ensures Valid() && old(View()).ring != [] && c == old(View()).ring[0]
      ensures View() == State(old(View()).ring[1..], old(View()).line)
    {
      RingGet(cookedBuf[..], tail, head);
      c := cookedBuf[tail];
      tail := (tail + 1) % SIZE;
      assert View().ring == old(View()).ring[1..];
    }

    /** The copy loop that commits the line to the ring. */
    method Commit()
      requires Valid()
      modifies this`head, this`lineLen, cookedBuf
      ensures Valid()
      ensures View() == State(old(View()).ring + old(View()).line[..Fitting(old(View()).ring, old(View()).line)], [])
    {
      ghost var ring, line := View().ring, View().line;
      ghost var n := Fitting(ring, line);
      var i := 0;
      while i < lineLen && !Full()
        invariant Valid() && i <= n && lineBuf[..lineLen] == line
        invariant View() == State(ring + line[..i], line)
        decreases lineLen - i
      {
        assert line[..i + 1] == line[..i] + [line[i]];
        assert (ring + line[..i]) + [line[i]] == ring + line[..i + 1];
        Put(lineBuf[i]);
        i := i + 1;
      }
      assert i == n;
      lineLen := 0;
    }

    /** `tty_input_char` */
    method InputChar(ch: char)
      requires Valid()
      modifies this, cookedBuf, lineBuf
      ensures Valid() && canonical == old(canonical) && icrnl == old(icrnl)
      ensures View() == if canonical then Input(old(View()), Mapped(ch, icrnl)) else RawInput(old(View()), Mapped(ch, icrnl))
    {
      var c := if icrnl && ch == '\r' then '\n' else ch;
      if !canonical {
        Put(c);
        return;
      }
      ghost var s := View();
      if c == ERASE {
        if lineLen > 0 {
          lineLen := lineLen - 1;
          assert View().line == s.line[..|s.line| - 1];
        }
        return;
      }
      if lineLen >= SIZE - 1 {
        lineLen := 0;
        assert View().line == [];
        return;
      }
      lineBuf[lineLen] := c;
      lineLen := lineLen + 1;
      assert View() == State(s.ring, s.line + [c]);
      if c == '\n' {
        Commit();
      }
    }

    /** One round of the loop of `tty_read`: the oldest character goes to its place in the caller's buffer. */
    method ReadOne(buf: array<char>, got: nat, ghost ring: seq<char>) returns (c: char)
      requires Valid() && head != tail && buf != cookedBuf && buf != lineBuf
      requires got < buf.Length && got <= |ring| && View().ring == ring[got..] && buf[..got] == ring[..got]
      modifies this`tail, buf
      ensures Valid() && got < |ring| && c == ring[got]
      ensures View().ring == ring[got + 1..] && View().line == old(View()).line && buf[..got + 1] == ring[..got + 1]
    {
      hide Ring, Count;
      c := Get();
      assert View().ring == ring[got + 1..] && c == ring[got] by {
        SliceNext(ring, got);
      }
      buf[got] := c;
      assert buf[..got + 1] == buf[..got] + [c];
      assert ring[..got + 1] == ring[..got] + [c];
    }

    /** `tty_read` without blocking. */
    method Read(buf: array<char>, count: nat) returns (got: nat)
      requires Valid() && count <= buf.Length && buf != cookedBuf && buf != lineBuf
      modifies this`tail, buf
      ensures Valid() && got == ReadLength(old(View()).ring, count, canonical)
      ensures buf[..got] == old(View()).ring[..got]
      ensures View() == State(old(View()).ring[got..], old(View()).line)
    {
      hide ReadLength, Ring, Count;
      ghost var ring := View().ring;
      got := 0;
      while got < count
        invariant Valid() && got <= count && got <= |ring|
        invariant View().ring == ring[got..] && View().line == old(View()).line && buf[..got] == ring[..got]
        invariant ReadLength(ring, count, canonical) == got + ReadLength(ring[got..], count - got, canonical)
        decreases count - got
      {
        ReadNext(ring, got, count, canonical);
        var empty := Empty();
        if empty {
          return;
        }
        var c := ReadOne(buf, got, ring);
        got := got + 1;
        if canonical && c == '\n' {
          return;
        }
      }
      ReadNext(ring, got, count, canonical);
    }
  }

  lemma {:induction false} SliceNext(ring: seq<char>, got: nat)
    requires got < |ring|
    ensures ring[got..][0] == ring[got] && ring[got..][1..] == ring[got + 1..]
  {
  }

  lemma {:induction false} ReadNext(ring: seq<char>, got: nat, count: nat, canonical: bool)
    requires got <= count && got <= |ring|
    ensures got == count || got == |ring| ==> ReadLength(ring[got..], count - got, canonical) == 0
    ensures got < count && got < |ring| ==>
      ReadLength(ring[got..], count - got, canonical) ==
        if canonical && ring[got] == '\n' then 1 else 1 + ReadLength(ring[got + 1..], count - got - 1, canonical)
  {
    if got < |ring| {
      assert ring[got..][1..] == ring[got + 1..];
    }
  }

  // ----- line editing against a definition that reads the line backwards

  /** What survives when each erase cancels the nearest earlier character that is left; `skip` more are cancelled. */
  function Surviving(cs: seq<char>, skip: nat): (r: seq<char>) {
    if cs == [] then []
    else
      var rest, c := cs[..|cs| - 1], cs[|cs| - 1];
      if c == ERASE then Surviving(rest, skip + 1)
      else if skip > 0 then Surviving(rest, skip - 1)
      else Surviving(rest, 0) + [c]
  }

  /** Skipping is dropping from the end of what survives. */
  lemma {:induction false} SkipDrops(cs: seq<char>, skip: nat)
    ensures Surviving(cs, skip) == var all := Surviving(cs, 0); if skip <= |all| then all[..|all| - skip] else []
    decreases |cs|, skip
  {
    if cs != [] && skip > 0 {
      var rest, c := cs[..|cs| - 1], cs[|cs| - 1];
      if c == ERASE {
        SkipDrops(rest, skip + 1);
        SkipDrops(rest, 1);
      } else {
        SkipDrops(rest, skip - 1);
        var all := Surviving(rest, 0);
        assert skip - 1 <= |all| ==> (all + [c])[..|all| + 1 - skip] == all[..|all| - (skip - 1)];
      }
    }
  }

  /**
    Where the line being edited starts: behind the last newline, or behind the last character that found
    the line full, whichever came later.
  */
  function Break(cs: seq<char>): (b: nat)
    ensures b <= |cs|
    decreases |cs|, 0
  {
    if cs == [] then 0
    else
      var last := |cs| - 1;
      var line := Current(cs[..last]);
      if cs[last] != ERASE && (cs[last] == '\n' || |line| >= SIZE - 1) then |cs| else Break(cs[..last])
  }

  /** The characters typed since then that no erase cancelled. */
  function Current(cs: seq<char>): (line: seq<char>)
    decreases |cs|, 1
  {
    Surviving(cs[Break(cs)..], 0)
  }

  /** The lines a user expects from what was typed: for each newline in time, the characters that survived. */
  function LinesOf(cs: seq<char>): (lines: seq<seq<char>>)
    decreases |cs|
  {
    if cs == [] then []
    else
      var last := |cs| - 1;
      var line := Current(cs[..last]);
      LinesOf(cs[..last]) + if cs[last] == '\n' && |line| < SIZE - 1 then [line + ['\n']] else []
  }

  // ----- runs

  datatype Event = Typed(c: char) | ReadCall(count: nat)

  /** The terminal, everything returned by reads so far, and the lines committed with the part that fitted. */
  datatype World = World(s: State, delivered: seq<char>, lines: seq<seq<char>>, cuts: seq<nat>)

  function After(w: World, e: Event): (w': World) {
    match e
    case Typed(c) =>
      var line := Edited(w.s.line, c);
      var w1 := w.(s := Input(w.s, c));
      if Commits(w.s.line, c) then w1.(lines := w.lines + [line], cuts := w.cuts + [Fitting(w.s.ring, line)]) else w1
    case ReadCall(count) =>
      var n := ReadLength(w.s.ring, count, true);
      w.(s := State(w.s.ring[n..], w.s.line), delivered := w.delivered + w.s.ring[..n])
  }

  function Play(w: World, es: seq<Event>): (w': World)
    decreases |es|
  {
    if es == [] then w else After(Play(w, es[..|es| - 1]), es[|es| - 1])
  }

  /** The cut lines, one behind the other. */
  function Joined(lines: seq<seq<char>>, cuts: seq<nat>): (r: seq<char>)
    requires |lines| == |cuts| && forall i :: 0 <= i < |cuts| ==> cuts[i] <= |lines[i]|
  {
    if lines == [] then []
    else
      var n := |lines| - 1;
      Joined(lines[..n], cuts[..n]) + lines[n][..cuts[n]]
  }

  /** The line being edited after a stretch of typed characters. */
  function Pending(line: seq<char>, cs: seq<char>): (r: seq<char>)
    decreases |cs|
  {
    if cs == [] then line
    else
      var last := |cs| - 1;
      var before := Pending(line, cs[..last]);
      if Commits(before, cs[last]) then [] else Edited(before, cs[last])
  }

  /** The lines that a stretch of typed characters commits, whatever is read in between. */
  function CommittedBy(line: seq<char>, cs: seq<char>): (lines: seq<seq<char>>)
    decreases |cs|
  {
    if cs == [] then []
    else
      var last := |cs| - 1;
      var before := Pending(line, cs[..last]);
      CommittedBy(line, cs[..last]) + if Commits(before, cs[last]) then [before + [cs[last]]] else []
  }

  /** For every typing: the line being edited is what no erase cancelled since the line started. */
  lemma {:induction false} EditingErases(cs: seq<char>)
    ensures Pending([], cs) == Current(cs)
    decreases |cs|
  {
    if cs != [] {
      var last := |cs| - 1;
      var before, b := cs[..last], Break(cs[..last]);
      EditingErases(before);
      assert b < |cs| ==> cs[b..] == before[b..] + [cs[last]];
      SnocSurvives(before[b..], cs[last]);
    }
  }

  /** One more character: an erase cancels the last survivor, any other character survives. */
  lemma {:induction false} SnocSurvives(cs: seq<char>, c: char)
    ensures var all := Surviving(cs, 0);
      Surviving(cs + [c], 0) == if c != ERASE then all + [c] else if all == [] then [] else all[..|all| - 1]
  {
    assert (cs + [c])[..|cs|] == cs;
    SkipDrops(cs, 1);
  }

  /** For every typing: the lines committed are the surviving characters of each stretch. */
  lemma {:induction false} CommittedLines(cs: seq<char>)
    ensures CommittedBy([], cs) == LinesOf(cs)
    decreases |cs|
  {
    if cs != [] {
      CommittedLines(cs[..|cs| - 1]);
      EditingErases(cs[..|cs| - 1]);
    }
  }

  function TypedIn(es: seq<Event>): (cs: seq<char>)
    decreases |es|
  {
    if es == [] then []
    else TypedIn(es[..|es| - 1]) + match es[|es| - 1] case Typed(c) => [c] case ReadCall(_) => []
  }

  const START: World := World(State([], []), [], [], [])

  ghost predicate WorldOk(w: World, cs: seq<char>) {
    && |w.lines| == |w.cuts| && (forall i :: 0 <= i < |w.cuts| ==> w.cuts[i] <= |w.lines[i]|)
    && w.delivered + w.s.ring == Joined(w.lines, w.cuts)
    && w.lines == CommittedBy([], cs) && w.s.line == Pending([], cs)
    && |w.s.ring| <= SIZE - 1
  }

  lemma {:induction false} JoinedSnoc(lines: seq<seq<char>>, cuts: seq<nat>, line: seq<char>, cut: nat)
    requires |lines| == |cuts| && (forall i :: 0 <= i < |cuts| ==> cuts[i] <= |lines[i]|) && cut <= |line|
    ensures forall i :: 0 <= i < |cuts + [cut]| ==> (cuts + [cut])[i] <= |(lines + [line])[i]|
    ensures Joined(lines + [line], cuts + [cut]) == Joined(lines, cuts) + line[..cut]
  {
    var lines', cuts', n := lines + [line], cuts + [cut], |lines|;
    assert lines'[..n] == lines && cuts'[..n] == cuts;
  }

  lemma {:induction false} TypedKeeps(w: World, cs: seq<char>, c: char)
    requires WorldOk(w, cs)
    ensures WorldOk(After(w, Typed(c)), cs + [c])
  {
    var all, line := cs + [c], Edited(w.s.line, c);
    assert all[..|cs|] == cs;
    if Commits(w.s.line, c) {
      var n := Fitting(w.s.ring, line);
      JoinedSnoc(w.lines, w.cuts, line, n);
      assert w.delivered + (w.s.ring + line[..n]) == w.delivered + w.s.ring + line[..n];
    }
  }

  lemma {:induction false} ReadKeeps(w: World, cs: seq<char>, count: nat)
    requires WorldOk(w, cs)
    ensures WorldOk(After(w, ReadCall(count)), cs)
  {
    var n := ReadLength(w.s.ring, count, true);
    assert w.s.ring == w.s.ring[..n] + w.s.ring[n..];
    assert w.delivered + w.s.ring[..n] + w.s.ring[n..] == w.delivered + w.s.ring;
  }

  lemma {:induction false} RunKeeps(es: seq<Event>)
    ensures WorldOk(Play(START, es), TypedIn(es))
    decreases |es|
  {
    if es != [] {
      var last := |es| - 1;
      RunKeeps(es[..last]);
      match es[last]
      case Typed(c) =>
        TypedKeeps(Play(START, es[..last]), TypedIn(es[..last]), c);
      case ReadCall(count) =>
        assert TypedIn(es) == TypedIn(es[..last]);
        ReadKeeps(Play(START, es[..last]), TypedIn(es[..last]), count);
    }
  }

  /**
    For every interleaving of typing and reading: what reads returned, followed by the ring, is the
    lines a user expects in order, each cut to what fitted; which lines those are depends on the typing only.
  */
  lemma {:induction false} RunDelivers(es: seq<Event>)
    ensures var w := Play(START, es);
      && w.lines == LinesOf(TypedIn(es)) && w.s.line == Current(TypedIn(es))
      && |w.lines| == |w.cuts| && (forall i :: 0 <= i < |w.cuts| ==> w.cuts[i] <= |w.lines[i]|)
      && w.delivered + w.s.ring == Joined(w.lines, w.cuts) && |w.s.ring| <= SIZE - 1
  {
    RunKeeps(es);
    CommittedLines(TypedIn(es));
    EditingErases(TypedIn(es));
  }

  /** A line is cut only where the ring is full. */
  lemma {:induction false} CutOnlyWhenFull(s: State, c: char)
    requires |s.ring| <= SIZE - 1 && Commits(s.line, c)
    ensures var line := Edited(s.line, c);
      Fitting(s.ring, line) < |line| ==> |Input(s, c).ring| == SIZE - 1
  {
  }

  /** Characters of a line under edit: no newline, no erase. */
  predicate Clean(line: seq<char>) {
    forall i :: 0 <= i < |line| ==> line[i] != '\n' && line[i] != ERASE
  }

  lemma {:induction false} PendingClean(cs: seq<char>)
    ensures Clean(Pending([], cs)) && |Pending([], cs)| <= SIZE - 1
    decreases |cs|
  {
    if cs != [] {
      PendingClean(cs[..|cs| - 1]);
    }
  }

  /** Committed lines end in their only newline, hold no erase character, and fit the line buffer. */
  lemma {:induction false} CommittedShape(cs: seq<char>)
    ensures forall i :: 0 <= i < |CommittedBy([], cs)| ==> LineShape(CommittedBy([], cs)[i])
    decreases |cs|
  {
    if cs != [] {
      CommittedShape(cs[..|cs| - 1]);
      PendingClean(cs[..|cs| - 1]);
    }
  }

  predicate LineShape(line: seq<char>) {
    1 <= |line| <= SIZE - 1 && line[|line| - 1] == '\n' && Clean(line[..|line| - 1])
  }

  /** A character that finds the line full drops it and itself, and commits nothing. */
  lemma {:induction false} LongLineDropped(cs: seq<char>, c: char)
    requires |Current(cs)| >= SIZE - 1 && c != ERASE
    ensures Break(cs + [c]) == |cs| + 1 && Current(cs + [c]) == [] && LinesOf(cs + [c]) == LinesOf(cs)
  {
    var all := cs + [c];
    assert all[..|cs|] == cs;
  }

  /** One typed line and its newline: what is committed, for every length. */
  lemma {:induction false} TypedLine(t: seq<char>)
    requires '\n' !in t
    ensures LinesOf(t + ['\n']) == if |Current(t)| < SIZE - 1 then [Current(t) + ['\n']] else []
  {
    NoNewlineNoLine(t);
    var all := t + ['\n'];
    assert all[..|t|] == t;
  }

  lemma {:induction false} NoNewlineNoLine(t: seq<char>)
    requires '\n' !in t
    ensures LinesOf(t) == []
    decreases |t|
  {
    if t != [] {
      assert t[|t| - 1] in t;
      NoNewlineNoLine(t[..|t| - 1]);
    }
  }

  /** The whole typed line is being edited exactly as long as no character found the line full. */
  lemma {:induction false} WholeLineIff(t: seq<char>)
    requires '\n' !in t
    ensures Break(t) == 0 <==> NeverFull(t)
    decreases |t|
  {
    if t != [] {
      var last := |t| - 1;
      var before := t[..last];
      assert t[last] in t;
      WholeLineIff(before);
      forall k | 0 <= k < last ensures before[k] == t[k] && before[..k] == t[..k] {
      }
      if Break(before) == 0 {
        assert before[0..] == before == t[..last];
      }
      assert NeverFull(t) <==> NeverFull(before) && (t[last] == ERASE || |Surviving(before, 0)| < SIZE - 1);
    }
  }

  /** Every prefix that a character is added to leaves room for it. */
  ghost predicate NeverFull(t: seq<char>) {
    forall k :: 0 <= k < |t| && t[k] != ERASE ==> |Surviving(t[..k], 0)| < SIZE - 1
  }

  /** A character that fits is added to the line. */
  lemma {:induction false} OneMore(cs: seq<char>, c: char)
    requires |Current(cs)| < SIZE - 1 && c != ERASE && c != '\n'
    ensures Current(cs + [c]) == Current(cs) + [c]
  {
    hide Surviving;
    var all, b := cs + [c], Break(cs);
    assert Break(all) == b by {
      assert all[..|cs|] == cs;
    }
    assert all[b..] == cs[b..] + [c];
    SnocSurvives(cs[b..], c);
  }

  lemma {:induction false} CleanStretch(cs: seq<char>, tail: seq<char>)
    requires Current(cs) == [] && Clean(tail) && |tail| <= SIZE - 1
    ensures Current(cs + tail) == tail
    decreases |tail|
  {
    hide Current;
    if tail == [] {
      assert cs + tail == cs;
    } else {
      var n := |tail| - 1;
      CleanStretch(cs, tail[..n]);
      OneMore(cs + tail[..n], tail[n]);
      assert cs + tail == (cs + tail[..n]) + [tail[n]];
      assert tail == tail[..n] + [tail[n]];
    }
  }

  lemma {:induction false} NothingTyped()
    ensures Current([]) == []
  {
  }

  /** An over-long line is not dropped whole: whatever follows the overflow becomes a line of its own. */
  lemma {:induction false} LongLineTail(long: seq<char>, c: char, tail: seq<char>)
    requires Clean(long) && |long| == SIZE - 1 && Clean([c]) && Clean(tail) && |tail| < SIZE - 1
    ensures LinesOf(long + [c] + tail + ['\n']) == [tail + ['\n']]
  {
    hide LinesOf, Current, Break;
    NothingTyped();
    CleanStretch([], long);
    assert [] + long == long;
    assert [c][0] != ERASE && [c][0] != '\n';
    LongLineDropped(long, c);
    CleanStretch(long + [c], tail);
    var t := long + [c] + tail;
    TypedLine(t);
  }
}
