/**
 `getNextLine` of screen_msg_buffer.c: it cuts a message into lines of 20
 columns, at spaces where it can; a backquote ends a line and leaves a blank
 one behind it.
 */
module WordWrap {
  import opened CBytes

  const COLUMNS: nat := 20
  const BREAK: byte := 96

  /** What `getNextLine` remembers between calls. */
  datatype State = State(txtPointer: nat, lineBreakInProgress: bool)

  /** A line, the new state, and whether there is more. */
  datatype Step = Step(line: bytes, state: State, more: bool)

  /** A line is filled up with spaces. */
  function Padded(s: bytes): (r: bytes)
    requires |s| <= COLUMNS
    ensures |r| == COLUMNS
  {
    s + seq(COLUMNS - |s|, i requires 0 <= i < COLUMNS - |s| => SPACE)
  }

  /** How many characters follow `p` before the text or the paragraph ends, at most `n`. */
  function Run(s: bytes, p: nat, n: nat): (k: nat)
    ensures k <= n && (k > 0 ==> p + k <= |s|)
    ensures k < n && p + k < |s| ==> s[p + k] == BREAK
    decreases n
  {
    if n == 0 || p >= |s| || s[p] == BREAK then 0 else 1 + Run(s, p + 1, n - 1)
  }

  /** The last space of a line at or before column `c`, but not in the first column; 0 if there is none. */
  function LastSpace(line: bytes, c: nat): (k: nat)
    requires c < |line|
    ensures k <= c && (k > 0 ==> line[k] == SPACE)
  {
    if c == 0 || line[c] == SPACE then c else LastSpace(line, c - 1)
  }

  /** One call. */
  function NextLine(s: cstring, st: State): (r: Step)
    ensures |r.line| == COLUMNS
  {
    var p := st.txtPointer;
    var k := Run(s, p, COLUMNS);
    if st.lineBreakInProgress then Step(Padded([]), State(p, false), true)
    else if k < COLUMNS then
      if p + k < |s| then Step(Padded(s[p..p + k]), State(p + k + 1, true), true)
      else Step(Padded(if k == 0 then [] else s[p..p + k]), State(0, false), false)
    else
      var line, end := s[p..p + COLUMNS], p + COLUMNS;
      if line[COLUMNS - 1] == SPACE then Step(line, State(end, false), true)
      else if end < |s| && s[end] == SPACE then Step(line, State(end + 1, false), true)
      else
        var c := LastSpace(line, COLUMNS - 2);
        if c == 0 then Step(line, State(end, false), true)
        else Step(Padded(line[..c]), State(p + c + 1, false), true)
  }

  // ----- nothing is lost ------------------------------------------------------------------

  /** The characters that can be seen. */
  function Ink(s: bytes): bytes {
    if s == [] then [] else (if s[0] == SPACE || s[0] == BREAK then [] else [s[0]]) + Ink(s[1..])
  }

  lemma {:induction false} InkConcat(s: bytes, t: bytes)
    ensures Ink(s + t) == Ink(s) + Ink(t)
  {
    if s == [] {
      assert s + t == t;
    } else {
      assert (s + t)[1..] == s[1..] + t;
      InkConcat(s[1..], t);
    }
  }

  predicate Blank(s: bytes) { forall i | 0 <= i < |s| :: s[i] == SPACE || s[i] == BREAK }

  lemma {:induction false} InkBlank(s: bytes)
    requires Blank(s)
    ensures Ink(s) == []
  {
    if s != [] {
      InkBlank(s[1..]);
    }
  }

  lemma InkPadded(s: bytes)
    requires |s| <= COLUMNS
    ensures Ink(Padded(s)) == Ink(s)
  {
    var pad: bytes := seq(COLUMNS - |s|, i requires 0 <= i < COLUMNS - |s| => SPACE);
    InkConcat(s, pad);
    InkBlank(pad);
  }

  /** The text between two positions, the second behind a character that leaves no ink. */
  lemma InkSkipped(s: bytes, p: nat, q: nat)
    requires p <= q < |s| && Blank([s[q]])
    ensures Ink(s[p..q + 1]) == Ink(s[p..q])
  {
    assert s[p..q + 1] == s[p..q] + [s[q]];
    InkConcat(s[p..q], [s[q]]);
    InkBlank([s[q]]);
  }

  /** Where the text of the line ends: where the next line begins, or at the end. */
  function Reached(s: cstring, st: State): nat {
    var r := NextLine(s, st);
    if r.more then r.state.txtPointer else |s|
  }

  /** How much is left to do. */
  function Left(s: cstring, st: State): int {
    2 * (|s| - st.txtPointer) + if st.lineBreakInProgress then 1 else 0
  }

  /** A call moves on, or emits the pending blank line, or finishes the pass. */
  lemma CallAdvances(s: cstring, st: State)
    requires st.txtPointer <= |s|
    ensures var r := NextLine(s, st);
            && r.state.txtPointer <= |s|
            && (r.more ==> Left(s, r.state) < Left(s, st) && st.txtPointer <= r.state.txtPointer)
            && (r.more && r.state.txtPointer == st.txtPointer ==> st.lineBreakInProgress && r.line == Padded([]))
            && (!r.more ==> r.state == State(0, false))
  {
  }

  /** The line shows the text between the old and the new position. */
  lemma CallShows(s: cstring, st: State)
    requires st.txtPointer <= |s|
    ensures st.txtPointer <= Reached(s, st) <= |s|
    ensures Ink(NextLine(s, st).line) == Ink(s[st.txtPointer..Reached(s, st)])
  {
    hide LastSpace, Ink, Run, Padded;
    var p := st.txtPointer;
    var k := Run(s, p, COLUMNS);
    InkPadded([]);
    if st.lineBreakInProgress {
      assert s[p..p] == [];
    } else if k < COLUMNS {
      if p + k < |s| {
        InkPadded(s[p..p + k]);
        InkSkipped(s, p, p + k);
      } else if k > 0 {
        InkPadded(s[p..p + k]);
        assert s[p..p + k] == s[p..|s|];
      } else {
        assert s[p..|s|] == [];
      }
    } else {
      FullLineShows(s, p);
    }
  }

  lemma FullLineShows(s: cstring, p: nat)
    requires p + COLUMNS <= |s| && Run(s, p, COLUMNS) == COLUMNS
    ensures var st := State(p, false); Ink(NextLine(s, st).line) == Ink(s[p..Reached(s, st)])
  {
    hide Run, Ink, Padded, LastSpace;
    var line, end := s[p..p + COLUMNS], p + COLUMNS;
    if line[COLUMNS - 1] == SPACE {
    } else if end < |s| && s[end] == SPACE {
      InkSkipped(s, p, end);
    } else {
      var c := LastSpace(line, COLUMNS - 2);
      if c > 0 {
        InkPadded(line[..c]);
        assert line[..c] == s[p..p + c] && s[p + c] == line[c];
        InkSkipped(s, p, p + c);
      }
    }
  }

  // ----- where a line is cut ---------------------------------------------------------------

  /** A character of a word. */
  predicate InWord(s: bytes, i: nat) { i < |s| && s[i] != SPACE && s[i] != BREAK }

  /** Where the word that starts at `q` ends. */
  function WordEnd(s: bytes, q: nat): (e: nat)
    requires q <= |s|
    ensures q <= e <= |s| && !InWord(s, e) && forall i | q <= i < e :: InWord(s, i)
    decreases |s| - q
  {
    if InWord(s, q) then WordEnd(s, q + 1) else q
  }

  /** The positions of the text that a line shows, followed by at most one character that is left out. */
  lemma CallCopies(s: cstring, st: State) returns (e: nat)
    requires st.txtPointer <= |s|
    ensures var p, q := st.txtPointer, Reached(s, st);
            && p <= e <= q && e <= p + COLUMNS && NextLine(s, st).line == Padded(s[p..e])
            && (e < q ==> q == e + 1 && Blank([s[e]]))
  {
    hide LastSpace, Run;
    var p := st.txtPointer;
    var r, k := NextLine(s, st), Run(s, p, COLUMNS);
    assert s[p..p] == [];
    if st.lineBreakInProgress {
      e := p;
    } else if k < COLUMNS {
      e := p + k;
    } else if r.line == s[p..p + COLUMNS] {
      e := p + COLUMNS;
      assert Padded(s[p..e]) == s[p..e];
    } else {
      var c := LastSpace(s[p..p + COLUMNS], COLUMNS - 2);
      assert s[p..p + COLUMNS][..c] == s[p..p + c] && s[p + c] == s[p..p + COLUMNS][c];
      e := p + c;
    }
  }

  /** A backquote within reach. */
  predicate BreakAhead(s: bytes, p: nat) { exists i | p <= i < p + COLUMNS && i < |s| :: s[i] == BREAK }

  /** A pass ends with the text, within reach and without a backquote in front of its end. */
  lemma CallEnds(s: cstring, st: State)
    requires st.txtPointer <= |s|
    ensures NextLine(s, st).more
       <==> st.lineBreakInProgress || |s| >= st.txtPointer + COLUMNS || BreakAhead(s, st.txtPointer)
  {
    hide LastSpace, Padded, Run, BreakAhead;
    RunStops(s, st.txtPointer, COLUMNS);
  }

  /** A backquote ends its line, and will leave a blank one. */
  lemma BreakWaits(s: cstring, st: State)
    requires st.txtPointer <= |s|
    ensures var p, r := st.txtPointer, NextLine(s, st);
            && (r.state.lineBreakInProgress <==> !st.lineBreakInProgress && BreakAhead(s, p))
            && (r.state.lineBreakInProgress ==>
                  var q := r.state.txtPointer; q > p && s[q - 1] == BREAK && BREAK !in s[p..q - 1])
  {
    hide LastSpace, Padded, Run, BreakAhead;
    RunStops(s, st.txtPointer, COLUMNS);
  }

  lemma RunStops(s: bytes, p: nat, n: nat)
    requires p <= |s|
    ensures var k := Run(s, p, n);
            && p + k <= |s| && BREAK !in s[p..p + k] && (k < n ==> p + k == |s| || s[p + k] == BREAK)
            && (n == COLUMNS ==> (k < n && p + k < |s| <==> BreakAhead(s, p)))
  {
    hide Run;
    RunPlain(s, p, n);
    var k := Run(s, p, n);
    var w := s[p..p + k];
    assert forall i | 0 <= i < k :: w[i] == s[p + i];
  }

  lemma {:induction false} RunPlain(s: bytes, p: nat, n: nat)
    requires p <= |s|
    ensures var k := Run(s, p, n);
            && p + k <= |s| && (k < n ==> p + k == |s| || s[p + k] == BREAK)
            && forall i | p <= i < p + k :: s[i] != BREAK
    decreases n
  {
    if n > 0 && p < |s| && s[p] != BREAK {
      RunPlain(s, p + 1, n - 1);
    }
  }

  /** No columns but the first have a space up to the second last. */
  predicate Unbroken(line: bytes)
    requires |line| == COLUMNS
  {
    forall i | 1 <= i < COLUMNS - 1 :: line[i] != SPACE
  }

  /** A word is cut only if it fills the line from the second column at the latest. */
  lemma CutsOnlyLongWords(s: cstring, st: State)
    requires st.txtPointer <= |s| && NextLine(s, st).more
    requires var q := NextLine(s, st).state.txtPointer; q > 0 && InWord(s, q - 1) && InWord(s, q)
    requires NextLine(s, st).state.txtPointer > st.txtPointer
    ensures var p, q, line := st.txtPointer, NextLine(s, st).state.txtPointer, NextLine(s, st).line;
            q == p + COLUMNS && line == s[p..q] && Unbroken(line)
  {
    hide Run, Padded;
    var p := st.txtPointer;
    if Run(s, p, COLUMNS) == COLUMNS {
      NoSpaceBefore(s[p..p + COLUMNS], COLUMNS - 2);
    }
  }

  lemma {:induction false} NoSpaceBefore(line: bytes, c: nat)
    requires c < |line|
    ensures forall i | LastSpace(line, c) < i <= c :: line[i] != SPACE
  {
    if c > 0 && line[c] != SPACE {
      NoSpaceBefore(line, c - 1);
    }
  }

  /** No line begins with the space that ends the word of the line before. */
  lemma SkipsOneSpace(s: cstring, st: State)
    requires st.txtPointer <= |s| && NextLine(s, st).more && NextLine(s, st).state.txtPointer > st.txtPointer
    ensures var q := NextLine(s, st).state.txtPointer; q < |s| && s[q] == SPACE ==> !InWord(s, q - 1)
  {
    hide Run, Padded;
    var p := st.txtPointer;
    if Run(s, p, COLUMNS) == COLUMNS {
      NoSpaceBefore(s[p..p + COLUMNS], COLUMNS - 2);
    }
  }

  /** The text fills the line exactly, with the end of a word that does not start before its last space. */
  predicate EndsAtMargin(s: bytes, p: nat) {
    && p + COLUMNS <= |s| && BREAK !in s[p..p + COLUMNS] && s[p + COLUMNS - 1] != SPACE
    && !Unbroken(s[p..p + COLUMNS]) && (p + COLUMNS == |s| || s[p + COLUMNS] == BREAK)
  }

  /**
   Lines are greedy: the word behind a line that no backquote ends would not
   have fitted in its 20 columns, except exactly if it ends with them in front
   of a backquote or of the end of the text: such a word is put on a line of
   its own although there is room for it.
   */
  lemma Greedy(s: cstring, st: State)
    requires st.txtPointer <= |s| && !st.lineBreakInProgress
    requires NextLine(s, st).more && !NextLine(s, st).state.lineBreakInProgress
    ensures var p, q := st.txtPointer, NextLine(s, st).state.txtPointer;
            p < q <= |s| && (q < WordEnd(s, q) <= p + COLUMNS <==> EndsAtMargin(s, p))
    ensures var p, q := st.txtPointer, NextLine(s, st).state.txtPointer;
            EndsAtMargin(s, p) ==> WordEnd(s, q) == p + COLUMNS
  {
    hide Padded, LastSpace, NextLine, InWord, EndsAtMargin, WordEnd;
    var p, q := st.txtPointer, NextLine(s, st).state.txtPointer;
    FullLine(s, p);
    if q < p + COLUMNS {
      Backtracked(s, p, q);
    }
    AtMargin(s, p);
    WordEndAt(s, q);
  }

  /** Three ways in which a full line ends: at its margin, behind the space there, or behind its last space. */
  lemma FullLine(s: cstring, p: nat)
    requires p <= |s|
    requires NextLine(s, State(p, false)).more && !NextLine(s, State(p, false)).state.lineBreakInProgress
    ensures p + COLUMNS <= |s| && BREAK !in s[p..p + COLUMNS]
    ensures var q, end := NextLine(s, State(p, false)).state.txtPointer, p + COLUMNS;
            || (q == end && (s[end - 1] == SPACE || Unbroken(s[p..end])))
            || (q == end + 1 <= |s| && s[end] == SPACE && s[end - 1] != SPACE)
            || (p + 1 < q < end && s[q - 1] == SPACE && s[end - 1] != SPACE && !(end < |s| && s[end] == SPACE)
                && forall i | q <= i < end :: s[i] != SPACE)
  {
    hide Padded, LastSpace;
    RunStops(s, p, COLUMNS);
    var line := s[p..p + COLUMNS];
    NoSpaceBefore(line, COLUMNS - 2);
    var q := NextLine(s, State(p, false)).state.txtPointer;
    forall i | q <= i < p + COLUMNS ensures s[i] == line[i - p] {
    }
    if q < p + COLUMNS {
      assert s[q - 1] == line[q - 1 - p];
    }
  }

  /** Behind the last space of a line, to its margin, there is only the beginning of a word. */
  lemma Backtracked(s: bytes, p: nat, q: nat)
    requires p + 1 < q < p + COLUMNS <= |s| && BREAK !in s[p..p + COLUMNS] && s[q - 1] == SPACE
    requires forall i | q <= i < p + COLUMNS :: s[i] != SPACE
    ensures WordEnd(s, q) >= p + COLUMNS && (WordEnd(s, q) == p + COLUMNS <==> !InWord(s, p + COLUMNS))
    ensures !Unbroken(s[p..p + COLUMNS])
  {
    hide WordEnd;
    var line := s[p..p + COLUMNS];
    assert line[q - 1 - p] == SPACE;
    forall i | q <= i < p + COLUMNS ensures InWord(s, i) {
      assert s[i] == line[i - p];
    }
    WordReaches(s, q, p + COLUMNS);
  }

  lemma AtMargin(s: bytes, p: nat)
    requires p + COLUMNS <= |s| && BREAK !in s[p..p + COLUMNS]
    ensures EndsAtMargin(s, p) <==>
      && s[p + COLUMNS - 1] != SPACE && !Unbroken(s[p..p + COLUMNS])
      && !InWord(s, p + COLUMNS) && !(p + COLUMNS < |s| && s[p + COLUMNS] == SPACE)
  {
  }

  lemma WordEndAt(s: bytes, q: nat)
    requires q <= |s|
    ensures q <= WordEnd(s, q) && (q < WordEnd(s, q) ==> InWord(s, q))
    ensures InWord(s, q) ==> s[q] != SPACE
  {
  }

  lemma WordReaches(s: bytes, q: nat, e: nat)
    requires q <= e <= |s| && forall i | q <= i < e :: InWord(s, i)
    ensures WordEnd(s, q) >= e && (!InWord(s, e) ==> WordEnd(s, q) == e)
  {
  }

  /** "Hello wonderful room" has 20 characters, but its last word is put on a second line. */
  lemma RoomWasted()
    ensures var s: cstring := seq(20, i requires 0 <= i < 20 => "Hello wonderful room"[i] as int);
            NextLine(s, State(0, false)).state == State(16, false) && WordEnd(s, 16) == |s| == COLUMNS
  {
    hide LastSpace, Padded, Run, WordEnd;
    var s: cstring := seq(20, i requires 0 <= i < 20 => "Hello wonderful room"[i] as int);
    assert s[15] == SPACE && s[19] != SPACE;
    RunStops(s, 0, COLUMNS);
    LastSpaceAt(s[0..COLUMNS], COLUMNS - 2, 15);
    WordReaches(s, 16, 20);
  }

  lemma {:induction false} LastSpaceAt(line: bytes, c: nat, k: nat)
    requires 0 < k <= c < |line| && line[k] == SPACE && forall i | k < i <= c :: line[i] != SPACE
    ensures LastSpace(line, c) == k
  {
    if k < c {
      LastSpaceAt(line, c - 1, k);
    }
  }

  /** The lines of a pass: calls are made until one says that there is no more. */
  function Lines(s: cstring, st: State): seq<bytes>
    requires st.txtPointer <= |s|
    decreases Left(s, st)
  {
    CallAdvances(s, st);
    var r := NextLine(s, st);
    [r.line] + if r.more then Lines(s, r.state) else []
  }

  /** What is seen on a sequence of lines. */
  function InkOf(lines: seq<bytes>): bytes {
    if lines == [] then [] else Ink(lines[0]) + InkOf(lines[1..])
  }

  /** A pass shows all of the text that is left, in order. */
  lemma {:induction false} PassLosesNothing(s: cstring, st: State)
    requires st.txtPointer <= |s|
    ensures InkOf(Lines(s, st)) == Ink(s[st.txtPointer..])
    decreases Left(s, st)
  {
    hide Ink, InkOf, NextLine;
    CallAdvances(s, st);
    CallShows(s, st);
    var r, p, q := NextLine(s, st), st.txtPointer, Reached(s, st);
    var rest := if r.more then Lines(s, r.state) else [];
    InkOfMore(r.line, rest);
    assert s[p..] == s[p..q] + s[q..];
    InkConcat(s[p..q], s[q..]);
    if r.more {
      PassLosesNothing(s, r.state);
    } else {
      InkBlank(s[q..]);
      assert InkOf(rest) == [] by { InkOfNothing(); }
    }
  }

  lemma InkOfMore(line: bytes, rest: seq<bytes>)
    ensures InkOf([line] + rest) == Ink(line) + InkOf(rest)
  {
    assert ([line] + rest)[1..] == rest;
  }

  lemma InkOfNothing()
    ensures InkOf([]) == []
  {
  }

  /** A pass over a message from its beginning shows the message. */
  lemma MessageShown(s: cstring)
    ensures InkOf(Lines(s, State(0, false))) == Ink(s)
  {
    PassLosesNothing(s, State(0, false));
    assert s[0..] == s;
  }

  // ----- the function ---------------------------------------------------------------------

  class LineBuffer {
    var txtPointer: nat
    var lineBreakInProgress: bool
    const current_line: array<byte>

    ghost predicate Valid() {
      current_line.Length == COLUMNS + 1
    }

    function Now(): State
      reads this
    {
      State(txtPointer, lineBreakInProgress)
    }

    constructor ()
      ensures Valid() && Now() == State(0, false) && fresh(current_line)
    {
      txtPointer, lineBreakInProgress := 0, false;
      current_line := new byte[COLUMNS + 1](_ => NUL);
    }

    /** Spaces from column `from` on; returns how many. */
    method Clear(from: nat)
      requires Valid() && from <= COLUMNS
      modifies current_line
      ensures current_line[..from] == old(current_line[..from])
      ensures forall i | from <= i < COLUMNS :: current_line[i] == SPACE
    {
      var cnt := from;
      while cnt < COLUMNS
        invariant from <= cnt <= COLUMNS && current_line[..from] == old(current_line[..from])
        invariant forall i | from <= i < cnt :: current_line[i] == SPACE
      {
        current_line[cnt] := SPACE;
        cnt := cnt + 1;
      }
    }

    /** `getNextLine`, for the text `s` of the message on the screen. */
    method GetNextLine(s: cstring) returns (more: bool)
      requires Valid()
      modifies this, current_line
      ensures Valid()
      ensures var r := NextLine(s, old(Now()));
              current_line[..COLUMNS] == r.line && Now() == r.state && more == r.more
    {
      hide Run, Padded;
      Clear(0);
      IsPadded(current_line[..COLUMNS], []);
      if lineBreakInProgress {
        lineBreakInProgress := false;
        return true;
      }
      ghost var p := txtPointer;
      var cnt := 0;
      while cnt < COLUMNS
        invariant Valid() && 0 <= cnt <= COLUMNS && txtPointer == p + cnt && !lineBreakInProgress
        invariant cnt > 0 ==> p + cnt <= |s|
        invariant current_line[..COLUMNS] == Padded(if cnt == 0 then [] else s[p..p + cnt])
        invariant cnt == COLUMNS ==> current_line[..COLUMNS] == s[p..p + cnt]
        invariant Run(s, p, COLUMNS) == cnt + Run(s, p + cnt, COLUMNS - cnt)
      {
        RunUnfold(s, p + cnt, COLUMNS - cnt);
        if txtPointer < |s| {
          var myChar := s[txtPointer];
          txtPointer := txtPointer + 1;
          if myChar == BREAK {
            lineBreakInProgress := true;
            return true;
          }
          current_line[cnt] := myChar;
          PaddedExtended(s, p, cnt);
        } else {
          txtPointer := 0;
          return false;
        }
        cnt := cnt + 1;
      }
      RunUnfold(s, p + cnt, 0);
      EndFullLine(s, p);
      more := true;
    }

    lemma IsPadded(line: bytes, s: bytes)
      requires |s| <= |line| == COLUMNS && line[..|s|] == s && forall i | |s| <= i < COLUMNS :: line[i] == SPACE
      ensures line == Padded(s)
    {
    }

    lemma PaddedExtended(s: bytes, p: nat, n: nat)
      requires n < COLUMNS && p + n < |s|
      ensures Padded(s[p..p + n + 1]) == Padded(if n == 0 then [] else s[p..p + n])[n := s[p + n]]
      ensures n + 1 == COLUMNS ==> Padded(s[p..p + n + 1]) == s[p..p + n + 1]
    {
    }

    lemma RunUnfold(s: bytes, p: nat, n: nat)
      ensures Run(s, p, n) == if n == 0 || p >= |s| || s[p] == BREAK then 0 else 1 + Run(s, p + 1, n - 1)
    {
    }

    /** What `getNextLine` does with a line that is full. */
    method EndFullLine(s: cstring, ghost p: nat)
      requires Valid() && p + COLUMNS <= |s| && Run(s, p, COLUMNS) == COLUMNS
      requires txtPointer == p + COLUMNS && !lineBreakInProgress && current_line[..COLUMNS] == s[p..p + COLUMNS]
      modifies this`txtPointer, current_line
      ensures Valid()
      ensures var r := NextLine(s, State(p, false));
              current_line[..COLUMNS] == r.line && Now() == r.state && r.more
    {
      hide Run, Padded;
      if current_line[COLUMNS - 1] == SPACE {
        return;
      }
      if txtPointer < |s| && s[txtPointer] == SPACE {
        txtPointer := txtPointer + 1;
        return;
      }
      ghost var line := current_line[..COLUMNS];
      var cnt := COLUMNS - 2;
      while cnt > 0 && current_line[cnt] != SPACE
        invariant 0 <= cnt <= COLUMNS - 2
          && LastSpace(s[p..p + COLUMNS], COLUMNS - 2) == LastSpace(s[p..p + COLUMNS], cnt)
      {
        cnt := cnt - 1;
      }
      if cnt > 0 {
        assert current_line[..cnt] == line[..cnt];
        Clear(cnt);
        assert current_line[..COLUMNS][..cnt] == current_line[..cnt];
        IsPadded(current_line[..COLUMNS], line[..cnt]);
        txtPointer := txtPointer - (COLUMNS - cnt);
        if s[txtPointer] == SPACE {
          txtPointer := txtPointer + 1;
        }
      }
    }
  }
}
