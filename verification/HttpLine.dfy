/**
 The resumable line scanner: parse_line looks for CR LF from the checked index, overwrites the two
 bytes with NUL, and can be called again after more bytes have been appended.
 */
module HttpLine {

  const CR := '\r'
  const LF := '\n'
  const NUL := '\0'

  datatype Status = LineOk | LineBad | LineOpen

  datatype Result = Result(status: Status, checked: nat, buffer: seq<char>)

  /** One call of parse_line on the bytes read so far. */
  function ParseLine(b: seq<char>, c: nat): (r: Result)
    requires c <= |b|
    ensures |r.buffer| == |b| && c <= r.checked <= |b|
    ensures r.status.LineOk? ==> r.checked > c && r.checked > 1
    decreases |b| - c
  {
    if c == |b| then Result(LineOpen, c, b)
    else if b[c] == CR then
      if c + 1 == |b| then Result(LineOpen, c, b)
      else if b[c + 1] == LF then Result(LineOk, c + 2, b[c := NUL][c + 1 := NUL])
      else Result(LineBad, c, b)
    else if b[c] == LF then
      if c > 1 && b[c - 1] == CR then Result(LineOk, c + 1, b[c - 1 := NUL][c := NUL])
      else Result(LineBad, c, b)
    else ParseLine(b, c + 1)
  }

  /** parse_line on the buffer in place; bytes from read on are not looked at. */
  method ParseLineInPlace(buffer: array<char>, checked: nat, read: nat) returns (status: Status, checked': nat)
    requires checked <= read <= buffer.Length
    modifies buffer
    ensures Result(status, checked', buffer[..read]) == ParseLine(old(buffer[..read]), checked)
    ensures buffer[read..] == old(buffer[read..])
  {
    checked' := checked;
    while checked' < read
      invariant checked <= checked' <= read && buffer[..] == old(buffer[..])
      invariant ParseLine(buffer[..read], checked') == ParseLine(old(buffer[..read]), checked)
    {
      var temp := buffer[checked'];
      if temp == CR {
        if checked' + 1 == read {
          return LineOpen, checked';
        } else if buffer[checked' + 1] == LF {
          buffer[checked'], checked' := NUL, checked' + 1;
          buffer[checked'], checked' := NUL, checked' + 1;
          return LineOk, checked';
        }
        return LineBad, checked';
      } else if temp == LF {
        if checked' > 1 && buffer[checked' - 1] == CR {
          buffer[checked' - 1] := NUL;
          buffer[checked'], checked' := NUL, checked' + 1;
          return LineOk, checked';
        }
        return LineBad, checked';
      }
      checked' := checked' + 1;
    }
    return LineOpen, checked';
  }

  // ----- appending bytes

  /** More bytes do not change a verdict, and after LineOpen the scan can resume where it stopped. */
  lemma {:induction false} ParseLineAppend(b: seq<char>, c: nat, more: seq<char>)
    requires c <= |b|
    ensures var r := ParseLine(b, c);
            ParseLine(b + more, c) ==
            if r.status.LineOpen? then ParseLine(b + more, r.checked)
            else Result(r.status, r.checked, r.buffer + more)
    ensures ParseLine(b, c).status != LineOk ==> ParseLine(b, c).buffer == b
    decreases |b| - c
  {
    if c < |b| && b[c] != CR && b[c] != LF {
      ParseLineAppend(b, c + 1, more);
    }
  }

  /**
   The driver: after every read it calls parse_line until the result is not LineOk, and never again
   after LineBad.  start is where the current line begins.
   */
  datatype Scanner = Scanner(buffer: seq<char>, start: nat, checked: nat, lines: seq<seq<char>>, bad: bool)

  ghost predicate Placed(s: Scanner) {
    s.start <= s.checked <= |s.buffer|
  }

  const FRESH := Scanner([], 0, 0, [], false)

  /** The line that ends two bytes before the new checked index is complete; the next one starts there. */
  function TakeLine(s: Scanner, r: Result): (t: Scanner)
    requires s.start <= s.checked < r.checked <= |r.buffer| && 1 < r.checked
    ensures t.start == t.checked == r.checked && t.buffer == r.buffer
  {
    var end := if s.start <= r.checked - 2 then r.checked - 2 else s.start;
    Scanner(r.buffer, r.checked, r.checked, s.lines + [r.buffer[s.start..end]], s.bad)
  }

  /** The calls after one read. */
  function Drain(s: Scanner): (t: Scanner)
    requires s.start <= s.checked <= |s.buffer|
    ensures t.start <= t.checked <= |t.buffer| && |t.buffer| == |s.buffer|
    decreases |s.buffer| - s.checked
  {
    var r := ParseLine(s.buffer, s.checked);
    match r.status
    case LineOpen => s.(buffer := r.buffer, checked := r.checked)
    case LineBad => s.(buffer := r.buffer, checked := r.checked, bad := true)
    case LineOk => Drain(TakeLine(s, r))
  }

  /** One read. */
  function Feed(s: Scanner, chunk: seq<char>): (t: Scanner)
    requires s.start <= s.checked <= |s.buffer|
    ensures t.start <= t.checked <= |t.buffer| && |t.buffer| == |s.buffer| + |chunk|
  {
    var t := s.(buffer := s.buffer + chunk);
    if s.bad then t else Drain(t)
  }

  function FeedAll(s: Scanner, chunks: seq<seq<char>>): (t: Scanner)
    requires s.start <= s.checked <= |s.buffer|
    ensures t.start <= t.checked <= |t.buffer|
    decreases |chunks|
  {
    if chunks == [] then s else FeedAll(Feed(s, chunks[0]), chunks[1..])
  }

  function Concat(chunks: seq<seq<char>>): seq<char> {
    if chunks == [] then [] else chunks[0] + Concat(chunks[1..])
  }

  lemma TakeLineAppend(s: Scanner, r: Result, more: seq<char>)
    requires s.start <= s.checked < r.checked <= |r.buffer| && 1 < r.checked
    ensures TakeLine(s.(buffer := s.buffer + more), Result(r.status, r.checked, r.buffer + more))
            == TakeLine(s, r).(buffer := r.buffer + more)
  {
    var end := if s.start <= r.checked - 2 then r.checked - 2 else s.start;
    assert (r.buffer + more)[s.start..end] == r.buffer[s.start..end];
  }

  lemma {:induction false} DrainThenFeed(s: Scanner, more: seq<char>)
    requires Placed(s) && !s.bad
    ensures Feed(Drain(s), more) == Drain(s.(buffer := s.buffer + more))
    decreases |s.buffer| - s.checked
  {
    var r := ParseLine(s.buffer, s.checked);
    ParseLineAppend(s.buffer, s.checked, more);
    if r.status.LineOk? {
      TakeLineAppend(s, r, more);
      DrainThenFeed(TakeLine(s, r), more);
    }
  }

  /** Two reads are as good as one. */
  lemma FeedTwice(s: Scanner, a: seq<char>, b: seq<char>)
    requires Placed(s)
    ensures Feed(Feed(s, a), b) == Feed(s, a + b)
  {
    assert s.buffer + a + b == s.buffer + (a + b);
    if !s.bad {
      DrainThenFeed(s.(buffer := s.buffer + a), b);
    }
  }

  lemma {:induction false} FeedAllIsFeed(s: Scanner, before: seq<char>, chunks: seq<seq<char>>)
    requires Placed(s)
    ensures FeedAll(Feed(s, before), chunks) == Feed(s, before + Concat(chunks))
    decreases |chunks|
  {
    if chunks == [] {
      assert before + Concat(chunks) == before;
    } else {
      FeedTwice(s, before, chunks[0]);
      FeedAllIsFeed(s, before + chunks[0], chunks[1..]);
      assert (before + chunks[0]) + Concat(chunks[1..]) == before + Concat(chunks);
    }
  }

  /**
   However the input is cut into reads, also between CR and LF: lines, verdict, indices and buffer
   are those of one read of the whole input.
   */
  lemma ChunksDoNotMatter(chunks: seq<seq<char>>)
    ensures FeedAll(FRESH, chunks) == Feed(FRESH, Concat(chunks))
  {
    FeedAllIsFeed(FRESH, [], chunks);
    assert [] + Concat(chunks) == Concat(chunks);
  }

  // ----- what the lines are

  /** No CR and no LF from i up to j. */
  predicate Unbroken(b: seq<char>, i: nat, j: nat)
    requires i <= j <= |b|
  {
    forall k :: i <= k < j ==> b[k] != CR && b[k] != LF
  }

  predicate Clean(line: seq<char>) {
    Unbroken(line, 0, |line|)
  }

  function Render(lines: seq<seq<char>>): seq<char> {
    if lines == [] then [] else Render(lines[..|lines| - 1]) + lines[|lines| - 1] + [CR, LF]
  }

  /** The same with both bytes of each terminator overwritten. */
  function Blanked(lines: seq<seq<char>>): seq<char> {
    if lines == [] then [] else Blanked(lines[..|lines| - 1]) + lines[|lines| - 1] + [NUL, NUL]
  }

  /** After the complete lines: nothing but a line still open, possibly up to its CR. */
  ghost predicate OpenTail(tail: seq<char>) {
    Clean(tail) || (|tail| > 0 && tail[|tail| - 1] == CR && Unbroken(tail, 0, |tail| - 1))
  }

  /** The first line break in tail, at k, is a CR without LF or an LF without CR. */
  ghost predicate BadTail(tail: seq<char>, k: nat) {
    && k < |tail| && Unbroken(tail, 0, k)
    && (tail[k] == LF || (tail[k] == CR && k + 1 < |tail| && tail[k + 1] != LF))
  }

  /** The scanner after it has been given input. */
  ghost predicate Describes(s: Scanner, input: seq<char>) {
    && Placed(s) && |s.buffer| == |input|
    && (forall i :: 0 <= i < |s.lines| ==> Clean(s.lines[i]))
    && input[..s.start] == Render(s.lines)
    && s.buffer == Blanked(s.lines) + input[s.start..]
    && |Blanked(s.lines)| == s.start
    && Unbroken(input, s.start, s.checked)
  }

  lemma DescribesLastByte(s: Scanner, input: seq<char>)
    requires Describes(s, input)
    ensures s.checked > 0 ==> s.buffer[s.checked - 1] != CR
    ensures forall i :: s.start <= i < |s.buffer| ==> s.buffer[i] == input[i]
  {
  }

  lemma {:induction false} UnbrokenIsSkipped(b: seq<char>, c: nat, k: nat)
    requires c <= k <= |b| && Unbroken(b, c, k)
    ensures ParseLine(b, c) == ParseLine(b, k)
    decreases k - c
  {
    if c < k {
      UnbrokenIsSkipped(b, c + 1, k);
    }
  }

  /** Where the first line break from c on is, if there is one. */
  function FirstBreak(b: seq<char>, c: nat): (k: nat)
    requires c <= |b|
    ensures c <= k <= |b| && Unbroken(b, c, k)
    ensures k < |b| ==> b[k] == CR || b[k] == LF
    decreases |b| - c
  {
    if c == |b| || b[c] == CR || b[c] == LF then c
    else FirstBreak(b, c + 1)
  }

  /** One call, in terms of the first line break, when the byte before the checked index is not CR. */
  lemma ParseLineAtBreak(b: seq<char>, c: nat)
    requires c <= |b| && (c > 0 ==> b[c - 1] != CR)
    ensures var k := FirstBreak(b, c);
            ParseLine(b, c) ==
            if k < |b| && b[k] == CR && k + 1 < |b| && b[k + 1] == LF
            then Result(LineOk, k + 2, b[k := NUL][k + 1 := NUL])
            else if k == |b| || (b[k] == CR && k + 1 == |b|) then Result(LineOpen, k, b)
            else Result(LineBad, k, b)
  {
    UnbrokenIsSkipped(b, c, FirstBreak(b, c));
  }

  /** The bytes from the start of the line to the next break are as they came in, and clean. */
  lemma CurrentLine(s: Scanner, input: seq<char>, k: nat)
    requires Describes(s, input) && k == FirstBreak(s.buffer, s.checked)
    ensures s.start <= k <= |input| && Unbroken(input, s.start, k)
    ensures k < |input| ==> s.buffer[k..] == input[k..]
  {
    DescribesLastByte(s, input);
  }

  /** The bytes of a line that is taken at k, before and after its terminator is overwritten. */
  lemma LineBytes(buffer: seq<char>, done: seq<char>, input: seq<char>, start: nat, k: nat)
    requires start <= k && k + 1 < |input| && buffer == done + input[start..] && |done| == start
    requires buffer[k] == CR && buffer[k + 1] == LF
    ensures input[..k + 2] == input[..start] + input[start..k] + [CR, LF]
    ensures var b := buffer[k := NUL][k + 1 := NUL];
            b[start..k] == input[start..k] && b == done + input[start..k] + [NUL, NUL] + input[k + 2..]
  {
  }

  /** One more complete line, in a scanner that is ready for the next. */
  lemma LineDescribes(lines: seq<seq<char>>, line: seq<char>, input: seq<char>, b: seq<char>, n: nat, bad: bool)
    requires (forall i :: 0 <= i < |lines| ==> Clean(lines[i])) && Clean(line)
    requires n <= |input| == |b| && input[..n] == Render(lines) + line + [CR, LF]
    requires b == Blanked(lines) + line + [NUL, NUL] + input[n..]
    requires b[n - 1] == NUL && |Blanked(lines)| == |Render(lines)|
    ensures Describes(Scanner(b, n, n, lines + [line], bad), input)
  {
    assert (lines + [line])[..|lines|] == lines;
  }

  /** What the scanner and the input look like around the line that ends at k. */
  lemma LineEndsAt(s: Scanner, input: seq<char>, k: nat)
    requires Describes(s, input) && k == FirstBreak(s.buffer, s.checked)
    requires k + 1 < |input| && s.buffer[k] == CR && s.buffer[k + 1] == LF
    ensures s.start <= k && Clean(input[s.start..k])
    ensures input[..k + 2] == Render(s.lines) + input[s.start..k] + [CR, LF]
    ensures var b := s.buffer[k := NUL][k + 1 := NUL];
            && b[s.start..k] == input[s.start..k]
            && b == Blanked(s.lines) + input[s.start..k] + [NUL, NUL] + input[k + 2..]
  {
    CurrentLine(s, input, k);
    LineBytes(s.buffer, Blanked(s.lines), input, s.start, k);
  }

  /** r is the result of a call that completes the line ending at k. */
  ghost predicate Completes(s: Scanner, k: nat, r: Result) {
    && s.start <= s.checked <= k && k + 1 < |s.buffer|
    && r == Result(LineOk, k + 2, s.buffer[k := NUL][k + 1 := NUL])
  }

  lemma TakenIs(s: Scanner, line: seq<char>, k: nat, r: Result)
    requires Completes(s, k, r) && r.buffer[s.start..k] == line
    ensures TakeLine(s, r) == Scanner(r.buffer, k + 2, k + 2, s.lines + [line], s.bad)
  {
  }

  lemma TakeLineDescribes(s: Scanner, input: seq<char>, k: nat, r: Result)
    requires Describes(s, input) && k == FirstBreak(s.buffer, s.checked)
    requires Completes(s, k, r) && s.buffer[k] == CR && s.buffer[k + 1] == LF
    ensures Describes(TakeLine(s, r), input)
  {
    var line := input[s.start..k];
    LineEndsAt(s, input, k);
    LineDescribes(s.lines, line, input, r.buffer, k + 2, s.bad);
    TakenIs(s, line, k, r);
  }

  /** The verdict fits what follows the complete lines, and the checked index stands at its break or end. */
  ghost predicate Settled(t: Scanner, input: seq<char>)
    requires t.start <= t.checked <= |input|
  {
    if t.bad then BadTail(input[t.start..], t.checked - t.start)
    else
      && OpenTail(input[t.start..])
      && (t.checked == |input| || (t.checked + 1 == |input| && input[t.checked] == CR))
  }

  /** The scanner when the call stops at break k without completing a line. */
  function StopAt(s: Scanner, k: nat): Scanner
    requires k <= |s.buffer|
  {
    s.(checked := k, bad := k < |s.buffer| && !(s.buffer[k] == CR && k + 1 == |s.buffer|))
  }

  lemma StopDescribes(s: Scanner, input: seq<char>, k: nat)
    requires Describes(s, input) && !s.bad && k == FirstBreak(s.buffer, s.checked)
    requires !(k + 1 < |input| && s.buffer[k] == CR && s.buffer[k + 1] == LF)
    ensures Describes(StopAt(s, k), input) && Settled(StopAt(s, k), input)
  {
    var tail, m := input[s.start..], k - s.start;
    CurrentLine(s, input, k);
  }

  /** One call either completes a line or stops at the first break. */
  lemma CallIs(s: Scanner)
    requires Placed(s) && !s.bad && (s.checked > 0 ==> s.buffer[s.checked - 1] != CR)
    ensures var r, k := ParseLine(s.buffer, s.checked), FirstBreak(s.buffer, s.checked);
            if k + 1 < |s.buffer| && s.buffer[k] == CR && s.buffer[k + 1] == LF
            then r == Result(LineOk, k + 2, s.buffer[k := NUL][k + 1 := NUL])
            else r.status != LineOk && Drain(s) == StopAt(s, k)
  {
    ParseLineAtBreak(s.buffer, s.checked);
  }

  lemma CallTakes(s: Scanner, input: seq<char>, k: nat)
    requires Describes(s, input) && !s.bad && k == FirstBreak(s.buffer, s.checked)
    requires k + 1 < |input| && s.buffer[k] == CR && s.buffer[k + 1] == LF
    ensures var r := ParseLine(s.buffer, s.checked);
            r.status.LineOk? && Describes(TakeLine(s, r), input)
  {
    DescribesLastByte(s, input);
    CallIs(s);
    TakeLineDescribes(s, input, k, ParseLine(s.buffer, s.checked));
  }

  lemma CallStops(s: Scanner, input: seq<char>, k: nat)
    requires Describes(s, input) && !s.bad && k == FirstBreak(s.buffer, s.checked)
    requires !(k + 1 < |input| && s.buffer[k] == CR && s.buffer[k + 1] == LF)
    ensures ParseLine(s.buffer, s.checked).status != LineOk
    ensures Describes(Drain(s), input) && Settled(Drain(s), input)
  {
    DescribesLastByte(s, input);
    CallIs(s);
    StopDescribes(s, input, k);
  }

  lemma CallDescribes(s: Scanner, input: seq<char>)
    requires Describes(s, input) && !s.bad
    ensures var r := ParseLine(s.buffer, s.checked);
            if r.status.LineOk? then Describes(TakeLine(s, r), input)
            else Describes(Drain(s), input) && Settled(Drain(s), input)
  {
    var k := FirstBreak(s.buffer, s.checked);
    if k + 1 < |input| && s.buffer[k] == CR && s.buffer[k + 1] == LF {
      CallTakes(s, input, k);
    } else {
      CallStops(s, input, k);
    }
  }

  lemma {:induction false} DrainDescribes(s: Scanner, input: seq<char>)
    requires Describes(s, input) && !s.bad
    ensures Describes(Drain(s), input) && Settled(Drain(s), input)
    decreases |s.buffer| - s.checked
  {
    CallDescribes(s, input);
    if ParseLine(s.buffer, s.checked).status.LineOk? {
      DrainDescribes(TakeLine(s, ParseLine(s.buffer, s.checked)), input);
    }
  }

  lemma ScanDescribes(chunks: seq<seq<char>>)
    ensures Describes(FeedAll(FRESH, chunks), Concat(chunks))
    ensures Settled(FeedAll(FRESH, chunks), Concat(chunks))
  {
    var s := FRESH.(buffer := Concat(chunks));
    ChunksDoNotMatter(chunks);
    DrainDescribes(s, s.buffer);
  }

  /**
   Whatever the input and its reads: the scanner ends with the clean lines that were terminated by
   CR LF, each terminator overwritten, and reports LineBad exactly for a stray CR or LF.
   */
  lemma ScanIsExact(chunks: seq<seq<char>>)
    ensures var input, t := Concat(chunks), FeedAll(FRESH, chunks);
            && Describes(t, input) && Settled(t, input)
            && input == Render(t.lines) + input[t.start..]
            && (t.bad <==> exists k: nat :: BadTail(input[t.start..], k))
            && (!t.bad <==> OpenTail(input[t.start..]))
  {
    ScanDescribes(chunks);
    BadExactly(FeedAll(FRESH, chunks), Concat(chunks));
    SplitAt(Concat(chunks), FeedAll(FRESH, chunks).start);
  }

  lemma SplitAt(s: seq<char>, i: nat)
    requires i <= |s|
    ensures s == s[..i] + s[i..]
  {
  }

  lemma BadExactly(t: Scanner, input: seq<char>)
    requires Placed(t) && |t.buffer| == |input| && Settled(t, input)
    ensures t.bad <==> exists k: nat :: BadTail(input[t.start..], k)
    ensures !t.bad <==> OpenTail(input[t.start..])
  {
  }

  // ----- the split into lines is the only one

  lemma {:induction false} RenderIsTaken(lines: seq<seq<char>>)
    requires forall i :: 0 <= i < |lines| ==> Clean(lines[i])
    ensures |Blanked(lines)| == |Render(lines)|
    ensures Feed(FRESH, Render(lines))
            == Scanner(Blanked(lines), |Render(lines)|, |Render(lines)|, lines, false)
  {
    if lines == [] {
    } else {
      var init, line := lines[..|lines| - 1], lines[|lines| - 1];
      RenderIsTaken(init);
      FeedTwice(FRESH, Render(init), line + [CR, LF]);
      assert Render(init) + (line + [CR, LF]) == Render(lines);
      LineIsTaken(Scanner(Blanked(init), |Render(init)|, |Render(init)|, init, false), line);
    }
  }

  lemma LineCall(buffer: seq<char>, line: seq<char>)
    requires Clean(line)
    ensures ParseLine(buffer + (line + [CR, LF]), |buffer|)
            == Result(LineOk, |buffer| + |line| + 2, buffer + line + [NUL, NUL])
  {
    var b, k := buffer + (line + [CR, LF]), |buffer| + |line|;
    UnbrokenIsSkipped(b, |buffer|, k);
    assert b[k := NUL][k + 1 := NUL] == buffer + line + [NUL, NUL];
  }

  lemma LineIsTaken(s: Scanner, line: seq<char>)
    requires s.start == s.checked == |s.buffer| && !s.bad && Clean(line)
    ensures var n := |s.buffer| + |line| + 2;
            Feed(s, line + [CR, LF])
            == Scanner(s.buffer + line + [NUL, NUL], n, n, s.lines + [line], false)
  {
    var c, n := |s.buffer|, |s.buffer| + |line| + 2;
    LineCall(s.buffer, line);
    assert (s.buffer + line + [NUL, NUL])[c..n - 2] == line;
    var t := Scanner(s.buffer + line + [NUL, NUL], n, n, s.lines + [line], false);
    assert Drain(t) == t;
  }

  /** Any way of reading the input as clean lines and a tail without a complete line is the scanner's way. */
  lemma LinesAreUnique(lines: seq<seq<char>>, tail: seq<char>, k: nat)
    requires forall i :: 0 <= i < |lines| ==> Clean(lines[i])
    requires OpenTail(tail) || BadTail(tail, k)
    ensures var t := Feed(FRESH, Render(lines) + tail);
            && t.lines == lines && t.start == |Render(lines)|
            && t.buffer == Blanked(lines) + tail
            && (t.bad <==> BadTail(tail, k))
  {
    var s := Scanner(Blanked(lines), |Render(lines)|, |Render(lines)|, lines, false);
    RenderIsTaken(lines);
    FeedTwice(FRESH, Render(lines), tail);
    TailIsNotTaken(s, tail, k);
  }

  lemma {:induction false} FirstBreakUnique(b: seq<char>, c: nat, k: nat)
    requires c <= k <= |b| && Unbroken(b, c, k)
    requires k < |b| ==> b[k] == CR || b[k] == LF
    ensures FirstBreak(b, c) == k
    decreases k - c
  {
  }

  /** Where the first break of a tail is. */
  ghost function TailBreak(tail: seq<char>, k: nat): (m: nat)
    requires OpenTail(tail) || BadTail(tail, k)
    ensures m <= |tail| && Unbroken(tail, 0, m)
    ensures m < |tail| ==> tail[m] == CR || tail[m] == LF
    ensures m + 1 < |tail| ==> !(tail[m] == CR && tail[m + 1] == LF)
    ensures !BadTail(tail, k) ==> m == |tail| || (tail[m] == CR && m + 1 == |tail|)
    ensures BadTail(tail, k) ==> m == k
  {
    if BadTail(tail, k) then k
    else if Clean(tail) then |tail|
    else |tail| - 1
  }

  lemma TailBreaks(buffer: seq<char>, tail: seq<char>, m: nat)
    requires m <= |tail| && Unbroken(tail, 0, m) && (m < |tail| ==> tail[m] == CR || tail[m] == LF)
    ensures FirstBreak(buffer + tail, |buffer|) == |buffer| + m
  {
    var b, c := buffer + tail, |buffer|;
    assert forall i :: 0 <= i < |tail| ==> b[c + i] == tail[i];
    assert forall i :: c <= i < |b| ==> b[i] == tail[i - c];
    FirstBreakUnique(b, c, c + m);
  }

  lemma TailStops(s: Scanner, tail: seq<char>, m: nat)
    requires s.start == s.checked == |s.buffer| && !s.bad
    requires |s.buffer| > 0 ==> s.buffer[|s.buffer| - 1] == NUL
    requires m <= |tail| && Unbroken(tail, 0, m) && (m < |tail| ==> tail[m] == CR || tail[m] == LF)
    requires m + 1 < |tail| ==> !(tail[m] == CR && tail[m + 1] == LF)
    ensures Feed(s, tail) == StopAt(s.(buffer := s.buffer + tail), s.start + m)
  {
    var b, c := s.buffer + tail, |s.buffer|;
    TailBreaks(s.buffer, tail, m);
    CallIs(s.(buffer := b));
  }

  lemma TailIsNotTaken(s: Scanner, tail: seq<char>, k: nat)
    requires s.start == s.checked == |s.buffer| && !s.bad
    requires OpenTail(tail) || BadTail(tail, k)
    requires |s.buffer| > 0 ==> s.buffer[|s.buffer| - 1] == NUL
    ensures Feed(s, tail) == StopAt(s.(buffer := s.buffer + tail), s.start + TailBreak(tail, k))
    ensures Feed(s, tail).bad <==> BadTail(tail, k)
  {
    TailStops(s, tail, TailBreak(tail, k));
  }

  // ----- the arm the source wonders about

  /** parse_line without the inner test of its LF branch. */
  function ParseLineShort(b: seq<char>, c: nat): (r: Result)
    requires c <= |b|
    ensures |r.buffer| == |b| && c <= r.checked <= |b|
    ensures r.status.LineOk? ==> r.checked > c && r.checked > 1
    decreases |b| - c
  {
    if c == |b| then Result(LineOpen, c, b)
    else if b[c] == CR then
      if c + 1 == |b| then Result(LineOpen, c, b)
      else if b[c + 1] == LF then Result(LineOk, c + 2, b[c := NUL][c + 1 := NUL])
      else Result(LineBad, c, b)
    else if b[c] == LF then Result(LineBad, c, b)
    else ParseLineShort(b, c + 1)
  }

  /** The test matters exactly when the call starts on an LF that follows a CR. */
  lemma {:induction false} InnerTestMattersExactly(b: seq<char>, c: nat)
    requires c <= |b|
    ensures ParseLine(b, c) == ParseLineShort(b, c) <==>
            !(1 < c < |b| && b[c] == LF && b[c - 1] == CR)
    decreases |b| - c
  {
    if c < |b| && b[c] != CR && b[c] != LF {
      InnerTestMattersExactly(b, c + 1);
    }
  }

  function DrainShort(s: Scanner): (t: Scanner)
    requires s.start <= s.checked <= |s.buffer|
    ensures t.start <= t.checked <= |t.buffer| && |t.buffer| == |s.buffer|
    decreases |s.buffer| - s.checked
  {
    var r := ParseLineShort(s.buffer, s.checked);
    match r.status
    case LineOpen => s.(buffer := r.buffer, checked := r.checked)
    case LineBad => s.(buffer := r.buffer, checked := r.checked, bad := true)
    case LineOk => DrainShort(TakeLine(s, r))
  }

  function FeedAllShort(s: Scanner, chunks: seq<seq<char>>): Scanner
    requires s.start <= s.checked <= |s.buffer|
    decreases |chunks|
  {
    if chunks == [] then s
    else
      var t := s.(buffer := s.buffer + chunks[0]);
      FeedAllShort(if s.bad then t else DrainShort(t), chunks[1..])
  }

  lemma {:induction false} DrainShortIsDrain(s: Scanner, input: seq<char>)
    requires Describes(s, input) && !s.bad
    ensures DrainShort(s) == Drain(s)
    decreases |s.buffer| - s.checked
  {
    DescribesLastByte(s, input);
    InnerTestMattersExactly(s.buffer, s.checked);
    CallDescribes(s, input);
    if ParseLine(s.buffer, s.checked).status.LineOk? {
      DrainShortIsDrain(TakeLine(s, ParseLine(s.buffer, s.checked)), input);
    }
  }

  lemma DescribesMore(s: Scanner, input: seq<char>, chunk: seq<char>)
    requires Describes(s, input)
    ensures Describes(s.(buffer := s.buffer + chunk), input + chunk)
  {
  }

  /** On every run of the driver the inner test may go: nothing the scanner does depends on it. */
  lemma {:induction false} InnerTestIsDead(s: Scanner, input: seq<char>, chunks: seq<seq<char>>)
    requires Describes(s, input)
    ensures FeedAllShort(s, chunks) == FeedAll(s, chunks)
    decreases |chunks|
  {
    if chunks != [] {
      var t, more := s.(buffer := s.buffer + chunks[0]), input + chunks[0];
      DescribesMore(s, input, chunks[0]);
      if !s.bad {
        DrainShortIsDrain(t, more);
        DrainDescribes(t, more);
      }
      InnerTestIsDead(Feed(s, chunks[0]), more, chunks[1..]);
    }
  }

  /** And before LineBad no call ever starts right behind a CR. */
  lemma NeverBehindCarriageReturn(chunks: seq<seq<char>>)
    ensures var t := FeedAll(FRESH, chunks);
            && (t.checked > 0 ==> t.buffer[t.checked - 1] != CR)
            && FeedAllShort(FRESH, chunks) == t
  {
    ScanDescribes(chunks);
    DescribesLastByte(FeedAll(FRESH, chunks), Concat(chunks));
    InnerTestIsDead(FRESH, [], chunks);
  }
}
