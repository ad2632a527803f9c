/** The ed-script patcher behind `acngtool patch`, as values: the base file split into
    an entry array, the commands `diff -e` writes, the edit each command performs and
    the walk over the script's lines. Module Patcher runs the same steps in place. */
module EdScript {
  import opened Wrappers
  import opened CNumbers
  import opened Seqs

  /** The text of entries written one after another. */
  function Concat(entries: seq<string>): string
    decreases |entries|
  {
    if entries == [] then [] else entries[0] + Concat(entries[1..])
  }

  lemma {:induction false} ConcatAppend(a: seq<string>, b: seq<string>)
    ensures Concat(a + b) == Concat(a) + Concat(b)
    decreases |a|
  {
    if a == [] {
      assert a + b == b;
    } else {
      assert (a + b)[1..] == a[1..] + b;
      ConcatAppend(a[1..], b);
    }
  }

  // ---------------------------------------------------------------- lines

  /** A character that does not stop strchr's search for a newline early. */
  predicate PlainChar(c: char) { c != '\n' && c != '\0' }

  /** strchr(s + i, '\n') on a NUL-terminated buffer: the first newline at or after i,
      None when a NUL or the end of the buffer comes first. */
  function NewlineFrom(s: string, i: nat): (r: Option<nat>)
    requires i <= |s|
    ensures r.Some? ==> i <= r.value < |s| && s[r.value] == '\n'
    ensures r.Some? ==> forall k :: i <= k < r.value ==> PlainChar(s[k])
    decreases |s| - i
  {
    if i == |s| || s[i] == '\0' then None
    else if s[i] == '\n' then Some(i)
    else NewlineFrom(s, i + 1)
  }

  function FindNewline(s: string): (r: Option<nat>)
  {
    NewlineFrom(s, 0)
  }

  lemma {:induction false} NewlineFromAt(s: string, i: nat, k: nat)
    requires i <= k < |s| && s[k] == '\n'
    requires forall j :: i <= j < k ==> PlainChar(s[j])
    ensures NewlineFrom(s, i) == Some(k)
    decreases k - i
  {
    if i < k {
      NewlineFromAt(s, i + 1, k);
    }
  }

  /** A whole line of an ed script or base file: the first newline strchr finds in it is
      its last character. */
  predicate IsLine(e: string)
  {
    FindNewline(e) == Some(|e| - 1)
  }

  /** A line is whole when its last character is its only newline and it holds no NUL. */
  lemma WholeLine(e: string)
    requires |e| > 0 && e[|e| - 1] == '\n'
    requires forall k :: 0 <= k < |e| - 1 ==> PlainChar(e[k])
    ensures IsLine(e)
  {
    NewlineFromAt(e, 0, |e| - 1);
  }

  /** strchr stops at the same newline when more text follows the line it found. */
  lemma {:induction false} NewlineFromPrefix(s: string, t: string, i: nat)
    requires i <= |s| && NewlineFrom(s, i).Some?
    ensures NewlineFrom(s + t, i) == NewlineFrom(s, i)
    decreases |s| - i
  {
    assert (s + t)[i] == s[i];
    if s[i] != '\n' {
      NewlineFromPrefix(s, t, i + 1);
    }
  }

  /** How patch_file cuts a buffer into entries: one per newline-terminated line, newline
      included, and the remainder as a last entry when no newline ends it. */
  function Lines(s: string): (r: seq<string>)
    ensures forall i :: 0 <= i < |r| ==> |r[i]| > 0
    decreases |s|
  {
    if s == [] then []
    else match FindNewline(s)
      case Some(k) => [s[..k + 1]] + Lines(s[k + 1..])
      case None => [s]
  }

  /** Writing the entries back one after another gives the buffer that was split. */
  lemma {:induction false} ConcatLines(s: string)
    ensures Concat(Lines(s)) == s
    decreases |s|
  {
    if s != [] {
      match FindNewline(s)
      case Some(k) =>
        ConcatLines(s[k + 1..]);
        var r := Lines(s);
        assert r[0] == s[..k + 1] && r[1..] == Lines(s[k + 1..]);
        assert s == s[..k + 1] + s[k + 1..];
      case None =>
        assert Lines(s)[1..] == [];
    }
  }

  /** Every entry but the last is a whole line. */
  lemma {:induction false} LinesAreWhole(s: string)
    ensures forall i :: 0 <= i < |Lines(s)| - 1 ==> IsLine(Lines(s)[i])
    decreases |s|
  {
    if s != [] {
      match FindNewline(s)
      case Some(k) =>
        LinesAreWhole(s[k + 1..]);
        var r := Lines(s);
        assert r[1..] == Lines(s[k + 1..]);
        forall i | 0 <= i < |r| - 1 ensures IsLine(r[i]) {
          if i == 0 {
            var l := s[..k + 1];
            forall j | 0 <= j < k ensures PlainChar(l[j]) {
              assert l[j] == s[j];
            }
            WholeLine(l);
          } else {
            assert r[i] == Lines(s[k + 1..])[i - 1];
          }
        }
      case None =>
    }
  }

  /** A whole line at the front of a buffer is its first entry. */
  lemma LinesCons(l: string, tail: string)
    requires IsLine(l)
    ensures Lines(l + tail) == [l] + Lines(tail)
  {
    NewlineFromPrefix(l, tail, 0);
    var s := l + tail;
    assert s[..|l|] == l && s[|l|..] == tail;
  }

  lemma SingleLine(l: string)
    requires IsLine(l)
    ensures Lines(l) == [l]
  {
    LinesCons(l, []);
    assert l + [] == l;
  }

  /** Whole lines written one after another split back into themselves. */
  lemma {:induction false} LinesOfConcat(ls: seq<string>, t: string)
    requires forall i :: 0 <= i < |ls| ==> IsLine(ls[i])
    ensures Lines(Concat(ls) + t) == ls + Lines(t)
    decreases |ls|
  {
    if ls == [] {
      assert Concat(ls) + t == t;
    } else {
      var rest := ls[1..];
      var tail := Concat(rest) + t;
      assert Concat(ls) + t == ls[0] + tail;
      assert Lines(tail) == rest + Lines(t) by {
        LinesOfConcat(rest, t);
      }
      assert Lines(ls[0] + tail) == [ls[0]] + Lines(tail) by {
        LinesCons(ls[0], tail);
      }
      SeqAssoc([ls[0]], rest, Lines(t));
      SeqCons(ls);
    }
  }

  // ---------------------------------------------------------------- commands

  /** What sscanf(line, "%lu,%lu%c\n", ...) converts: nothing, the first address, both
      addresses, or both addresses and the operation character. */
  datatype Scan = NoMatch | First(first: nat) | FirstTwo(first: nat, second: nat) | All(first: nat, second: nat, op: char)

  function ScanCommand(line: string): Scan
  {
    match ScanUnsigned(line, 0)
    case None => NoMatch
    case Some(a) =>
      if a.end < |line| && line[a.end] == ',' then
        match ScanUnsigned(line, a.end + 1)
        case None => First(a.value)
        case Some(b) => if b.end < |line| then All(a.value, b.value, line[b.end]) else FirstTwo(a.value, b.value)
      else First(a.value)
  }

  datatype Command = Command(start: nat, last: nat, op: char)

  /** The command patchChunk reads from a script line: `N,M<op>` when sscanf converts all
      three, `N<op>` (last address = first, op = the character before the newline) when it
      converts one; None otherwise. */
  function ParseCommand(line: string): Option<Command>
  {
    match ScanCommand(line)
    case First(a) => if |line| >= 2 then Some(Command(a, a, line[|line| - 2])) else None
    case All(a, b, op) => Some(Command(a, b, op))
    case _ => None
  }

  /** rangeStart and rangeLast once the line is scanned: sscanf stores each address it
      converted, and the single-address form copies rangeStart into rangeLast. */
  function ScannedRegisters(line: string, rangeStart: nat, rangeLast: nat): (nat, nat)
  {
    match ScanCommand(line)
    case NoMatch => (rangeStart, rangeLast)
    case First(a) => (a, a)
    case FirstTwo(a, b) => (a, b)
    case All(a, b, _) => (a, b)
  }

  /** Both command forms `diff -e` writes are read back as written. */
  lemma CommandForms(start: nat, last: nat, op: char)
    requires start <= ULongMax && last <= ULongMax
    requires !IsDigit(op)
    ensures ParseCommand(DecimalString(start) + "," + DecimalString(last) + [op] + "\n") == Some(Command(start, last, op))
    ensures op != ',' ==> ParseCommand(DecimalString(start) + [op] + "\n") == Some(Command(start, start, op))
  {
    TwoAddressForm(start, last, op);
    if op != ',' {
      OneAddressForm(start, op);
    }
  }

  lemma TwoAddressForm(start: nat, last: nat, op: char)
    requires start <= ULongMax && last <= ULongMax
    requires !IsDigit(op)
    ensures ScanCommand(DecimalString(start) + "," + DecimalString(last) + [op] + "\n") == All(start, last, op)
  {
    var a := DecimalString(start);
    var b := DecimalString(last);
    var two := a + "," + b + [op] + "\n";
    assert two[0..|a|] == a;
    ScanDecimalString(two, 0, start);
    assert two[|a|] == ',';
    assert two[|a| + 1..|a| + 1 + |b|] == b;
    ScanDecimalString(two, |a| + 1, last);
    assert two[|a| + 1 + |b|] == op;
  }

  lemma OneAddressForm(start: nat, op: char)
    requires start <= ULongMax
    requires !IsDigit(op) && op != ','
    ensures var one := DecimalString(start) + [op] + "\n";
            ScanCommand(one) == First(start) && one[|one| - 2] == op
  {
    var a := DecimalString(start);
    var one := a + [op] + "\n";
    assert one[0..|a|] == a;
    ScanDecimalString(one, 0, start);
    assert one[|a|] == op;
  }

  /** The address check as written at tool/main.cc:292: an address may equal the number
      of entries. */
  predicate AcceptsAsWritten(c: Command, size: nat)
  {
    !(c.start > size || c.last > size || c.start > c.last)
  }

  /** The address check that keeps every access inside the entry array. */
  predicate Accepts(c: Command, size: nat)
  {
    c.start < size && c.last < size && c.start <= c.last
  }

  /** The two checks differ exactly on commands whose address is one past the last entry;
      there `a` inserts at position size + 1 and `c`/`d` touch entry size, neither of
      which exists. */
  lemma AsWrittenAdmitsEndAddress(c: Command, size: nat)
    ensures Accepts(c, size) <==> AcceptsAsWritten(c, size) && c.start != size && c.last != size
    ensures AcceptsAsWritten(Command(size, size, c.op), size) && !Accepts(Command(size, size, c.op), size)
  {
  }

  /** The entry array after an accepted command: `a` inserts the chunk after entry start,
      any other operation replaces entries start..last by it. */
  function Edit(idx: seq<string>, c: Command, chunk: seq<string>): (r: seq<string>)
    requires Accepts(c, |idx|)
  {
    if c.op == 'a' then idx[..c.start + 1] + chunk + idx[c.start + 1..]
    else idx[..c.start] + chunk + idx[c.last + 1..]
  }

  /** An edit changes the length by the chunk minus the replaced range, keeps the entries
      before and after it in order, and its text is the text before, the chunk, the text after. */
  lemma {:induction false} EditShape(idx: seq<string>, c: Command, chunk: seq<string>)
    requires Accepts(c, |idx|)
    ensures var cut := if c.op == 'a' then c.start + 1 else c.start;
            var resume := if c.op == 'a' then c.start + 1 else c.last + 1;
            var r := Edit(idx, c, chunk);
            && |r| == |idx| - (resume - cut) + |chunk|
            && r[..cut] == idx[..cut]
            && r[cut..cut + |chunk|] == chunk
            && r[cut + |chunk|..] == idx[resume..]
            && Concat(r) == Concat(idx[..cut]) + Concat(chunk) + Concat(idx[resume..])
  {
    var cut := if c.op == 'a' then c.start + 1 else c.start;
    var resume := if c.op == 'a' then c.start + 1 else c.last + 1;
    ConcatAppend(idx[..cut] + chunk, idx[resume..]);
    ConcatAppend(idx[..cut], chunk);
  }

  /** rangeStart after patchChunk: unchanged by `a`; advanced by the replacement loop once
      per chunk entry written over the range otherwise. */
  function RangeStartAfter(c: Command, chunkLen: nat): nat
    requires c.start <= c.last
  {
    if c.op == 'a' then c.start else c.start + Min(chunkLen, c.last - c.start + 1)
  }

  /** Ed's current line after a command, what the `s/.//` fix-up is meant to edit: the
      last entry the command wrote; when it wrote none, the entry at its first address
      (after a delete, the line that followed the range), which is also where the
      register rangeStart is left. */
  function DotAfter(c: Command, chunkLen: nat): nat
  {
    if chunkLen == 0 then c.start else if c.op == 'a' then c.start + chunkLen else c.start + chunkLen - 1
  }

  /** DotAfter names the chunk's last line in the edited array. */
  lemma DotIsLastWritten(idx: seq<string>, c: Command, chunk: seq<string>)
    requires Accepts(c, |idx|) && |chunk| > 0
    ensures DotAfter(c, |chunk|) < |Edit(idx, c, chunk)|
    ensures Edit(idx, c, chunk)[DotAfter(c, |chunk|)] == chunk[|chunk| - 1]
  {
    EditShape(idx, c, chunk);
    var cut := if c.op == 'a' then c.start + 1 else c.start;
    assert Edit(idx, c, chunk)[cut..cut + |chunk|][|chunk| - 1] == chunk[|chunk| - 1];
  }

  /** The fix-up as written edits entry rangeStart; that is ed's current line only after a
      command with an empty chunk, or a change whose chunk is one entry longer than the
      replaced range. */
  lemma FixTargetAsWritten(c: Command, chunkLen: nat)
    requires c.start <= c.last
    ensures RangeStartAfter(c, chunkLen) == DotAfter(c, chunkLen)
            <==> chunkLen == 0 || (c.op != 'a' && chunkLen == c.last - c.start + 2)
  {
  }

  // ---------------------------------------------------------------- the script walk

  /** Where patch_file's script loop resumes after a line, as written at tool/main.cc:452:
      p = crNext + 1 even when strchr found no newline and crNext is the null pointer.
      Addresses are absolute; the script occupies [base, base + size). */
  function NextLineAddressAsWritten(base: nat, crNext: Option<nat>): nat
  {
    match crNext
    case Some(k) => base + k + 1
    case None => NullAddress + 1
  }

  /** The address of the null pointer strchr returns when it finds no newline. */
  const NullAddress: nat := 0

  /** For a script whose last line has no newline, the as-written loop does not stop: its
      next position passes the loop test p < base + size yet lies outside the buffer. */
  lemma UnterminatedLastLineOverruns(base: nat, size: nat)
    requires base > 1
    ensures var p := NextLineAddressAsWritten(base, None);
            p < base + size && !(base <= p < base + size)
  {
  }

  /** Where the loop resumes once the break signal of tool/main.cc:450 is kept: after the
      newline, or at the end when the rest of the script is one unterminated line. */
  function NextLineStart(s: string, p: nat): (q: nat)
    requires p < |s|
    ensures p < q <= |s|
    ensures Lines(s[p..]) == [s[p..q]] + Lines(s[q..])
  {
    match FindNewline(s[p..])
    case Some(k) =>
      assert s[p..][..k + 1] == s[p..p + k + 1] && s[p..][k + 1..] == s[p + k + 1..];
      p + k + 1
    case None =>
      assert s[|s|..] == [] && s[p..|s|] == s[p..];
      assert Lines(s[p..]) == [s[p..]];
      |s|
  }

  /** The patcher's state between script lines: the entry array, the registers rangeStart
      and rangeLast, ed's current line, the pending chunk and the pending command line
      (empty when no command is pending). */
  datatype PatchState = PatchState(idx: seq<string>, rangeStart: nat, rangeLast: nat, dot: nat,
                                   chunk: seq<string>, cmd: string)

  /** The state before the script: the base split into entries behind a zero-length entry 0,
      so that ed's line n is entry n; the registers are the zero-initialised globals. */
  function Initial(base: string): PatchState
  {
    PatchState([""] + Lines(base), 0, 0, 0, [], [])
  }

  lemma InitialWritesBase(base: string)
    ensures Concat(Initial(base).idx) == base
  {
    ConcatLines(base);
    assert ([""] + Lines(base))[1..] == Lines(base);
  }

  /** patchChunk on the pending command and chunk, with the address check corrected;
      None when it rejects the command. */
  function ApplyCommand(st: PatchState): Option<PatchState>
  {
    match ParseCommand(st.cmd)
    case None => None
    case Some(c) =>
      if Accepts(c, |st.idx|) then
        Some(PatchState(Edit(st.idx, c, st.chunk), RangeStartAfter(c, |st.chunk|), c.last,
                        DotAfter(c, |st.chunk|), [], []))
      else None
  }

  /** `s/.//`: turn ed's current line back into the single dot that `diff -e` had to
      double; entry 0 and a current line that is gone are left alone. */
  function FixLastLine(st: PatchState): PatchState
  {
    if 0 < st.dot < |st.idx| then st.(idx := st.idx[st.dot := ".\n"]) else st
  }

  /** The fix-up as written at tool/main.cc:462-463: it edits entry rangeStart, the
      register patchChunk leaves behind, unless that is zero; None where that entry does
      not exist and the write would fall outside the array. */
  function FixLastLineAsWritten(st: PatchState): Option<PatchState>
  {
    if st.rangeStart == 0 then Some(st)
    else if st.rangeStart < |st.idx| then Some(st.(idx := st.idx[st.rangeStart := ".\n"]))
    else None
  }

  /** After a command with an empty chunk (a delete, or `a`/`c` followed directly by `.`),
      the fix-up as written and the corrected one edit the same entry. */
  lemma FixUpAgreesWithoutChunk(st: PatchState)
    requires st.chunk == [] && ApplyCommand(st).Some?
    ensures var after := ApplyCommand(st).value;
            after.rangeStart < |after.idx| ==> FixLastLineAsWritten(after) == Some(FixLastLine(after))
  {
  }

  /** A line that ends a chunk: two characters, the first a dot. */
  predicate EndsChunk(line: string) { |line| == 2 && line[0] == '.' }

  predicate IsFixLastLine(line: string) { |line| >= 6 && line[..6] == "s/.//\n" }

  /** A command that needs no chunk: its character before the newline is `d`. */
  predicate IsDelete(line: string) { |line| > 2 && line[|line| - 2] == 'd' }

  /** One script line; None when the patcher rejects it, which ends the tool with EINVAL. */
  function Step(st: PatchState, line: string): Option<PatchState>
    requires |line| > 0
  {
    if EndsChunk(line) then (if st.cmd == [] then None else ApplyCommand(st))
    else if st.cmd != [] then Some(st.(chunk := st.chunk + [line]))
    else if IsFixLastLine(line) then Some(FixLastLine(st))
    else if line[0] == 'w' then Some(st)
    else if IsDelete(line) then ApplyCommand(st.(cmd := line))
    else Some(st.(cmd := line))
  }

  predicate NonEmptyLines(lines: seq<string>) { forall i :: 0 <= i < |lines| ==> |lines[i]| > 0 }

  function Run(st: PatchState, lines: seq<string>): Option<PatchState>
    requires NonEmptyLines(lines)
    decreases |lines|
  {
    if lines == [] then Some(st)
    else match Step(st, lines[0])
      case None => None
      case Some(next) => Run(next, lines[1..])
  }

  /** Running a script one line at a time. */
  lemma RunCons(st: PatchState, line: string, rest: seq<string>)
    requires |line| > 0 && NonEmptyLines(rest)
    ensures NonEmptyLines([line] + rest)
    ensures Run(st, [line] + rest) == match Step(st, line) case None => None case Some(next) => Run(next, rest)
  {
    assert ([line] + rest)[0] == line && ([line] + rest)[1..] == rest;
  }

  /** `acngtool patch`: the patched text, or None when a script line is rejected. A chunk
      still pending when the script ends is dropped, as the source drops it. */
  function Patch(base: string, script: string): Option<string>
  {
    match Run(Initial(base), Lines(script))
    case None => None
    case Some(st) => Some(Concat(st.idx))
  }

  // ---------------------------------------------------------------- script properties

  /** Lines starting with `w` are skipped while no command is pending. */
  lemma {:induction false} WriteLinesSkipped(st: PatchState, lines: seq<string>)
    requires st.cmd == []
    requires forall i :: 0 <= i < |lines| ==> |lines[i]| > 0 && lines[i][0] == 'w'
    ensures Run(st, lines) == Some(st)
    decreases |lines|
  {
    if lines != [] {
      WriteLinesSkipped(st, lines[1..]);
    }
  }

  /** A script without commands writes the base back unchanged. */
  lemma ScriptWithoutCommands(base: string, script: string)
    requires forall i :: 0 <= i < |Lines(script)| ==> Lines(script)[i][0] == 'w'
    ensures Patch(base, script) == Some(base)
  {
    WriteLinesSkipped(Initial(base), Lines(script));
    InitialWritesBase(base);
  }

  /** While a command is pending, every line but a chunk terminator joins the chunk. */
  lemma {:induction false} ChunkCollected(st: PatchState, text: seq<string>, rest: seq<string>)
    requires st.cmd != []
    requires NonEmptyLines(text) && NonEmptyLines(rest)
    requires forall i :: 0 <= i < |text| ==> !EndsChunk(text[i])
    ensures NonEmptyLines(text + rest)
    ensures Run(st, text + rest) == Run(st.(chunk := st.chunk + text), rest)
    decreases |text|
  {
    if text != [] {
      assert (text + rest)[1..] == text[1..] + rest;
      ChunkCollected(st.(chunk := st.chunk + [text[0]]), text[1..], rest);
      assert st.chunk + [text[0]] + text[1..] == st.chunk + text;
    } else {
      assert text + rest == rest && st.chunk + text == st.chunk;
    }
  }

  // ---------------------------------------------------------------- commands as diff -e writes them

  /** `Na`: append after line N. */
  function AppendCommand(n: nat): string { DecimalString(n) + "a\n" }

  /** `N,Md`: delete lines N..M. */
  function DeleteCommand(first: nat, last: nat): string { DecimalString(first) + "," + DecimalString(last) + "d\n" }

  /** `N,Mc`: change lines N..M. */
  function ChangeCommand(first: nat, last: nat): string { DecimalString(first) + "," + DecimalString(last) + "c\n" }

  /** A command line the script walk takes as the start of a chunk. */
  predicate OpensChunk(cmd: string)
  {
    |cmd| > 2 && !IsFixLastLine(cmd) && cmd[0] != 'w' && !IsDelete(cmd)
  }

  /** Text with neither a newline nor a NUL in it. */
  predicate AllPlain(s: string) { forall k :: 0 <= k < |s| ==> PlainChar(s[k]) }

  lemma DigitsPlain(d: string)
    requires AllDigits(d)
    ensures AllPlain(d)
  {
  }

  lemma PlainAppend(x: string, y: string)
    requires AllPlain(x) && AllPlain(y)
    ensures AllPlain(x + y)
  {
    forall k | 0 <= k < |x + y| ensures PlainChar((x + y)[k]) {
      if k < |x| { assert (x + y)[k] == x[k]; } else { assert (x + y)[k] == y[k - |x|]; }
    }
  }

  lemma PlainLine(body: string)
    requires AllPlain(body)
    ensures IsLine(body + "\n")
  {
    var e := body + "\n";
    forall k | 0 <= k < |e| - 1 ensures PlainChar(e[k]) {
      assert e[k] == body[k];
    }
    WholeLine(e);
  }

  /** A line that starts with a digit is neither `s/.//` nor a `w` command. */
  lemma StartsWithDigit(line: string)
    requires |line| > 0 && IsDigit(line[0])
    ensures !IsFixLastLine(line) && line[0] != 'w'
  {
    if |line| >= 6 {
      assert line[..6][0] == line[0];
    }
  }

  /** The command lines `diff -e` writes are whole lines that parse back to the command. */
  lemma AppendCommandParsed(n: nat)
    requires n <= ULongMax
    ensures var cmd := AppendCommand(n);
            IsLine(cmd) && OpensChunk(cmd) && ParseCommand(cmd) == Some(Command(n, n, 'a'))
  {
    var d := DecimalString(n);
    DigitsPlain(d);
    PlainAppend(d, "a");
    PlainLine(d + "a");
    var cmd := AppendCommand(n);
    assert cmd == d + ['a'] + "\n" == (d + "a") + "\n";
    assert cmd[0] == d[0] && cmd[|cmd| - 2] == 'a';
    StartsWithDigit(cmd);
    CommandForms(n, n, 'a');
  }

  lemma RangeCommandParsed(first: nat, last: nat, op: char)
    requires first <= ULongMax && last <= ULongMax
    requires op == 'c' || op == 'd'
    ensures var cmd := DecimalString(first) + "," + DecimalString(last) + [op] + "\n";
            && IsLine(cmd) && cmd[0] != 'w' && !IsFixLastLine(cmd) && !EndsChunk(cmd)
            && (IsDelete(cmd) <==> op == 'd')
            && ParseCommand(cmd) == Some(Command(first, last, op))
  {
    var a := DecimalString(first);
    var b := DecimalString(last);
    DigitsPlain(a);
    DigitsPlain(b);
    PlainAppend(a, ",");
    PlainAppend(a + ",", b);
    PlainAppend(a + "," + b, [op]);
    var body := a + "," + b + [op];
    PlainLine(body);
    var cmd := a + "," + b + [op] + "\n";
    assert cmd == body + "\n";
    assert cmd[0] == a[0] && cmd[|cmd| - 2] == op;
    StartsWithDigit(cmd);
    CommandForms(first, last, op);
  }

  lemma DeleteCommandParsed(first: nat, last: nat)
    requires first <= ULongMax && last <= ULongMax
    ensures var cmd := DeleteCommand(first, last);
            && IsLine(cmd) && IsDelete(cmd) && cmd[0] != 'w' && !IsFixLastLine(cmd) && !EndsChunk(cmd)
            && ParseCommand(cmd) == Some(Command(first, last, 'd'))
  {
    RangeCommandParsed(first, last, 'd');
    assert DeleteCommand(first, last) == DecimalString(first) + "," + DecimalString(last) + ['d'] + "\n";
  }

  lemma ChangeCommandParsed(first: nat, last: nat)
    requires first <= ULongMax && last <= ULongMax
    ensures var cmd := ChangeCommand(first, last);
            IsLine(cmd) && OpensChunk(cmd) && ParseCommand(cmd) == Some(Command(first, last, 'c'))
  {
    RangeCommandParsed(first, last, 'c');
    assert ChangeCommand(first, last) == DecimalString(first) + "," + DecimalString(last) + ['c'] + "\n";
  }

  // ---------------------------------------------------------------- whole scripts

  /** ApplyCommand on a command that parses to c. */
  lemma ApplyParsed(st: PatchState, c: Command)
    requires ParseCommand(st.cmd) == Some(c)
    ensures ApplyCommand(st) == if Accepts(c, |st.idx|) then
              Some(PatchState(Edit(st.idx, c, st.chunk), RangeStartAfter(c, |st.chunk|), c.last,
                              DotAfter(c, |st.chunk|), [], []))
            else None
  {
  }

  /** A command line, the chunk, then `.`: the command is applied to exactly those lines. */
  lemma RunCommandWithChunk(st: PatchState, cmd: string, text: seq<string>)
    requires st.cmd == [] && st.chunk == [] && OpensChunk(cmd)
    requires forall i :: 0 <= i < |text| ==> |text[i]| > 0 && !EndsChunk(text[i])
    ensures NonEmptyLines([cmd] + text + [".\n"])
    ensures Run(st, [cmd] + text + [".\n"]) == ApplyCommand(st.(cmd := cmd, chunk := text))
  {
    var all := [cmd] + text + [".\n"];
    assert all[0] == cmd && all[1..] == text + [".\n"];
    var st1 := st.(cmd := cmd);
    assert Step(st, cmd) == Some(st1);
    ChunkCollected(st1, text, [".\n"]);
    assert st1.chunk + text == text;
    var st2 := st1.(chunk := text);
    assert [".\n"][1..] == [];
    match ApplyCommand(st2)
    case None =>
    case Some(next) =>
      assert Run(next, []) == Some(next);
  }

  /** A delete command alone: applied at once, with an empty chunk. */
  lemma RunDelete(st: PatchState, cmd: string)
    requires st.cmd == [] && st.chunk == []
    requires |cmd| > 0 && IsDelete(cmd) && cmd[0] != 'w' && !IsFixLastLine(cmd) && !EndsChunk(cmd)
    ensures Run(st, [cmd]) == ApplyCommand(st.(cmd := cmd))
  {
    assert [cmd][0] == cmd && [cmd][1..] == [];
    match ApplyCommand(st.(cmd := cmd))
    case None =>
    case Some(next) =>
      assert Run(next, []) == Some(next);
  }

  lemma ConcatSingle(x: string)
    ensures Concat([x]) == x
  {
    assert [x][1..] == [];
  }

  /** The script text of a command, a chunk and the chunk terminator splits back into them,
      whatever follows. */
  lemma ScriptOfCommand(cmd: string, text: seq<string>, t: string)
    requires IsLine(cmd)
    requires forall i :: 0 <= i < |text| ==> IsLine(text[i])
    ensures Lines(cmd + Concat(text) + ".\n" + t) == [cmd] + text + [".\n"] + Lines(t)
  {
    var all := [cmd] + text + [".\n"];
    ConcatSingle(".\n");
    ConcatSingle(cmd);
    ConcatAppend([cmd] + text, [".\n"]);
    ConcatAppend([cmd], text);
    assert Concat(all) == cmd + Concat(text) + ".\n";
    WholeLine(".\n");
    assert forall i :: 0 <= i < |all| ==> IsLine(all[i]) by {
      forall i | 0 <= i < |all| ensures IsLine(all[i]) {
        if 0 < i < |all| - 1 {
          assert all[i] == text[i - 1];
        }
      }
    }
    LinesOfConcat(all, t);
  }

  /** Running two scripts one after the other. */
  lemma {:induction false} RunSplit(st: PatchState, a: seq<string>, b: seq<string>)
    requires NonEmptyLines(a) && NonEmptyLines(b)
    ensures NonEmptyLines(a + b)
    ensures Run(st, a + b) == match Run(st, a) case None => None case Some(mid) => Run(mid, b)
    decreases |a|
  {
    if a == [] {
      assert a + b == b;
    } else {
      assert (a + b)[0] == a[0] && (a + b)[1..] == a[1..] + b;
      match Step(st, a[0])
      case None =>
      case Some(next) =>
        RunSplit(next, a[1..], b);
    }
  }

  /** After an append the as-written fix-up misses the chunk: it overwrites the line the
      chunk was appended after and leaves the chunk's last line as it was, where the
      corrected fix-up edits exactly that last line. */
  lemma FixUpAsWrittenMissesAppend(st: PatchState, n: nat)
    requires st.cmd == [] && 0 < n < |st.idx| && n <= ULongMax && |st.chunk| > 0
    ensures ApplyCommand(st.(cmd := AppendCommand(n))).Some?
    ensures var after := ApplyCommand(st.(cmd := AppendCommand(n))).value;
            var last := n + |st.chunk|;
            && FixLastLineAsWritten(after) == Some(after.(idx := after.idx[n := ".\n"]))
            && after.idx[last] == st.chunk[|st.chunk| - 1]
            && FixLastLine(after).idx == after.idx[last := ".\n"]
  {
    var c := Command(n, n, 'a');
    AppendCommandParsed(n);
    ApplyParsed(st.(cmd := AppendCommand(n)), c);
    DotIsLastWritten(st.idx, c, st.chunk);
  }

  /** The smallest instance: base `x`, script `1a`, `..`, `.`, `s/.//`. As written the
      result is `.` then `..`; corrected it is `x` then `.`. */
  lemma FixUpAsWrittenExample()
    ensures var c := Command(1, 1, 'a');
            var after := PatchState(Edit(["", "x\n"], c, ["..\n"]), RangeStartAfter(c, 1), 1, DotAfter(c, 1), [], []);
            && FixLastLineAsWritten(after) == Some(after.(idx := ["", ".\n", "..\n"]))
            && FixLastLine(after).idx == ["", "x\n", ".\n"]
  {
    var c := Command(1, 1, 'a');
    var idx := ["", "x\n"];
    assert idx[..2] == idx && idx[2..] == [];
    var edited := Edit(idx, c, ["..\n"]);
    assert edited == ["", "x\n", "..\n"];
    assert edited[1 := ".\n"] == ["", ".\n", "..\n"];
    assert edited[2 := ".\n"] == ["", "x\n", ".\n"];
  }

  /** Base `a`, `b`, `c` and the script `1,1d`, `s/.//`: both fix-ups turn the line that
      followed the deleted one into a dot, leaving `.` then `c`. */
  lemma DeleteThenFixUpExample(cmd: string)
    requires cmd == DeleteCommand(1, 1)
    ensures var st := PatchState(["", "a\n", "b\n", "c\n"], 0, 0, 0, [], cmd);
            && ApplyCommand(st).Some?
            && FixLastLine(ApplyCommand(st).value).idx == ["", ".\n", "c\n"]
            && FixLastLineAsWritten(ApplyCommand(st).value) == Some(FixLastLine(ApplyCommand(st).value))
  {
    var idx := ["", "a\n", "b\n", "c\n"];
    var c := Command(1, 1, 'd');
    DeleteCommandParsed(1, 1);
    assert ParseCommand(cmd) == Some(c);
    assert idx[..1] == [""] && idx[2..] == ["b\n", "c\n"];
    var edited := Edit(idx, c, []);
    assert edited == ["", "b\n", "c\n"];
    var after := PatchState(edited, 1, 1, 1, [], []);
    assert ApplyCommand(PatchState(idx, 0, 0, 0, [], cmd)) == Some(after);
    assert edited[1 := ".\n"] == ["", ".\n", "c\n"];
  }

  /** Replacing the last entry an edit wrote is the same edit with that entry replaced in
      the chunk. */
  lemma EditLastReplaced(idx: seq<string>, c: Command, chunk: seq<string>, x: string)
    requires Accepts(c, |idx|) && |chunk| > 0
    ensures DotAfter(c, |chunk|) < |Edit(idx, c, chunk)|
    ensures Edit(idx, c, chunk)[DotAfter(c, |chunk|) := x] == Edit(idx, c, chunk[..|chunk| - 1] + [x])
  {
    DotIsLastWritten(idx, c, chunk);
    var fixed := chunk[..|chunk| - 1] + [x];
    assert fixed == chunk[|chunk| - 1 := x];
  }

  /** The text of the base's entry array split around line n. */
  lemma EntriesAround(lines: seq<string>, n: nat)
    requires n <= |lines|
    ensures Concat(([""] + lines)[..n + 1]) == Concat(lines[..n])
    ensures ([""] + lines)[n + 1..] == lines[n..]
  {
    var e := [""] + lines;
    assert e[..n + 1] == [""] + lines[..n];
    assert ([""] + lines[..n])[1..] == lines[..n];
  }

  /** The text of an append into the base's entry array. */
  lemma AppendText(lines: seq<string>, n: nat, text: seq<string>)
    requires n <= |lines|
    ensures Accepts(Command(n, n, 'a'), |[""] + lines|)
    ensures Concat(Edit([""] + lines, Command(n, n, 'a'), text)) == Concat(lines[..n]) + Concat(text) + Concat(lines[n..])
  {
    EditShape([""] + lines, Command(n, n, 'a'), text);
    EntriesAround(lines, n);
  }

  /** The text of a range replacement in the base's entry array. */
  lemma ReplaceText(lines: seq<string>, first: nat, last: nat, op: char, text: seq<string>)
    requires 1 <= first <= last <= |lines| && op != 'a'
    ensures Accepts(Command(first, last, op), |[""] + lines|)
    ensures Concat(Edit([""] + lines, Command(first, last, op), text))
              == Concat(lines[..first - 1]) + Concat(text) + Concat(lines[last..])
  {
    EditShape([""] + lines, Command(first, last, op), text);
    EntriesAround(lines, first - 1);
    assert ([""] + lines)[last + 1..] == lines[last..];
  }

  /** `Na` followed by whole lines and `.` inserts those lines after line N of the base,
      when the base has at least N lines; otherwise the script is rejected. */
  lemma AppendAfterLine(base: string, n: nat, text: seq<string>)
    requires n <= ULongMax
    requires forall i :: 0 <= i < |text| ==> IsLine(text[i]) && !EndsChunk(text[i])
    ensures var lines := Lines(base);
            Patch(base, AppendCommand(n) + Concat(text) + ".\n")
              == if n <= |lines| then Some(Concat(lines[..n]) + Concat(text) + Concat(lines[n..])) else None
  {
    var lines := Lines(base);
    var cmd := AppendCommand(n);
    AppendCommandParsed(n);
    ScriptOfCommand(cmd, text, []);
    assert AppendCommand(n) + Concat(text) + ".\n" + [] == AppendCommand(n) + Concat(text) + ".\n";
    assert [cmd] + text + [".\n"] + Lines([]) == [cmd] + text + [".\n"];
    var st0 := Initial(base);
    RunCommandWithChunk(st0, cmd, text);
    ApplyParsed(st0.(cmd := cmd, chunk := text), Command(n, n, 'a'));
    if n <= |lines| {
      AppendText(lines, n, text);
    }
  }

  /** `N,Md` deletes lines N..M of the base, when 1 <= N <= M and the base has M lines;
      otherwise the script is rejected. */
  lemma DeleteRange(base: string, first: nat, last: nat)
    requires 1 <= first <= last <= ULongMax
    ensures var lines := Lines(base);
            Patch(base, DeleteCommand(first, last))
              == if last <= |lines| then Some(Concat(lines[..first - 1]) + Concat(lines[last..])) else None
  {
    var lines := Lines(base);
    var cmd := DeleteCommand(first, last);
    var c := Command(first, last, 'd');
    DeleteCommandParsed(first, last);
    SingleLine(cmd);
    var st0 := Initial(base);
    RunDelete(st0, cmd);
    ApplyParsed(st0.(cmd := cmd), c);
    if last <= |lines| {
      ReplaceText(lines, first, last, 'd', []);
      assert Concat(lines[..first - 1]) + Concat([]) == Concat(lines[..first - 1]);
    }
  }

  /** `N,Mc` followed by whole lines and `.` replaces lines N..M of the base by those lines,
      when 1 <= N <= M and the base has M lines; otherwise the script is rejected. */
  lemma ChangeRange(base: string, first: nat, last: nat, text: seq<string>)
    requires 1 <= first <= last <= ULongMax
    requires forall i :: 0 <= i < |text| ==> IsLine(text[i]) && !EndsChunk(text[i])
    ensures var lines := Lines(base);
            Patch(base, ChangeCommand(first, last) + Concat(text) + ".\n")
              == if last <= |lines| then Some(Concat(lines[..first - 1]) + Concat(text) + Concat(lines[last..])) else None
  {
    var lines := Lines(base);
    var cmd := ChangeCommand(first, last);
    ChangeCommandParsed(first, last);
    ScriptOfCommand(cmd, text, []);
    assert ChangeCommand(first, last) + Concat(text) + ".\n" + [] == ChangeCommand(first, last) + Concat(text) + ".\n";
    assert [cmd] + text + [".\n"] + Lines([]) == [cmd] + text + [".\n"];
    var st0 := Initial(base);
    RunCommandWithChunk(st0, cmd, text);
    ApplyParsed(st0.(cmd := cmd, chunk := text), Command(first, last, 'c'));
    if last <= |lines| {
      ReplaceText(lines, first, last, 'c', text);
    }
  }

  /** The lines of a script that ends in the `s/.//` fix-up. */
  lemma ScriptWithDotFix(cmd: string, text: seq<string>)
    requires IsLine(cmd)
    requires forall i :: 0 <= i < |text| ==> IsLine(text[i])
    ensures Lines(cmd + Concat(text) + ".\n" + "s/.//\n") == [cmd] + text + [".\n"] + ["s/.//\n"]
  {
    PlainLine("s/.//");
    assert "s/.//" + "\n" == "s/.//\n";
    SingleLine("s/.//\n");
    ScriptOfCommand(cmd, text, "s/.//\n");
  }

  /** A command with its chunk, then the fix-up: the command is applied, then FixLastLine. */
  lemma RunCommandThenFix(st: PatchState, cmd: string, text: seq<string>)
    requires st.cmd == [] && st.chunk == [] && OpensChunk(cmd)
    requires forall i :: 0 <= i < |text| ==> |text[i]| > 0 && !EndsChunk(text[i])
    ensures NonEmptyLines([cmd] + text + [".\n"] + ["s/.//\n"])
    ensures Run(st, [cmd] + text + [".\n"] + ["s/.//\n"])
              == match ApplyCommand(st.(cmd := cmd, chunk := text))
                 case None => None
                 case Some(after) => Some(FixLastLine(after))
  {
    var fix := "s/.//\n";
    RunCommandWithChunk(st, cmd, text);
    RunSplit(st, [cmd] + text + [".\n"], [fix]);
    match ApplyCommand(st.(cmd := cmd, chunk := text))
    case None =>
    case Some(after) =>
      assert [fix][0] == fix && [fix][1..] == [];
      assert Run(FixLastLine(after), []) == Some(FixLastLine(after));
  }

  /** The text an append leaves once the fix-up has turned its last line into a dot. */
  lemma AppendFixedText(lines: seq<string>, n: nat, text: seq<string>)
    requires n <= |lines| && |text| > 0
    ensures var c := Command(n, n, 'a');
            var idx := Edit([""] + lines, c, text);
            var st := PatchState(idx, RangeStartAfter(c, |text|), n, DotAfter(c, |text|), [], []);
            Concat(FixLastLine(st).idx) == Concat(lines[..n]) + Concat(text[..|text| - 1]) + ".\n" + Concat(lines[n..])
  {
    var c := Command(n, n, 'a');
    AppendText(lines, n, text);
    EditLastReplaced([""] + lines, c, text, ".\n");
    var fixed := text[..|text| - 1] + [".\n"];
    AppendText(lines, n, fixed);
    ConcatAppend(text[..|text| - 1], [".\n"]);
    ConcatSingle(".\n");
  }

  /** `Na`, a chunk whose last line `diff -e` wrote as `..`, `.`, then `s/.//`: the chunk
      is inserted after line N with its last line turned into a single dot. */
  lemma AppendWithDotFix(base: string, n: nat, text: seq<string>)
    requires n <= ULongMax && |text| > 0
    requires forall i :: 0 <= i < |text| ==> IsLine(text[i]) && !EndsChunk(text[i])
    ensures var lines := Lines(base);
            Patch(base, AppendCommand(n) + Concat(text) + ".\n" + "s/.//\n")
              == if n <= |lines| then Some(Concat(lines[..n]) + Concat(text[..|text| - 1]) + ".\n" + Concat(lines[n..]))
                 else None
  {
    var lines := Lines(base);
    var cmd := AppendCommand(n);
    var c := Command(n, n, 'a');
    AppendCommandParsed(n);
    ScriptWithDotFix(cmd, text);
    var st0 := Initial(base);
    RunCommandThenFix(st0, cmd, text);
    ApplyParsed(st0.(cmd := cmd, chunk := text), c);
    if n <= |lines| {
      AppendFixedText(lines, n, text);
    }
  }
}
