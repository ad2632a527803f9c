/** The ed-script patcher of tool/main.cc with the three corrections listed under Findings
    in README.md: the address check, the fix-up's target (`dot`) and the loop end. It keeps
    an entry array edited in place by patchChunk, the registers rangeStart and rangeLast
    that survive between commands, and the script walk of patch_file. Every method is
    proved against the functions of EdScript. */
module Patcher {
  import opened Wrappers
  import opened EdScript
  import opened Seqs
  import Posix

  class Patcher {
    /** The entries of the file being patched; entry 0 is the empty dummy entry. */
    var idx: seq<string>
    /** The globals sscanf writes the addresses of a command into. */
    var rangeStart: nat
    var rangeLast: nat
    /** ed's current line: the last entry the previous command wrote, or its first
        address when it wrote none (0 before any command). */
    var dot: nat

    /** The patcher's fields with a pending chunk and command. */
    function State(chunk: seq<string>, cmd: string): PatchState
      reads this
    {
      PatchState(idx, rangeStart, rangeLast, dot, chunk, cmd)
    }

    constructor()
      ensures idx == [] && rangeStart == 0 && rangeLast == 0 && dot == 0
    {
      idx := [];
      rangeStart := 0;
      rangeLast := 0;
      dot := 0;
    }

    /** The first loop of patch_file: a dummy entry, then one entry per line of the base. */
    method LoadBase(base: string)
      modifies this
      ensures idx == Initial(base).idx
      ensures rangeStart == old(rangeStart) && rangeLast == old(rangeLast) && dot == old(dot)
    {
      var entries := [""];
      var p := 0;
      while p < |base|
        invariant p <= |base|
        invariant entries + Lines(base[p..]) == [""] + Lines(base)
        invariant unchanged(this)
        decreases |base| - p
      {
        var q := NextLineStart(base, p);
        SeqAssoc(entries, [base[p..q]], Lines(base[q..]));
        entries := entries + [base[p..q]];
        p := q;
      }
      assert base[p..] == [] && Lines(base[p..]) == [];
      assert entries + [] == entries;
      idx := entries;
    }

    /** patchChunk: read the command's addresses into the registers, check them against
        the entry array, then insert the chunk (`a`) or write it over the range, inserting
        what does not fit or erasing what it leaves over. False when the command is
        rejected; the registers then hold what sscanf stored. */
    method PatchChunk(cmd: string, chunk: seq<string>) returns (ok: bool)
      modifies this
      ensures var r := ApplyCommand(old(State(chunk, cmd)));
              ok == r.Some? && (ok ==> State([], []) == r.value)
      ensures !ok ==> idx == old(idx) && dot == old(dot)
                      && (rangeStart, rangeLast) == ScannedRegisters(cmd, old(rangeStart), old(rangeLast))
    {
      ghost var st0 := State(chunk, cmd);
      var parsed := ReadCommand(cmd);
      if parsed.None? {
        return false;
      }
      var c := parsed.value;
      ApplyParsed(st0, c);
      if !(rangeStart < |idx| && rangeLast < |idx| && rangeStart <= rangeLast) {
        return false;
      }
      if c.op == 'a' {
        idx := idx[..rangeStart + 1] + chunk + idx[rangeStart + 1..];
      } else {
        Replace(c, chunk);
      }
      dot := DotAfter(c, |chunk|);
      assert State([], []) == PatchState(Edit(st0.idx, c, chunk), RangeStartAfter(c, |chunk|), c.last, DotAfter(c, |chunk|), [], []);
      return true;
    }

    /** The sscanf call of patchChunk: the registers take the addresses it converts; with
        one address rangeLast copies it and the operation is the character before the
        newline. */
    method ReadCommand(cmd: string) returns (parsed: Option<Command>)
      modifies this
      ensures parsed == ParseCommand(cmd)
      ensures (rangeStart, rangeLast) == ScannedRegisters(cmd, old(rangeStart), old(rangeLast))
      ensures parsed.Some? ==> rangeStart == parsed.value.start && rangeLast == parsed.value.last
      ensures idx == old(idx) && dot == old(dot)
    {
      match ScanCommand(cmd) {
        case NoMatch =>
          return None;
        case FirstTwo(a, b) =>
          rangeStart, rangeLast := a, b;
          return None;
        case First(a) =>
          rangeStart, rangeLast := a, a;
          if |cmd| < 2 {
            return None;
          }
          return Some(Command(rangeStart, rangeLast, cmd[|cmd| - 2]));
        case All(a, b, op) =>
          rangeStart, rangeLast := a, b;
          return Some(Command(rangeStart, rangeLast, op));
      }
    }

    /** The replacement branch of patchChunk: the chunk is written over entries
        rangeStart..rangeLast one by one, advancing rangeStart; a chunk longer than the
        range has its rest inserted, a shorter one leaves the rest of the range erased. */
    method Replace(c: Command, chunk: seq<string>)
      requires c.op != 'a' && c.start == rangeStart && c.last == rangeLast && Accepts(c, |idx|)
      modifies this
      ensures idx == Edit(old(idx), c, chunk) && rangeStart == RangeStartAfter(c, |chunk|)
      ensures rangeLast == old(rangeLast) && dot == old(dot)
    {
      ghost var idx0, s0 := idx, rangeStart;
      var i := 0;
      while i < |chunk|
        invariant i <= |chunk| && rangeStart == s0 + i && rangeStart <= rangeLast + 1
        invariant rangeLast == old(rangeLast) && |idx| == |idx0| && dot == old(dot)
        invariant idx == idx0[..s0] + chunk[..i] + idx0[s0 + i..]
        decreases |chunk| - i
      {
        if rangeStart <= rangeLast {
          WriteOver(idx0, s0, chunk, i);
          idx := idx[rangeStart := chunk[i]];
        } else {
          break;
        }
        i, rangeStart := i + 1, rangeStart + 1;
      }
      if i < |chunk| {
        InsertRest(idx0, s0, rangeLast, chunk, i);
        idx := idx[..rangeStart] + chunk[i..] + idx[rangeStart..];
      } else if rangeStart != rangeLast + 1 {
        EraseRest(idx0, s0, rangeLast, chunk);
        idx := idx[..rangeStart] + idx[rangeLast + 1..];
      } else {
        assert chunk[..i] == chunk;
      }
    }

    /** `s/.//`: the entry that is ed's current line becomes a single dot. */
    method FixLastLine()
      modifies this
      ensures forall chunk, cmd :: State(chunk, cmd) == EdScript.FixLastLine(old(State(chunk, cmd)))
    {
      if 0 < dot < |idx| {
        idx := idx[dot := ".\n"];
      }
    }

    /** The script loop of patch_file: the script is cut into lines as the base was, and
        each line is handled in turn. False when a command is rejected, where the tool
        exits with EINVAL. */
    method ApplyScript(script: string) returns (ok: bool)
      modifies this
      ensures var r := Run(old(State([], [])), Lines(script));
              ok == r.Some? && (ok ==> State(r.value.chunk, r.value.cmd) == r.value)
    {
      ghost var goal := Run(State([], []), Lines(script));
      var chunk: seq<string> := [];
      var cmd: string := [];
      var p := 0;
      while p < |script|
        invariant p <= |script|
        invariant Run(State(chunk, cmd), Lines(script[p..])) == goal
        decreases |script| - p
      {
        var q := NextLineStart(script, p);
        var line := script[p..q];
        RunCons(State(chunk, cmd), line, Lines(script[q..]));
        p := q;
        var good;
        good, chunk, cmd := ScriptLine(line, chunk, cmd);
        if !good {
          return false;
        }
      }
      assert script[p..] == [];
      return true;
    }

    /** One line of the script loop: it joins the pending chunk, or ends it and has
        patchChunk apply the pending command; while no command is pending it is the
        fix-up, a `w` line that is skipped, or a new command, applied at once when it is
        a delete. */
    method ScriptLine(line: string, chunk: seq<string>, cmd: string)
      returns (ok: bool, chunk': seq<string>, cmd': string)
      requires |line| > 0
      modifies this
      ensures var r := Step(old(State(chunk, cmd)), line);
              ok == r.Some? && (ok ==> State(chunk', cmd') == r.value)
    {
      chunk', cmd' := chunk, cmd;
      var gogo := |line| == 2 && line[0] == '.';
      if !gogo {
        if cmd' == [] {
          if |line| >= 6 && line[..6] == "s/.//\n" {
            FixLastLine();
            return true, chunk', cmd';
          } else if line[0] == 'w' {
            return true, chunk', cmd';
          }
          cmd' := line;
          if |line| > 2 && line[|line| - 2] == 'd' {
            gogo := true;
          }
        } else {
          chunk' := chunk' + [line];
        }
      }
      if gogo {
        if cmd' == [] {
          return false, chunk', cmd';
        }
        ok := PatchChunk(cmd', chunk');
        if !ok {
          return;
        }
        chunk', cmd' := [], [];
      }
      ok := true;
    }
  }

  /** One step of the replacement loop: entry s0 + i takes the chunk's entry i. */
  lemma WriteOver(idx0: seq<string>, s0: nat, chunk: seq<string>, i: nat)
    requires i < |chunk| && s0 + i < |idx0|
    ensures (idx0[..s0] + chunk[..i] + idx0[s0 + i..])[s0 + i := chunk[i]] == idx0[..s0] + chunk[..i + 1] + idx0[s0 + i + 1..]
  {
    var before := idx0[..s0] + chunk[..i] + idx0[s0 + i..];
    var after := idx0[..s0] + chunk[..i + 1] + idx0[s0 + i + 1..];
    assert |before[s0 + i := chunk[i]]| == |after|;
    forall k | 0 <= k < |after| ensures before[s0 + i := chunk[i]][k] == after[k] {
      if k < s0 {
      } else if k < s0 + i + 1 {
        assert after[k] == chunk[..i + 1][k - s0];
      }
    }
  }

  /** The chunk outgrew the range: the rest is inserted where the range ended. */
  lemma InsertRest(idx0: seq<string>, s0: nat, last: nat, chunk: seq<string>, i: nat)
    requires i < |chunk| && s0 + i == last + 1 <= |idx0|
    ensures var mid := idx0[..s0] + chunk[..i] + idx0[s0 + i..];
            mid[..s0 + i] + chunk[i..] + mid[s0 + i..] == idx0[..s0] + chunk + idx0[last + 1..]
  {
    var mid := idx0[..s0] + chunk[..i] + idx0[s0 + i..];
    assert mid[..s0 + i] == idx0[..s0] + chunk[..i];
    assert mid[s0 + i..] == idx0[last + 1..];
    assert chunk[..i] + chunk[i..] == chunk;
  }

  /** The range outgrew the chunk: the entries the chunk did not overwrite are erased. */
  lemma EraseRest(idx0: seq<string>, s0: nat, last: nat, chunk: seq<string>)
    requires s0 + |chunk| <= last + 1 <= |idx0|
    ensures var mid := idx0[..s0] + chunk[..|chunk|] + idx0[s0 + |chunk|..];
            mid[..s0 + |chunk|] + mid[last + 1..] == idx0[..s0] + chunk + idx0[last + 1..]
  {
    var mid := idx0[..s0] + chunk[..|chunk|] + idx0[s0 + |chunk|..];
    assert chunk[..|chunk|] == chunk;
    assert mid[..s0 + |chunk|] == idx0[..s0] + chunk;
    assert mid[last + 1..] == idx0[last + 1..];
  }

  /** patch_file, the `patch` command of acngtool: load the base, run the script, write
      the entries out. The outcome of opening the three files and of the final flush is
      given, not performed. The status is -2 when an input cannot be opened, EINVAL (the
      exit status) when a script command is rejected, -3 when the result cannot be opened,
      -4 when writing fails and 0 otherwise. */
  method PatchFile(base: string, script: string, inputsOpen: bool, resultOpen: bool, writeGood: bool)
    returns (status: int, written: string)
    ensures !inputsOpen ==> status == -2 && written == []
    ensures inputsOpen && Patch(base, script).None? ==> status == Posix.EINVAL && written == []
    ensures inputsOpen && Patch(base, script).Some? && !resultOpen ==> status == -3 && written == []
    ensures inputsOpen && Patch(base, script).Some? && resultOpen ==>
              written == Patch(base, script).value && status == (if writeGood then 0 else -4)
  {
    if !inputsOpen {
      return -2, [];
    }
    var patcher := new Patcher();
    patcher.LoadBase(base);
    assert patcher.State([], []) == Initial(base);
    var ok := patcher.ApplyScript(script);
    if !ok {
      return Posix.EINVAL, [];
    }
    ghost var r := Run(Initial(base), Lines(script));
    assert patcher.idx == r.value.idx;
    if !resultOpen {
      return -3, [];
    }
    var entries := patcher.idx;
    written := [];
    var i := 0;
    while i < |entries|
      invariant i <= |entries|
      invariant written == Concat(entries[..i])
      decreases |entries| - i
    {
      ConcatAppend(entries[..i], [entries[i]]);
      ConcatSingle(entries[i]);
      assert entries[..i + 1] == entries[..i] + [entries[i]];
      written := written + entries[i];
      i := i + 1;
    }
    assert entries[..i] == entries;
    status := if writeGood then 0 else -4;
  }
}
