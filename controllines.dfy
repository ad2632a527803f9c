/** The control-line scanner of the report item in tool/main.cc: a bounded line buffer that
    takes arbitrary pieces of a response body and cuts complete lines out of it, and the
    recognition of lines `<key><number><text>` that carry error reports. Everything here
    is a function of the buffer and the input; Items.ReportItem runs it in place. */
module ControlLines {
  import opened Wrappers
  import opened CNumbers
  import opened Seqs

  /** The size the line buffer is given when the item is made (1 << 16). */
  const Capacity: nat := 0x1_0000

  predicate IsTerminator(c: char) { c == '\r' || c == '\n' }

  predicate NoTerminator(s: string) { forall k :: 0 <= k < |s| ==> !IsTerminator(s[k]) }

  /** mempbrk(p, "\r\n", size) from index i on: the first carriage return or line feed. */
  function TerminatorFrom(s: string, i: nat): (r: Option<nat>)
    requires i <= |s|
    ensures r.Some? ==> i <= r.value < |s| && IsTerminator(s[r.value])
    ensures forall k :: i <= k < (if r.Some? then r.value else |s|) ==> !IsTerminator(s[k])
    decreases |s| - i
  {
    if i == |s| then None
    else if IsTerminator(s[i]) then Some(i)
    else TerminatorFrom(s, i + 1)
  }

  function FindTerminator(s: string): (r: Option<nat>)
    ensures r.Some? ==> r.value < |s| && IsTerminator(s[r.value]) && NoTerminator(s[..r.value])
    ensures r.None? ==> NoTerminator(s)
  {
    TerminatorFrom(s, 0)
  }

  /** strchr-like search finds a terminator at k when k is the first one. */
  lemma {:induction false} TerminatorFromAt(s: string, i: nat, k: nat)
    requires i <= k < |s| && IsTerminator(s[k])
    requires forall j :: i <= j < k ==> !IsTerminator(s[j])
    ensures TerminatorFrom(s, i) == Some(k)
    decreases k - i
  {
    if i < k {
      TerminatorFromAt(s, i + 1, k);
    }
  }

  lemma {:induction false} NoTerminatorFrom(s: string, i: nat)
    requires i <= |s|
    requires forall j :: i <= j < |s| ==> !IsTerminator(s[j])
    ensures TerminatorFrom(s, i) == None
    decreases |s| - i
  {
    if i < |s| {
      NoTerminatorFrom(s, i + 1);
    }
  }

  lemma FirstTerminator(s: string, k: nat)
    requires k < |s| && IsTerminator(s[k]) && NoTerminator(s[..k])
    ensures FindTerminator(s) == Some(k)
  {
    forall j | 0 <= j < k ensures !IsTerminator(s[j]) {
      assert s[j] == s[..k][j];
    }
    TerminatorFromAt(s, 0, k);
  }

  /** The complete lines cut from a buffer, the terminator that ended each, and what is
      left for the next call. */
  datatype Split = Split(lines: seq<string>, ends: seq<char>, rest: string)

  /** The scanner loop: cut at the first terminator, drop the line and exactly that one
      terminator, repeat until no terminator is left. */
  function TakeLines(buf: string): (r: Split)
    ensures |r.lines| == |r.ends| && |r.rest| <= |buf| && NoTerminator(r.rest)
    ensures forall i :: 0 <= i < |r.lines| ==> NoTerminator(r.lines[i]) && IsTerminator(r.ends[i])
    decreases |buf|
  {
    match FindTerminator(buf)
    case None => Split([], [], buf)
    case Some(k) =>
      var t := TakeLines(buf[k + 1..]);
      Split([buf[..k]] + t.lines, [buf[k]] + t.ends, t.rest)
  }

  /** Every line with its terminator, then the rest. */
  function Rejoin(lines: seq<string>, ends: seq<char>, rest: string): string
    requires |lines| == |ends|
    decreases |lines|
  {
    if lines == [] then rest else lines[0] + [ends[0]] + Rejoin(lines[1..], ends[1..], rest)
  }

  /** Nothing is lost or reordered: the lines, their terminators and the rest spell the buffer. */
  lemma {:induction false} TakeLinesRejoin(buf: string)
    ensures var r := TakeLines(buf); Rejoin(r.lines, r.ends, r.rest) == buf
    decreases |buf|
  {
    match FindTerminator(buf)
    case None =>
    case Some(k) =>
      var t := TakeLines(buf[k + 1..]);
      TakeLinesRejoin(buf[k + 1..]);
      var r := TakeLines(buf);
      assert r.lines[1..] == t.lines && r.ends[1..] == t.ends;
      assert buf == buf[..k] + [buf[k]] + buf[k + 1..];
  }

  /** The cut is the only one possible: text made of terminator-free lines, each followed
      by one terminator, then a terminator-free rest, is cut back into exactly those parts. */
  lemma {:induction false} RejoinTakeLines(lines: seq<string>, ends: seq<char>, rest: string)
    requires |lines| == |ends| && NoTerminator(rest)
    requires forall i :: 0 <= i < |lines| ==> NoTerminator(lines[i]) && IsTerminator(ends[i])
    ensures TakeLines(Rejoin(lines, ends, rest)) == Split(lines, ends, rest)
    decreases |lines|
  {
    if lines == [] {
      NoTerminatorFrom(rest, 0);
    } else {
      var tail := Rejoin(lines[1..], ends[1..], rest);
      var s := Rejoin(lines, ends, rest);
      var l := lines[0];
      assert s == l + ([ends[0]] + tail);
      assert s[..|l|] == l && s[|l|] == ends[0] && s[|l| + 1..] == tail;
      FirstTerminator(s, |l|);
      RejoinTakeLines(lines[1..], ends[1..], rest);
      assert lines == [l] + lines[1..] && ends == [ends[0]] + ends[1..];
    }
  }

  /** Cutting is resumable: cutting x and then its rest followed by y gives the lines of
      cutting x + y at once. */
  lemma {:induction false} TakeLinesResume(x: string, y: string)
    ensures var a := TakeLines(x);
            var b := TakeLines(a.rest + y);
            TakeLines(x + y) == Split(a.lines + b.lines, a.ends + b.ends, b.rest)
    decreases |x|
  {
    var a := TakeLines(x);
    match FindTerminator(x)
    case None =>
      assert a == Split([], [], x);
      assert a.lines + TakeLines(x + y).lines == TakeLines(x + y).lines;
      assert a.ends + TakeLines(x + y).ends == TakeLines(x + y).ends;
    case Some(k) =>
      FirstTerminator(x + y, k);
      assert (x + y)[..k] == x[..k] && (x + y)[k] == x[k];
      assert (x + y)[k + 1..] == x[k + 1..] + y;
      TakeLinesResume(x[k + 1..], y);
      var t := TakeLines(x[k + 1..]);
      var b := TakeLines(t.rest + y);
      assert a.lines == [x[..k]] + t.lines && a.ends == [x[k]] + t.ends && a.rest == t.rest;
      SeqAssoc([x[..k]], t.lines, b.lines);
      SeqAssoc([x[k]], t.ends, b.ends);
  }

  /** Each terminator ends a line of its own: a line ended by CR LF is followed by an
      empty line ended by the LF. */
  lemma CrLfLeavesEmptyLine(l: string, t: string)
    requires NoTerminator(l)
    ensures var r := TakeLines(l + "\r\n" + t);
            |r.lines| >= 2 && r.lines[0] == l && r.lines[1] == "" && r.ends[..2] == "\r\n"
  {
    var s := l + "\r\n" + t;
    assert s[..|l|] == l && s[|l|] == '\r';
    FirstTerminator(s, |l|);
    var s1 := s[|l| + 1..];
    assert s1 == "\n" + t;
    assert s1[..0] == "";
    FirstTerminator(s1, 0);
  }

  // ---------------------------------------------------------------- control lines

  /** The key that opens a control line and the numeric values of the two line types
      that matter, as the item is configured. */
  datatype Codes = Codes(key: string, beforeError: nat, error: nat)

  /** What a line means to the report item: nothing, a message to keep for later, or the
      error that flushes the kept messages. The text is everything after the number. */
  datatype LineKind = Ignored | BeforeError(text: string) | Error(text: string)

  /** A line that starts with the key, where strtoul reads the number that follows
      (value 0 and no advance when there is no number), and a character other than the
      string's end or a NUL follows; a type other than the two is ignored. */
  function Classify(line: string, codes: Codes): (k: LineKind)
    ensures k != Ignored ==> |codes.key| <= |line| && line[..|codes.key|] == codes.key
    ensures k.BeforeError? || k.Error? ==>
              && 0 < |k.text| <= |line| - |codes.key| && k.text[0] != '\0'
              && k.text == line[|line| - |k.text|..]
  {
    var key := codes.key;
    if !(|key| <= |line| && line[..|key|] == key) then Ignored
    else
      var val := match ScanUnsigned(line, |key|) case None => 0 case Some(cv) => cv.value;
      var end := match ScanUnsigned(line, |key|) case None => |key| case Some(cv) => cv.end;
      if end == |line| || line[end] == '\0' then Ignored
      else if val == codes.beforeError then BeforeError(line[end..])
      else if val == codes.error then Error(line[end..])
      else Ignored
  }

  /** A control line as the server writes it, key, type number and text, is classified
      by its type and keeps its text; a line that ends, or reaches a NUL, right after the
      number is skipped whatever its type. */
  lemma ClassifyFormatted(codes: Codes, code: nat, text: string)
    requires code <= ULongMax
    requires text == [] || !IsDigit(text[0])
    ensures var line := codes.key + DecimalString(code) + text;
            Classify(line, codes)
              == if text == [] || text[0] == '\0' then Ignored
                 else if code == codes.beforeError then BeforeError(text)
                 else if code == codes.error then Error(text)
                 else Ignored
  {
    var key := codes.key;
    var d := DecimalString(code);
    var line := key + d + text;
    assert line[..|key|] == key;
    assert line[|key|..|key| + |d|] == d;
    if text != [] {
      assert line[|key| + |d|] == text[0];
    }
    ScanDecimalString(line, |key|, code);
    assert line[|key| + |d|..] == text;
  }

  /** The kept messages and the lines written to the error stream. */
  datatype Report = Report(pending: seq<string>, emitted: seq<string>)

  /** One line: a message is kept, an error writes the kept messages and itself and
      forgets the kept ones, anything else changes nothing. */
  function Handle(pending: seq<string>, kind: LineKind): Report
  {
    match kind
    case BeforeError(t) => Report(pending + [t], [])
    case Error(t) => Report([], pending + [t])
    case Ignored => Report(pending, [])
  }

  function HandleAll(pending: seq<string>, lines: seq<string>, codes: Codes): Report
    decreases |lines|
  {
    if lines == [] then Report(pending, [])
    else
      var r := Handle(pending, Classify(lines[0], codes));
      var rest := HandleAll(r.pending, lines[1..], codes);
      Report(rest.pending, r.emitted + rest.emitted)
  }

  /** Handling a first line, then the others. */
  lemma HandleAllCons(pending: seq<string>, line: string, rest: seq<string>, codes: Codes)
    ensures var h := Handle(pending, Classify(line, codes));
            var r := HandleAll(h.pending, rest, codes);
            HandleAll(pending, [line] + rest, codes) == Report(r.pending, h.emitted + r.emitted)
  {
    assert ([line] + rest)[0] == line && ([line] + rest)[1..] == rest;
  }

  /** The text a line contributes to the error report, if any. */
  function MessageOf(kind: LineKind): seq<string>
  {
    match kind
    case Ignored => []
    case BeforeError(t) => [t]
    case Error(t) => [t]
  }

  /** The texts of the control lines among the lines, in order. */
  function Messages(lines: seq<string>, codes: Codes): seq<string>
    decreases |lines|
  {
    if lines == [] then [] else MessageOf(Classify(lines[0], codes)) + Messages(lines[1..], codes)
  }

  lemma HandleKeepsMessage(pending: seq<string>, kind: LineKind)
    ensures var r := Handle(pending, kind); r.emitted + r.pending == pending + MessageOf(kind)
  {
  }

  /** No message is lost or repeated: what was written plus what is still kept is what was
      kept before plus the texts of the control lines, in order. */
  lemma {:induction false} HandleAllKeepsMessages(pending: seq<string>, lines: seq<string>, codes: Codes)
    ensures var r := HandleAll(pending, lines, codes);
            r.emitted + r.pending == pending + Messages(lines, codes)
    decreases |lines|
  {
    if lines != [] {
      var kind := Classify(lines[0], codes);
      var r := Handle(pending, kind);
      var later := Messages(lines[1..], codes);
      HandleAllKeepsMessages(r.pending, lines[1..], codes);
      var rest := HandleAll(r.pending, lines[1..], codes);
      HandleKeepsMessage(pending, kind);
      SeqAssoc(r.emitted, rest.emitted, rest.pending);
      SeqAssoc(r.emitted, r.pending, later);
      SeqAssoc(pending, MessageOf(kind), later);
    }
  }

  /** Messages are only kept, never written, until an error line arrives. */
  lemma {:induction false} NoErrorNothingWritten(pending: seq<string>, lines: seq<string>, codes: Codes)
    requires forall i :: 0 <= i < |lines| ==> !Classify(lines[i], codes).Error?
    ensures HandleAll(pending, lines, codes) == Report(pending + Messages(lines, codes), [])
    decreases |lines|
  {
    if lines != [] {
      var r := Handle(pending, Classify(lines[0], codes));
      NoErrorNothingWritten(r.pending, lines[1..], codes);
      assert r.pending == pending + MessageOf(Classify(lines[0], codes));
      SeqAssoc(pending, MessageOf(Classify(lines[0], codes)), Messages(lines[1..], codes));
    }
  }

  /** Handling lines in two batches is handling them in one. */
  lemma {:induction false} HandleAllAppend(pending: seq<string>, a: seq<string>, b: seq<string>, codes: Codes)
    ensures var ra := HandleAll(pending, a, codes);
            var rb := HandleAll(ra.pending, b, codes);
            HandleAll(pending, a + b, codes) == Report(rb.pending, ra.emitted + rb.emitted)
    decreases |a|
  {
    if a == [] {
      assert a + b == b;
    } else {
      assert (a + b)[0] == a[0] && (a + b)[1..] == a[1..] + b;
      var r := Handle(pending, Classify(a[0], codes));
      HandleAllAppend(r.pending, a[1..], b, codes);
      var ra1 := HandleAll(r.pending, a[1..], codes);
      var rb := HandleAll(ra1.pending, b, codes);
      SeqAssoc(r.emitted, ra1.emitted, rb.emitted);
    }
  }

  // ---------------------------------------------------------------- one call

  /** The part of the data that fits into the free space of the buffer. */
  function Accepted(buf: string, data: string): (r: string)
    requires |buf| <= Capacity
    ensures r <= data && |buf| + |r| <= Capacity
    ensures |r| < |data| ==> |buf| + |r| == Capacity
  {
    data[..Min(|data|, Capacity - |buf|)]
  }

  /** The scanner's state after a call: the buffer, the kept messages, the lines written. */
  datatype Scanned = Scanned(buf: string, pending: seq<string>, emitted: seq<string>)

  /** StoreFileData of the report item on its buffer and kept messages. */
  function Store(buf: string, pending: seq<string>, data: string, codes: Codes): (s: Scanned)
    requires |buf| <= Capacity
    ensures |s.buf| <= Capacity && NoTerminator(s.buf)
  {
    var split := TakeLines(buf + Accepted(buf, data));
    var r := HandleAll(pending, split.lines, codes);
    Scanned(split.rest, r.pending, r.emitted)
  }

  /** Data beyond the free space is dropped without a trace. */
  lemma StoreDropsExcess(buf: string, pending: seq<string>, data: string, codes: Codes)
    requires |buf| <= Capacity && |buf| + |data| > Capacity
    ensures Store(buf, pending, data, codes) == Store(buf, pending, data[..Capacity - |buf|], codes)
  {
    var cut := data[..Capacity - |buf|];
    assert Accepted(buf, cut) == cut[..Capacity - |buf|] == cut;
  }

  /** A body that fits the buffer gives the same lines, messages and rest however it is cut
      into calls. */
  lemma StoreResumable(buf: string, pending: seq<string>, d1: string, d2: string, codes: Codes)
    requires |buf| + |d1| + |d2| <= Capacity
    ensures var s1 := Store(buf, pending, d1, codes);
            var s2 := Store(s1.buf, s1.pending, d2, codes);
            Store(buf, pending, d1 + d2, codes) == Scanned(s2.buf, s2.pending, s1.emitted + s2.emitted)
  {
    assert Accepted(buf, d1) == d1;
    assert Accepted(buf, d1 + d2) == d1 + d2;
    var a := TakeLines(buf + d1);
    assert Accepted(a.rest, d2) == d2;
    TakeLinesResume(buf + d1, d2);
    assert buf + (d1 + d2) == (buf + d1) + d2;
    HandleAllAppend(pending, a.lines, TakeLines(a.rest + d2).lines, codes);
  }
}
