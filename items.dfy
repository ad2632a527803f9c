/** The two download items `acngtool curl` hands to the download engine, and the exit
    status `wcat` derives from the finished item: a print item copies the body to
    standard output, a report item scans it for control lines. Both keep the status and
    the byte counters the engine's item interface prescribes. */
module Items {
  import opened CNumbers
  import opened ControlLines
  import opened Seqs
  import Posix

  /** The life of a download item. Only Inited and Complete are set by the items
      themselves; the engine drives the others. */
  datatype FiStatus = Fresh | Inited | HeaderReceived | BodyStreaming | Complete | Failed

  /** The response header an item keeps; only its HTTP status is read back. */
  datatype Header = Header(status: int)

  /** The status after StoreFileData: a call with no data marks the end of the body. */
  function StatusAfterData(status: FiStatus, size: nat): (r: FiStatus)
    ensures r == Complete <==> size == 0 || status == Complete
    ensures size > 0 ==> r == status
  {
    if size == 0 then Complete else status
  }

  /** The item `acngtool curl` uses to print a URL's body. */
  class PrintItem {
    var status: FiStatus
    var sizeChecked: nat
    var sizeSeen: nat
    /** Whether the engine may store the body on disk; the item forbids it. */
    var allowStoreData: bool
    var head: Header
    /** Everything written to standard output so far. */
    var stdout: string

    constructor()
      ensures status == Fresh && sizeChecked == 0 && sizeSeen == 0 && !allowStoreData
      ensures stdout == []
    {
      status := Fresh;
      sizeChecked, sizeSeen := 0, 0;
      allowStoreData := false;
      head := Header(0);
      stdout := [];
    }

    /** (Re)start the item: counters back to zero, status Inited, which is returned. */
    method Setup() returns (s: FiStatus)
      modifies this
      ensures s == Inited && status == Inited && sizeChecked == 0 && sizeSeen == 0
      ensures head == old(head) && stdout == old(stdout) && allowStoreData == old(allowStoreData)
    {
      sizeChecked, sizeSeen := 0, 0;
      status := Inited;
      s := status;
    }

    /** The header is kept and the download always goes on. */
    method DownloadStartedStoreHeader(h: Header) returns (ok: bool)
      modifies this
      ensures ok && head == h
      ensures status == old(status) && stdout == old(stdout) && allowStoreData == old(allowStoreData)
      ensures sizeChecked == old(sizeChecked) && sizeSeen == old(sizeSeen)
    {
      head := h;
      ok := true;
    }

    /** A piece of the body goes to standard output; `accepted` is the count fwrite
        reports, and the call succeeds exactly when all of the piece was written. */
    method StoreFileData(data: string, accepted: nat) returns (ok: bool)
      requires accepted <= |data|
      modifies this
      ensures status == StatusAfterData(old(status), |data|)
      ensures stdout == old(stdout) + data[..accepted]
      ensures ok <==> accepted == |data|
      ensures head == old(head) && sizeChecked == old(sizeChecked) && sizeSeen == old(sizeSeen)
      ensures allowStoreData == old(allowStoreData)
    {
      if |data| == 0 {
        status := Complete;
      }
      stdout := stdout + data[..accepted];
      ok := |data| == accepted;
    }
  }

  /** The item `acngtool maint` uses to follow a maintenance job's report page: it keeps
      the body's last incomplete line in a bounded buffer, keeps the messages that precede
      an error, and writes them to the error stream together with the error line. */
  class ReportItem {
    var status: FiStatus
    var sizeChecked: nat
    var sizeSeen: nat
    var allowStoreData: bool
    var head: Header
    /** The unfinished tail of the body, at most Capacity characters. */
    var lineBuf: string
    /** The key and type numbers of control lines. */
    const codes: Codes
    /** Messages kept until an error line arrives. */
    var errMsg: seq<string>

    predicate Valid()
      reads this
    {
      |lineBuf| <= Capacity
    }

    constructor(codes: Codes)
      ensures Valid() && lineBuf == [] && errMsg == [] && this.codes == codes
      ensures status == Fresh && sizeChecked == 0 && sizeSeen == 0 && !allowStoreData
    {
      status := Fresh;
      sizeChecked, sizeSeen := 0, 0;
      allowStoreData := false;
      head := Header(0);
      lineBuf := [];
      this.codes := codes;
      errMsg := [];
    }

    method Setup() returns (s: FiStatus)
      modifies this
      ensures s == Inited && status == Inited && sizeChecked == 0 && sizeSeen == 0
      ensures head == old(head) && lineBuf == old(lineBuf) && errMsg == old(errMsg)
      ensures allowStoreData == old(allowStoreData)
    {
      sizeChecked, sizeSeen := 0, 0;
      status := Inited;
      s := status;
    }

    method DownloadStartedStoreHeader(h: Header) returns (ok: bool)
      modifies this
      ensures ok && head == h
      ensures status == old(status) && lineBuf == old(lineBuf) && errMsg == old(errMsg)
      ensures sizeChecked == old(sizeChecked) && sizeSeen == old(sizeSeen) && allowStoreData == old(allowStoreData)
    {
      head := h;
      ok := true;
    }

    /** A piece of the body: as much as fits is appended to the buffer, every complete
        line is cut out and handled, and the lines written to the error stream are
        returned. The call always succeeds. */
    method StoreFileData(data: string) returns (ok: bool, written: seq<string>)
      requires Valid()
      modifies this
      ensures Valid() && ok
      ensures status == StatusAfterData(old(status), |data|)
      ensures Scanned(lineBuf, errMsg, written) == Store(old(lineBuf), old(errMsg), data, codes)
      ensures head == old(head) && sizeChecked == old(sizeChecked) && sizeSeen == old(sizeSeen)
      ensures allowStoreData == old(allowStoreData)
    {
      ghost var goal := Store(lineBuf, errMsg, data, codes);
      if |data| == 0 {
        status := Complete;
      }
      var consumed := Min(|data|, Capacity - |lineBuf|);
      lineBuf := lineBuf + data[..consumed];
      assert lineBuf == old(lineBuf) + Accepted(old(lineBuf), data);
      written := [];
      assert goal == Scanned(TakeLines(lineBuf).rest, HandleAll(errMsg, TakeLines(lineBuf).lines, codes).pending,
                             HandleAll(errMsg, TakeLines(lineBuf).lines, codes).emitted);
      assert written + HandleAll(errMsg, TakeLines(lineBuf).lines, codes).emitted
             == HandleAll(errMsg, TakeLines(lineBuf).lines, codes).emitted;
      while true
        invariant Valid()
        invariant TakeLines(lineBuf).rest == goal.buf
        invariant HandleAll(errMsg, TakeLines(lineBuf).lines, codes).pending == goal.pending
        invariant written + HandleAll(errMsg, TakeLines(lineBuf).lines, codes).emitted == goal.emitted
        invariant status == StatusAfterData(old(status), |data|)
        invariant head == old(head) && sizeChecked == old(sizeChecked) && sizeSeen == old(sizeSeen)
        invariant allowStoreData == old(allowStoreData)
        decreases |lineBuf|
      {
        var end := FindTerminator(lineBuf);
        if end.None? {
          break;
        }
        var s := lineBuf[..end.value];
        ghost var rest := TakeLines(lineBuf[end.value + 1..]);
        ghost var h := Handle(errMsg, Classify(s, codes));
        HandleAllCons(errMsg, s, rest.lines, codes);
        SeqAssoc(written, h.emitted, HandleAll(h.pending, rest.lines, codes).emitted);
        lineBuf := lineBuf[end.value + 1..];
        var w := HandleLine(s);
        written := written + w;
      }
      ok := true;
    }

    /** One line cut from the buffer: a line that starts with the key, followed by a
        number strtoul reads (0 when there is none) and more text, is kept as a message,
        or written with all kept messages, according to its type. */
    method HandleLine(s: string) returns (w: seq<string>)
      modifies this
      ensures var h := Handle(old(errMsg), Classify(s, codes)); errMsg == h.pending && w == h.emitted
      ensures lineBuf == old(lineBuf) && status == old(status) && head == old(head)
      ensures sizeChecked == old(sizeChecked) && sizeSeen == old(sizeSeen) && allowStoreData == old(allowStoreData)
    {
      w := [];
      var key := codes.key;
      if |key| <= |s| && s[..|key|] == key {
        var val, endchar := 0, |key|;
        match ScanUnsigned(s, |key|) {
          case Some(cv) => val, endchar := cv.value, cv.end;
          case None =>
        }
        if endchar == |s| || s[endchar] == '\0' {
          return;
        }
        if val == codes.beforeError {
          errMsg := errMsg + [s[endchar..]];
        } else if val == codes.error {
          w := errMsg + [s[endchar..]];
          errMsg := [];
        }
      }
    }
  }

  /** The exit status `wcat` returns once the engine is done with the item: -2 for a URL
      that does not parse; otherwise success for HTTP 200, EIO for a server error, EACCES
      for a client error and failure for anything else, all only while the item is not
      Complete; a Complete item gives failure, as written. */
  function ExitCode(urlParsed: bool, status: FiStatus, httpStatus: int): (code: int)
    ensures code == -2 <==> !urlParsed
    ensures code == Posix.ExitSuccess <==> urlParsed && status != Complete && httpStatus == 200
    ensures code == Posix.EIO <==> urlParsed && status != Complete && httpStatus >= 500
    ensures code == Posix.EACCES <==> urlParsed && status != Complete && 400 <= httpStatus < 500
    ensures code == Posix.ExitFailure <==> urlParsed && (status == Complete || (httpStatus != 200 && httpStatus < 400))
  {
    if !urlParsed then -2
    else if status != Complete then
      if httpStatus == 200 then Posix.ExitSuccess
      else if httpStatus >= 500 then Posix.EIO
      else if httpStatus >= 400 then Posix.EACCES
      else Posix.ExitFailure
    else Posix.ExitFailure
  }
}
