/** The downloader: one transfer at a time, its data going to a callback or
    to a save file, driven by the network reply's events (modelled as method
    calls); and two pure helpers, the byte-unit choice for display and the
    file name taken from a Content-Disposition header. */
module Downloader {
  import opened Wrappers
  import Text

  type Bytes = seq<bv8>

  // ---------------------------------------------------------------------
  // Byte units.

  datatype Unit = B | KB | MB | GB

  const KiB: real := 1024.0
  const MiB: real := 1024.0 * 1024.0
  const GiB: real := 1024.0 * 1024.0 * 1024.0

  /** The size of one unit in bytes. */
  function Scale(u: Unit): real
  {
    match u
    case B => 1.0
    case KB => KiB
    case MB => MiB
    case GB => GiB
  }

  /** The unit choice as written: nothing above 0 is shown as 0 B; below
      1024, B; below 1024², KB; below 1024³, MB; strictly above 1024³, GB;
      exactly 1024³ falls through every test and stays unscaled in B. The
      value is exact here; its two-decimal rendering is not modelled. */
  function TransformUnit(bytes: real): (r: (real, Unit))
    ensures bytes <= 0.0 ==> r == (0.0, B)
    ensures bytes > 0.0 ==> r.0 * Scale(r.1) == bytes
  {
    if bytes <= 0.0 then (0.0, B)
    else if bytes < KiB then (bytes, B)
    else if bytes < MiB then (bytes / KiB, KB)
    else if bytes < GiB then (bytes / MiB, MB)
    else if bytes > GiB then (bytes / GiB, GB)
    else (bytes, B)
  }

  /** Away from 1024³, the value shown is below 1024 for every size below
      1024⁴, and at least 1 in every unit above B. */
  lemma TransformUnitInRange(bytes: real)
    requires 0.0 < bytes < 1024.0 * GiB && bytes != GiB
    ensures TransformUnit(bytes).0 < 1024.0
    ensures TransformUnit(bytes).1 != B ==> TransformUnit(bytes).0 >= 1.0
  {
  }

  /** Exactly 1024³ bytes is shown as 1073741824 B rather than 1 GB. */
  lemma TransformUnitAtGiB()
    ensures TransformUnit(GiB) == (GiB, B)
    ensures TransformUnit(GiB).0 >= 1024.0
  {
  }

  /** The unit choice with 1024³ itself in GB. */
  function TransformUnitFixed(bytes: real): (r: (real, Unit))
    ensures bytes <= 0.0 ==> r == (0.0, B)
    ensures bytes > 0.0 ==> r.0 * Scale(r.1) == bytes
  {
    if bytes <= 0.0 then (0.0, B)
    else if bytes < KiB then (bytes, B)
    else if bytes < MiB then (bytes / KiB, KB)
    else if bytes < GiB then (bytes / MiB, MB)
    else (bytes / GiB, GB)
  }

  /** Fixed, the value shown is below 1024 for every size below 1024⁴, at
      least 1 above B, and the choice agrees with the original everywhere
      but at 1024³. */
  lemma TransformUnitFixedInRange(bytes: real)
    requires 0.0 < bytes < 1024.0 * GiB
    ensures TransformUnitFixed(bytes).0 < 1024.0
    ensures TransformUnitFixed(bytes).1 != B ==> TransformUnitFixed(bytes).0 >= 1.0
    ensures bytes != GiB ==> TransformUnitFixed(bytes) == TransformUnit(bytes)
    ensures TransformUnitFixed(GiB) == (1.0, GB)
  {
  }

  // ---------------------------------------------------------------------
  // File names.

  const Marker: string := "filename="

  /** The file name as written: the header from nine characters past the
      position of "filename=" (position 8 when the marker is absent, since
      the search then gives -1), quotes kept. None when that text is empty:
      the fallback then builds a URL from itself, which is undefined. */
  function FileNameFrom(disposition: string): (r: Option<string>)
    ensures r.Some? ==> r.value != []
    ensures Text.Contains(disposition, Marker) ==>
      r == (if |disposition| > Text.IndexOf(disposition, Marker) + 9
            then Some(disposition[Text.IndexOf(disposition, Marker) + 9..]) else None)
    ensures !Text.Contains(disposition, Marker) ==>
      r == (if |disposition| > 8 then Some(disposition[8..]) else None)
  {
    var name := Text.MidFrom(disposition, Text.IndexOf(disposition, Marker) + 9);
    if name == [] then None else Some(name)
  }

  /** Without the marker a header longer than eight characters gives its
      own tail as the name: "attachment" gives "nt". */
  lemma FileNameWithoutMarker()
    ensures FileNameFrom("attachment") == Some("nt")
  {
    assert "attachment"[..9] != Marker by { assert "attachment"[0] != Marker[0]; }
    assert "attachment"[1..] == "ttachment";
    assert "ttachment"[..9] != Marker by { assert "ttachment"[0] != Marker[0]; }
    assert !Text.Contains("ttachment"[1..], Marker);
    assert !Text.Contains("attachment", Marker);
    assert "attachment"[8..] == "nt";
  }

  /** A reply without a Content-Disposition header reaches the undefined
      fallback. */
  lemma NoHeaderReachesFallback()
    ensures FileNameFrom("").None?
  {
  }

  /** The file name with a missing marker treated like an empty name. */
  function FileNameFromChecked(disposition: string, urlPath: string): (r: string)
  {
    var index := Text.IndexOf(disposition, Marker);
    var name := if index < 0 then [] else disposition[index + 9..];
    if name == [] then Text.LastSegment(urlPath) else name
  }

  /** `r` is the text after an occurrence of the marker at `i`. */
  predicate NameAfterMarker(disposition: string, i: int, r: string)
  {
    0 <= i <= |disposition| - 9 && disposition[i..i + 9] == Marker && r == disposition[i + 9..]
  }

  /** The checked name is the text after the first marker when that text is
      not empty, and the URL path's last segment otherwise; with the marker
      present the two versions agree. */
  lemma FileNameFromCheckedSpec(disposition: string, urlPath: string)
    ensures var r := FileNameFromChecked(disposition, urlPath);
      && (!Text.Contains(disposition, Marker) ==> r == Text.LastSegment(urlPath))
      && (FileNameFrom(disposition).None? ==> r == Text.LastSegment(urlPath))
      && (Text.Contains(disposition, Marker) && FileNameFrom(disposition).Some? ==> r == FileNameFrom(disposition).value)
      && (r == Text.LastSegment(urlPath) || exists i :: NameAfterMarker(disposition, i, r))
  {
    var index := Text.IndexOf(disposition, Marker);
    if index >= 0 {
      assert disposition[index..index + 9] == Marker;
      if disposition[index + 9..] != [] {
        assert NameAfterMarker(disposition, index, FileNameFromChecked(disposition, urlPath));
      }
    }
  }

  // ---------------------------------------------------------------------
  // Transfers.

  /** Where a transfer's data goes: nowhere (an empty callback), to a
      callback, or to the downloader's save file. */
  datatype Sink = NoSink | Callback | SaveFile

  /** The network error code of a cancelled request. */
  const OperationCanceled: int := 5

  class QtDownloader {
    /** Whether a reply is in flight. */
    var replyActive: bool
    /** The sink of the reply in flight. */
    var sink: Sink
    /** The request URLs submitted, oldest first. */
    var requests: seq<string>
    /** The elapsed-time counter, reset by each start. */
    var allTime: int
    /** The save file's name, None when there is none. */
    var saveFile: Option<string>
    /** Whether the save file is open. */
    var fileOpen: bool
    /** The file system the save files are written to. */
    var files: map<string, Bytes>
    /** The chunks handed to callbacks, oldest first. */
    var delivered: seq<Bytes>
    /** The errors of the finish signals emitted, oldest first. */
    var finishedWith: seq<int>

    ghost predicate Valid()
      reads this
    {
      fileOpen ==> saveFile.Some? && saveFile.value in files
    }

    constructor (files: map<string, Bytes>)
      ensures Valid() && !replyActive && saveFile.None? && !fileOpen
      ensures this.files == files && requests == [] && delivered == [] && finishedWith == []
    {
      replyActive := false;
      sink := NoSink;
      requests := [];
      allTime := 0;
      saveFile := None;
      fileOpen := false;
      this.files := files;
      delivered := [];
      finishedWith := [];
    }

    function IsDownloading(): (r: bool)
      reads this
      ensures r <==> replyActive
    {
      replyActive
    }

    /** Starting a transfer to `target`: -1, with nothing changed, while
        one is in flight; -2, with nothing changed, for an invalid URL;
        otherwise the counter is reset, the request submitted and 0
        returned. */
    method Start(url: string, target: Sink, urlValid: bool) returns (ret: int)
      requires Valid()
      modifies this
      ensures Valid()
      ensures ret == (if old(replyActive) then -1 else if !urlValid then -2 else 0)
      ensures ret != 0 ==>
        (replyActive == old(replyActive) && sink == old(sink) && requests == old(requests) && allTime == old(allTime))
      ensures ret == 0 ==> replyActive && sink == target && requests == old(requests) + [url] && allTime == 0
      ensures saveFile == old(saveFile) && fileOpen == old(fileOpen) && files == old(files)
      ensures delivered == old(delivered) && finishedWith == old(finishedWith)
    {
      if replyActive {
        return -1;
      }
      if !urlValid {
        return -2;
      }
      allTime := 0;
      requests := requests + [url];
      replyActive := true;
      sink := target;
      return 0;
    }

    /** Closing the save file, if there is one, and forgetting it. */
    method CloseFile()
      requires Valid()
      modifies this
      ensures Valid() && saveFile.None? && !fileOpen
      ensures replyActive == old(replyActive) && sink == old(sink) && requests == old(requests)
      ensures allTime == old(allTime) && files == old(files)
      ensures delivered == old(delivered) && finishedWith == old(finishedWith)
    {
      if saveFile.None? {
        return;
      }
      fileOpen := false;
      saveFile := None;
    }

    /** Starting a transfer into a file: the save file is replaced first;
        -3 when it cannot be opened (truncating it otherwise); then as
        `Start`, and on any non-zero result the new save file is closed and
        forgotten, even when the refusal was a transfer already in flight. */
    method StartFile(url: string, fileName: string, canOpen: bool, urlValid: bool) returns (ret: int)
      requires Valid()
      modifies this
      ensures Valid()
      ensures ret == (if !canOpen then -3 else if old(replyActive) then -1 else if !urlValid then -2 else 0)
      ensures ret == -3 ==> saveFile == Some(fileName) && !fileOpen && files == old(files)
      ensures ret != -3 ==> files == old(files)[fileName := []]
      ensures ret == -1 || ret == -2 ==> saveFile.None? && !fileOpen
      ensures ret == 0 ==>
        (saveFile == Some(fileName) && fileOpen && replyActive && sink == SaveFile
         && requests == old(requests) + [url] && allTime == 0)
      ensures ret != 0 ==> replyActive == old(replyActive) && sink == old(sink) && requests == old(requests)
      ensures delivered == old(delivered) && finishedWith == old(finishedWith)
    {
      saveFile := Some(fileName);
      fileOpen := false;
      if !canOpen {
        return -3;
      }
      files := files[fileName := []];
      fileOpen := true;
      ret := Start(url, SaveFile, urlValid);
      if ret != 0 {
        CloseFile();
      }
    }

    /** Handing data to the sink: a callback receives it; the save file
        receives it when open (a closed file ignores writes). Writing to the
        save file when there is none is a null dereference. */
    method Deliver(data: Bytes)
      requires Valid()
      requires sink == SaveFile ==> saveFile.Some?
      modifies this
      ensures Valid()
      ensures sink == Callback ==> delivered == old(delivered) + [data]
      ensures sink != Callback ==> delivered == old(delivered)
      ensures files == if old(sink) == SaveFile && old(fileOpen)
                       then old(files)[old(saveFile).value := old(files)[old(saveFile).value] + data]
                       else old(files)
      ensures replyActive == old(replyActive) && sink == old(sink) && requests == old(requests) && allTime == old(allTime)
      ensures saveFile == old(saveFile) && fileOpen == old(fileOpen) && finishedWith == old(finishedWith)
    {
      match sink
      case NoSink =>
      case Callback =>
        delivered := delivered + [data];
      case SaveFile =>
        if fileOpen {
          var name := saveFile.value;
          files := files[name := files[name] + data];
        }
    }

    /** The ready-read event: all available bytes go to the sink. */
    method ReadyRead(data: Bytes)
      requires Valid() && replyActive
      requires sink == SaveFile ==> saveFile.Some?
      modifies this
      ensures Valid() && replyActive
      ensures sink == Callback ==> delivered == old(delivered) + [data]
      ensures sink != Callback ==> delivered == old(delivered)
      ensures files == if old(sink) == SaveFile && old(fileOpen)
                       then old(files)[old(saveFile).value := old(files)[old(saveFile).value] + data]
                       else old(files)
      ensures sink == old(sink) && saveFile == old(saveFile) && fileOpen == old(fileOpen) && finishedWith == old(finishedWith)
    {
      Deliver(data);
    }

    /** The finished event: the remaining bytes go to the sink only when
        there is no error (code 0); the reply is dropped, the save file
        closed, and the finish signal emitted with the error. */
    method Finished(error: int, rest: Bytes)
      requires Valid() && replyActive
      requires error == 0 && sink == SaveFile ==> saveFile.Some?
      modifies this
      ensures Valid() && !replyActive && !IsDownloading()
      ensures saveFile.None? && !fileOpen
      ensures finishedWith == old(finishedWith) + [error]
      ensures delivered == if error == 0 && old(sink) == Callback then old(delivered) + [rest] else old(delivered)
      ensures files == if error == 0 && old(sink) == SaveFile && old(fileOpen)
                       then old(files)[old(saveFile).value := old(files)[old(saveFile).value] + rest]
                       else old(files)
      ensures requests == old(requests)
    {
      if error == 0 {
        Deliver(rest);
      }
      replyActive := false;
      CloseFile();
      finishedWith := finishedWith + [error];
    }

    /** Stopping: nothing without a reply in flight; otherwise the abort
        finishes the reply at once with the cancellation error, so nothing
        more is delivered. */
    method Stop()
      requires Valid()
      modifies this
      ensures Valid() && !replyActive
      ensures !old(replyActive) ==> saveFile == old(saveFile) && fileOpen == old(fileOpen) && finishedWith == old(finishedWith)
      ensures old(replyActive) ==> saveFile.None? && !fileOpen && finishedWith == old(finishedWith) + [OperationCanceled]
      ensures delivered == old(delivered) && files == old(files) && requests == old(requests)
    {
      if !replyActive {
        return;
      }
      Finished(OperationCanceled, []);
    }
  }

  /** A file download whose request succeeds and whose reply brings `a`,
      then finishes with `b` and no error, leaves the file holding a + b,
      and the downloader idle. */
  method DownloadToFile(d: QtDownloader, url: string, fileName: string, a: Bytes, b: Bytes)
    requires d.Valid() && !d.replyActive
    modifies d
    ensures d.Valid() && !d.IsDownloading() && d.saveFile.None?
    ensures d.files == old(d.files)[fileName := a + b]
    ensures d.finishedWith == old(d.finishedWith) + [0]
  {
    var ret := d.StartFile(url, fileName, true, true);
    assert d.files[fileName] == [];
    d.ReadyRead(a);
    assert d.files[fileName] == a;
    d.Finished(0, b);
  }

  /** A file start refused because a transfer is in flight still drops the
      save file the running transfer writes to: the next chunk of that
      transfer has no file to go to. */
  method BusyStartDetachesFile(d: QtDownloader, url: string, fileName: string, other: string)
    returns (lost: bool)
    requires d.Valid() && !d.replyActive
    modifies d
    ensures lost
    ensures d.replyActive && d.sink == SaveFile && d.saveFile.None?
  {
    var first := d.StartFile(url, fileName, true, true);
    var second := d.StartFile(url, other, true, true);
    assert second == -1;
    lost := d.sink == SaveFile && d.saveFile.None?;
  }

  /** A file start that checks for a transfer in flight before touching the
      save file. */
  method StartFileChecked(d: QtDownloader, url: string, fileName: string, canOpen: bool, urlValid: bool)
    returns (ret: int)
    requires d.Valid()
    modifies d
    ensures d.Valid()
    ensures old(d.replyActive) ==>
      (ret == -1 && d.saveFile == old(d.saveFile) && d.fileOpen == old(d.fileOpen)
       && d.files == old(d.files) && d.sink == old(d.sink) && d.replyActive)
    ensures !old(d.replyActive) ==> ret == (if !canOpen then -3 else if !urlValid then -2 else 0)
  {
    if d.replyActive {
      return -1;
    }
    ret := d.StartFile(url, fileName, canOpen, urlValid);
  }
}
