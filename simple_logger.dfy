/** The simple logger: message formatting by placeholder substitution, and a
    log file that is rotated into numbered backups when it reaches its size
    limit, both for a logger object and for the process-wide system log.
    Files live in an abstract file system, a map from names to contents. */
module SimpleLogger {
  import opened Wrappers
  import Text

  /** Qt's message types (its system type is the critical one). */
  datatype MsgType = Debug | Info | Warning | Critical | Fatal

  /** The default size limit of a log file: 2 << 10 bytes. */
  const DefaultMaxSize: nat := 2048
  /** The default number of backups. */
  const DefaultMaxNum: int := 4
  const DefaultLoggerFormat: string := "[{time}][{thread}][{type}]: {msg}"
  const DefaultSystemFormat: string := "[{time}][{thread}][{type}]: {msg} [FILE:\"{file}\" LINE.{line} FUNC:\"{func}\"]"

  // ---------------------------------------------------------------------
  // Formatting.

  /** The one-letter tag of a message type. */
  function TypeLetter(t: MsgType): (c: string)
    ensures |c| == 1
  {
    match t
    case Info => "I"
    case Warning => "W"
    case Critical => "C"
    case Fatal => "F"
    case Debug => "D"
  }

  /** The letter identifies the type. */
  lemma TypeLetterInjective(a: MsgType, b: MsgType)
    requires TypeLetter(a) == TypeLetter(b)
    ensures a == b
  {
  }

  /** A formatted message: every occurrence of each placeholder replaced in
      the order time, thread, type, msg, file, line, func (so placeholders
      carried in by earlier replacements are replaced too), then a newline.
      The time text and the thread id are parameters. */
  function FormatMsg(format: string, msg: string, t: MsgType, file: string, line: string, func: string,
                     time: string, thread: string): (r: string)
    ensures |r| > 0 && r[|r| - 1] == '\n'
  {
    var s1 := Text.ReplaceAll(format, "{time}", time);
    var s2 := Text.ReplaceAll(s1, "{thread}", thread);
    var s3 := Text.ReplaceAll(s2, "{type}", TypeLetter(t));
    var s4 := Text.ReplaceAll(s3, "{msg}", msg);
    var s5 := Text.ReplaceAll(s4, "{file}", file);
    var s6 := Text.ReplaceAll(s5, "{line}", line);
    var s7 := Text.ReplaceAll(s6, "{func}", func);
    s7 + "\n"
  }

  /** A text without '{' holds no placeholder. */
  lemma {:induction false} NoBraceNoPattern(s: string, pat: string)
    requires pat != [] && pat[0] == '{' && '{' !in s
    ensures !Text.Contains(s, pat)
    decreases |s|
  {
    if |s| >= |pat| {
      assert s[..|pat|][0] == s[0];
      assert s[0] in s;
      assert forall c :: c in s[1..] ==> c in s;
      NoBraceNoPattern(s[1..], pat);
    }
  }

  /** Replacing a placeholder in a text without '{' changes nothing. */
  lemma NoBraceUnchanged(s: string, pat: string, rep: string)
    requires pat != [] && pat[0] == '{' && '{' !in s
    ensures Text.ReplaceAll(s, pat, rep) == s
  {
    NoBraceNoPattern(s, pat);
    Text.ReplaceAbsent(s, pat, rep);
  }

  /** A format without placeholders (no '{') is copied with a newline. */
  lemma PlainFormat(format: string, msg: string, t: MsgType, file: string, line: string, func: string,
                    time: string, thread: string)
    requires '{' !in format
    ensures FormatMsg(format, msg, t, file, line, func, time, thread) == format + "\n"
  {
    NoBraceUnchanged(format, "{time}", time);
    NoBraceUnchanged(format, "{thread}", thread);
    NoBraceUnchanged(format, "{type}", TypeLetter(t));
    NoBraceUnchanged(format, "{msg}", msg);
    NoBraceUnchanged(format, "{file}", file);
    NoBraceUnchanged(format, "{line}", line);
    NoBraceUnchanged(format, "{func}", func);
  }

  /** The format "{msg}" yields the message and a newline, when the
      message has no '{'. */
  lemma MsgOnlyFormat(msg: string, t: MsgType, file: string, line: string, func: string,
                      time: string, thread: string)
    requires '{' !in msg
    ensures FormatMsg("{msg}", msg, t, file, line, func, time, thread) == msg + "\n"
  {
    assert !Text.Contains("{msg}", "{time}");
    Text.ReplaceAbsent("{msg}", "{time}", time);
    assert !Text.Contains("{msg}", "{thread}");
    Text.ReplaceAbsent("{msg}", "{thread}", thread);
    assert !Text.Contains("{msg}", "{type}");
    Text.ReplaceAbsent("{msg}", "{type}", TypeLetter(t));
    Text.ReplaceWhole("{msg}", msg);
    NoBraceUnchanged(msg, "{file}", file);
    NoBraceUnchanged(msg, "{line}", line);
    NoBraceUnchanged(msg, "{func}", func);
  }

  /** A message holding "{file}" is rewritten by the later file step. */
  lemma MsgPlaceholderRewritten(t: MsgType, time: string, thread: string)
    ensures FormatMsg("{msg}", "{file}", t, "main.cpp", "", "", time, thread) == "main.cpp\n"
  {
    assert !Text.Contains("{msg}", "{time}");
    Text.ReplaceAbsent("{msg}", "{time}", time);
    assert !Text.Contains("{msg}", "{thread}");
    Text.ReplaceAbsent("{msg}", "{thread}", thread);
    assert !Text.Contains("{msg}", "{type}");
    Text.ReplaceAbsent("{msg}", "{type}", TypeLetter(t));
    Text.ReplaceWhole("{msg}", "{file}");
    Text.ReplaceWhole("{file}", "main.cpp");
    NoBraceUnchanged("main.cpp", "{line}", "");
    NoBraceUnchanged("main.cpp", "{func}", "");
  }

  // ---------------------------------------------------------------------
  // Files and backup names.

  type Bytes = seq<bv8>
  type Files = map<string, Bytes>

  /** A file's contents, None when it does not exist. */
  function Get(files: Files, name: string): Option<Bytes>
  {
    if name in files then Some(files[name]) else None
  }

  /** A rename: it fails, changing nothing, when the source is missing or
      the target exists. */
  function Rename(files: Files, from: string, to: string): Files
  {
    if from in files && to !in files then (files - {from})[to := files[from]] else files
  }

  /** Backup number `i`: "<base>.<i>.<suffix>", after the directory prefix `dir`. */
  function BackupName(dir: string, base: string, i: int, ext: string): string
  {
    dir + base + "." + Text.Decimal(i) + "." + ext
  }

  /** The live file's name as rebuilt from base name and suffix. */
  function LiveName(dir: string, base: string, ext: string): string
  {
    dir + base + "." + ext
  }

  lemma LiveNameSplit(dir: string, base: string, ext: string)
    ensures LiveName(dir, base, ext) == dir + (base + "." + ext)
  {
  }

  /** `name` is one of the backups numbered 1 to `n`. */
  ghost predicate IsBackupUpTo(name: string, dir: string, base: string, ext: string, n: int)
  {
    exists j :: 1 <= j <= n && name == BackupName(dir, base, j, ext)
  }

  lemma DecimalNonEmpty(i: int)
    ensures |Text.Decimal(i)| >= 1
  {
  }

  /** Different numbers give different backup names. */
  lemma BackupInjective(dir: string, base: string, ext: string, i: int, j: int)
    requires BackupName(dir, base, i, ext) == BackupName(dir, base, j, ext)
    ensures i == j
  {
    var p := dir + base + ".";
    var di := Text.Decimal(i);
    var dj := Text.Decimal(j);
    var s := BackupName(dir, base, i, ext);
    assert s == p + di + "." + ext;
    assert s == p + dj + "." + ext;
    assert |di| == |dj|;
    assert s[|p|..|p| + |di|] == di;
    assert s[|p|..|p| + |dj|] == dj;
    Text.DecimalInjective(i, j);
  }

  /** The live name is no backup name: it is shorter. */
  lemma LiveIsNoBackup(dir: string, base: string, ext: string, i: int)
    ensures LiveName(dir, base, ext) != BackupName(dir, base, i, ext)
  {
    DecimalNonEmpty(i);
    assert |BackupName(dir, base, i, ext)| > |LiveName(dir, base, ext)|;
  }

  lemma BackupDistinct(dir: string, base: string, ext: string, i: int, j: int)
    requires i != j
    ensures BackupName(dir, base, i, ext) != BackupName(dir, base, j, ext)
  {
    if BackupName(dir, base, i, ext) == BackupName(dir, base, j, ext) {
      BackupInjective(dir, base, ext, i, j);
    }
  }

  /** A rename to a free name moves the contents and touches nothing else. */
  lemma RenameGet(files: Files, from: string, to: string, name: string)
    requires from != to && to !in files
    ensures Get(Rename(files, from, to), to) == Get(files, from)
    ensures from !in Rename(files, from, to)
    ensures name != from && name != to ==> Get(Rename(files, from, to), name) == Get(files, name)
  {
  }

  /** The renaming loop, from backup `i` down to backup 1: each existing
      backup moves one number up. */
  function ShiftFrom(files: Files, dir: string, base: string, ext: string, i: int): Files
    decreases i
  {
    if i <= 0 then files
    else ShiftFrom(Rename(files, BackupName(dir, base, i, ext), BackupName(dir, base, i + 1, ext)), dir, base, ext, i - 1)
  }

  /** The file system after a rotation with `n` backups: backup `n` is
      deleted, backups `n - 1` down to 1 are renamed one number up, and the
      live file (as rebuilt from base name and suffix) is renamed to backup 1. */
  function Rotated(files: Files, dir: string, base: string, ext: string, n: int): Files
  {
    var f1 := files - {BackupName(dir, base, n, ext)};
    var f2 := ShiftFrom(f1, dir, base, ext, n - 1);
    Rename(f2, LiveName(dir, base, ext), BackupName(dir, base, 1, ext))
  }

  /** Base name and suffix of a log file: those of the text after its last '/'. */
  function NameParts(fileName: string): (string, string)
  {
    Text.BaseAndSuffix(Text.LastSegment(fileName))
  }

  /** The rotation as the logger performs it: backup names have no
      directory part, whatever directory the log file is in. */
  function RotatedFiles(files: Files, fileName: string, n: int): Files
  {
    Rotated(files, "", NameParts(fileName).0, NameParts(fileName).1, n)
  }

  /** The loop step by step: with the slot above free, shifting from `k`
      moves each backup `j - 1` to `j`, empties backup 1 and touches no
      other name. */
  lemma {:induction false} ShiftSpec(files: Files, dir: string, base: string, ext: string, k: int)
    requires k >= 0 && BackupName(dir, base, k + 1, ext) !in files
    ensures forall j :: 2 <= j <= k + 1 ==>
      Get(ShiftFrom(files, dir, base, ext, k), BackupName(dir, base, j, ext)) == Get(files, BackupName(dir, base, j - 1, ext))
    ensures k >= 1 ==> BackupName(dir, base, 1, ext) !in ShiftFrom(files, dir, base, ext, k)
    ensures forall name :: !IsBackupUpTo(name, dir, base, ext, k + 1) ==>
      Get(ShiftFrom(files, dir, base, ext, k), name) == Get(files, name)
    decreases k
  {
    if k > 0 {
      var bk := BackupName(dir, base, k, ext);
      var bk1 := BackupName(dir, base, k + 1, ext);
      var m := Rename(files, bk, bk1);
      BackupDistinct(dir, base, ext, k, k + 1);
      ShiftSpec(m, dir, base, ext, k - 1);
      var r := ShiftFrom(files, dir, base, ext, k);
      assert r == ShiftFrom(m, dir, base, ext, k - 1);
      assert !IsBackupUpTo(bk1, dir, base, ext, k) by {
        forall j | 1 <= j <= k
          ensures bk1 != BackupName(dir, base, j, ext)
        {
          BackupDistinct(dir, base, ext, k + 1, j);
        }
      }
      forall j | 2 <= j <= k + 1
        ensures Get(r, BackupName(dir, base, j, ext)) == Get(files, BackupName(dir, base, j - 1, ext))
      {
        var prev := BackupName(dir, base, j - 1, ext);
        if j <= k {
          BackupDistinct(dir, base, ext, j - 1, k);
          BackupDistinct(dir, base, ext, j - 1, k + 1);
          RenameGet(files, bk, bk1, prev);
        } else {
          RenameGet(files, bk, bk1, bk1);
        }
      }
      forall name | !IsBackupUpTo(name, dir, base, ext, k + 1)
        ensures Get(r, name) == Get(files, name)
      {
        assert name != bk && name != bk1;
        RenameGet(files, bk, bk1, name);
      }
    }
  }

  /** A rotation with at least one backup shifts every backup one number
      up, makes the live file's contents backup 1, removes the live file
      and leaves every other file alone. */
  lemma RotationShifts(files: Files, dir: string, base: string, ext: string, n: int)
    requires n >= 1
    ensures forall j :: 2 <= j <= n ==>
      Get(Rotated(files, dir, base, ext, n), BackupName(dir, base, j, ext)) == Get(files, BackupName(dir, base, j - 1, ext))
    ensures Get(Rotated(files, dir, base, ext, n), BackupName(dir, base, 1, ext)) == Get(files, LiveName(dir, base, ext))
    ensures LiveName(dir, base, ext) !in Rotated(files, dir, base, ext, n)
    ensures forall name :: name != LiveName(dir, base, ext) && !IsBackupUpTo(name, dir, base, ext, n) ==>
      Get(Rotated(files, dir, base, ext, n), name) == Get(files, name)
  {
    var live := LiveName(dir, base, ext);
    var b1 := BackupName(dir, base, 1, ext);
    var bn := BackupName(dir, base, n, ext);
    var f1 := files - {bn};
    ShiftSpec(f1, dir, base, ext, n - 1);
    var f2 := ShiftFrom(f1, dir, base, ext, n - 1);
    LiveIsNoBackup(dir, base, ext, 1);
    assert b1 !in f2 by {
      if n == 1 { assert f2 == f1; }
    }
    assert !IsBackupUpTo(live, dir, base, ext, n) by {
      forall j | 1 <= j <= n
        ensures live != BackupName(dir, base, j, ext)
      {
        LiveIsNoBackup(dir, base, ext, j);
      }
    }
    assert Get(f2, live) == Get(files, live);
    var r := Rotated(files, dir, base, ext, n);
    assert r == Rename(f2, live, b1);
    forall j | 2 <= j <= n
      ensures Get(r, BackupName(dir, base, j, ext)) == Get(files, BackupName(dir, base, j - 1, ext))
    {
      var bj := BackupName(dir, base, j, ext);
      LiveIsNoBackup(dir, base, ext, j);
      if bj == b1 { BackupInjective(dir, base, ext, j, 1); }
      var prev := BackupName(dir, base, j - 1, ext);
      if prev == bn { BackupInjective(dir, base, ext, j - 1, n); }
    }
    forall name | name != live && !IsBackupUpTo(name, dir, base, ext, n)
      ensures Get(r, name) == Get(files, name)
    {
      assert name != b1 && name != bn;
      assert Get(r, name) == Get(f2, name);
      assert Get(f2, name) == Get(f1, name);
    }
  }

  /** A log file named without a directory, with a suffix: with `n`
      backups its contents become backup 1, backup 1 becomes backup 2, and
      it no longer exists under its own name. */
  lemma RotationMovesLog(files: Files, name: string, n: int)
    requires n >= 2 && '/' !in name && '.' in name
    ensures var base := NameParts(name).0;
      var ext := NameParts(name).1;
      && Get(RotatedFiles(files, name, n), BackupName("", base, 1, ext)) == Get(files, name)
      && Get(RotatedFiles(files, name, n), BackupName("", base, 2, ext)) == Get(files, BackupName("", base, 1, ext))
      && name !in RotatedFiles(files, name, n)
  {
    Text.LastSegmentNoSlash(name);
    var base := NameParts(name).0;
    var ext := NameParts(name).1;
    LiveNameSplit("", base, ext);
    assert LiveName("", base, ext) == name;
    RotationShifts(files, "", base, ext, n);
  }

  lemma DecimalNoSlash(i: int)
    ensures '/' !in Text.Decimal(i)
  {
    if i < 0 {
      assert Text.Decimal(i)[1..] == Text.NaturalDigits(-i);
    }
  }

  /** Base name and suffix of a log file hold no '/'. */
  lemma NamePartsNoSlash(fileName: string)
    ensures '/' !in NameParts(fileName).0 && '/' !in NameParts(fileName).1
  {
    var seg := Text.LastSegment(fileName);
    var base := NameParts(fileName).0;
    if '.' in seg {
      assert base + "." + NameParts(fileName).1 == seg;
      forall k | 0 <= k < |base|
        ensures base[k] != '/'
      {
        assert seg[k] == base[k];
      }
    }
  }

  /** A name holding '/' is neither the live name nor a backup name built
      from parts without '/'. */
  lemma SlashNameIsNoLogName(base: string, ext: string, j: int, name: string)
    requires '/' in name && '/' !in base && '/' !in ext
    ensures name != LiveName("", base, ext) && name != BackupName("", base, j, ext)
  {
    DecimalNoSlash(j);
    assert '/' !in LiveName("", base, ext);
    assert '/' !in BackupName("", base, j, ext);
  }

  /** The logger's backup names have no '/', so a rotation keeps every file
      whose name has one, among them a log file kept in a directory. Names
      are compared as strings: a name such as "./app.log" that resolves
      into the working directory is not covered. */
  lemma RotationKeepsPathsWithSlash(files: Files, fileName: string, n: int, name: string)
    requires n >= 1 && '/' in name
    ensures Get(RotatedFiles(files, fileName, n), name) == Get(files, name)
  {
    var base := NameParts(fileName).0;
    var ext := NameParts(fileName).1;
    NamePartsNoSlash(fileName);
    RotationShifts(files, "", base, ext, n);
    SlashNameIsNoLogName(base, ext, 1, name);
    forall j | 1 <= j <= n
      ensures name != BackupName("", base, j, ext)
    {
      SlashNameIsNoLogName(base, ext, j, name);
    }
  }

  /** For a log file "<dir>/<name>" the backup names are built from
      <name> alone, in the current directory: the rotation renames a file
      <name> there, if one exists, and leaves the log itself unrotated.
      `dir` is a directory other than the working one, so "." is excluded:
      "./<name>" is <name> itself on disk. */
  lemma RotationIgnoresDirectory(files: Files, dir: string, name: string, n: int)
    requires n >= 1 && '/' !in name && '.' in name && dir != "."
    ensures Get(RotatedFiles(files, dir + "/" + name, n), dir + "/" + name) == Get(files, dir + "/" + name)
    ensures var base := NameParts(name).0;
      var ext := NameParts(name).1;
      Get(RotatedFiles(files, dir + "/" + name, n), BackupName("", base, 1, ext)) == Get(files, name)
  {
    var path := dir + "/" + name;
    Text.LastSegmentAfterSlash(dir, name);
    Text.LastSegmentNoSlash(name);
    var base := NameParts(name).0;
    var ext := NameParts(name).1;
    assert NameParts(path) == NameParts(name);
    LiveNameSplit("", base, ext);
    assert LiveName("", base, ext) == name;
    RotationShifts(files, "", base, ext, n);
    assert path[|dir|] == '/';
    RotationKeepsPathsWithSlash(files, path, n, path);
  }

  /** The directory part of a path: everything up to its last '/'. */
  function DirOf(fileName: string): (d: string)
    ensures d + Text.LastSegment(fileName) == fileName
  {
    fileName[..|fileName| - |Text.LastSegment(fileName)|]
  }

  /** The rotation with the backup names placed in the log file's own
      directory: the live name is then the log file itself. */
  function RotatedFilesInDir(files: Files, fileName: string, n: int): Files
  {
    Rotated(files, DirOf(fileName), NameParts(fileName).0, NameParts(fileName).1, n)
  }

  /** With the directory kept, the log file (with a suffix) becomes backup 1
      and no longer exists under its own name. */
  lemma RotationInDirMovesLog(files: Files, fileName: string, n: int)
    requires n >= 1 && '.' in Text.LastSegment(fileName)
    ensures Get(RotatedFilesInDir(files, fileName, n),
                BackupName(DirOf(fileName), NameParts(fileName).0, 1, NameParts(fileName).1)) == Get(files, fileName)
    ensures fileName !in RotatedFilesInDir(files, fileName, n)
  {
    var dir := DirOf(fileName);
    var base := NameParts(fileName).0;
    var ext := NameParts(fileName).1;
    assert base + "." + ext == Text.LastSegment(fileName);
    LiveNameSplit(dir, base, ext);
    RotationShifts(files, dir, base, ext, n);
  }

  // ---------------------------------------------------------------------
  // File handles.

  class FileSystem {
    var files: Files

    constructor (files: Files)
      ensures this.files == files
    {
      this.files := files;
    }
  }

  /** The contents after writing `data` at position `at`: bytes from `at`
      on are overwritten and the file grows as needed. */
  function WriteAt(content: Bytes, at: nat, data: Bytes): (r: Bytes)
    requires at <= |content|
    ensures |r| == if at + |data| > |content| then at + |data| else |content|
    ensures r[..at] == content[..at] && r[at..at + |data|] == data
  {
    content[..at] + data + (if at + |data| < |content| then content[at + |data|..] else [])
  }

  /** Writing at the end appends. */
  lemma WriteAtEnd(content: Bytes, data: Bytes)
    ensures WriteAt(content, |content|, data) == content + data
  {
  }

  /** An open file handle: its name, whether it is open, in append mode,
      and its position. */
  class LogFile {
    const fs: FileSystem
    var name: string
    var isOpen: bool
    var appendMode: bool
    var pos: nat

    ghost predicate Valid()
      reads this, fs
    {
      isOpen ==> name in fs.files && pos <= |fs.files[name]|
    }

    constructor (fs: FileSystem)
      ensures this.fs == fs && name == "" && !isOpen
      ensures Valid()
    {
      this.fs := fs;
      name := "";
      isOpen := false;
      appendMode := false;
      pos := 0;
    }

    /** The size of the open file. */
    function Size(): nat
      requires Valid() && isOpen
      reads this, fs
    {
      |fs.files[name]|
    }

    /** Opening for reading and writing creates a missing file; `canOpen`
        says whether the system allows it. */
    method Open(append: bool, canOpen: bool) returns (ok: bool)
      requires Valid() && !isOpen
      modifies this, fs
      ensures Valid() && name == old(name)
      ensures ok == canOpen && isOpen == ok
      ensures !ok ==> fs.files == old(fs.files)
      ensures ok ==> fs.files == OpenedFiles(old(fs.files), name)
      ensures ok ==> appendMode == append && pos == (if append then |fs.files[name]| else 0)
    {
      if !canOpen {
        return false;
      }
      if name !in fs.files {
        fs.files := fs.files[name := []];
      }
      isOpen := true;
      appendMode := append;
      pos := if append then |fs.files[name]| else 0;
      return true;
    }

    method Close()
      modifies this
      ensures !isOpen && name == old(name) && appendMode == old(appendMode) && pos == old(pos)
    {
      isOpen := false;
    }

    /** Writing goes to the end in append mode and to the position otherwise. */
    method Write(data: Bytes)
      requires Valid() && isOpen
      modifies this, fs
      ensures Valid() && isOpen && name == old(name) && appendMode == old(appendMode)
      ensures var at := if appendMode then |old(fs.files)[name]| else old(pos);
        fs.files == old(fs.files)[name := WriteAt(old(fs.files)[name], at, data)] && pos == at + |data|
    {
      var content := fs.files[name];
      var at := if appendMode then |content| else pos;
      fs.files := fs.files[name := WriteAt(content, at, data)];
      pos := at + |data|;
    }
  }

  /** The files once `name` is opened for writing: a missing file is created empty. */
  function OpenedFiles(files: Files, name: string): (r: Files)
    ensures name in r && r.Keys == files.Keys + {name}
    ensures name in files ==> r == files
    ensures name !in files ==> r[name] == []
  {
    if name in files then files else files[name := []]
  }

  /** The files after a rotation and the reopening of the log: a reopened
      log that the rotation moved away exists again, empty. */
  function AfterRotation(files: Files, fileName: string, n: int, reopenOk: bool): Files
  {
    var r := RotatedFiles(files, fileName, n);
    if reopenOk && fileName !in r then r[fileName := []] else r
  }

  /** The first part of a rotation: backup `n` is deleted if it exists,
      then backups `n - 1` down to 1 are renamed one number up. */
  method ShiftBackups(fs: FileSystem, base: string, ext: string, n: int)
    modifies fs
    ensures fs.files == ShiftFrom(old(fs.files) - {BackupName("", base, n, ext)}, "", base, ext, n - 1)
  {
    var cur := BackupName("", base, n, ext);
    if cur in fs.files {
      fs.files := fs.files - {cur};
    }
    assert fs.files == old(fs.files) - {cur};
    ghost var f1 := fs.files;
    var i := n - 1;
    while i > 0
      invariant ShiftFrom(fs.files, "", base, ext, i) == ShiftFrom(f1, "", base, ext, n - 1)
    {
      cur := BackupName("", base, i, ext);
      var next := BackupName("", base, i + 1, ext);
      if cur in fs.files {
        fs.files := Rename(fs.files, cur, next);
      }
      i := i - 1;
    }
  }

  /** Rotation: delete backup `n`, shift the backups one number up, close
      the log, rename it to backup 1 and reopen it for reading and writing
      (not in append mode); it fails only when the reopening does. */
  method CreateNewLogFile(file: LogFile, n: int, reopenOk: bool) returns (ok: bool)
    requires file.Valid()
    modifies file, file.fs
    ensures file.Valid() && file.name == old(file.name)
    ensures ok == reopenOk && file.isOpen == ok
    ensures file.fs.files == AfterRotation(old(file.fs.files), file.name, n, reopenOk)
    ensures ok ==> !file.appendMode && file.pos == 0
  {
    var (base, ext) := NameParts(file.name);
    ShiftBackups(file.fs, base, ext, n);
    file.Close();
    var fs := file.fs;
    fs.files := Rename(fs.files, LiveName("", base, ext), BackupName("", base, 1, ext));
    ok := file.Open(false, reopenOk);
  }

  /** A log kept in a directory other than the working one is left in
      place by the rotation and reopened at position 0, so the next message
      overwrites its first bytes and the file keeps its size, still at the
      limit. */
  method RotateInDirThenWrite(file: LogFile, dir: string, name: string, n: int, data: Bytes)
    requires file.Valid() && file.isOpen && file.name == dir + "/" + name && dir != "."
    requires n >= 1 && '/' !in name && '.' in name && |data| <= |file.fs.files[file.name]|
    modifies file, file.fs
    ensures file.Valid() && file.isOpen && file.name == dir + "/" + name
    ensures |file.fs.files[file.name]| == |old(file.fs.files)[file.name]|
    ensures file.fs.files[file.name][..|data|] == data
  {
    ghost var before := file.fs.files;
    RotationIgnoresDirectory(before, dir, name, n);
    var ok := CreateNewLogFile(file, n, true);
    assert file.fs.files[file.name] == before[file.name];
    file.Write(data);
  }

  /** A logger object writing to its own log file. */
  class QtSimpleLogger {
    const file: LogFile
    var format: string
    var maxSize: nat
    var maxNum: int

    ghost predicate Valid()
      reads this, file, file.fs
    {
      file.Valid()
    }

    constructor (fs: FileSystem)
      ensures Valid() && !file.isOpen && file.fs == fs
      ensures format == DefaultLoggerFormat
    {
      file := new LogFile(fs);
      format := DefaultLoggerFormat;
      maxSize := 0;
      maxNum := 0;
    }

    method Close()
      modifies file
      ensures !file.isOpen && file.name == old(file.name)
    {
      if !file.isOpen {
        return;
      }
      file.Close();
    }

    /** Creating a log: the open file is closed, the new one opened in
        append mode (false when that fails, with the limits unchanged),
        the limits stored, and the file rotated at once when it already
        reaches the size limit. */
    method Create(fileName: string, fileMaxSize: nat, fileMaxNum: int, canOpen: bool, reopenOk: bool)
      returns (ok: bool)
      requires Valid()
      modifies this, file, file.fs
      ensures Valid() && file.name == fileName && format == old(format)
      ensures !canOpen ==> (!ok && !file.isOpen && file.fs.files == old(file.fs.files)
                            && maxSize == old(maxSize) && maxNum == old(maxNum))
      ensures canOpen ==> maxSize == fileMaxSize && maxNum == fileMaxNum
      ensures canOpen ==>
        var created := OpenedFiles(old(file.fs.files), fileName);
        if |created[fileName]| >= fileMaxSize then
          && ok == reopenOk && file.isOpen == ok && file.fs.files == AfterRotation(created, fileName, fileMaxNum, reopenOk)
          && (file.isOpen ==> !file.appendMode && file.pos == 0)
        else
          ok && file.isOpen && file.appendMode && file.pos == |created[fileName]| && file.fs.files == created
    {
      Close();
      file.name := fileName;
      var didOpen := file.Open(true, canOpen);
      if !didOpen {
        return false;
      }
      maxSize := fileMaxSize;
      maxNum := fileMaxNum;
      if file.Size() >= maxSize {
        ok := CreateNewLogFile(file, maxNum, reopenOk);
        return;
      }
      return true;
    }

    method SetFormat(newFormat: string)
      modifies this
      ensures format == newFormat && maxSize == old(maxSize) && maxNum == old(maxNum)
    {
      format := newFormat;
    }

    /** Writing a message to an open log: the formatted, encoded message is
        written, and the file is rotated exactly when its size afterwards
        reaches the limit. Without an open log the message goes to Qt's own
        output, which is not modelled: the files do not change. */
    method Write(msg: string, t: MsgType, extFile: string, extLine: string, extFunc: string,
                 time: string, thread: string, encode: string -> Bytes, reopenOk: bool)
      requires Valid()
      modifies file, file.fs
      ensures Valid() && file.name == old(file.name)
      ensures !old(file.isOpen) ==> file.fs.files == old(file.fs.files) && !file.isOpen
      ensures old(file.isOpen) ==>
        var data := encode(FormatMsg(format, msg, t, extFile, extLine, extFunc, time, thread));
        var content := old(file.fs.files)[file.name];
        var at := if old(file.appendMode) then |content| else old(file.pos);
        var written := old(file.fs.files)[file.name := WriteAt(content, at, data)];
        if |WriteAt(content, at, data)| >= maxSize then
          && file.fs.files == AfterRotation(written, file.name, maxNum, reopenOk) && file.isOpen == reopenOk
          && (file.isOpen ==> !file.appendMode && file.pos == 0)
        else
          && file.fs.files == written && file.isOpen && file.pos == at + |data|
          && file.appendMode == old(file.appendMode)
    {
      if !file.isOpen {
        return;
      }
      var line := FormatMsg(format, msg, t, extFile, extLine, extFunc, time, thread);
      file.Write(encode(line));
      if file.Size() >= maxSize {
        var _ := CreateNewLogFile(file, maxNum, reopenOk);
      }
    }
  }

  /** The process-wide system log: a file, its format and limits, and
      whether the message handler is installed. */
  class SystemLog {
    const file: LogFile
    var format: string
    var maxSize: nat
    var maxNum: int
    var handlerInstalled: bool

    ghost predicate Valid()
      reads this, file, file.fs
    {
      file.Valid()
    }

    constructor (fs: FileSystem)
      ensures Valid() && !file.isOpen && file.fs == fs && !handlerInstalled
      ensures format == DefaultSystemFormat
    {
      file := new LogFile(fs);
      format := DefaultSystemFormat;
      maxSize := 0;
      maxNum := 0;
      handlerInstalled := false;
    }

    /** Taking over Qt's output: refused, with nothing changed, while the
        system log is open; otherwise the file is opened in append mode,
        rotated at once when already full, and the handler installed on
        success, the file closed on failure. */
    method CreateSystemLog(logFile: string, fileMaxSize: nat, fileMaxNum: int, canOpen: bool, reopenOk: bool)
      returns (ok: bool)
      requires Valid()
      modifies this, file, file.fs
      ensures Valid() && format == old(format)
      ensures old(file.isOpen) ==> (!ok && file.fs.files == old(file.fs.files) && file.name == old(file.name)
                                    && file.isOpen && handlerInstalled == old(handlerInstalled))
      ensures !old(file.isOpen) ==> file.name == logFile && file.isOpen == ok
      ensures !old(file.isOpen) && !canOpen ==>
        (!ok && file.fs.files == old(file.fs.files) && handlerInstalled == old(handlerInstalled))
      ensures !old(file.isOpen) && canOpen ==>
        var created := OpenedFiles(old(file.fs.files), logFile);
        && maxSize == fileMaxSize && maxNum == fileMaxNum
        && (if |created[logFile]| >= fileMaxSize then
              && ok == reopenOk && file.fs.files == AfterRotation(created, logFile, fileMaxNum, reopenOk)
              && (file.isOpen ==> !file.appendMode && file.pos == 0)
            else
              && ok && file.fs.files == created
              && file.appendMode && file.pos == |created[logFile]|)
        && (ok ==> handlerInstalled) && (!ok ==> handlerInstalled == old(handlerInstalled))
    {
      ok := false;
      if file.isOpen {
        return;
      }
      file.name := logFile;
      var didOpen := file.Open(true, canOpen);
      if !didOpen {
        return;
      }
      ok := true;
      maxSize := fileMaxSize;
      maxNum := fileMaxNum;
      if file.Size() >= maxSize {
        ok := CreateNewLogFile(file, maxNum, reopenOk);
      }
      if ok {
        handlerInstalled := true;
      } else {
        file.Close();
      }
    }

    /** Replaces the system format; the file and the handler are untouched. */
    method SetSystemLogFormat(newFormat: string)
      modifies this
      ensures format == newFormat && maxSize == old(maxSize) && maxNum == old(maxNum)
      ensures handlerInstalled == old(handlerInstalled)
    {
      format := newFormat;
    }

    /** Releasing Qt's output: nothing happens unless the log is open. */
    method CloseSystemLog()
      modifies this, file
      ensures !old(file.isOpen) ==> handlerInstalled == old(handlerInstalled) && !file.isOpen
      ensures old(file.isOpen) ==> !file.isOpen && !handlerInstalled
      ensures file.name == old(file.name)
    {
      if !file.isOpen {
        return;
      }
      file.Close();
      handlerInstalled := false;
    }

    /** The installed handler: with the log open, the message is formatted
        with the system format (the line number in decimal), written, and
        the file rotated when it reaches the limit. */
    method OutputMessage(t: MsgType, ctxFile: string, ctxLine: int, ctxFunc: string, msg: string,
                         time: string, thread: string, encode: string -> Bytes, reopenOk: bool)
      requires Valid()
      modifies file, file.fs
      ensures Valid() && file.name == old(file.name)
      ensures !old(file.isOpen) ==> file.fs.files == old(file.fs.files) && !file.isOpen
      ensures old(file.isOpen) ==>
        var data := encode(FormatMsg(format, msg, t, ctxFile, Text.Decimal(ctxLine), ctxFunc, time, thread));
        var content := old(file.fs.files)[file.name];
        var at := if old(file.appendMode) then |content| else old(file.pos);
        var written := old(file.fs.files)[file.name := WriteAt(content, at, data)];
        if |WriteAt(content, at, data)| >= maxSize then
          && file.fs.files == AfterRotation(written, file.name, maxNum, reopenOk) && file.isOpen == reopenOk
          && (file.isOpen ==> !file.appendMode && file.pos == 0)
        else
          && file.fs.files == written && file.isOpen && file.pos == at + |data|
          && file.appendMode == old(file.appendMode)
    {
      if !file.isOpen {
        return;
      }
      var line := FormatMsg(format, msg, t, ctxFile, Text.Decimal(ctxLine), ctxFunc, time, thread);
      file.Write(encode(line));
      if file.Size() >= maxSize {
        var _ := CreateNewLogFile(file, maxNum, reopenOk);
      }
    }
  }
}
