/** Whole sessions: the named files against a map from names to bytes. */
module Shell {
  import opened Words
  import opened BlockTree
  import opened Bitmaps
  import opened Volume
  import opened FileData
  import opened Ledger
  import opened EntryTable
  import opened FsUtil
  import opened Names
  import opened Files
  import opened Defragment
  import Inodes

  /** What a session works on: the bytes of every file, the positions of the open
      ones, the free sectors, and the slots of the root directory. */
  datatype Desk = Desk(files: Bytes, cursors: map<Name, int>, room: nat, slots: nat)

  datatype Cmd =
    | Create(name: Name, size: nat)
    | Write(name: Name, buffer: seq<byte>)
    | Read(name: Name, size: nat)
    | Seek(name: Name, pos: nat)
    | Remove(name: Name)
    | Defragment

  datatype Out = Done | Count(n: int) | Got(n: int, bytes: seq<byte>) | Flag(ok: bool)

  ghost function View(table: map<Name, File>, s: State): Desk {
    Desk(Named(s), Cursors(table), |FreeList(s.bits)|, RootSlots(s))
  }

  /** The position that the next read or write of a file starts from. */
  function At(d: Desk, name: Name): int {
    if name in d.cursors then d.cursors[name] else 0
  }

  /** The root directory must grow to take one more name. */
  predicate Grows(d: Desk) {
    |d.files| == d.slots
  }

  function EntryCost(d: Desk): nat {
    if Grows(d) then EntryNeed(d.slots) else 0
  }

  /** The command makes sense, and there is room for it. */
  predicate Enabled(d: Desk, c: Cmd) {
    match c
    case Create(name, size) =>
      && FileName(name) && name !in d.files
      && size <= MAX_LENGTH && 1 + Cost(Sectors(size)) + EntryCost(d) <= d.room
      && (Grows(d) ==> ENTRY_SIZE * (d.slots + 2) <= MAX_LENGTH)
    case Write(name, buffer) =>
      && Plain(name)
      && (name in d.files ==>
            && 0 <= At(d, name) && At(d, name) + |buffer| <= MAX_LENGTH
              && (At(d, name) + |buffer| > 0 || d.files[name] == [])
            && Need(|d.files[name]|, At(d, name) + |buffer|) <= d.room)
    case Read(name, _) => Plain(name) && At(d, name) >= 0
    case Seek(name, _) => Plain(name)
    case Remove(name) => Plain(name)
    case Defragment => true
  }

  /** What a command does; one that is not enabled does nothing. */
  ghost function Next(d: Desk, c: Cmd): Desk {
    if !Enabled(d, c) then d
    else
      match c
      case Create(name, size) =>
        d.(files := d.files[name := Zeros(size)],
           room := d.room - 1 - Cost(Sectors(size)) - EntryCost(d),
           slots := d.slots + if Grows(d) then 1 else 0)
      case Write(name, buffer) =>
        if name !in d.files then d
        else d.(files := d.files[name := Splice(d.files[name], At(d, name), Terminated(buffer))],
                cursors := d.cursors[name := At(d, name) + |buffer| - 2],
                room := d.room - Need(|d.files[name]|, At(d, name) + |buffer|))
      case Read(name, size) =>
        if name !in d.files then d
        else d.(cursors := d.cursors[name := At(d, name) + |Slice(d.files[name], At(d, name), size)|])
      case Seek(name, pos) =>
        if name !in d.files then d else d.(cursors := d.cursors[name := pos])
      case Remove(name) =>
        if name !in d.files then d
        else d.(files := d.files - {name}, cursors := d.cursors - {name},
                room := d.room + 1 + Cost(Sectors(|d.files[name]|)))
      case Defragment => d.(files := Restored(d.files), cursors := Parked(Restored(d.files)))
  }

  /** What a command answers. */
  ghost function Answer(d: Desk, c: Cmd): Out
    requires Enabled(d, c)
  {
    match c
    case Create(_, _) => Done
    case Write(name, buffer) => Count(if name in d.files then |buffer| else -1)
    case Read(name, size) =>
      if name !in d.files then Got(-1, [])
      else var bytes := Slice(d.files[name], At(d, name), size); Got(|bytes|, bytes)
    case Seek(name, _) => Count(if name in d.files then 0 else -1)
    case Remove(name) => Flag(name in d.files)
    case Defragment => Done
  }

  /** What a whole session does. */
  ghost function After(d: Desk, cmds: seq<Cmd>): Desk {
    if cmds == [] then d else Next(After(d, cmds[..|cmds| - 1]), cmds[|cmds| - 1])
  }

  ghost predicate Legal(d: Desk, cmds: seq<Cmd>) {
    forall k :: 0 <= k < |cmds| ==> Enabled(After(d, cmds[..k]), cmds[k])
  }

  /** Unless the root directory has grown, the system's own files are where they were. */
  ghost predicate SystemStays(s0: State, s1: State) {
    RootSlots(s0) <= RootSlots(s1) && (RootSlots(s1) == RootSlots(s0) ==> SystemKept(s0, s1))
  }

  lemma SystemStaysRefl(s: State)
    ensures SystemStays(s, s)
  {
    hide RootSlots;
  }

  lemma SystemStaysTrans(s0: State, s1: State, s2: State)
    requires SystemStays(s0, s1) && SystemStays(s1, s2)
    ensures SystemStays(s0, s2)
  {
    hide RootSlots;
  }

  // ----- The operations carry out their commands -----

  lemma PosIsAt(table: map<Name, File>, s: State, name: Name)
    ensures Pos(table, name) == At(View(table, s), name)
  {
    hide Named;
  }

  lemma MovedCursor(t0: map<Name, File>, t1: map<Name, File>, name: Name, pos: int)
    requires Moved(t0, t1, name, pos)
    ensures Cursors(t1) == Cursors(t0)[name := pos]
  {
  }

  lemma DroppedCursor(table: map<Name, File>, name: Name)
    ensures Cursors(table - {name}) == Cursors(table) - {name}
  {
  }

  method DoCreate(files: FileTable, name: Name, size: nat)
    requires files.Valid() && Enabled(View(files.table, files.fs.S()), Create(name, size))
    modifies files.fs`files, files.fs`owner, files.fs.cache, files.fs.cache.slots, files.fs.freeMap,
      files.fs.freeMap.elems
    ensures files.Valid()
            && View(files.table, files.fs.S()) == Next(old(View(files.table, files.fs.S())), Create(name, size))
    ensures SystemStays(old(files.fs.S()), files.fs.S())
  {
    hide Inodes.FileSystem.Valid, Rooted, Named, Links, FreeFrom, RootSlots, Cost, Sectors, EntryNeed, SystemKept,
      FromFront, FilesKept, Cursors, Tabled, FileName;
    files.Create(name, size);
  }

  method DoWrite(files: FileTable, name: Name, buffer: array<byte>) returns (n: int)
    requires files.Valid() && Enabled(View(files.table, files.fs.S()), Write(name, buffer[..]))
    requires (buffer as object) != files.fs.cache.slots && (buffer as object) != files.fs.freeMap.elems
    modifies files`table, buffer, files.fs`files, files.fs`owner, files.fs.cache, files.fs.cache.slots,
      files.fs.freeMap, files.fs.freeMap.elems
    ensures files.Valid()
            && View(files.table, files.fs.S())
            == Next(old(View(files.table, files.fs.S())), old(Write(name, buffer[..])))
    ensures Count(n) == Answer(old(View(files.table, files.fs.S())), old(Write(name, buffer[..])))
    ensures SystemStays(old(files.fs.S()), files.fs.S())
  {
    hide Inodes.FileSystem.Valid, Rooted, Named, Links, FreeFrom, RootSlots, Need, SystemKept, FilesKept, Cursors,
      Tabled, Moved, Pos, At, Splice;
    ghost var s0, t0 := files.fs.S(), files.table;
    PosIsAt(t0, s0, name);
    SystemStaysRefl(s0);
    n := files.Write(name, buffer);
    if name in Named(s0) {
      MovedCursor(t0, files.table, name, Pos(t0, name) + n - 2);
    }
  }

  method DoRead(files: FileTable, name: Name, size: nat) returns (n: int, bytes: seq<byte>)
    requires files.Valid() && Enabled(View(files.table, files.fs.S()), Read(name, size))
    modifies files`table, files.fs.cache, files.fs.cache.slots
    ensures files.Valid()
            && View(files.table, files.fs.S()) == Next(old(View(files.table, files.fs.S())), Read(name, size))
    ensures Got(n, bytes) == Answer(old(View(files.table, files.fs.S())), Read(name, size))
    ensures files.fs.S() == old(files.fs.S())
  {
    hide Inodes.FileSystem.Valid, Rooted, Named, Links, FreeFrom, RootSlots, Cursors, Tabled, Moved, Pos, At, Slice;
    ghost var s0, t0 := files.fs.S(), files.table;
    PosIsAt(t0, s0, name);
    n, bytes := files.Read(name, size);
    if name in Named(s0) {
      MovedCursor(t0, files.table, name, Pos(t0, name) + n);
    }
  }

  method DoSeek(files: FileTable, name: Name, pos: nat) returns (n: int)
    requires files.Valid() && Enabled(View(files.table, files.fs.S()), Seek(name, pos))
    modifies files`table, files.fs.cache, files.fs.cache.slots
    ensures files.Valid()
            && View(files.table, files.fs.S()) == Next(old(View(files.table, files.fs.S())), Seek(name, pos))
    ensures Count(n) == Answer(old(View(files.table, files.fs.S())), Seek(name, pos))
    ensures files.fs.S() == old(files.fs.S())
  {
    hide Inodes.FileSystem.Valid, Rooted, Named, Links, FreeFrom, RootSlots, Cursors, Tabled, Moved, At;
    ghost var s0, t0 := files.fs.S(), files.table;
    n := files.Seek(name, pos);
    if name in Named(s0) {
      MovedCursor(t0, files.table, name, pos);
    }
  }

  method DoRemove(files: FileTable, name: Name) returns (ok: bool)
    requires files.Valid() && Enabled(View(files.table, files.fs.S()), Remove(name))
    modifies files`table, files.fs`files, files.fs`owner, files.fs.cache, files.fs.cache.slots, files.fs.freeMap,
      files.fs.freeMap.elems
    ensures files.Valid() && View(files.table, files.fs.S()) == Next(old(View(files.table, files.fs.S())), Remove(name))
    ensures Flag(ok) == Answer(old(View(files.table, files.fs.S())), Remove(name))
    ensures SystemStays(old(files.fs.S()), files.fs.S())
  {
    hide Inodes.FileSystem.Valid, Rooted, Named, Links, FreeFrom, RootSlots, Cost, Sectors, SystemKept, FilesKept,
      Cursors, Tabled, Contents;
    ghost var s0, t0 := files.fs.S(), files.table;
    DroppedCursor(t0, name);
    SystemStaysRefl(s0);
    NotYetOpenIfUnknown(s0, t0, name);
    ok := files.Remove(name);
  }

  lemma NotYetOpenIfUnknown(s: State, table: map<Name, File>, name: Name)
    requires Rooted(s) && Tabled(table, Links(s))
    ensures name !in Named(s) ==> table - {name} == table
  {
    hide Rooted, Named, Links, Tabled;
    if name !in Named(s) {
      NotYetOpen(s, table, name);
    }
  }

  method DoDefragment(files: FileTable)
    requires files.Valid()
    modifies files`table, files.fs`files, files.fs`owner, files.fs.cache, files.fs.cache.slots, files.fs.freeMap,
      files.fs.freeMap.elems
    ensures files.Valid() && View(files.table, files.fs.S()) == Next(old(View(files.table, files.fs.S())), Defragment)
    ensures SystemStays(old(files.fs.S()), files.fs.S())
  {
    hide Inodes.FileSystem.Valid, Rooted, Named, Links, FreeFrom, RootSlots, SystemKept, Cursors, Tabled, Parked,
      Restored, SystemFront, Unfragmented, Consecutive;
    Defragment.Run(files);
  }

  /** Carries out one command. */
  method Do(files: FileTable, c: Cmd) returns (out: Out)
    requires files.Valid() && Enabled(View(files.table, files.fs.S()), c)
    modifies files`table, files.fs`files, files.fs`owner, files.fs.cache, files.fs.cache.slots, files.fs.freeMap,
      files.fs.freeMap.elems
    ensures files.Valid() && View(files.table, files.fs.S()) == Next(old(View(files.table, files.fs.S())), c)
    ensures out == Answer(old(View(files.table, files.fs.S())), c)
    ensures SystemStays(old(files.fs.S()), files.fs.S())
  {
    hide Inodes.FileSystem.Valid, Rooted, Named, Links, FreeFrom, RootSlots, Cursors, Tabled, Enabled, Next;
    match c
    case Create(name, size) =>
      DoCreate(files, name, size);
      out := Done;
    case Write(name, buffer) =>
      var b := new byte[|buffer|](i requires 0 <= i < |buffer| => buffer[i]);
      assert b[..] == buffer;
      var n := DoWrite(files, name, b);
      out := Count(n);
    case Read(name, size) =>
      var n, bytes := DoRead(files, name, size);
      out := Got(n, bytes);
    case Seek(name, pos) =>
      var n := DoSeek(files, name, pos);
      out := Count(n);
    case Remove(name) =>
      var ok := DoRemove(files, name);
      out := Flag(ok);
    case Defragment =>
      DoDefragment(files);
      out := Done;
  }

  /** Every session on the volume is one on the map of named bytes. */
  method Session(files: FileTable, cmds: seq<Cmd>) returns (outs: seq<Out>)
    requires files.Valid() && Legal(View(files.table, files.fs.S()), cmds)
    modifies files`table, files.fs`files, files.fs`owner, files.fs.cache, files.fs.cache.slots, files.fs.freeMap,
      files.fs.freeMap.elems
    ensures files.Valid() && View(files.table, files.fs.S()) == After(old(View(files.table, files.fs.S())), cmds)
    ensures |outs| == |cmds| && forall k :: 0 <= k < |cmds| ==>
              outs[k] == Answer(After(old(View(files.table, files.fs.S())), cmds[..k]), cmds[k])
    ensures SystemStays(old(files.fs.S()), files.fs.S())
  {
    hide Inodes.FileSystem.Valid, Rooted, Links, Tabled, Enabled, Next, Answer, View, SystemStays;
    outs := [];
    ghost var d0, s0 := View(files.table, files.fs.S()), files.fs.S();
    SystemStaysRefl(s0);
    for k := 0 to |cmds|
      invariant files.Valid() && View(files.table, files.fs.S()) == After(d0, cmds[..k])
      invariant SystemStays(s0, files.fs.S())
      invariant |outs| == k && forall j :: 0 <= j < k ==> outs[j] == Answer(After(d0, cmds[..j]), cmds[j])
    {
      assert cmds[..k + 1][..k] == cmds[..k];
      ghost var s := files.fs.S();
      var out := Do(files, cmds[k]);
      SystemStaysTrans(s0, s, files.fs.S());
      outs := outs + [out];
    }
    assert cmds[..|cmds|] == cmds;
  }

  // ----- What every session keeps -----

  lemma SpliceEndsInZero(c: seq<byte>, at: nat, buffer: seq<byte>)
    requires EndsInZero(c) && (at + |buffer| > 0 || c == [])
    ensures EndsInZero(Splice(c, at, Terminated(buffer)))
  {
  }

  lemma NextEndsInZero(d: Desk, c: Cmd)
    requires AllEndInZero(d.files)
    ensures AllEndInZero(Next(d, c).files)
  {
    hide Need, Cost, Sectors, Grows, EntryCost, Splice, Parked, Slice;
    if Enabled(d, c) && c.Write? && c.name in d.files {
      SpliceEndsInZero(d.files[c.name], At(d, c.name), c.buffer);
    }
  }

  /** Every file ends in a zero byte, or is empty, after every session that starts
      so; in particular after every session on a new volume. */
  lemma {:induction false} SessionEndsInZero(d: Desk, cmds: seq<Cmd>)
    requires AllEndInZero(d.files)
    ensures AllEndInZero(After(d, cmds).files)
  {
    hide Next;
    if cmds != [] {
      SessionEndsInZero(d, cmds[..|cmds| - 1]);
      NextEndsInZero(After(d, cmds[..|cmds| - 1]), cmds[|cmds| - 1]);
    }
  }

  /** So defragmenting then changes no file. */
  lemma DefragmentKeepsFiles(d: Desk, cmds: seq<Cmd>)
    requires AllEndInZero(d.files)
    ensures Next(After(d, cmds), Defragment).files == After(d, cmds).files
  {
    SessionEndsInZero(d, cmds);
    RestoredExactly(After(d, cmds).files);
  }

  /** Reading twice is reading once, for both together. */
  lemma ReadInTwoSteps(d: Desk, name: Name, m: nat, n: nat)
    requires name in d.files && Enabled(d, Read(name, m))
    ensures var e := Next(d, Read(name, m));
            && Enabled(e, Read(name, n)) && Next(e, Read(name, n)) == Next(d, Read(name, m + n))
            && Answer(d, Read(name, m)).bytes + Answer(e, Read(name, n)).bytes == Answer(d, Read(name, m + n)).bytes
  {
    hide Slice, Plain;
    SliceInTwoSteps(d.files[name], At(d, name), m, n);
  }

  // ----- Positions -----

  /** No file's position lies before its start. */
  ghost predicate Forward(d: Desk) {
    forall n :: n in d.cursors ==> d.cursors[n] >= 0
  }

  /** The command leaves no position before the start of a file: a write ends at
      byte 2 or later, and defragmenting finds no file shorter than two bytes. */
  ghost predicate Tame(d: Desk, c: Cmd) {
    match c
    case Write(name, buffer) => name in d.files ==> At(d, name) + |buffer| >= 2
    case Defragment => forall n :: n in d.files ==> |d.files[n]| >= 2
    case _ => true
  }

  /** Which is exactly what keeps positions from going negative. */
  lemma ForwardExactly(d: Desk, c: Cmd)
    requires Forward(d) && Enabled(d, c)
    ensures Forward(Next(d, c)) <==> Tame(d, c)
  {
    hide Need, Cost, Sectors, EntryCost, Splice, Slice, FileName, Plain, Grows;
    var d' := Next(d, c);
    match c
    case Write(name, buffer) =>
      if name in d.files {
        assert d'.cursors[name] == At(d, name) + |buffer| - 2;
      }
    case Defragment =>
      assert forall n :: n in d.files ==> |Restored(d.files)[n]| == |d.files[n]|;
      assert forall n :: n in d.files ==> n in d'.cursors && d'.cursors[n] == |d.files[n]| - 2;
    case Read(name, size) =>
      assert name in d.files ==> d'.cursors[name] >= 0;
    case _ =>
  }

  ghost predicate TameSession(d: Desk, cmds: seq<Cmd>) {
    forall k :: 0 <= k < |cmds| ==> Tame(After(d, cmds[..k]), cmds[k])
  }

  lemma TameFront(d: Desk, cmds: seq<Cmd>)
    requires cmds != [] && Legal(d, cmds) && TameSession(d, cmds)
    ensures var front, last := cmds[..|cmds| - 1], cmds[|cmds| - 1];
            && Legal(d, front) && TameSession(d, front)
            && Enabled(After(d, front), last) && Tame(After(d, front), last)
  {
    hide Enabled, Tame, After;
    var front := cmds[..|cmds| - 1];
    assert forall k :: 0 <= k < |front| ==> front[k] == cmds[k] && front[..k] == cmds[..k];
  }

  /** So a session of tame commands keeps every position at or behind the start. */
  lemma {:induction false} SessionForward(d: Desk, cmds: seq<Cmd>)
    requires Forward(d) && Legal(d, cmds) && TameSession(d, cmds)
    ensures Forward(After(d, cmds))
  {
    hide Next, Enabled, Tame, Forward, Legal, TameSession;
    if cmds != [] {
      var front := cmds[..|cmds| - 1];
      TameFront(d, cmds);
      SessionForward(d, front);
      ForwardExactly(After(d, front), cmds[|cmds| - 1]);
    }
  }

  /** The shell's write command is tame wherever it is issued. */
  lemma WriteWordsTame(d: Desk, name: Name, words: seq<Name>)
    requires Forward(d)
    ensures Tame(d, Write(name, Joined(words) + [0, 0]))
  {
    hide Joined;
  }

  // ----- Shell writes -----

  const SPACE: byte := 32

  /** A write command's words with a space between each two. */
  function Joined(words: seq<Name>): seq<byte> {
    if words == [] then []
    else if |words| == 1 then words[0]
    else Joined(words[..|words| - 1]) + [SPACE] + words[|words| - 1]
  }

  /** Where the k-th word of a joined text starts. */
  function Offset(words: seq<Name>, k: nat): nat
    requires k <= |words|
  {
    TotalLength(words[..k]) + k
  }

  lemma {:induction false} JoinedLength(words: seq<Name>)
    requires words != []
    ensures |Joined(words)| == TotalLength(words) + |words| - 1
  {
    if |words| > 1 {
      JoinedLength(words[..|words| - 1]);
    }
  }

  /** The text has the word at the given place, with a space before it unless it comes first. */
  ghost predicate HasWord(text: seq<byte>, at: nat, word: Name) {
    && at + |word| <= |text| && text[at..at + |word|] == word
    && (at > 0 ==> text[at - 1] == SPACE)
  }

  lemma HasWordInLonger(text: seq<byte>, at: nat, word: Name, more: seq<byte>)
    requires HasWord(text, at, word)
    ensures HasWord(text + more, at, word)
  {
    assert (text + more)[at..at + |word|] == text[at..at + |word|];
  }

  lemma HasLastWord(text: seq<byte>, word: Name)
    ensures HasWord(text + [SPACE] + word, |text| + 1, word)
  {
  }

  /** Every word is in the text at its place, and a space between each two. */
  lemma {:induction false} JoinedAt(words: seq<Name>, k: nat)
    requires k < |words|
    ensures HasWord(Joined(words), Offset(words, k), words[k])
  {
    hide HasWord;
    var last := |words| - 1;
    var front := words[..last];
    if last == 0 {
      assert words[..0] == [];
      HasFirstWord(words[0]);
    } else if k < last {
      assert words[..k] == front[..k];
      JoinedAt(front, k);
      HasWordInLonger(Joined(front), Offset(front, k), words[k], [SPACE] + words[last]);
      assert Joined(words) == Joined(front) + ([SPACE] + words[last]);
    } else {
      JoinedLength(front);
      HasLastWord(Joined(front), words[last]);
    }
  }

  lemma HasFirstWord(word: Name)
    ensures HasWord(word, 0, word)
  {
  }

  /** The words, each with a space behind it. */
  function Spaced(words: seq<Name>): seq<byte> {
    if words == [] then [] else Spaced(words[..|words| - 1]) + words[|words| - 1] + [SPACE]
  }

  function TotalLength(words: seq<Name>): nat {
    if words == [] then 0 else TotalLength(words[..|words| - 1]) + |words[|words| - 1]|
  }

  lemma {:induction false} SpacedIsJoined(words: seq<Name>)
    requires words != []
    ensures Spaced(words) == Joined(words) + [SPACE]
  {
    if |words| > 1 {
      SpacedIsJoined(words[..|words| - 1]);
    } else {
      assert words[..0] == [];
    }
  }

  lemma {:induction false} SpacedLength(words: seq<Name>, k: nat)
    requires k <= |words|
    ensures |Spaced(words[..k])| == TotalLength(words[..k]) + k
    ensures TotalLength(words[..k]) <= TotalLength(words)
  {
    if k > 0 {
      SpacedLength(words, k - 1);
      assert words[..k][..k - 1] == words[..k - 1];
    }
    TotalLengthMonotone(words, k);
  }

  lemma {:induction false} TotalLengthMonotone(words: seq<Name>, k: nat)
    requires k <= |words|
    ensures TotalLength(words[..k]) <= TotalLength(words)
  {
    if k < |words| {
      TotalLengthMonotone(words[..|words| - 1], k);
      assert words[..|words| - 1][..k] == words[..k];
    } else {
      assert words[..k] == words;
    }
  }

  /** strcpy to a place inside a buffer. */
  method StrCpy(buf: array<byte>, at: nat, s: Name)
    requires at + |s| < buf.Length
    modifies buf
    ensures buf[..] == old(buf[..at]) + s + [0] + old(buf[at + |s| + 1..])
  {
    for i := 0 to |s|
      invariant forall j :: 0 <= j < buf.Length ==> buf[j] == if at <= j < at + i then s[j - at] else old(buf[j])
    {
      buf[at + i] := s[i];
    }
    buf[at + |s|] := 0;
  }

  /** Copying behind what a zeroed buffer already holds leaves the rest zero. */
  lemma CopiedBehind(before: seq<byte>, s: seq<byte>, n: nat)
    requires |before| + |s| < n
    ensures var b := before + Zeros(n - |before|);
            b[..|before|] + s + [0] + b[|before| + |s| + 1..] == before + s + Zeros(n - |before| - |s|)
  {
  }

  method TotalSize(words: seq<Name>) returns (size: nat)
    ensures size == TotalLength(words) + |words| + 1
  {
    size := 0;
    for k := 0 to |words|
      invariant size == TotalLength(words[..k])
    {
      assert words[..k + 1][..k] == words[..k];
      size := size + |words[k]|;
    }
    assert words[..|words|] == words;
    size := size + |words| + 1;
  }

  lemma SpacedNext(words: seq<Name>, k: nat)
    requires k < |words|
    ensures Spaced(words[..k + 1]) == Spaced(words[..k]) + words[k] + [SPACE]
    ensures |Spaced(words[..k + 1])| < TotalLength(words) + |words| + 1
  {
    assert words[..k + 1][..k] == words[..k];
    SpacedLength(words, k + 1);
  }

  lemma SpacedNone(words: seq<Name>)
    ensures Spaced(words[..0]) == []
  {
  }

  /** Copies a word and a space behind what the buffer already holds. */
  method PutWord(buf: array<byte>, at: nat, word: Name, ghost before: seq<byte>)
    requires |before| == at && at + |word| + 1 < buf.Length && buf[..] == before + Zeros(buf.Length - at)
    modifies buf
    ensures buf[..] == before + word + [SPACE] + Zeros(buf.Length - at - |word| - 1)
  {
    hide Zeros;
    CopiedBehind(before, word, buf.Length);
    CopiedBehind(before + word, [SPACE], buf.Length);
    assert buf[..at] == buf[..][..at] && buf[at + |word| + 1..] == buf[..][at + |word| + 1..];
    StrCpy(buf, at, word);
    var next := at + |word|;
    assert buf[..next] == buf[..][..next] && buf[next + 2..] == buf[..][next + 2..];
    StrCpy(buf, next, [SPACE]);
  }

  lemma LastSpaceCleared(text: seq<byte>)
    ensures (text + [SPACE] + Zeros(1))[|text| := 0] == text + [0, 0]
  {
  }

  /** The buffer of a write command: the text and two zero bytes. */
  method Compose(words: seq<Name>) returns (buf: array<byte>)
    requires words != []
    ensures fresh(buf) && buf[..] == Joined(words) + [0, 0]
  {
    var size := TotalSize(words);
    buf := new byte[size](_ => 0);
    assert buf[..] == Zeros(size);
    hide Joined, Spaced, TotalLength, Zeros;
    var current := 0;
    SpacedNone(words);
    for k := 0 to |words|
      invariant current == |Spaced(words[..k])| < size
      invariant buf[..] == Spaced(words[..k]) + Zeros(size - current)
    {
      SpacedNext(words, k);
      PutWord(buf, current, words[k], Spaced(words[..k]));
      current := current + |words[k]| + 1;
    }
    assert words[..|words|] == words;
    SpacedIsJoined(words);
    SpacedLength(words, |words|);
    LastSpaceCleared(Joined(words));
    ghost var filled := buf[..];
    buf[current - 1] := 0;
    assert buf[..] == filled[current - 1 := 0];
  }

  /** The shell's write command. */
  method WriteWords(files: FileTable, name: Name, words: seq<Name>) returns (n: int)
    requires files.Valid() && words != []
             && Enabled(View(files.table, files.fs.S()), Write(name, Joined(words) + [0, 0]))
    modifies files`table, files.fs`files, files.fs`owner, files.fs.cache, files.fs.cache.slots, files.fs.freeMap,
      files.fs.freeMap.elems
    ensures files.Valid()
    ensures View(files.table, files.fs.S())
         == Next(old(View(files.table, files.fs.S())), Write(name, Joined(words) + [0, 0]))
    ensures Count(n) == Answer(old(View(files.table, files.fs.S())), Write(name, Joined(words) + [0, 0]))
  {
    hide Inodes.FileSystem.Valid, Rooted, Named, Links, FreeFrom, RootSlots, Cursors, Tabled, Enabled, Next, Joined,
      SystemStays;
    var buf := Compose(words);
    n := DoWrite(files, name, buf);
  }

  predicate Says(c: Cmd, name: Name) {
    c.Write? && c.name == name && |c.buffer| >= 2 && c.buffer[|c.buffer| - 2..] == [0, 0]
  }

  predicate Beside(c: Cmd, name: Name) {
    !c.Defragment? && c.name != name
  }

  /** A session in which one file is only ever written to by shell writes. Other files may
      see any commands, and the volume may be defragmented once the file has bytes. */
  predicate Talk(name: Name, cmds: seq<Cmd>) {
    forall k :: 0 <= k < |cmds| ==>
      Says(cmds[k], name) || Beside(cmds[k], name) || (cmds[k].Defragment? && Spoken(name, cmds[..k]))
  }

  predicate Spoken(name: Name, cmds: seq<Cmd>) {
    exists k :: 0 <= k < |cmds| && Says(cmds[k], name)
  }

  /** All that was written to a file, without the terminating zeros. */
  function Said(name: Name, cmds: seq<Cmd>): seq<byte> {
    if cmds == [] then []
    else
      var last := cmds[|cmds| - 1];
      Said(name, cmds[..|cmds| - 1]) + if Says(last, name) then last.buffer[..|last.buffer| - 2] else []
  }

  /** The file holds the text and two zero bytes, with the position behind the text;
      or it is still as it was created. */
  ghost predicate Holds(d: Desk, name: Name, text: seq<byte>, spoken: bool) {
    && name in d.files && At(d, name) == |text|
    && (if spoken then d.files[name] == text + [0, 0] else d.files[name] == [] && text == [])
  }

  lemma CreateHolds(d: Desk, name: Name)
    requires Enabled(d, Create(name, 0)) && name !in d.cursors
    ensures Holds(Next(d, Create(name, 0)), name, [], false)
  {
    hide Cost, Sectors, EntryCost;
  }

  lemma SaysNext(d: Desk, c: Cmd, name: Name, text: seq<byte>, spoken: bool)
    requires Holds(d, name, text, spoken) && Says(c, name) && Enabled(d, c)
    ensures Holds(Next(d, c), name, text + c.buffer[..|c.buffer| - 2], true)
  {
    hide Need, Cost, Sectors, Splice;
    assert Terminated(c.buffer) == c.buffer;
    SpliceBehindText(d.files[name], text, c.buffer);
  }

  lemma SpliceBehindText(c: seq<byte>, text: seq<byte>, buffer: seq<byte>)
    requires |buffer| >= 2 && buffer[|buffer| - 2..] == [0, 0] && (c == text + [0, 0] || (c == [] && text == []))
    ensures Splice(c, |text|, buffer) == text + buffer[..|buffer| - 2] + [0, 0]
  {
    assert buffer == buffer[..|buffer| - 2] + [0, 0];
  }

  lemma BesideNext(d: Desk, c: Cmd, name: Name, text: seq<byte>, spoken: bool)
    requires Holds(d, name, text, spoken) && Beside(c, name)
    ensures Holds(Next(d, c), name, text, spoken)
  {
    hide Need, Cost, Sectors, Splice, Slice, FileName, Plain;
  }

  lemma DefragmentNext(d: Desk, name: Name, text: seq<byte>)
    requires Holds(d, name, text, true)
    ensures Holds(Next(d, Defragment), name, text, true)
  {
  }

  /** After any such session the file that was created empty holds everything that
      was written to it, and the position is behind it. */
  lemma {:induction false} ShellWrites(d: Desk, name: Name, cmds: seq<Cmd>)
    requires Holds(d, name, [], false) && Talk(name, cmds) && Legal(d, cmds)
    ensures Holds(After(d, cmds), name, Said(name, cmds), Spoken(name, cmds))
  {
    if cmds != [] {
      hide Next, Holds, Says, Enabled;
      var front, last := cmds[..|cmds| - 1], cmds[|cmds| - 1];
      TalkFront(d, name, cmds);
      ShellWrites(d, name, front);
      var before := After(d, front);
      if Says(last, name) {
        SaysNext(before, last, name, Said(name, front), Spoken(name, front));
      } else if Beside(last, name) {
        BesideNext(before, last, name, Said(name, front), Spoken(name, front));
      } else {
        DefragmentNext(before, name, Said(name, front));
      }
    }
  }

  lemma TalkFront(d: Desk, name: Name, cmds: seq<Cmd>)
    requires cmds != [] && Talk(name, cmds) && Legal(d, cmds)
    ensures var front, last := cmds[..|cmds| - 1], cmds[|cmds| - 1];
            && Talk(name, front) && Legal(d, front) && Enabled(After(d, front), last)
            && (Spoken(name, cmds) <==> Spoken(name, front) || Says(last, name))
            && (Says(last, name) || Beside(last, name) || (last.Defragment? && Spoken(name, front)))
  {
    hide Says, Enabled, After;
    var front := cmds[..|cmds| - 1];
    assert forall k :: 0 <= k < |front| ==> front[k] == cmds[k] && front[..k] == cmds[..k];
  }
}
