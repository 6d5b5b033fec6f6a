/**
 The file descriptor table and the reads of the pseudo files behind it
 (syscall/mod.rs). Slot i of the table is descriptor i + 3. File contents are
 ASCII and written as strings.
 */
module Descriptors {
  import opened Wrappers

  datatype Node = ProcVersion | ProcUptime | ProcMeminfo | SysHostname | DevNull | DevZero | DevFull | DevTtyS0

  datatype OpenFile = OpenFile(node: Node, offset: nat)

  type Slots = seq<Option<OpenFile>>

  const NOENT: int := -2
  const INTR: int := -4
  const BADF: int := -9
  const ACCES: int := -13
  const FAULT: int := -14

  function NodeOf(path: string): Option<Node> {
    if path == "/proc/version" then Some(ProcVersion)
    else if path == "/proc/uptime" then Some(ProcUptime)
    else if path == "/proc/meminfo" then Some(ProcMeminfo)
    else if path == "/sys/kernel/hostname" then Some(SysHostname)
    else if path == "/dev/null" then Some(DevNull)
    else if path == "/dev/zero" then Some(DevZero)
    else if path == "/dev/full" then Some(DevFull)
    else if path == "/dev/ttyS0" then Some(DevTtyS0)
    else None
  }

  predicate ReadOnly(node: Node) {
    node in {ProcVersion, ProcUptime, ProcMeminfo, SysHostname}
  }

  /** O_WRONLY or O_RDWR in the two low bits. */
  predicate WantsWrite(flags: int) {
    flags % 4 == 1 || flags % 4 == 2
  }

  /** The content of the files that have a fixed one. */
  function FixedContent(node: Node): Option<string> {
    match node
    case ProcVersion => Some("ComputeKERNEL version 1.0.0 (Rust nightly)\n")
    case ProcMeminfo => Some("MemTotal:         102400 kB\nMemFree:           51200 kB\n")
    case SysHostname => Some("computekernel\n")
    case _ => None
  }

  /** `read_static`: what is left from `offset` on, cut to the buffer. */
  function ReadStatic(offset: nat, content: string, room: nat): string {
    if offset >= |content| then []
    else if room <= |content| - offset then content[offset..offset + room]
    else content[offset..]
  }

  /** What one read returns; the text of /proc/uptime comes from the clock. */
  function ReadNode(file: OpenFile, room: nat, uptime: string): string {
    match file.node
    case ProcUptime => ReadStatic(file.offset, uptime, room)
    case DevNull => []
    case DevTtyS0 => []
    case DevZero => seq(room, _ => '\0')
    case DevFull => seq(room, _ => '\0')
    case _ => ReadStatic(file.offset, FixedContent(file.node).value, room)
  }

  function SaturatingAdd(a: nat, b: nat): nat {
    if a + b < U64_LIMIT then a + b else U64_LIMIT - 1
  }

  // ---- the system calls ----

  /** The first empty slot, or the table length. */
  function LowestFree(t: Slots): (i: nat)
    ensures i <= |t|
    ensures i < |t| ==> t[i].None?
    ensures forall j :: 0 <= j < i ==> t[j].Some?
  {
    if t == [] || t[0].None? then 0 else 1 + LowestFree(t[1..])
  }

  function Fill(t: Slots, file: OpenFile): Slots {
    var i := LowestFree(t);
    if i < |t| then t[i := Some(file)] else t + [Some(file)]
  }

  /** `path` is None when the user pointer gives no valid string of less than 256 bytes. */
  function Open(t: Slots, path: Option<string>, flags: int): (Slots, int) {
    if path.None? then (t, FAULT)
    else
      var node := NodeOf(path.value);
      if node.None? then (t, NOENT)
      else if WantsWrite(flags) && ReadOnly(node.value) then (t, ACCES)
      else (Fill(t, OpenFile(node.value, 0)), LowestFree(t) + 3)
  }

  function Close(t: Slots, fd: int): (Slots, int) {
    if fd < 3 then (t, 0)
    else if fd - 3 < |t| && t[fd - 3].Some? then (t[fd - 3 := None], 0)
    else (t, BADF)
  }

  datatype ReadResult = Data(bytes: string) | BadDescriptor | FromKeyboard | Underflow

  /**
   Descriptor 0 goes to the keyboard, see ReadKeys. For 1 and 2 the subtraction of
   3 underflows; a negative descriptor is a huge index.
   */
  function Read(t: Slots, fd: int, room: nat, uptime: string): (Slots, ReadResult) {
    if room == 0 then (t, Data([]))
    else if fd == 0 then (t, FromKeyboard)
    else if fd == 1 || fd == 2 then (t, Underflow)
    else if fd < 0 || fd - 3 >= |t| || t[fd - 3].None? then (t, BadDescriptor)
    else
      var file := t[fd - 3].value;
      var bytes := ReadNode(file, room, uptime);
      (t[fd - 3 := Some(file.(offset := SaturatingAdd(file.offset, |bytes|)))], Data(bytes))
  }

  // ---- descriptor 0 ----

  /** One turn of the loop that waits for a key: the reader has been killed, there is no key yet, or there is one. */
  datatype Poll = Killed | Nothing | Key(c: char)

  /** What the waiting loop meets, turn by turn, and the keys that can be had after the first one. */
  datatype Keyboard = Keyboard(polls: seq<Poll>, queued: string)

  datatype KeyResult = Interrupted | StillWaiting | Line(bytes: string)

  predicate EndsLine(c: char) {
    c == '\n' || c == '\r'
  }

  /** The first turn that ends the wait, or the number of turns. */
  function Decisive(polls: seq<Poll>): (i: nat)
    ensures i <= |polls|
    ensures i < |polls| ==> !polls[i].Nothing?
    ensures forall j :: 0 <= j < i ==> polls[j].Nothing?
  {
    if polls == [] || !polls[0].Nothing? then 0 else 1 + Decisive(polls[1..])
  }

  /** The keys up to the end of the line, cut to `room`. */
  function LineOf(queued: string, room: nat): string {
    if queued == [] || room == 0 then []
    else if EndsLine(queued[0]) then [queued[0]]
    else [queued[0]] + LineOf(queued[1..], room - 1)
  }

  function ReadKeys(kbd: Keyboard, room: nat): KeyResult
    requires room > 0
  {
    var i := Decisive(kbd.polls);
    if i == |kbd.polls| then StillWaiting
    else
      match kbd.polls[i]
      case Killed => Interrupted
      case Key(c) => Line([c] + LineOf(kbd.queued, room - 1))
  }

  /** What a read of the keyboard gives, by the turns of the wait and the keys. */
  lemma KeysAre(kbd: Keyboard, room: nat)
    requires room > 0
    ensures var r, i := ReadKeys(kbd, room), Decisive(kbd.polls);
      && (r.StillWaiting? <==> forall j :: 0 <= j < |kbd.polls| ==> kbd.polls[j].Nothing?)
      && (r.Interrupted? <==> i < |kbd.polls| && kbd.polls[i].Killed?)
      && (r.Line? ==>
            && i < |kbd.polls| && kbd.polls[i].Key?
            && 1 <= |r.bytes| <= room && r.bytes[0] == kbd.polls[i].c
            && IsLine(r.bytes[1..], kbd.queued, room - 1))
  {
    LineIs(kbd.queued, room - 1);
  }

  /** `line` is the longest run of keys that fits and has its line end, if any, at its end. */
  predicate IsLine(line: string, queued: string, room: nat) {
    && |line| <= room && |line| <= |queued| && line == queued[..|line|]
    && (forall i :: 0 <= i < |line| - 1 ==> !EndsLine(queued[i]))
    && (|line| == room || |line| == |queued| || (|line| > 0 && EndsLine(queued[|line| - 1])))
  }

  /** A line is the longest run of keys that fits and has its line end, if any, at its end. */
  lemma {:induction false} LineIs(queued: string, room: nat)
    ensures IsLine(LineOf(queued, room), queued, room)
    decreases |queued|
  {
    if queued != [] && room > 0 && !EndsLine(queued[0]) {
      LineIs(queued[1..], room - 1);
      var n := |LineOf(queued[1..], room - 1)|;
      assert queued[..n + 1] == [queued[0]] + queued[1..][..n];
    }
  }

  /** The key that ends the wait does not end the line, even if it is a line end: reading goes on behind it. */
  lemma FirstKeyContinues(kbd: Keyboard, room: nat)
    requires var i := Decisive(kbd.polls); i < |kbd.polls| && kbd.polls[i].Key? && EndsLine(kbd.polls[i].c)
    requires kbd.queued != [] && room > 1
    ensures ReadKeys(kbd, room).Line? && |ReadKeys(kbd, room).bytes| > 1
    ensures ReadKeys(kbd, room).bytes[1] == kbd.queued[0]
  {
    assert LineOf(kbd.queued, room - 1) != [];
  }

  // ---- the table as a finite map ----

  predicate IsOpen(t: Slots, fd: int) {
    3 <= fd < |t| + 3 && t[fd - 3].Some?
  }

  function FileOf(t: Slots, fd: int): OpenFile
    requires IsOpen(t, fd)
  {
    t[fd - 3].value
  }

  function AsMap(t: Slots): map<int, OpenFile> {
    map fd: int | 3 <= fd < |t| + 3 && IsOpen(t, fd) :: FileOf(t, fd)
  }

  /** A successful open binds the lowest descriptor from 3 on that is not in use, and nothing else. */
  lemma OpenRefines(t: Slots, path: Option<string>, flags: int)
    ensures var (t', fd) := Open(t, path, flags);
      if fd >= 0 then
        && path.Some? && NodeOf(path.value).Some?
        && AsMap(t') == AsMap(t)[fd := OpenFile(NodeOf(path.value).value, 0)]
        && fd >= 3 && fd !in AsMap(t)
        && (forall k :: 3 <= k < fd ==> k in AsMap(t))
      else t' == t
  {
    var (t', fd) := Open(t, path, flags);
    if fd >= 0 {
      forall k ensures k in AsMap(t') <==> k in AsMap(t) || k == fd {}
    }
  }

  /** It fails exactly for a bad pointer, an unknown path, or a write to a read-only file. */
  lemma OpenFailsIff(t: Slots, path: Option<string>, flags: int)
    ensures var fd := Open(t, path, flags).1;
      && (fd < 0 <==> || path.None? || !KnownPath(path.value)
                      || (flags % 4 in {1, 2} && FixedOrUptime(path.value)))
      && (fd == ACCES <==> path.Some? && flags % 4 in {1, 2} && FixedOrUptime(path.value))
      && (fd == FAULT <==> path.None?)
      && (fd == NOENT <==> path.Some? && !KnownPath(path.value))
  {}

  predicate KnownPath(path: string) {
    FixedOrUptime(path) || path in {"/dev/null", "/dev/zero", "/dev/full", "/dev/ttyS0"}
  }

  predicate FixedOrUptime(path: string) {
    path in {"/proc/version", "/proc/uptime", "/proc/meminfo", "/sys/kernel/hostname"}
  }

  /** Close unbinds its descriptor, reporting whether it was bound; 0 to 2 are silently accepted. */
  lemma CloseRefines(t: Slots, fd: int)
    ensures var (t', r) := Close(t, fd);
      && AsMap(t') == AsMap(t) - {fd}
      && |t'| == |t|
      && (r == 0 <==> fd < 3 || fd in AsMap(t))
      && (r != 0 ==> r == BADF)
  {
    var (t', r) := Close(t, fd);
    forall k ensures k in AsMap(t') <==> k in AsMap(t) && k != fd {}
  }

  // ---- runs ----

  datatype Op =
    | OpOpen(path: Option<string>, flags: int)
    | OpClose(fd: int)
    | OpRead(fd: int, room: nat, uptime: string)

  function Apply(t: Slots, op: Op): Slots {
    match op
    case OpOpen(path, flags) => Open(t, path, flags).0
    case OpClose(fd) => Close(t, fd).0
    case OpRead(fd, room, uptime) => Read(t, fd, room, uptime).0
  }

  /** The table after `ops`, from the empty one. */
  function Run(ops: seq<Op>): Slots {
    if ops == [] then [] else Apply(Run(ops[..|ops| - 1]), ops[|ops| - 1])
  }

  /** What `fd` has returned since its last open, given the same before `op`. */
  function ReturnedBy(t: Slots, op: Op, fd: int, before: string): string {
    match op
    case OpOpen(path, flags) => if Open(t, path, flags).1 == fd then [] else before
    case OpClose(_) => before
    case OpRead(f, room, uptime) =>
      var r := Read(t, f, room, uptime).1;
      if f == fd && r.Data? then before + r.bytes else before
  }

  /** Everything descriptor `fd` has returned since it was last opened. */
  function Returned(ops: seq<Op>, fd: int): string {
    if ops == [] then []
    else ReturnedBy(Run(ops[..|ops| - 1]), ops[|ops| - 1], fd, Returned(ops[..|ops| - 1], fd))
  }

  /** `file` has handed out exactly the first `offset` bytes of its fixed content. */
  predicate InStep(file: OpenFile, returned: string) {
    var content := FixedContent(file.node);
    content.Some? ==> file.offset <= |content.value| && returned == content.value[..file.offset]
  }

  lemma FixedIsShort(node: Node)
    ensures FixedContent(node).Some? ==> |FixedContent(node).value| < 100
  {}

  lemma ReadStaticContinues(content: string, offset: nat, room: nat)
    requires offset <= |content|
    ensures var bytes := ReadStatic(offset, content, room);
      offset + |bytes| <= |content| && content[..offset] + bytes == content[..offset + |bytes|]
  {}

  lemma ReadKeepsStep(file: OpenFile, returned: string, room: nat, uptime: string)
    requires InStep(file, returned)
    ensures var bytes := ReadNode(file, room, uptime);
      InStep(file.(offset := SaturatingAdd(file.offset, |bytes|)), returned + bytes)
  {
    var content := FixedContent(file.node);
    if content.Some? {
      FixedIsShort(file.node);
      ReadStaticContinues(content.value, file.offset, room);
    }
  }

  /** One call keeps every open descriptor in step with what it has returned. */
  lemma StepInStep(t: Slots, op: Op, i: nat, returned: string)
    requires i < |Apply(t, op)| && Apply(t, op)[i].Some?
    requires i < |t| && t[i].Some? ==> InStep(t[i].value, returned)
    ensures InStep(Apply(t, op)[i].value, ReturnedBy(t, op, i + 3, returned))
  {
    match op
    case OpOpen(path, flags) => OpenInStep(t, path, flags, i);
    case OpClose(fd) =>
    case OpRead(fd, room, uptime) => ReadInStep(t, fd, room, uptime, i, returned);
  }

  lemma ReadInStep(t: Slots, fd: int, room: nat, uptime: string, i: nat, returned: string)
    requires i < |t| && t[i].Some? && InStep(t[i].value, returned)
    ensures var (t', r) := Read(t, fd, room, uptime);
      && i < |t'| && t'[i].Some?
      && InStep(t'[i].value, if fd == i + 3 && r.Data? then returned + r.bytes else returned)
  {
    if fd == i + 3 && room > 0 {
      ReadKeepsStep(t[i].value, returned, room, uptime);
    } else {
      assert returned + [] == returned;
    }
  }

  /** An open starts its descriptor at offset 0 and leaves the others alone. */
  lemma OpenInStep(t: Slots, path: Option<string>, flags: int, i: nat)
    ensures var (t', fd) := Open(t, path, flags);
      i < |t'| ==> if fd == i + 3 then t'[i].Some? && t'[i].value.offset == 0 else i < |t| && t'[i] == t[i]
  {}

  /**
   Sequential reads: under any interleaving of opens, closes and reads over all
   descriptors, the bytes one open fixed-content descriptor has returned since it
   was opened are its content up to the stored offset, none skipped or repeated.
   */
  lemma {:induction false} SequentialReads(ops: seq<Op>, i: nat)
    requires i < |Run(ops)| && Run(ops)[i].Some?
    ensures InStep(Run(ops)[i].value, Returned(ops, i + 3))
    decreases |ops|
  {
    var init, op := ops[..|ops| - 1], ops[|ops| - 1];
    var t := Run(init);
    if i < |t| && t[i].Some? {
      SequentialReads(init, i);
    }
    StepInStep(t, op, i, Returned(init, i + 3));
  }

  // ---- how much a read returns ----

  /** The length of what is left of `content` at `offset`, cut to `room`. */
  function Left(content: string, offset: nat, room: nat): nat {
    if offset >= |content| then 0 else Min(room, |content| - offset)
  }

  /**
   A read of an open fixed-content descriptor returns everything that is left and fits,
   from its offset on, advances the offset by that, and changes no other descriptor.
   */
  lemma ReadIs(t: Slots, fd: int, room: nat, uptime: string)
    requires IsOpen(t, fd) && FixedContent(FileOf(t, fd).node).Some? && FileOf(t, fd).offset < U64_LIMIT
    ensures var file := FileOf(t, fd); var content := FixedContent(file.node).value;
      var (t', r) := Read(t, fd, room, uptime);
      && r.Data? && |r.bytes| == Left(content, file.offset, room)
      && (forall k :: 0 <= k < |r.bytes| ==> r.bytes[k] == content[file.offset + k])
      && |t'| == |t| && IsOpen(t', fd)
      && FileOf(t', fd) == OpenFile(file.node, Min(U64_LIMIT - 1, file.offset + |r.bytes|))
      && (forall j :: 0 <= j < |t| && j != fd - 3 ==> t'[j] == t[j])
  {
    var file := FileOf(t, fd);
    FixedRead(file, room, uptime);
    ReadStaticIs(FixedContent(file.node).value, file.offset, room);
  }

  lemma ReadStaticIs(content: string, offset: nat, room: nat)
    ensures var bytes := ReadStatic(offset, content, room);
      |bytes| == Left(content, offset, room) && forall k :: 0 <= k < |bytes| ==> bytes[k] == content[offset + k]
  {}

  lemma FixedRead(file: OpenFile, room: nat, uptime: string)
    requires FixedContent(file.node).Some?
    ensures ReadNode(file, room, uptime) == ReadStatic(file.offset, FixedContent(file.node).value, room)
  {}

  /** The room all reads of `fd` since its open have offered, given the same before `op`. */
  function AskedBy(t: Slots, op: Op, fd: int, before: nat): nat {
    match op
    case OpOpen(path, flags) => if Open(t, path, flags).1 == fd then 0 else before
    case OpClose(_) => before
    case OpRead(f, room, _) => if f == fd then before + room else before
  }

  function Asked(ops: seq<Op>, fd: int): nat {
    if ops == [] then 0
    else AskedBy(Run(ops[..|ops| - 1]), ops[|ops| - 1], fd, Asked(ops[..|ops| - 1], fd))
  }

  /** The offset of a fixed-content file is what has been asked for, up to its length. */
  predicate UpToDate(file: OpenFile, asked: nat) {
    var content := FixedContent(file.node);
    content.Some? ==> file.offset == Min(asked, |content.value|)
  }

  lemma StepUpToDate(t: Slots, op: Op, i: nat, asked: nat)
    requires i < |Apply(t, op)| && Apply(t, op)[i].Some?
    requires i < |t| && t[i].Some? ==> UpToDate(t[i].value, asked)
    ensures UpToDate(Apply(t, op)[i].value, AskedBy(t, op, i + 3, asked))
  {
    match op
    case OpOpen(path, flags) => OpenInStep(t, path, flags, i);
    case OpClose(fd) =>
    case OpRead(fd, room, uptime) => ReadUpToDate(t, fd, room, uptime, i, asked);
  }

  lemma ReadUpToDate(t: Slots, fd: int, room: nat, uptime: string, i: nat, asked: nat)
    requires i < |t| && t[i].Some? && UpToDate(t[i].value, asked)
    ensures var t' := Read(t, fd, room, uptime).0;
      i < |t'| && t'[i].Some? && UpToDate(t'[i].value, if fd == i + 3 then asked + room else asked)
  {
    if fd == i + 3 && FixedContent(t[i].value.node).Some? {
      FixedIsShort(t[i].value.node);
      ReadIs(t, fd, room, uptime);
    } else {
      OthersUntouched(t, fd, room, uptime, i);
    }
  }

  lemma OthersUntouched(t: Slots, fd: int, room: nat, uptime: string, i: nat)
    requires i < |t| && t[i].Some?
    ensures var t' := Read(t, fd, room, uptime).0;
      && |t'| == |t| && t'[i].Some? && t'[i].value.node == t[i].value.node && (fd != i + 3 ==> t'[i] == t[i])
  {}

  lemma {:induction false} OffsetIsAsked(ops: seq<Op>, i: nat)
    requires i < |Run(ops)| && Run(ops)[i].Some?
    ensures UpToDate(Run(ops)[i].value, Asked(ops, i + 3))
    decreases |ops|
  {
    var init, op := ops[..|ops| - 1], ops[|ops| - 1];
    var t := Run(init);
    if i < |t| && t[i].Some? {
      OffsetIsAsked(init, i);
    }
    StepUpToDate(t, op, i, Asked(init, i + 3));
  }

  /**
   Reads make progress: under any interleaving, an open fixed-content descriptor has
   returned the whole content once the reads since its open have offered room for it,
   and before that exactly as many bytes as they have offered.
   */
  lemma ReadsComplete(ops: seq<Op>, i: nat)
    requires i < |Run(ops)| && Run(ops)[i].Some? && FixedContent(Run(ops)[i].value.node).Some?
    ensures var content := FixedContent(Run(ops)[i].value.node).value;
      Returned(ops, i + 3) == content[..Min(Asked(ops, i + 3), |content|)]
  {
    SequentialReads(ops, i);
    OffsetIsAsked(ops, i);
  }

  // ---- by path ----

  /** The text behind a path; None for the two devices that give zeros and for unknown paths. */
  function TextAt(path: string, uptime: string): Option<string> {
    if path == "/proc/version" then Some("ComputeKERNEL version 1.0.0 (Rust nightly)\n")
    else if path == "/proc/meminfo" then Some("MemTotal:         102400 kB\nMemFree:           51200 kB\n")
    else if path == "/sys/kernel/hostname" then Some("computekernel\n")
    else if path == "/proc/uptime" then Some(uptime)
    else if path == "/dev/null" || path == "/dev/ttyS0" then Some("")
    else None
  }

  /** What opening a path and reading once returns: the front of its text, or zeros. */
  lemma OpenThenRead(t: Slots, path: string, flags: int, room: nat, uptime: string)
    requires Open(t, Some(path), flags).1 >= 0
    ensures var (t', fd) := Open(t, Some(path), flags); var text := TextAt(path, uptime);
      && (text.Some? ==> Read(t', fd, room, uptime).1 == Data(text.value[..Min(room, |text.value|)]))
      && (text.None? ==> path in {"/dev/zero", "/dev/full"}
                         && Read(t', fd, room, uptime).1 == Data(seq(room, _ => '\0')))
  {
    var (t', fd) := Open(t, Some(path), flags);
    OpenedFile(t, path, flags);
    ReadOfNode(NodeOf(path).value, path, room, uptime);
    assert room == 0 ==> seq(room, _ => '\0') == [];
  }

  lemma OpenedFile(t: Slots, path: string, flags: int)
    requires Open(t, Some(path), flags).1 >= 0
    ensures var (t', fd) := Open(t, Some(path), flags);
      NodeOf(path).Some? && IsOpen(t', fd) && FileOf(t', fd) == OpenFile(NodeOf(path).value, 0)
  {}

  lemma ReadOfNode(node: Node, path: string, room: nat, uptime: string)
    requires NodeOf(path) == Some(node)
    ensures var text := TextAt(path, uptime); var bytes := ReadNode(OpenFile(node, 0), room, uptime);
      && (text.Some? ==> bytes == text.value[..Min(room, |text.value|)])
      && (text.None? ==> path in {"/dev/zero", "/dev/full"} && bytes == seq(room, _ => '\0'))
  {}

  // ---- the length of the table ----

  function OpenCount(t: Slots): nat {
    if t == [] then 0 else OpenCount(t[..|t| - 1]) + (if t[|t| - 1].Some? then 1 else 0)
  }

  /** The largest number of descriptors open at the same time so far. */
  function MaxOpen(ops: seq<Op>): nat {
    if ops == [] then 0
    else
      var before, now := MaxOpen(ops[..|ops| - 1]), OpenCount(Run(ops));
      if now > before then now else before
  }

  lemma {:induction false} OpenCountBound(t: Slots)
    ensures OpenCount(t) <= |t|
    ensures OpenCount(t) == |t| <==> forall i :: 0 <= i < |t| ==> t[i].Some?
    decreases |t|
  {
    if t != [] {
      var init := t[..|t| - 1];
      OpenCountBound(init);
      assert forall i :: 0 <= i < |init| ==> init[i] == t[i];
    }
  }

  /** The table is exactly as long as the most descriptors that were ever open at once. */
  lemma {:induction false} LengthIsMaxOpen(ops: seq<Op>)
    ensures |Run(ops)| == MaxOpen(ops)
    decreases |ops|
  {
    if ops != [] {
      var init, op := ops[..|ops| - 1], ops[|ops| - 1];
      LengthIsMaxOpen(init);
      OpenCountBound(Run(ops));
      GrowsWhenFull(Run(init), op);
    }
  }

  /** A call makes the table longer only by one, and only if every slot is then in use. */
  lemma GrowsWhenFull(t: Slots, op: Op)
    ensures var t' := Apply(t, op);
      |t'| == |t| || (|t'| == |t| + 1 && forall j :: 0 <= j < |t'| ==> t'[j].Some?)
  {}

  // ---- the imperative form ----

  /** How a call ends: with a value, in a panic, or not yet. */
  datatype SysResult = Returns(n: int) | Panics | Waits

  /** `after` is `before` with `bytes` written to its front. */
  predicate Front(after: string, bytes: string, before: string) {
    |bytes| <= |before| && after == bytes + before[|bytes|..]
  }

  class FdTable {
    var slots: seq<Option<OpenFile>>

    constructor ()
      ensures slots == Run([])
    {
      slots := [];
    }

    method SysOpen(path: Option<string>, flags: int) returns (fd: int)
      modifies this
      ensures (slots, fd) == Open(old(slots), path, flags)
    {
      if path.None? {
        return FAULT;
      }
      var node := NodeOf(path.value);
      if node.None? {
        return NOENT;
      }
      var access := flags % 4;
      if access == 1 || access == 2 {
        match node.value {
          case ProcVersion => return ACCES;
          case ProcUptime => return ACCES;
          case ProcMeminfo => return ACCES;
          case SysHostname => return ACCES;
          case _ =>
        }
      }
      var file := OpenFile(node.value, 0);
      var i := 0;
      while i < |slots|
        invariant i <= |slots| && slots == old(slots)
        invariant forall j :: 0 <= j < i ==> slots[j].Some?
      {
        if slots[i].None? {
          slots := slots[i := Some(file)];
          return i + 3;
        }
        i := i + 1;
      }
      slots := slots + [Some(file)];
      fd := |slots| - 1 + 3;
    }

    method SysClose(fd: int) returns (r: int)
      modifies this
      ensures (slots, r) == Close(old(slots), fd)
    {
      if fd < 3 {
        return 0;
      }
      if fd - 3 >= |slots| {
        return BADF;
      }
      var taken := slots[fd - 3];
      slots := slots[fd - 3 := None];
      assert taken.None? ==> slots == old(slots);
      r := if taken.Some? then 0 else BADF;
    }

    /** `read_static`: copies to the front of the buffer. */
    static method CopyStatic(buf: array<char>, offset: nat, content: string) returns (n: nat)
      modifies buf
      ensures var bytes := ReadStatic(offset, content, buf.Length);
        n == |bytes| && n <= buf.Length && buf[..] == bytes + old(buf[..])[n..]
    {
      if offset >= |content| {
        return 0;
      }
      var available := content[offset..];
      n := if |available| <= buf.Length then |available| else buf.Length;
      forall k | 0 <= k < n {
        buf[k] := available[k];
      }
      assert available[..n] == ReadStatic(offset, content, buf.Length);
    }

    /** The part of `sys_read` for descriptor 0: wait for a key, then take what is left of the line. */
    static method ReadKeyboard(buf: array<char>, kbd: Keyboard) returns (r: SysResult)
      requires buf.Length > 0
      modifies buf
      ensures match ReadKeys(kbd, buf.Length)
              case Interrupted => r == Returns(INTR) && buf[..] == old(buf[..])
              case StillWaiting => r == Waits && buf[..] == old(buf[..])
              case Line(bytes) => r == Returns(|bytes|) && Front(buf[..], bytes, old(buf[..]))
    {
      var i := 0;
      while i < |kbd.polls| && kbd.polls[i].Nothing?
        invariant i <= |kbd.polls|
        invariant forall j :: 0 <= j < i ==> kbd.polls[j].Nothing?
      {
        i := i + 1;
      }
      if i == |kbd.polls| {
        return Waits;
      }
      if kbd.polls[i].Killed? {
        return Returns(INTR);
      }
      buf[0] := kbd.polls[i].c;
      var n := DrainLine(buf, kbd.queued);
      r := Returns(n);
    }

    /** The draining loop: keys go behind the first one until the line or the buffer ends. */
    static method DrainLine(buf: array<char>, queued: string) returns (n: nat)
      requires buf.Length > 0
      modifies buf
      ensures var line := LineOf(queued, buf.Length - 1);
        n == 1 + |line| && Front(buf[..], [old(buf[0])] + line, old(buf[..]))
    {
      ghost var line := LineOf(queued, buf.Length - 1);
      LineIs(queued, buf.Length - 1);
      n := 1;
      while n < buf.Length && n - 1 < |queued|
        invariant 1 <= n <= 1 + |line|
        invariant forall k :: 0 <= k < buf.Length ==>
                                buf[k] == if 1 <= k < n then queued[k - 1] else old(buf[k])
        invariant n > 1 ==> !EndsLine(queued[n - 2])
      {
        var c := queued[n - 1];
        buf[n] := c;
        n := n + 1;
        if EndsLine(c) {
          break;
        }
      }
    }

    /** `sys_read` once the buffer is known to be there. */
    method ReadInto(fd: int, buf: array<char>, uptime: string, kbd: Keyboard) returns (r: SysResult)
      modifies this, buf
      ensures slots == Read(old(slots), fd, buf.Length, uptime).0
      ensures match Read(old(slots), fd, buf.Length, uptime).1
              case Data(bytes) => r == Returns(|bytes|) && Front(buf[..], bytes, old(buf[..]))
              case BadDescriptor => r == Returns(BADF) && buf[..] == old(buf[..])
              case Underflow => r == Panics && buf[..] == old(buf[..])
              case FromKeyboard =>
                match ReadKeys(kbd, buf.Length)
                case Interrupted => r == Returns(INTR) && buf[..] == old(buf[..])
                case StillWaiting => r == Waits && buf[..] == old(buf[..])
                case Line(bytes) => r == Returns(|bytes|) && Front(buf[..], bytes, old(buf[..]))
    {
      if buf.Length == 0 {
        return Returns(0);
      }
      if fd == 0 {
        r := ReadKeyboard(buf, kbd);
        return;
      }
      if fd == 1 || fd == 2 {
        return Panics;
      }
      if fd < 0 || fd - 3 >= |slots| || slots[fd - 3].None? {
        return Returns(BADF);
      }
      var file := slots[fd - 3].value;
      var n := 0;
      match file.node {
        case ProcUptime => n := CopyStatic(buf, file.offset, uptime);
        case DevNull => n := 0;
        case DevTtyS0 => n := 0;
        case DevZero => n := Zero(buf);
        case DevFull => n := Zero(buf);
        case _ => n := CopyStatic(buf, file.offset, FixedContent(file.node).value);
      }
      slots := slots[fd - 3 := Some(file.(offset := SaturatingAdd(file.offset, n)))];
      r := Returns(n);
    }

    /** `sys_read`: `count` bytes to `buf`, which the caller may have left null. */
    method SysRead(fd: int, buf: array?<char>, count: nat, uptime: string, kbd: Keyboard) returns (r: SysResult)
      requires buf != null ==> buf.Length == count
      modifies this, buf
      ensures count == 0 ==> r == Returns(0) && slots == old(slots)
      ensures count > 0 && buf == null ==> r == Returns(FAULT) && slots == old(slots)
      ensures buf != null ==>
        && slots == Read(old(slots), fd, count, uptime).0
        && match Read(old(slots), fd, count, uptime).1
           case Data(bytes) => r == Returns(|bytes|) && Front(buf[..], bytes, old(buf[..]))
           case BadDescriptor => r == Returns(BADF) && buf[..] == old(buf[..])
           case Underflow => r == Panics && buf[..] == old(buf[..])
           case FromKeyboard =>
             match ReadKeys(kbd, count)
             case Interrupted => r == Returns(INTR) && buf[..] == old(buf[..])
             case StillWaiting => r == Waits && buf[..] == old(buf[..])
             case Line(bytes) => r == Returns(|bytes|) && Front(buf[..], bytes, old(buf[..]))
    {
      if count == 0 {
        return Returns(0);
      }
      if buf == null {
        return Returns(FAULT);
      }
      r := ReadInto(fd, buf, uptime, kbd);
    }

    /** One read of a run, into a buffer of its own; what it adds to the text `fd` has returned. */
    method PerformRead(op: Op, fd: int, before: string) returns (text: string)
      requires op.OpRead?
      modifies this
      ensures slots == Apply(old(slots), op) && text == ReturnedBy(old(slots), op, fd, before)
    {
      var buf := new char[op.room];
      var r := SysRead(op.fd, buf, op.room, op.uptime, Keyboard([], []));
      text := before;
      if op.fd == fd && r.Returns? && r.n >= 0 {
        text := before + buf[..r.n];
      }
    }

    /**
     Any sequence of calls on an empty table, and what one descriptor has returned since
     it was opened: the table is that of the run, and both results on runs hold of it.
     */
    method Perform(ops: seq<Op>, fd: int) returns (text: string)
      requires slots == []
      modifies this
      ensures slots == Run(ops) && text == Returned(ops, fd) && |slots| == MaxOpen(ops)
      ensures IsOpen(slots, fd) && FixedContent(FileOf(slots, fd).node).Some? ==>
        var content := FixedContent(FileOf(slots, fd).node).value; text == content[..Min(Asked(ops, fd), |content|)]
    {
      text := [];
      var i := 0;
      while i < |ops|
        invariant i <= |ops| && slots == Run(ops[..i]) && text == Returned(ops[..i], fd)
      {
        assert ops[..i + 1][..i] == ops[..i];
        match ops[i] {
          case OpOpen(path, flags) =>
            var got := SysOpen(path, flags);
            text := if got == fd then [] else text;
          case OpClose(f) =>
            var r := SysClose(f);
          case OpRead(_, _, _) =>
            text := PerformRead(ops[i], fd, text);
        }
        i := i + 1;
      }
      assert ops[..i] == ops;
      LengthIsMaxOpen(ops);
      if IsOpen(slots, fd) && FixedContent(FileOf(slots, fd).node).Some? {
        ReadsComplete(ops, fd - 3);
      }
    }

    static method Zero(buf: array<char>) returns (n: nat)
      modifies buf
      ensures n == buf.Length && buf[..] == seq(n, _ => '\0')
    {
      forall k | 0 <= k < buf.Length {
        buf[k] := '\0';
      }
      n := buf.Length;
    }
  }
}
