/**
 Runs of file operations, as a client sees them: every open file is an array of bytes, which
 all descriptors on it share, and which has nothing to do with the other files.
 */
module FileRuns {
  import opened FlashBytes
  import opened MicroLog
  import opened FileContent
  import opened FileWrites

  /** A descriptor. If `blank`, seeking beyond the end adds zeros. */
  datatype Handle =
    | Closed
    | Open(name: Bytes, data: Bytes, offset: nat, blank: bool, read: bool, write: bool)

  /** Calls with what they return. A seek may extend the file by `fill`; `done` is what a
      write has written. */
  datatype Call =
    | CallOpen(name: Bytes, read: bool, write: bool, append: bool, fd: int)
    | CallSeek(fd: int, target: int, r: int, fill: Bytes)
    | CallRead(fd: int, size: nat, r: int, got: Bytes)
    | CallWrite(fd: int, buf: Bytes, r: int, done: Bytes)
    | CallClose(fd: int)
    | CallRemove(name: Bytes, r: int)

  predicate IsOpen(s: seq<Handle>, k: int) {
    0 <= k < |s| && s[k].Open?
  }

  predicate OpenOn(s: seq<Handle>, k: int, name: Bytes) {
    IsOpen(s, k) && s[k].name == name
  }

  ghost predicate SameFile(s: seq<Handle>, j: int, k: int) {
    IsOpen(s, j) && OpenOn(s, k, s[j].name) ==> s[k].data == s[j].data
  }

  /** Descriptors on one file see the same bytes, each at an offset within them. */
  ghost predicate Consistent(s: seq<Handle>) {
    && (forall j: int, k: int {:trigger SameFile(s, j, k)} :: SameFile(s, j, k))
    && (forall k: int {:trigger IsOpen(s, k)} :: IsOpen(s, k) ==> s[k].offset <= |s[k].data|)
  }

  // ----- Steps -----

  /** The bytes of a file after a call. */
  function NewData(s: seq<Handle>, c: Call, name: Bytes, data: Bytes): Bytes {
    match c
    case CallWrite(fd, _, _, done) =>
      if OpenOn(s, fd, name) && s[fd].offset <= |data| then Splice(data, s[fd].offset, done) else data
    case CallSeek(fd, _, _, fill) => if OpenOn(s, fd, name) then data + fill else data
    case _ => data
  }

  /** Descriptor k is on the same file after the call, and now at an offset o. */
  ghost predicate Follows(s: seq<Handle>, c: Call, s': seq<Handle>, k: int, o: nat) {
    && IsOpen(s, k) && IsOpen(s', k)
    && s'[k] == Open(s[k].name, NewData(s, c, s[k].name, s[k].data), o, s'[k].blank, s[k].read, s[k].write)
    && (s[k].blank ==> s'[k].blank)
  }

  ghost predicate Rests(s: seq<Handle>, c: Call, s': seq<Handle>, k: int) {
    0 <= k < |s| && k < |s'| && if s[k].Closed? then s'[k].Closed? else Follows(s, c, s', k, s[k].offset)
  }

  ghost predicate RestsBut(s: seq<Handle>, c: Call, s': seq<Handle>, fd: int) {
    |s'| == |s| && forall k: int {:trigger Rests(s, c, s', k)} :: 0 <= k < |s| && k != fd ==> Rests(s, c, s', k)
  }

  function Longer(x: int, y: int): int {
    if x < y then y - x else 0
  }

  /** A call takes s to s'. */
  ghost predicate Step(s: seq<Handle>, c: Call, s': seq<Handle>) {
    match c
    case CallOpen(name, read, write, append, fd) =>
      RestsBut(s, c, s', fd) && (fd != -1 ==> Opened(s, s', name, read, write, append, fd))
    case CallSeek(fd, target, r, fill) =>
      if r < 0 then fill == [] && RestsBut(s, c, s', -1)
      else
        && RestsBut(s, c, s', fd) && r == target && Follows(s, c, s', fd, r)
        && |fill| == Longer(|s[fd].data|, r)
        && forall k: int {:trigger OpenOn(s, k, s[fd].name)} ::
             OpenOn(s, k, s[fd].name) && s[k].blank ==> fill == ZeroBytes(|fill|)
    case CallRead(fd, size, r, got) =>
      if r < 0 then !(IsOpen(s, fd) && s[fd].read) && RestsBut(s, c, s', -1)
      else
        && RestsBut(s, c, s', fd) && IsOpen(s, fd) && s[fd].read && s[fd].offset <= |s[fd].data|
        && r == Min(size, |s[fd].data| - s[fd].offset) && got == s[fd].data[s[fd].offset..s[fd].offset + r]
        && Follows(s, c, s', fd, s[fd].offset + r)
    case CallWrite(fd, buf, r, done) =>
      if !(IsOpen(s, fd) && s[fd].write) then r == -1 && done == [] && RestsBut(s, c, s', -1)
      else
        && RestsBut(s, c, s', fd) && (r == -1 || r == |buf|)
        && (if r == -1 then done == [] else done == buf || PartOf(done, buf))
        && Follows(s, c, s', fd, s[fd].offset + |done|)
    case CallClose(fd) =>
      && RestsBut(s, c, s', fd) && (IsOpen(s, fd) ==> s'[fd].Closed?)
      && (0 <= fd < |s| && s[fd].Closed? ==> s'[fd].Closed?)
    case CallRemove(name, r) =>
      |s'| == |s| && forall k: int {:trigger Rests(s, c, s', k)} :: 0 <= k < |s| ==>
        if r == 0 && OpenOn(s, k, name) then s'[k].Closed? else Rests(s, c, s', k)
  }

  /** A free descriptor is opened. If the file is open already, the bytes are those that the
      other descriptors see. */
  ghost predicate Opened(s: seq<Handle>, s': seq<Handle>, name: Bytes, read: bool, write: bool, append: bool, fd: int) {
    && 0 <= fd < |s| == |s'| && s[fd].Closed? && IsOpen(s', fd)
    && s'[fd] == Open(name, s'[fd].data, if append then |s'[fd].data| else 0, s'[fd].blank, read, write)
    && forall k: int {:trigger OpenOn(s, k, name)} :: OpenOn(s, k, name) ==> s'[fd].data == s[k].data
  }

  lemma NewDataLonger(s: seq<Handle>, c: Call, name: Bytes, data: Bytes)
    ensures |data| <= |NewData(s, c, name, data)|
  {
  }

  /** A descriptor that stays open stays on its file. */
  lemma StepData(s: seq<Handle>, c: Call, s': seq<Handle>, k: int)
    requires Step(s, c, s') && IsOpen(s, k) && IsOpen(s', k)
    ensures s'[k].name == s[k].name && s'[k].data == NewData(s, c, s[k].name, s[k].data) && (s[k].blank ==> s'[k].blank)
  {
    assert Rests(s, c, s', k) || Follows(s, c, s', k, s'[k].offset);
  }

  /** Where a descriptor comes from. */
  lemma StepOrigin(s: seq<Handle>, c: Call, s': seq<Handle>, k: int)
    requires Step(s, c, s') && IsOpen(s', k)
    ensures IsOpen(s, k) || (c.CallOpen? && c.fd == k && Opened(s, s', c.name, c.read, c.write, c.append, k))
  {
    assert 0 <= k < |s| && !Rests(s, c, s', k) ==> (c.CallOpen? && c.fd == k) || IsOpen(s, k);
  }

  lemma StepOffset(s: seq<Handle>, c: Call, s': seq<Handle>, k: int)
    requires Consistent(s) && Step(s, c, s') && IsOpen(s', k)
    ensures s'[k].offset <= |s'[k].data|
  {
    StepOrigin(s, c, s', k);
    if IsOpen(s, k) {
      NewDataLonger(s, c, s[k].name, s[k].data);
      assert Rests(s, c, s', k) || Follows(s, c, s', k, s'[k].offset);
    }
  }

  /** Descriptors on one file go on seeing the same bytes. */
  lemma StepConsistent(s: seq<Handle>, c: Call, s': seq<Handle>)
    requires Consistent(s) && Step(s, c, s')
    ensures Consistent(s')
  {
    forall j: int, k: int ensures SameFile(s', j, k) {
      if IsOpen(s', j) && OpenOn(s', k, s'[j].name) { StepSame(s, c, s', j, k); }
    }
    forall k: int | IsOpen(s', k) ensures s'[k].offset <= |s'[k].data| { StepOffset(s, c, s', k); }
  }

  lemma StepSame(s: seq<Handle>, c: Call, s': seq<Handle>, j: int, k: int)
    requires Consistent(s) && Step(s, c, s') && IsOpen(s', j) && OpenOn(s', k, s'[j].name)
    ensures s'[k].data == s'[j].data
  {
    StepOrigin(s, c, s', j);
    StepOrigin(s, c, s', k);
    assert SameFile(s, j, k);
    if IsOpen(s, j) { StepData(s, c, s', j); assert OpenOn(s, j, s'[j].name); }
    if IsOpen(s, k) { StepData(s, c, s', k); assert OpenOn(s, k, s'[k].name); }
  }

  // ----- Runs -----

  /** States and the calls between them; at first no descriptor is open. */
  ghost predicate Run(states: seq<seq<Handle>>, calls: seq<Call>) {
    && |states| == |calls| + 1 && (forall k: int {:trigger IsOpen(states[0], k)} :: !IsOpen(states[0], k))
    && forall m {:trigger calls[m]} :: 0 <= m < |calls| ==> Step(states[m], calls[m], states[m + 1])
  }

  lemma {:induction false} RunConsistent(states: seq<seq<Handle>>, calls: seq<Call>, m: nat)
    requires Run(states, calls) && m < |states|
    ensures Consistent(states[m])
  {
    if m == 0 {
      forall j: int, k: int ensures SameFile(states[0], j, k) { }
    } else {
      RunConsistent(states, calls, m - 1);
      assert Step(states[m - 1], calls[m - 1], states[m]);
      StepConsistent(states[m - 1], calls[m - 1], states[m]);
    }
  }

  /** A call that writes byte x of a file. */
  predicate Covers(s: seq<Handle>, c: Call, name: Bytes, x: nat) {
    c.CallWrite? && OpenOn(s, c.fd, name) && s[c.fd].offset <= x < s[c.fd].offset + |c.done|
  }

  /** The last call from i on and before j that writes byte x of a file, or -1. */
  function LastWrite(states: seq<seq<Handle>>, calls: seq<Call>, i: nat, j: nat, name: Bytes, x: nat): (m: int)
    requires j <= |calls| < |states|
    ensures m == -1 || (i <= m < j && Covers(states[m], calls[m], name, x))
    ensures forall n :: i <= n < j && n > m ==> !Covers(states[n], calls[n], name, x)
    decreases j
  {
    if j <= i then -1
    else if Covers(states[j - 1], calls[j - 1], name, x) then j - 1 else LastWrite(states, calls, i, j - 1, name, x)
  }

  /** Descriptor k stays open from state i to state j. */
  predicate StaysOpen(states: seq<seq<Handle>>, i: nat, j: nat, k: int) {
    && i <= j < |states| && IsOpen(states[i], k) && IsOpen(states[j], k)
    && forall m {:trigger IsOpen(states[m], k)} :: i <= m <= j ==> IsOpen(states[m], k)
  }

  /** A byte of the array after a call. */
  lemma NewByte(s: seq<Handle>, c: Call, s': seq<Handle>, k: int, x: nat)
    requires Consistent(s) && Step(s, c, s') && IsOpen(s, k) && IsOpen(s', k) && x < |s'[k].data|
    ensures if Covers(s, c, s[k].name, x) then s'[k].data[x] == c.done[x - s[c.fd].offset]
            else if x < |s[k].data| then s'[k].data[x] == s[k].data[x]
            else s[k].blank ==> s'[k].data[x] == 0
  {
    StepData(s, c, s', k);
    if c.CallWrite? && OpenOn(s, c.fd, s[k].name) { assert SameFile(s, k, c.fd); }
    if c.CallSeek? && OpenOn(s, c.fd, s[k].name) {
      assert SameFile(s, k, c.fd);
      assert OpenOn(s, k, s[c.fd].name);
    }
  }

  /** The theorem about runs: while a descriptor is open, each byte of its file is the one
      that the last write there has put there, through whichever descriptor; where nothing
      was written since, it is the one that was there. Where a seek has extended the file, it
      is zero, if the extent was blank. */
  lemma {:induction false} RunByte(states: seq<seq<Handle>>, calls: seq<Call>, i: nat, j: nat, k: int, x: nat)
    requires Run(states, calls) && StaysOpen(states, i, j, k) && x < |states[j][k].data|
    ensures states[j][k].name == states[i][k].name && |states[i][k].data| <= |states[j][k].data|
    ensures states[i][k].blank ==> states[j][k].blank
    ensures var m := LastWrite(states, calls, i, j, states[i][k].name, x);
            if m >= 0 then states[j][k].data[x] == calls[m].done[x - states[m][calls[m].fd].offset]
            else if x < |states[i][k].data| then states[j][k].data[x] == states[i][k].data[x]
            else states[i][k].blank ==> states[j][k].data[x] == 0
    decreases j
  {
    if i < j {
      var s, c := states[j - 1], calls[j - 1];
      assert IsOpen(s, k) && IsOpen(states[j], k) && Step(s, c, states[j]);
      RunConsistent(states, calls, j - 1);
      StepData(s, c, states[j], k);
      NewDataLonger(s, c, s[k].name, s[k].data);
      NewByte(s, c, states[j], k, x);
      RunKept(states, calls, i, j - 1, k);
      if x < |s[k].data| { RunByte(states, calls, i, j - 1, k, x); } else { NoneBehind(states, calls, i, j - 1, k, x); }
    }
  }

  lemma {:induction false} RunKept(states: seq<seq<Handle>>, calls: seq<Call>, i: nat, j: nat, k: int)
    requires Run(states, calls) && StaysOpen(states, i, j, k)
    ensures states[j][k].name == states[i][k].name && |states[i][k].data| <= |states[j][k].data|
    ensures states[i][k].blank ==> states[j][k].blank
    decreases j
  {
    if i < j {
      RunKept(states, calls, i, j - 1, k);
      assert IsOpen(states[j - 1], k) && IsOpen(states[j], k) && Step(states[j - 1], calls[j - 1], states[j]);
      StepData(states[j - 1], calls[j - 1], states[j], k);
      NewDataLonger(states[j - 1], calls[j - 1], states[j - 1][k].name, states[j - 1][k].data);
    }
  }

  /** No write has reached a byte behind the end. */
  lemma {:induction false} NoneBehind(states: seq<seq<Handle>>, calls: seq<Call>, i: nat, j: nat, k: int, x: nat)
    requires Run(states, calls) && StaysOpen(states, i, j, k) && |states[j][k].data| <= x
    ensures LastWrite(states, calls, i, j, states[i][k].name, x) == -1
    decreases j
  {
    if i < j {
      var s, c := states[j - 1], calls[j - 1];
      assert IsOpen(s, k) && IsOpen(states[j], k) && Step(s, c, states[j]);
      RunConsistent(states, calls, j - 1);
      StepData(s, c, states[j], k);
      RunKept(states, calls, i, j - 1, k);
      NewDataLonger(s, c, s[k].name, s[k].data);
      NoneBehind(states, calls, i, j - 1, k, x);
      assert c.CallWrite? && OpenOn(s, c.fd, s[k].name) ==> SameFile(s, k, c.fd);
    }
  }

  /** What a read returns at the end of a run: the bytes last written. */
  lemma RunRead(states: seq<seq<Handle>>, calls: seq<Call>, i: nat, j: nat, y: nat)
    requires Run(states, calls) && i <= j < |calls| && calls[j].CallRead? && StaysOpen(states, i, j, calls[j].fd)
    requires y < calls[j].r
    ensures var k, x := calls[j].fd, states[j][calls[j].fd].offset + y;
            var m := LastWrite(states, calls, i, j, states[i][k].name, x);
            && y < |calls[j].got|
            && if m >= 0 then calls[j].got[y] == calls[m].done[x - states[m][calls[m].fd].offset]
               else if x < |states[i][k].data| then calls[j].got[y] == states[i][k].data[x]
               else states[i][k].blank ==> calls[j].got[y] == 0
  {
    assert Step(states[j], calls[j], states[j + 1]);
    assert IsOpen(states[j], calls[j].fd);
    RunByte(states, calls, i, j, calls[j].fd, states[j][calls[j].fd].offset + y);
  }

  // ----- Files that are closed and opened again -----

  /** Byte x of a file, with zeros behind. */
  function At0(w: Bytes, x: nat): byte {
    if x < |w| then w[x] else 0
  }

  predicate WritesOn(s: seq<Handle>, c: Call, name: Bytes) {
    c.CallWrite? && OpenOn(s, c.fd, name)
  }

  /** Byte x of a file before and after a call: the one written there, or the one that was
      there. A byte behind the end may become zero when the file is written to. */
  predicate ByteStep(s: seq<Handle>, c: Call, name: Bytes, x: nat, y: byte, y': byte) {
    if Covers(s, c, name, x) then y' == c.done[x - s[c.fd].offset]
    else y' == y || (WritesOn(s, c, name) && |s[c.fd].data| <= x && y' == 0)
  }

  /** A call changes only the file it is on, makes only the file it opens, empty, and takes away
      only the file it removes. */
  ghost predicate NameStep(s: seq<Handle>, d: map<Bytes, Bytes>, c: Call, d': map<Bytes, Bytes>, name: Bytes) {
    if c.CallRemove? && c.r == 0 && c.name == name then name !in d'
    else if name in d then
      && name in d'
      && forall x: nat {:trigger At0(d'[name], x)} :: ByteStep(s, c, name, x, At0(d[name], x), At0(d'[name], x))
    else
      name in d' ==> c.CallOpen? && c.name == name && forall x: nat {:trigger At0(d'[name], x)} :: At0(d'[name], x) == 0
  }

  ghost predicate DiskStep(s: seq<Handle>, d: map<Bytes, Bytes>, c: Call, d': map<Bytes, Bytes>) {
    forall name: Bytes {:trigger NameStep(s, d, c, d', name)} :: NameStep(s, d, c, d', name)
  }

  ghost predicate HandleBacked(s: seq<Handle>, d: map<Bytes, Bytes>, k: int) {
    IsOpen(s, k) ==>
      && s[k].name in d
      && forall x: nat {:trigger At0(d[s[k].name], x)} :: x < |s[k].data| ==> s[k].data[x] == At0(d[s[k].name], x)
  }

  /** What descriptors see is what is on the device. */
  ghost predicate Backed(s: seq<Handle>, d: map<Bytes, Bytes>) {
    forall k: int {:trigger HandleBacked(s, d, k)} :: HandleBacked(s, d, k)
  }

  /** A run, with the files on the device. */
  ghost predicate DiskRun(states: seq<seq<Handle>>, disks: seq<map<Bytes, Bytes>>, calls: seq<Call>) {
    && Run(states, calls) && DiskSteps(states, disks, calls)
    && forall m {:trigger disks[m]} :: 0 <= m < |disks| ==> Backed(states[m], disks[m])
  }

  ghost predicate DiskStepAt(states: seq<seq<Handle>>, disks: seq<map<Bytes, Bytes>>, calls: seq<Call>, m: nat)
    requires |disks| == |states| && m < |calls| < |states|
  {
    DiskStep(states[m], disks[m], calls[m], disks[m + 1])
  }

  ghost predicate DiskSteps(states: seq<seq<Handle>>, disks: seq<map<Bytes, Bytes>>, calls: seq<Call>) {
    && |disks| == |states| == |calls| + 1
    && forall m: nat {:trigger DiskStepAt(states, disks, calls, m)} ::
         m < |calls| ==> DiskStepAt(states, disks, calls, m)
  }

  /** The file is there from state i to state j. */
  predicate StaysNamed(disks: seq<map<Bytes, Bytes>>, i: nat, j: nat, name: Bytes) {
    i <= j < |disks| && forall m {:trigger disks[m]} :: i <= m <= j ==> name in disks[m]
  }

  /** Since the last write to byte x, none has been made while x was behind the end. */
  predicate StaysWithin(states: seq<seq<Handle>>, calls: seq<Call>, i: nat, j: nat, name: Bytes, x: nat)
    requires j <= |calls| < |states|
  {
    forall n {:trigger calls[n]} ::
      i <= n < j && LastWrite(states, calls, i, j, name, x) < n && WritesOn(states[n], calls[n], name) ==>
      x < |states[n][calls[n].fd].data|
  }

  /** What the last write to byte x from i on has put there, or else what was there. */
  function Latest(states: seq<seq<Handle>>, calls: seq<Call>, i: nat, j: nat, name: Bytes, x: nat, w: Bytes): byte
    requires j <= |calls| < |states|
  {
    var m := LastWrite(states, calls, i, j, name, x);
    if m >= 0 then calls[m].done[x - states[m][calls[m].fd].offset] else At0(w, x)
  }

  lemma LatestStep(states: seq<seq<Handle>>, calls: seq<Call>, i: nat, j: nat, name: Bytes, x: nat, w: Bytes)
    requires i < j <= |calls| < |states| && StaysWithin(states, calls, i, j, name, x)
    ensures var s, c := states[j - 1], calls[j - 1];
            if Covers(s, c, name, x) then Latest(states, calls, i, j, name, x, w) == c.done[x - s[c.fd].offset]
            else
              && Latest(states, calls, i, j, name, x, w) == Latest(states, calls, i, j - 1, name, x, w)
              && StaysWithin(states, calls, i, j - 1, name, x) && (WritesOn(s, c, name) ==> x < |s[c.fd].data|)
  {
    assert calls[j - 1] == calls[j - 1];
  }

  /** The theorem about files: whatever is opened, closed and opened again, each byte of a file
      that is there is the one last written. */
  lemma {:induction false} FileByteKept(states: seq<seq<Handle>>, disks: seq<map<Bytes, Bytes>>, calls: seq<Call>,
                                        i: nat, j: nat,
                                        name: Bytes, x: nat)
    requires DiskSteps(states, disks, calls) && StaysNamed(disks, i, j, name)
    requires StaysWithin(states, calls, i, j, name, x)
    ensures name in disks[i] && name in disks[j]
    ensures At0(disks[j][name], x) == Latest(states, calls, i, j, name, x, disks[i][name])
    decreases j
  {
    var d, d' := disks[i], disks[j];
    if i < j {
      LatestStep(states, calls, i, j, name, x, d[name]);
      assert DiskStepAt(states, disks, calls, j - 1);
      OneByteStep(states[j - 1], disks[j - 1], calls[j - 1], d', name, x);
      if !Covers(states[j - 1], calls[j - 1], name, x) {
        FileByteKept(states, disks, calls, i, j - 1, name, x);
      }
    }
  }

  lemma OneByteStep(s: seq<Handle>, d: map<Bytes, Bytes>, c: Call, d': map<Bytes, Bytes>, name: Bytes, x: nat)
    requires DiskStep(s, d, c, d') && name in d && name in d'
    ensures ByteStep(s, c, name, x, At0(d[name], x), At0(d'[name], x))
  {
    assert NameStep(s, d, c, d', name);
  }

  /** What a read returns, however often the file has been closed and opened since. */
  lemma ReadBack(states: seq<seq<Handle>>, disks: seq<map<Bytes, Bytes>>, calls: seq<Call>, i: nat, j: nat, y: nat)
    requires DiskRun(states, disks, calls) && i <= j < |calls| && calls[j].CallRead? && IsOpen(states[j], calls[j].fd)
    requires y < calls[j].r
    requires var h := states[j][calls[j].fd];
             StaysNamed(disks, i, j, h.name) && StaysWithin(states, calls, i, j, h.name, h.offset + y)
    ensures var h := states[j][calls[j].fd];
            && y < |calls[j].got| && h.name in disks[i]
            && calls[j].got[y] == Latest(states, calls, i, j, h.name, h.offset + y, disks[i][h.name])
  {
    var s, c, d := states[j], calls[j], disks[j];
    GotByte(s, c, states[j + 1], d, y);
    FileByteKept(states, disks, calls, i, j, s[c.fd].name, s[c.fd].offset + y);
  }

  /** A byte that is read is the one on the device. */
  lemma GotByte(s: seq<Handle>, c: Call, s': seq<Handle>, d: map<Bytes, Bytes>, y: nat)
    requires c.CallRead? && IsOpen(s, c.fd) && y < c.r && Step(s, c, s') && Backed(s, d)
    ensures y < |c.got| && s[c.fd].name in d && c.got[y] == At0(d[s[c.fd].name], s[c.fd].offset + y)
  {
    assert HandleBacked(s, d, c.fd);
  }

  /** A call that leaves the device as it is. */
  lemma SameDisk(s: seq<Handle>, d: map<Bytes, Bytes>, c: Call)
    requires (c.CallWrite? ==> c.done == []) && (c.CallRemove? ==> c.r != 0)
    ensures DiskStep(s, d, c, d)
  {
    forall name: Bytes ensures NameStep(s, d, c, d, name) { }
  }
}
