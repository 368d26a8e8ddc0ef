/**
 The two-file HTTP cache (network/cache.py) as a protocol: any number of
 processes write, delete and read entries at once.  An entry is a metadata
 file and a body file.  A write fills a temporary file piece by piece and then
 renames it over the entry; a file that is open stays what it was when it was
 opened.  Any operation may fail or be cut short between two steps.
 */
module HttpCache {
  import opened Basics

  type Bytes = seq<nat>

  datatype Kind = Meta | Body

  datatype File = File(key: string, kind: Kind)

  datatype Task =
    | Writing(file: File, data: Bytes, inode: nat, count: nat)
    | Deleting(key: string)
    | Checking(file: File)
    | Opening(file: File)
    | Reading(file: File, inode: nat, got: Bytes)
    | Returned(file: File, result: Option<Bytes>)

  /**
   `inodes` holds the contents of all files, named or not, and `dir` the
   names.  `begun` and `published` record every value a writer set out to
   write, and every value that ever was under a name.
   */
  datatype State = State(inodes: map<nat, Bytes>, dir: map<File, nat>, next: nat,
                         procs: map<nat, Task>, begun: set<(File, Bytes)>, published: set<(File, Bytes)>)

  datatype Step =
    | BeginWrite(pid: nat, file: File, data: Bytes)
    | Append(pid: nat, size: nat)
    | Replace(pid: nat)
    | RemoveMeta(pid: nat, key: string, ok: bool)
    | RemoveBody(pid: nat, ok: bool)
    | BeginRead(pid: nat, file: File)
    | CheckBody(pid: nat)
    | OpenFile(pid: nat, ok: bool)
    | ReadMore(pid: nat, size: nat)
    | FinishRead(pid: nat, ok: bool)
    | Stop(pid: nat)

  function MetaOf(f: File): File { File(f.key, Meta) }

  function BodyOf(f: File): File { File(f.key, Body) }

  predicate Enabled(s: State, e: Step) {
    match e
    case BeginWrite(pid, _, _) => pid !in s.procs
    case Append(pid, size) =>
      pid in s.procs && s.procs[pid].Writing? && s.procs[pid].inode in s.inodes
      && s.procs[pid].count + size <= |s.procs[pid].data|
    case Replace(pid) =>
      pid in s.procs && s.procs[pid].Writing? && s.procs[pid].inode in s.inodes
      && s.procs[pid].count == |s.procs[pid].data|
    case RemoveMeta(pid, _, _) => pid !in s.procs
    case RemoveBody(pid, _) => pid in s.procs && s.procs[pid].Deleting?
    case BeginRead(pid, _) => pid !in s.procs
    case CheckBody(pid) => pid in s.procs && s.procs[pid].Checking?
    case OpenFile(pid, _) => pid in s.procs && s.procs[pid].Opening?
    case ReadMore(pid, size) =>
      pid in s.procs && s.procs[pid].Reading? && s.procs[pid].inode in s.inodes
      && |s.procs[pid].got| + size <= |s.inodes[s.procs[pid].inode]|
    case FinishRead(pid, ok) =>
      pid in s.procs && s.procs[pid].Reading? && s.procs[pid].inode in s.inodes
      && (ok ==> |s.procs[pid].got| == |s.inodes[s.procs[pid].inode]|)
    case Stop(pid) => pid in s.procs
  }

  function Apply(s: State, e: Step): State
    requires Enabled(s, e)
  {
    match e
    case BeginWrite(pid, file, data) =>
      s.(inodes := s.inodes[s.next := []], next := s.next + 1, begun := s.begun + {(file, data)},
         procs := s.procs[pid := Writing(file, data, s.next, 0)])
    case Append(pid, size) =>
      var t := s.procs[pid];
      // the write position is where the last write ended
      s.(inodes := s.inodes[t.inode := s.inodes[t.inode] + t.data[t.count..t.count + size]],
         procs := s.procs[pid := t.(count := t.count + size)])
    case Replace(pid) =>
      var t := s.procs[pid];
      s.(dir := s.dir[t.file := t.inode], procs := s.procs - {pid},
         published := s.published + {(t.file, s.inodes[t.inode])})
    case RemoveMeta(pid, key, ok) =>
      s.(dir := if ok then s.dir - {File(key, Meta)} else s.dir, procs := s.procs[pid := Deleting(key)])
    case RemoveBody(pid, ok) =>
      s.(dir := if ok then s.dir - {File(s.procs[pid].key, Body)} else s.dir, procs := s.procs - {pid})
    case BeginRead(pid, file) =>
      s.(procs := s.procs[pid := if MetaOf(file) in s.dir then Checking(file) else Returned(file, None)])
    case CheckBody(pid) =>
      var file := s.procs[pid].file;
      s.(procs := s.procs[pid := if BodyOf(file) in s.dir then Opening(file) else Returned(file, None)])
    case OpenFile(pid, ok) =>
      var file := s.procs[pid].file;
      s.(procs := s.procs[pid :=
           if ok && file in s.dir then Reading(file, s.dir[file], []) else Returned(file, None)])
    case ReadMore(pid, size) =>
      var t := s.procs[pid];
      s.(procs := s.procs[pid := t.(got := s.inodes[t.inode][..|t.got| + size])])
    case FinishRead(pid, ok) =>
      var t := s.procs[pid];
      s.(procs := s.procs[pid := Returned(t.file, if ok then Some(t.got) else None)])
    case Stop(pid) => s.(procs := s.procs - {pid})
  }

  predicate Reaches(s: State, steps: seq<Step>, s': State)
    decreases |steps|
  {
    if steps == [] then s == s'
    else Enabled(s, steps[0]) && Reaches(Apply(s, steps[0]), steps[1..], s')
  }

  function Empty(): State { State(map[], map[], 0, map[], {}, {}) }

  // ---------------------------------------------------------------- what always holds

  ghost predicate Complete(s: State, file: File, inode: nat) {
    inode in s.inodes && (file, s.inodes[inode]) in s.published
  }

  ghost predicate Ever(s: State, file: File) {
    exists w :: w in s.published && w.0 == file
  }

  /** A temporary file is nobody's business but its writer's. */
  ghost predicate Private(s: State, pid: nat, inode: nat) {
    && inode in s.inodes
    && (forall f :: f in s.dir ==> s.dir[f] != inode)
    && (forall p :: p in s.procs && p != pid && s.procs[p].Writing? ==> s.procs[p].inode != inode)
    && (forall p :: p in s.procs && s.procs[p].Reading? ==> s.procs[p].inode != inode)
  }

  ghost predicate TaskSound(s: State, pid: nat, t: Task) {
    match t
    case Writing(file, data, inode, count) =>
      Private(s, pid, inode) && (file, data) in s.begun && count <= |data| && s.inodes[inode] == data[..count]
    case Deleting(_) => true
    case Checking(file) => Ever(s, MetaOf(file))
    case Opening(file) => Ever(s, MetaOf(file)) && Ever(s, BodyOf(file))
    case Reading(file, inode, got) =>
      && Ever(s, MetaOf(file)) && Ever(s, BodyOf(file))
      && Complete(s, file, inode) && got <= s.inodes[inode]
    case Returned(file, result) =>
      result.Some? ==>
        && Ever(s, MetaOf(file)) && Ever(s, BodyOf(file))
        && (file, result.value) in s.published
  }

  ghost predicate Sound(s: State) {
    && (forall i :: i in s.inodes ==> i < s.next)
    && s.published <= s.begun
    && (forall f :: f in s.dir ==> Complete(s, f, s.dir[f]))
    && (forall pid :: pid in s.procs ==> TaskSound(s, pid, s.procs[pid]))
  }

  lemma StepKeepsFiles(s: State, e: Step)
    requires Sound(s) && Enabled(s, e)
    ensures var s' := Apply(s, e);
            && (forall i :: i in s'.inodes ==> i < s'.next)
            && s.published <= s'.published <= s'.begun
            && (forall f :: f in s'.dir ==> Complete(s', f, s'.dir[f]))
  {
    if e.Append? || e.Replace? {
      var t := s.procs[e.pid];
      assert TaskSound(s, e.pid, t);
      assert t.data[..|t.data|] == t.data;
    }
  }

  /** A step of one process leaves what the others know true. */
  lemma OthersStaySound(s: State, e: Step, pid: nat)
    requires Sound(s) && Enabled(s, e) && pid in s.procs && pid != e.pid
    ensures TaskSound(Apply(s, e), pid, s.procs[pid])
  {
    assert TaskSound(s, pid, s.procs[pid]);
    if e.Append? || e.Replace? { assert TaskSound(s, e.pid, s.procs[e.pid]); }
  }

  lemma OwnStepKeepsSound(s: State, e: Step)
    requires Sound(s) && Enabled(s, e) && e.pid in Apply(s, e).procs
    ensures TaskSound(Apply(s, e), e.pid, Apply(s, e).procs[e.pid])
  {
    if e.pid in s.procs {
      var t := s.procs[e.pid];
      assert TaskSound(s, e.pid, t);
      if t.Reading? && |t.got| == |s.inodes[t.inode]| {
        assert t.got == s.inodes[t.inode];
      }
    }
  }

  lemma StepKeepsSound(s: State, e: Step)
    requires Sound(s) && Enabled(s, e)
    ensures Sound(Apply(s, e))
  {
    StepKeepsFiles(s, e);
    forall pid | pid in Apply(s, e).procs ensures TaskSound(Apply(s, e), pid, Apply(s, e).procs[pid]) {
      if pid == e.pid { OwnStepKeepsSound(s, e); } else { OthersStaySound(s, e, pid); }
    }
  }

  lemma {:induction false} RunsKeepSound(s: State, steps: seq<Step>, s': State)
    requires Sound(s) && Reaches(s, steps, s')
    ensures Sound(s')
    decreases |steps|
  {
    if steps == [] {
    } else {
      StepKeepsSound(s, steps[0]);
      RunsKeepSound(Apply(s, steps[0]), steps[1..], s');
    }
  }

  // ---------------------------------------------------------------- what readers get

  predicate Writes(e: Step, file: File, data: Bytes) {
    e.BeginWrite? && e.file == file && e.data == data
  }

  lemma {:induction false} BegunWasWritten(s: State, steps: seq<Step>, s': State, file: File, data: Bytes)
    requires Reaches(s, steps, s') && (file, data) in s'.begun && (file, data) !in s.begun
    ensures exists k :: 0 <= k < |steps| && Writes(steps[k], file, data)
    decreases |steps|
  {
    if (file, data) in Apply(s, steps[0]).begun {
      assert Writes(steps[0], file, data);
    } else {
      BegunWasWritten(Apply(s, steps[0]), steps[1..], s', file, data);
      var k :| 0 <= k < |steps[1..]| && Writes(steps[1..][k], file, data);
      assert Writes(steps[k + 1], file, data);
    }
  }

  /**
   Whatever the processes do, a value read for a file is one that some writer
   set out to write for it, in full, and the other half of the entry had been
   written in full as well.
   */
  lemma ReadersGetWholeValues(steps: seq<Step>, s: State, pid: nat)
    requires Reaches(Empty(), steps, s)
    requires pid in s.procs && s.procs[pid].Returned? && s.procs[pid].result.Some?
    ensures var Returned(file, result) := s.procs[pid];
            && (exists k :: 0 <= k < |steps| && Writes(steps[k], file, result.value))
            && (exists k, data :: 0 <= k < |steps| && Writes(steps[k], MetaOf(file), data))
            && (exists k, data :: 0 <= k < |steps| && Writes(steps[k], BodyOf(file), data))
  {
    RunsKeepSound(Empty(), steps, s);
    var Returned(file, result) := s.procs[pid];
    assert TaskSound(s, pid, s.procs[pid]);
    BegunWasWritten(Empty(), steps, s, file, result.value);
    var m :| m in s.published && m.0 == MetaOf(file);
    BegunWasWritten(Empty(), steps, s, m.0, m.1);
    var b :| b in s.published && b.0 == BodyOf(file);
    BegunWasWritten(Empty(), steps, s, b.0, b.1);
  }

  /** Where all writers of a key write the same entry, that entry is all a reader can get. */
  lemma AgreeingWritersMakeOneEntry(steps: seq<Step>, s: State, pid: nat, meta: Bytes, body: Bytes)
    requires Reaches(Empty(), steps, s)
    requires pid in s.procs && s.procs[pid].Returned? && s.procs[pid].result.Some?
    requires forall k :: 0 <= k < |steps| && steps[k].BeginWrite? && steps[k].file.key == s.procs[pid].file.key ==>
               steps[k].data == if steps[k].file.kind.Meta? then meta else body
    ensures s.procs[pid].result == Some(if s.procs[pid].file.kind.Meta? then meta else body)
  {
    ReadersGetWholeValues(steps, s, pid);
  }

  // ---------------------------------------------------------------- writers that disagree

  lemma {:induction false} ReachesFurther(s0: State, steps: seq<Step>, s: State, e: Step)
    requires Reaches(s0, steps, s) && Enabled(s, e)
    ensures Reaches(s0, steps + [e], Apply(s, e))
    decreases |steps|
  {
    if steps == [] {
      assert [e][1..] == [];
    } else {
      ReachesFurther(Apply(s0, steps[0]), steps[1..], s, e);
      assert (steps + [e])[1..] == steps[1..] + [e];
    }
  }

  /** The states the cache directory and its users can get into. */
  ghost predicate Reachable(s: State) {
    exists steps :: Reaches(Empty(), steps, s)
  }

  lemma Further(s: State, e: Step)
    requires Reachable(s) && Enabled(s, e)
    ensures Reachable(Apply(s, e))
  {
    var steps :| Reaches(Empty(), steps, s);
    ReachesFurther(Empty(), steps, s, e);
  }

  /** What a reader finds under each name. */
  function Contents(s: State): map<File, Bytes> {
    map f | f in s.dir && s.dir[f] in s.inodes :: s.inodes[s.dir[f]]
  }

  /** Only a replacement, with a whole value, or a removal changes what readers find. */
  lemma StepContents(s: State, e: Step)
    requires Reachable(s) && Enabled(s, e)
    ensures Contents(s).Keys == s.dir.Keys
    ensures Contents(Apply(s, e)) ==
            match e
            case Replace(pid) => Contents(s)[s.procs[pid].file := s.procs[pid].data]
            case RemoveMeta(_, key, ok) => if ok then Contents(s) - {File(key, Meta)} else Contents(s)
            case RemoveBody(pid, ok) => if ok then Contents(s) - {File(s.procs[pid].key, Body)} else Contents(s)
            case _ => Contents(s)
  {
    var steps :| Reaches(Empty(), steps, s);
    RunsKeepSound(Empty(), steps, s);
    SoundContents(s, e);
  }

  lemma SoundContents(s: State, e: Step)
    requires Sound(s) && Enabled(s, e)
    ensures Contents(s).Keys == s.dir.Keys
    ensures Contents(Apply(s, e)) ==
            match e
            case Replace(pid) => Contents(s)[s.procs[pid].file := s.procs[pid].data]
            case RemoveMeta(_, key, ok) => if ok then Contents(s) - {File(key, Meta)} else Contents(s)
            case RemoveBody(pid, ok) => if ok then Contents(s) - {File(s.procs[pid].key, Body)} else Contents(s)
            case _ => Contents(s)
  {
    assert forall f :: f in s.dir ==> Complete(s, f, s.dir[f]);
    if e.Append? || e.Replace? {
      var t := s.procs[e.pid];
      assert TaskSound(s, e.pid, t);
      assert t.data[..|t.data|] == t.data;
    }
  }

  lemma Do(s: State, e: Step) returns (s': State)
    requires Reachable(s) && Enabled(s, e)
    ensures s' == Apply(s, e) && Reachable(s')
  {
    Further(s, e);
    s' := Apply(s, e);
  }

  lemma WriteAll(s: State, pid: nat, file: File, data: Bytes) returns (s': State)
    requires Reachable(s) && pid !in s.procs
    ensures Reachable(s') && s'.procs == s.procs
    ensures Contents(s') == Contents(s)[file := data]
    ensures s'.begun == s.begun + {(file, data)}
  {
    StepContents(s, BeginWrite(pid, file, data));
    s' := Do(s, BeginWrite(pid, file, data));
    StepContents(s', Append(pid, |data|));
    s' := Do(s', Append(pid, |data|));
    StepContents(s', Replace(pid));
    s' := Do(s', Replace(pid));
  }

  lemma HalvesOf(file: File)
    ensures file == MetaOf(file) || file == BodyOf(file)
  {
    match file.kind
    case Meta =>
    case Body =>
  }

  lemma OpenAll(s: State, pid: nat, file: File) returns (s': State)
    requires Reachable(s) && pid !in s.procs
    requires MetaOf(file) in s.dir && BodyOf(file) in s.dir && file in s.dir
    ensures Reachable(s') && s' == s.(procs := s.procs[pid := Reading(file, s.dir[file], [])])
  {
    s' := Do(s, BeginRead(pid, file));
    s' := Do(s', CheckBody(pid));
    s' := Do(s', OpenFile(pid, true));
    assert s'.procs == s.procs[pid := Reading(file, s.dir[file], [])];
  }

  lemma ReadAll(s: State, pid: nat, file: File, inode: nat, data: Bytes) returns (s': State)
    requires Reachable(s) && pid in s.procs && s.procs[pid] == Reading(file, inode, [])
    requires inode in s.inodes && s.inodes[inode] == data
    ensures Reachable(s') && s' == s.(procs := s.procs[pid := Returned(file, Some(data))])
  {
    s' := Do(s, ReadMore(pid, |data|));
    assert data[..|data|] == data;
    assert s' == s.(procs := s.procs[pid := Reading(file, inode, data)]);
    s' := Do(s', FinishRead(pid, true));
    assert s'.procs == s.procs[pid := Returned(file, Some(data))];
  }

  /** Reading an entry that is there, by name rather than by open file. */
  lemma ReadEntry(s: State, pid: nat, file: File) returns (s': State)
    requires Reachable(s) && pid !in s.procs
    requires MetaOf(file) in Contents(s) && BodyOf(file) in Contents(s) && file in Contents(s)
    ensures Reachable(s') && Contents(s') == Contents(s) && s'.begun == s.begun
    ensures s'.procs == s.procs[pid := Returned(file, Some(Contents(s)[file]))]
  {
    s' := OpenAll(s, pid, file);
    s' := ReadAll(s', pid, file, s.dir[file], Contents(s)[file]);
    assert s'.procs == s.procs[pid := Returned(file, Some(Contents(s)[file]))];
  }

  /**
   Without that agreement a reader can get the metadata of one entry and the
   body of another, for any two entries whatever.
   */
  lemma DisagreeingWritersMix(key: string, meta1: Bytes, body1: Bytes, meta2: Bytes, body2: Bytes) returns (s: State)
    ensures Reachable(s)
    ensures s.procs == map[0 := Returned(File(key, Meta), Some(meta1)), 1 := Returned(File(key, Body), Some(body2))]
    ensures s.begun == {(File(key, Meta), meta1), (File(key, Body), body1), (File(key, Meta), meta2), (File(key, Body), body2)}
  {
    var meta, body := File(key, Meta), File(key, Body);
    assert Reaches(Empty(), [], Empty());
    s := WriteAll(Empty(), 2, meta, meta1);
    s := WriteAll(s, 2, body, body1);
    s := ReadEntry(s, 0, meta);
    s := WriteAll(s, 2, meta, meta2);
    s := WriteAll(s, 2, body, body2);
    s := ReadEntry(s, 1, body);
  }

  // ---------------------------------------------------------------- one process on its own

  /** An entry is there only when both its halves are. */
  predicate Entry(s: State, key: string) {
    File(key, Meta) in Contents(s) && File(key, Body) in Contents(s)
  }

  class SafeFileCache {
    const pid: nat
    const flaky: bool  // whether the file system may fail
    var disk: State

    constructor (pid: nat, flaky: bool, disk: State)
      ensures this.pid == pid && this.flaky == flaky && this.disk == disk
    {
      this.pid, this.flaky, this.disk := pid, flaky, disk;
    }

    ghost predicate Idle()
      reads this
    {
      pid !in disk.procs && Reachable(disk)
    }

    method Perform(e: Step)
      requires Reachable(disk) && Enabled(disk, e)
      modifies this
      ensures Reachable(disk) && disk == Apply(old(disk), e)
    {
      Further(disk, e);
      disk := Apply(disk, e);
    }

    /** Copies the data into the temporary file piece by piece; an error may end it at any point. */
    method Fill(file: File, data: Bytes, inode: nat) returns (ok: bool)
      requires Reachable(disk) && pid in disk.procs && disk.procs[pid] == Writing(file, data, inode, 0)
      requires inode in disk.inodes
      modifies this
      ensures Reachable(disk) && inode in disk.inodes && Contents(disk) == old(Contents(disk))
      ensures exists n :: disk.procs == old(disk.procs)[pid := Writing(file, data, inode, n)] && (ok ==> n == |data|)
      ensures !flaky ==> ok
    {
      var count := 0;
      while count < |data|
        invariant count <= |data| && Reachable(disk) && inode in disk.inodes
        invariant disk.procs == old(disk.procs)[pid := Writing(file, data, inode, count)]
        invariant Contents(disk) == old(Contents(disk))
      {
        ok := *;
        ok := ok || !flaky;
        if !ok { return; }
        var size: nat :| 1 <= size <= |data| - count;
        StepContents(disk, Append(pid, size));
        Perform(Append(pid, size));
        count := count + size;
      }
      ok := *;
      ok := ok || !flaky;
    }

    /** The file is replaced as a whole or, on an error, left as it was. */
    method WriteToFile(file: File, data: Bytes) returns (ok: bool)
      requires Idle()
      modifies this
      ensures Idle() && disk.procs == old(disk.procs)
      ensures Contents(disk) == if ok then old(Contents(disk))[file := data] else old(Contents(disk))
      ensures !flaky ==> ok
    {
      ok := *;
      ok := ok || !flaky;
      if !ok { return; }
      var inode := disk.next;
      StepContents(disk, BeginWrite(pid, file, data));
      Perform(BeginWrite(pid, file, data));
      assert disk.procs == old(disk.procs)[pid := Writing(file, data, inode, 0)];
      ok := Fill(file, data, inode);
      Close(file, data, inode, ok);
      assert disk.procs == old(disk.procs);
    }

    /** The end of a write: the temporary file takes the name of the entry if it is whole. */
    method Close(file: File, data: Bytes, inode: nat, ok: bool)
      requires Reachable(disk) && pid in disk.procs && inode in disk.inodes
      requires exists n :: disk.procs[pid] == Writing(file, data, inode, n) && (ok ==> n == |data|)
      modifies this
      ensures Idle() && disk.procs == old(disk.procs) - {pid}
      ensures Contents(disk) == if ok then old(Contents(disk))[file := data] else old(Contents(disk))
    {
      var end := if ok then Replace(pid) else Stop(pid);
      StepContents(disk, end);
      Perform(end);
    }

    method Set(key: string, value: Bytes) returns (ok: bool)
      requires Idle()
      modifies this
      ensures Idle()
      ensures Contents(disk) == if ok then old(Contents(disk))[File(key, Meta) := value] else old(Contents(disk))
      ensures !flaky ==> ok
    {
      ok := WriteToFile(File(key, Meta), value);
    }

    method SetBody(key: string, body: Bytes) returns (ok: bool)
      requires Idle()
      modifies this
      ensures Idle()
      ensures Contents(disk) == if ok then old(Contents(disk))[File(key, Body) := body] else old(Contents(disk))
      ensures !flaky ==> ok
    {
      ok := WriteToFile(File(key, Body), body);
    }

    /** Two removals, either of which may fail without stopping the other. */
    method Delete(key: string) returns (meta: bool, body: bool)
      requires Idle()
      modifies this
      ensures Idle()
      ensures Contents(disk) == old(Contents(disk)) - (if meta then {File(key, Meta)} else {}) - (if body then {File(key, Body)} else {})
      ensures !flaky ==> meta && body
    {
      meta, body := *, *;
      meta, body := meta || !flaky, body || !flaky;
      StepContents(disk, RemoveMeta(pid, key, meta));
      Perform(RemoveMeta(pid, key, meta));
      StepContents(disk, RemoveBody(pid, body));
      Perform(RemoveBody(pid, body));
    }

    /** The metadata, only if both halves of the entry are there; None also when it cannot be opened. */
    method Get(key: string) returns (r: Option<Bytes>)
      requires Idle()
      modifies this
      ensures Idle() && Contents(disk) == old(Contents(disk))
      ensures r.Some? ==> Entry(disk, key) && r.value == Contents(disk)[File(key, Meta)]
      ensures !flaky ==> (r.Some? <==> Entry(disk, key))
    {
      r := ReadFile(File(key, Meta));
    }

    method GetBody(key: string) returns (r: Option<Bytes>)
      requires Idle()
      modifies this
      ensures Idle() && Contents(disk) == old(Contents(disk))
      ensures r.Some? ==> Entry(disk, key) && r.value == Contents(disk)[File(key, Body)]
      ensures !flaky ==> (r.Some? <==> Entry(disk, key))
    {
      r := ReadFile(File(key, Body));
    }

    method ReadFile(file: File) returns (r: Option<Bytes>)
      requires Idle()
      modifies this
      ensures Idle() && Contents(disk) == old(Contents(disk))
      ensures r.Some? ==> Entry(disk, file.key) && file in Contents(disk) && r.value == Contents(disk)[file]
      ensures !flaky ==> (r.Some? <==> Entry(disk, file.key))
    {
      HalvesOf(file);
      StepContents(disk, BeginRead(pid, file));
      Perform(BeginRead(pid, file));
      if disk.procs[pid].Checking? { Perform(CheckBody(pid)); }
      if disk.procs[pid].Opening? {
        var ok: bool := *;
        Perform(OpenFile(pid, ok || !flaky));
      }
      assert disk.dir == old(disk.dir) && disk.inodes == old(disk.inodes);
      if disk.procs[pid].Reading? {
        r := ReadToEnd(disk.procs[pid].inode, file);
      } else {
        r := None;
      }
      Perform(Stop(pid));
      assert disk.dir == old(disk.dir) && disk.inodes == old(disk.inodes);
    }

    /** `f.read()` on the open file. */
    method ReadToEnd(inode: nat, file: File) returns (r: Option<Bytes>)
      requires Reachable(disk) && pid in disk.procs && disk.procs[pid] == Reading(file, inode, []) && inode in disk.inodes
      modifies this
      ensures Reachable(disk) && pid in disk.procs && disk.dir == old(disk.dir) && disk.inodes == old(disk.inodes)
      ensures r.Some? ==> r.value == disk.inodes[inode]
      ensures !flaky ==> r.Some?
    {
      Perform(ReadMore(pid, |disk.inodes[inode]|));
      var ok: bool := *;
      Perform(FinishRead(pid, ok || !flaky));
      r := disk.procs[pid].result;
    }
  }
}
