/**
 The persistent audit log: append with rotation and retention, the bounded in-memory tail,
 and opening from disk. Each operation is a function on the log's value; the class below
 performs it step by step and is proved to compute that function.

 A segment file is named by the last sequence number it holds, so the directory is a map
 from that number to the file's lines. Whether a file operation succeeds is an input.
 */
module AuditLog {
  import opened Binary
  import opened Wrappers
  import opened Sequences
  import opened AuditChain

  /** What the digest and the serializer do: `size` is a line's length on disk, newline included. */
  datatype Codec = Codec(mac: Bytes -> Hash, size: Line -> nat)

  /**
   The file sink. `handle` is where the open descriptor points: the live path, or the
   segment it was renamed to when a rotation could not create a new live file. `ragged`
   says that file's last line has no newline yet, so the next text continues it.
   */
  datatype Persist = Persist(segs: map<nat, File>, live: Option<File>, handle: Option<nat>, ragged: bool,
                             bytes: nat, maxBytes: nat, maxSegments: nat)

  datatype Log = Log(seqNo: U64, lastHash: Hash, ring: seq<Entry>, cap: nat,
                     persist: Option<Persist>, degraded: bool)

  /** What a failed write left behind: nothing, part of the line, or all of it but the newline. */
  datatype Torn = Nothing | Cut | Unended

  /** Outcome of the file operations one append may perform. */
  datatype Disk = Disk(write: bool, sync: bool, torn: Torn, rename: bool, reopen: bool, stuck: set<nat>)

  datatype Request = Request(actor: Bytes, action: Bytes, detail: Bytes, ok: bool)

  datatype OpenError = OpenIo | Corrupt(why: VerifyError)

  // ----- the directory

  /** The segment files in ascending key order. */
  function SegFiles(segs: map<nat, File>): (fs: seq<File>)
    decreases |segs|
  {
    if |segs| == 0 then [] else
      var m := MaxOf(segs.Keys);
      SegFiles(segs - {m}) + [segs[m]]
  }

  /** Segments oldest first, then the live file if there is one. */
  function CollectSegments(segs: map<nat, File>, live: Option<File>): seq<File> {
    SegFiles(segs) + if live.Some? then [live.value] else []
  }

  function DiskLines(p: Persist): File {
    Flatten(CollectSegments(p.segs, p.live))
  }

  function FileSize(codec: Codec, f: File): nat {
    if f == [] then 0 else FileSize(codec, f[..|f| - 1]) + codec.size(Last(f))
  }

  /** The length of a file whose last newline may be missing. */
  function FileLength(codec: Codec, f: File, ragged: bool): nat {
    if ragged && FileSize(codec, f) > 0 then FileSize(codec, f) - 1 else FileSize(codec, f)
  }

  // ----- operations on values

  /** Text for a new line; on an unfinished last line it yields one line that does not parse. */
  function Extended(f: File, ragged: bool, l: Line): File {
    if ragged && f != [] then f[..|f| - 1] + [Malformed] else f + [l]
  }

  /** The text of `l` written through the descriptor, with its newline or without. */
  function Put(p: Persist, l: Line, ended: bool): Persist {
    if p.handle.Some? && p.handle.value in p.segs then
      p.(segs := p.segs[p.handle.value := Extended(p.segs[p.handle.value], p.ragged, l)], ragged := !ended)
    else if p.live.Some? then p.(live := Some(Extended(p.live.value, p.ragged, l)), ragged := !ended)
    else p
  }

  function Failed(p: Persist, e: Entry, torn: Torn): Persist {
    match torn
    case Nothing => p
    case Cut => Put(p, Malformed, false)
    case Unended => Put(p, Rec(e), false)
  }

  /** The segments retention wants gone: the oldest ones beyond `maxSegments`. */
  function Victims(p: Persist): seq<nat> {
    if p.maxSegments == 0 || |p.segs| <= p.maxSegments then []
    else SortedKeysSize(p.segs.Keys); SortedKeys(p.segs.Keys)[..|p.segs| - p.maxSegments]
  }

  function Removed(victims: seq<nat>, stuck: set<nat>): set<nat> {
    set k | k in victims && k !in stuck
  }

  lemma RemovedStep(keys: seq<nat>, i: nat, stuck: set<nat>)
    requires i < |keys|
    ensures Removed(keys[..i + 1], stuck) == Removed(keys[..i], stuck) + if keys[i] in stuck then {} else {keys[i]}
  {
    assert keys[..i + 1] == keys[..i] + [keys[i]];
  }

  /** Removal is best effort: the files in `stuck` stay. */
  function PruneSegments(p: Persist, stuck: set<nat>): Persist {
    p.(segs := p.segs - Removed(Victims(p), stuck))
  }

  predicate Rotates(p: Persist, d: Disk) {
    p.bytes >= p.maxBytes && d.rename && p.live.Some?
  }

  /** The live file closed under its last sequence number, and a fresh live file opened. */
  function Rotated(p: Persist, seqNo: U64): Persist
    requires p.live.Some?
  {
    p.(segs := p.segs[seqNo := p.live.value], live := Some([]), handle := None, ragged := false, bytes := 0)
  }

  function MaybeRotate(p: Persist, seqNo: U64, d: Disk): (Persist, bool) {
    if !Rotates(p, d) then (p, true)
    else if d.reopen then (PruneSegments(Rotated(p, seqNo), d.stuck), true)
    else (p.(segs := p.segs[seqNo := p.live.value], live := None, handle := Some(seqNo)), false)
  }

  function Written(codec: Codec, p: Persist, e: Entry): Persist {
    Put(p, Rec(e), true).(bytes := p.bytes + codec.size(Rec(e)))
  }

  function Append(codec: Codec, p: Persist, e: Entry, d: Disk): (Persist, bool) {
    if !d.write then (Failed(p, e, d.torn), false)
    else if !d.sync then (Put(p, Rec(e), true), false)
    else MaybeRotate(Written(codec, p, e), e.seqNo, d)
  }

  /** The descriptor is on the live file, or on a segment while there is no live file. */
  predicate SinkOk(p: Persist) {
    if p.handle.Some? then p.handle.value in p.segs && p.live.None? else p.live.Some?
  }

  /** The line is in some file of the directory. */
  ghost predicate OnDisk(p: Persist, x: Line) {
    (exists k :: k in p.segs && x in p.segs[k]) || (p.live.Some? && x in p.live.value)
  }

  /** The segment just closed is the newest, so the prune that follows leaves it. */
  lemma PruneSparesNewest(q: Persist, k: nat, stuck: set<nat>)
    requires k in q.segs && forall x :: x in q.segs ==> x <= k
    ensures k in PruneSegments(q, stuck).segs
  {
    SortedKeysSize(q.segs.Keys);
    var ks := SortedKeys(q.segs.Keys);
    SortedKeysAscend(q.segs.Keys);
    assert Last(ks) == MaxOf(q.segs.Keys) == k;
    assert forall i :: 0 <= i < |Victims(q)| ==> Victims(q)[i] == ks[i] < Last(ks);
  }

  lemma PutLands(p: Persist, e: Entry)
    requires SinkOk(p) && !p.ragged
    ensures var q := Put(p, Rec(e), true);
            SinkOk(q) && q.handle == p.handle && q.segs.Keys == p.segs.Keys && OnDisk(q, Rec(e))
            && (p.handle.None? ==> Rec(e) in q.live.value)
  {
    var q := Put(p, Rec(e), true);
    if p.handle.Some? {
      var h := p.handle.value;
      assert q.segs[h] == p.segs[h] + [Rec(e)] && q.segs[h][|p.segs[h]|] == Rec(e);
    } else {
      assert q.live.value == p.live.value + [Rec(e)] && q.live.value[|p.live.value|] == Rec(e);
    }
  }

  /** A durable append leaves its record as a line on disk, through any rotation and prune it causes. */
  lemma AppendLands(codec: Codec, p: Persist, e: Entry, d: Disk)
    requires SinkOk(p) && !p.ragged && Append(codec, p, e, d).1 && forall k :: k in p.segs ==> k < e.seqNo
    ensures OnDisk(Append(codec, p, e, d).0, Rec(e))
  {
    PutLands(p, e);
    var w := Written(codec, p, e);
    if Rotates(w, d) {
      PruneSparesNewest(Rotated(w, e.seqNo), e.seqNo, d.stuck);
      assert Append(codec, p, e, d).0.segs[e.seqNo] == w.live.value;
    }
  }

  lemma AppendKeepsSink(codec: Codec, p: Persist, e: Entry, d: Disk)
    requires SinkOk(p)
    ensures SinkOk(Append(codec, p, e, d).0)
    ensures Append(codec, p, e, d).1 ==> !Append(codec, p, e, d).0.ragged
  {
  }

  function SealEntry(mac: Bytes -> Hash, seqNo: U64, ts: U64, r: Request, prev: Hash): (e: Entry)
    ensures Sealed(mac, e)
  {
    var blank := Entry(seqNo, ts, r.actor, r.action, r.detail, r.ok, prev, GENESIS);
    assert forall h: Hash :: Preimage(blank.(hash := h)) == Preimage(blank);
    blank.(hash := mac(Preimage(blank)))
  }

  function NextEntry(codec: Codec, l: Log, r: Request, ts: U64): Entry {
    SealEntry(codec.mac, WrapSucc(l.seqNo), ts, r, l.lastHash)
  }

  /** The log after recording `r`, and whether the entry was made durable. */
  function Record(codec: Codec, l: Log, r: Request, ts: U64, d: Disk): (Log, bool)
    requires l.cap > 0
  {
    var e := NextEntry(codec, l, r, ts);
    var (persist, persisted) :=
      match l.persist
      case None => (None, true)
      case Some(p) => var (p', ok) := Append(codec, p, e, d); (Some(p'), ok);
    (Log(e.seqNo, e.hash, Push(l.ring, l.cap, e), l.cap, persist, l.degraded || !persisted), persisted)
  }

  /** The log a successful open yields from what is on disk. */
  function Opened(codec: Codec, segs: map<nat, File>, live: Option<File>, ragged: bool,
                  cap: nat, maxBytes: nat, maxSegments: nat): Log
  {
    var es := Entries(Flatten(CollectSegments(segs, live)));
    var file := if live.Some? then live.value else [];
    Log(HeadSeq(es), HeadHash(es), Tail(es, Max(cap, 1)), Max(cap, 1),
        Some(Persist(segs, Some(file), None, ragged, FileLength(codec, file, ragged), Max(maxBytes, 1), maxSegments)),
        false)
  }

  /** Unlinks the victims one by one, oldest first, ignoring the ones that fail. */
  method RemoveFiles(segs: map<nat, File>, victims: seq<nat>, stuck: set<nat>) returns (kept: map<nat, File>)
    ensures kept == segs - Removed(victims, stuck)
  {
    kept := segs;
    var i := 0;
    while i < |victims|
      invariant 0 <= i <= |victims|
      invariant kept == segs - Removed(victims[..i], stuck)
    {
      RemovedStep(victims, i, stuck);
      if victims[i] !in stuck {
        kept := kept - {victims[i]};
      }
      i := i + 1;
    }
    assert victims[..|victims|] == victims;
  }

  lemma HashLinkedNext(mac: Bytes -> Hash, es: seq<Entry>, i: nat)
    requires i < |es|
    ensures HashLinked(mac, es[..i + 1]) <==>
            HashLinked(mac, es[..i]) && Sealed(mac, es[i]) && (i > 0 ==> es[i].prev == es[i - 1].hash)
    ensures !HashLinked(mac, es[..i + 1]) ==> !HashLinked(mac, es)
  {
    var a, b := es[..i], es[..i + 1];
    assert b[i] == es[i] && (i > 0 ==> b[i - 1] == es[i - 1]);
    assert forall j :: 0 <= j < i ==> a[j] == b[j] == es[j];
    if HashLinked(mac, es) {
      assert forall j :: 0 <= j <= i ==> b[j] == es[j];
    }
  }

  // ----- the log as an object

  class Recorder {
    const codec: Codec
    const cap: nat
    var seqNo: U64
    var lastHash: Hash
    var ring: seq<Entry>
    var persist: Option<Persist>
    var degraded: bool

    function View(): Log
      reads this
    {
      Log(seqNo, lastHash, ring, cap, persist, degraded)
    }

    /** In-memory log, no persistence. */
    constructor (codec: Codec, capacity: nat)
      ensures View() == Log(0, GENESIS, [], Max(capacity, 1), None, false)
      ensures this.codec == codec
    {
      this.codec := codec;
      this.cap := Max(capacity, 1);
      seqNo, lastHash, ring, persist, degraded := 0, GENESIS, [], None, false;
    }

    constructor FromView(codec: Codec, l: Log)
      ensures View() == l && this.codec == codec
    {
      this.codec := codec;
      cap := l.cap;
      seqNo, lastHash, ring, persist, degraded := l.seqNo, l.lastHash, l.ring, l.persist, l.degraded;
    }

    /** Opens what is on disk: refuses a chain replay refuses, otherwise resumes from its head. */
    static method OpenWithRotation(codec: Codec, segs: map<nat, File>, live: Option<File>, ragged: bool, capacity: nat,
                                   maxBytes: nat, maxSegments: nat, fileOk: bool)
      returns (r: Result<Recorder, OpenError>)
      ensures r.Ok? <==> Accepts(codec.mac, Flatten(CollectSegments(segs, live))) && fileOk
      ensures r.Ok? ==> fresh(r.value) && r.value.codec == codec
      ensures r.Ok? ==> r.value.View() == Opened(codec, segs, live, ragged, capacity, maxBytes, maxSegments)
      ensures r.Err? && Accepts(codec.mac, Flatten(CollectSegments(segs, live))) ==> r.error == OpenIo
    {
      var files := CollectSegments(segs, live);
      var replayed := Replay(files, codec.mac, Max(capacity, 1));
      if replayed.Err? {
        return Err(Corrupt(replayed.error));
      }
      if !fileOk {
        return Err(OpenIo);
      }
      var file := if live.Some? then live.value else [];
      var log := new Recorder.FromView(codec,
        Log(replayed.value.seqNo, replayed.value.lastHash, replayed.value.ring, Max(capacity, 1),
            Some(Persist(segs, Some(file), None, ragged, FileLength(codec, file, ragged), Max(maxBytes, 1),
                         maxSegments)),
            false));
      return Ok(log);
    }

    method Prune(stuck: set<nat>)
      requires persist.Some?
      modifies this`persist
      ensures persist == Some(PruneSegments(old(persist.value), stuck))
    {
      var victims := Victims(persist.value);
      var segs := RemoveFiles(persist.value.segs, victims, stuck);
      persist := Some(persist.value.(segs := segs));
    }

    method Rotate(seqNo: U64, d: Disk) returns (ok: bool)
      requires persist.Some?
      modifies this`persist
      ensures (persist, ok) == var (p, b) := MaybeRotate(old(persist.value), seqNo, d); (Some(p), b)
    {
      var p := persist.value;
      if p.bytes < p.maxBytes {
        return true;
      }
      if !d.rename || p.live.None? {
        return true;
      }
      persist := Some(p.(segs := p.segs[seqNo := p.live.value], live := None, handle := Some(seqNo)));
      if !d.reopen {
        return false;
      }
      persist := Some(persist.value.(live := Some([]), handle := None, ragged := false, bytes := 0));
      Prune(d.stuck);
      return true;
    }

    method AppendLine(e: Entry, d: Disk) returns (ok: bool)
      requires persist.Some?
      modifies this`persist
      ensures (persist, ok) == var (p, b) := Append(codec, old(persist.value), e, d); (Some(p), b)
      ensures ok ==> d.write && d.sync
      ensures old(SinkOk(persist.value)) ==> SinkOk(persist.value) && (ok ==> !persist.value.ragged)
      ensures && ok && old(SinkOk(persist.value) && !persist.value.ragged)
              && old(forall k :: k in persist.value.segs ==> k < e.seqNo)
              ==> OnDisk(persist.value, Rec(e))
    {
      if SinkOk(persist.value) {
        AppendKeepsSink(codec, persist.value, e, d);
        if Append(codec, persist.value, e, d).1 && !persist.value.ragged
           && forall k :: k in persist.value.segs ==> k < e.seqNo {
          AppendLands(codec, persist.value, e, d);
        }
      }
      if !d.write {
        persist := Some(Failed(persist.value, e, d.torn));
        return false;
      }
      persist := Some(Put(persist.value, Rec(e), true));
      if !d.sync {
        return false;
      }
      persist := Some(persist.value.(bytes := persist.value.bytes + codec.size(Rec(e))));
      ok := Rotate(e.seqNo, d);
    }

    /** Records one operation and reports whether the entry is durable. */
    method RecordChecked(r: Request, ts: U64, d: Disk) returns (persisted: bool)
      requires cap > 0
      modifies this
      ensures (View(), persisted) == Record(codec, old(View()), r, ts, d)
    {
      var next := WrapSucc(seqNo);
      var e := SealEntry(codec.mac, next, ts, r, lastHash);
      persisted := true;
      if persist.Some? {
        var ok := AppendLine(e, d);
        if !ok {
          degraded := true;
          persisted := false;
        }
      }
      seqNo := next;
      lastHash := e.hash;
      if |ring| == cap {
        ring := ring[1..];
      }
      ring := ring + [e];
    }

    /** Re-verifies the retained tail: its length when every hash links, else the number of the first that does not. */
    method Verify() returns (r: Result<nat, U64>)
      ensures r.Ok? <==> HashLinked(codec.mac, ring)
      ensures r.Ok? ==> r.value == |ring|
      ensures r.Err? ==> exists i :: 0 <= i < |ring| && ring[i].seqNo == r.error
                                     && HashLinked(codec.mac, ring[..i]) && !HashLinked(codec.mac, ring[..i + 1])
    {
      var prev := if ring == [] then GENESIS else ring[0].prev;
      var i := 0;
      while i < |ring|
        invariant 0 <= i <= |ring|
        invariant HashLinked(codec.mac, ring[..i])
        invariant prev == if ring == [] then GENESIS else if i == 0 then ring[0].prev else ring[i - 1].hash
      {
        var e := ring[i];
        HashLinkedNext(codec.mac, ring, i);
        if e.prev != prev || codec.mac(Preimage(e)) != e.hash {
          return Err(e.seqNo);
        }
        prev := e.hash;
        i := i + 1;
      }
      assert ring[..|ring|] == ring;
      return Ok(|ring|);
    }

    function IsHealthy(): bool
      reads this
    {
      !degraded
    }
  }
}
