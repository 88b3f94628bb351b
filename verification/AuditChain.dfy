/**
 The audit hash chain: entries, the domain-separated pre-image that is hashed, and the
 replay that verifies a set of segment files.

 The digest (HMAC-SHA256 under the configured key, or SHA-256 without one) is a parameter
 `mac`; nothing is assumed about it except where a lemma says so.
 */
module AuditChain {
  import opened Binary
  import opened Wrappers
  import opened Sequences

  const SEP: byte := 0x1f

  const GENESIS: Hash := BigEndian(0, 32)

  type Hash = h: Bytes | |h| == 32 witness BigEndian(0, 32)

  datatype Entry = Entry(seqNo: U64, ts: U64, actor: Bytes, action: Bytes, detail: Bytes,
                         outcome: bool, prev: Hash, hash: Hash)

  /** The three caller-supplied strings as they stand in the pre-image. */
  function Text(e: Entry): Bytes {
    e.actor + [SEP] + e.action + [SEP] + e.detail
  }

  /** The hashed buffer of `compute_chain`. */
  function Preimage(e: Entry): Bytes {
    BigEndian(e.seqNo, 8) + BigEndian(e.ts, 8) + [SEP] + e.actor + [SEP] + e.action + [SEP] + e.detail
      + [SEP] + [if e.outcome then 1 else 0] + [SEP] + e.prev
  }

  predicate Sealed(mac: Bytes -> Hash, e: Entry) {
    e.hash == mac(Preimage(e))
  }

  predicate Follows(a: Entry, b: Entry) {
    b.seqNo == WrapSucc(a.seqNo) && b.prev == a.hash
  }

  /** Every entry carries its own digest and continues the one before it. */
  ghost predicate Chained(mac: Bytes -> Hash, es: seq<Entry>) {
    && (forall i :: 0 <= i < |es| ==> Sealed(mac, es[i]))
    && (forall i :: 0 < i < |es| ==> Follows(es[i - 1], es[i]))
  }

  /** The weaker check made on the in-memory tail, which does not compare sequence numbers. */
  ghost predicate HashLinked(mac: Bytes -> Hash, es: seq<Entry>) {
    && (forall i :: 0 <= i < |es| ==> Sealed(mac, es[i]))
    && (forall i :: 0 < i < |es| ==> es[i].prev == es[i - 1].hash)
  }

  // ----- what the pre-image determines

  lemma PreimageLayout(e: Entry)
    ensures |Preimage(e)| == 16 + 1 + |Text(e)| + 3 + 32
    ensures Preimage(e)[..8] == BigEndian(e.seqNo, 8)
    ensures Preimage(e)[8..16] == BigEndian(e.ts, 8)
    ensures Preimage(e)[17..17 + |Text(e)|] == Text(e)
    ensures Preimage(e)[18 + |Text(e)|] == if e.outcome then 1 else 0
    ensures Preimage(e)[20 + |Text(e)|..] == e.prev
    ensures Preimage(e)[16] == Preimage(e)[17 + |Text(e)|] == Preimage(e)[19 + |Text(e)|] == 0x1f
    ensures Text(e) == e.actor + [0x1f] + e.action + [0x1f] + e.detail
  {
    var p := Preimage(e);
    var head := BigEndian(e.seqNo, 8) + BigEndian(e.ts, 8) + [SEP];
    var tail := [SEP] + [if e.outcome then 1 else 0] + [SEP] + e.prev;
    assert p == head + Text(e) + tail;
  }

  /**
   Two entries share a pre-image exactly when they agree on every fixed-width field and
   their joined texts coincide: only the boundaries between actor, action and detail are
   not pinned by the encoding.
   */
  lemma SamePreimageIff(a: Entry, b: Entry)
    ensures Preimage(a) == Preimage(b) <==>
            && a.seqNo == b.seqNo && a.ts == b.ts && a.outcome == b.outcome && a.prev == b.prev
            && Text(a) == Text(b)
  {
    if Preimage(a) == Preimage(b) {
      PreimageDetermines(a, b);
    } else if a.seqNo == b.seqNo && a.ts == b.ts && a.outcome == b.outcome && a.prev == b.prev && Text(a) == Text(b) {
      PreimageParts(a);
      PreimageParts(b);
    }
  }

  lemma PreimageParts(e: Entry)
    ensures Preimage(e) == BigEndian(e.seqNo, 8) + BigEndian(e.ts, 8) + [SEP] + Text(e)
                           + ([SEP] + [if e.outcome then 1 else 0] + [SEP] + e.prev)
  {
  }

  lemma PreimageDetermines(a: Entry, b: Entry)
    requires Preimage(a) == Preimage(b)
    ensures a.seqNo == b.seqNo && a.ts == b.ts && a.outcome == b.outcome && a.prev == b.prev
    ensures Text(a) == Text(b)
  {
    PreimageLayout(a);
    PreimageLayout(b);
    assert |Text(a)| == |Text(b)|;
    Pow256Values();
    BigEndianInjective(a.seqNo, b.seqNo, 8);
    BigEndianInjective(a.ts, b.ts, 8);
  }

  ghost predicate SepFree(s: Bytes) {
    SEP !in s
  }

  lemma SplitAtSep(x: Bytes, u: Bytes, y: Bytes, v: Bytes)
    requires SepFree(x) && SepFree(y)
    requires x + [SEP] + u == y + [SEP] + v
    ensures x == y && u == v
  {
    var s, t := x + [SEP] + u, y + [SEP] + v;
    assert s[|x|] == SEP && t[|y|] == SEP;
    assert forall i :: 0 <= i < |x| ==> s[i] == x[i];
    assert forall i :: 0 <= i < |y| ==> s[i] == y[i];
    assert |x| == |y|;
    assert x == s[..|x|] && y == t[..|y|];
    assert u == s[|x| + 1..] && v == t[|y| + 1..];
  }

  /** With separator-free actors and actions, the pre-image determines the whole record. */
  lemma PreimageInjective(a: Entry, b: Entry)
    requires SepFree(a.actor) && SepFree(a.action) && SepFree(b.actor) && SepFree(b.action)
    requires Preimage(a) == Preimage(b)
    ensures a.(hash := b.hash) == b
  {
    SamePreimageIff(a, b);
    assert Text(a) == a.actor + [SEP] + (a.action + [SEP] + a.detail);
    assert Text(b) == b.actor + [SEP] + (b.action + [SEP] + b.detail);
    SplitAtSep(a.actor, a.action + [SEP] + a.detail, b.actor, b.action + [SEP] + b.detail);
    SplitAtSep(a.action, a.detail, b.action, b.detail);
  }

  function Seps(s: Bytes): nat {
    if s == [] then 0 else (if s[0] == SEP then 1 else 0) + Seps(s[1..])
  }

  lemma {:induction false} SepsConcat(s: Bytes, t: Bytes)
    ensures Seps(s + t) == Seps(s) + Seps(t)
  {
    if s == [] {
      assert s + t == t;
    } else {
      SepsConcat(s[1..], t);
      assert (s + t)[1..] == s[1..] + t;
    }
  }

  lemma {:induction false} NoSepsIff(s: Bytes)
    ensures Seps(s) == 0 <==> SepFree(s)
  {
    if s != [] {
      NoSepsIff(s[1..]);
      assert s == [s[0]] + s[1..];
    }
  }

  lemma TextSeps(e: Entry)
    ensures Seps(Text(e)) == Seps(e.actor) + Seps(e.action) + Seps(e.detail) + 2
  {
    assert Seps([SEP]) == 1;
    SepsConcat(e.actor, [SEP]);
    SepsConcat(e.actor + [SEP], e.action);
    SepsConcat(e.actor + [SEP] + e.action, [SEP]);
    SepsConcat(e.actor + [SEP] + e.action + [SEP], e.detail);
  }

  ghost predicate Unsplittable(e: Entry) {
    SepFree(e.actor) && SepFree(e.action) && SepFree(e.detail)
  }

  /** An entry none of whose strings holds a separator is the only one with its pre-image. */
  lemma UnsplittableIsUnique(a: Entry, b: Entry)
    requires Unsplittable(a) && Preimage(a) == Preimage(b)
    ensures a.(hash := b.hash) == b
  {
    SamePreimageIff(a, b);
    TextSeps(a);
    TextSeps(b);
    NoSepsIff(a.actor); NoSepsIff(a.action); NoSepsIff(a.detail);
    NoSepsIff(b.actor); NoSepsIff(b.action); NoSepsIff(b.detail);
    PreimageInjective(a, b);
  }

  lemma FirstSep(s: Bytes) returns (x: Bytes, y: Bytes)
    requires !SepFree(s)
    ensures s == x + [SEP] + y && SepFree(x)
  {
    var i := 0;
    while s[i] != SEP
      invariant 0 <= i < |s|
      invariant SEP !in s[..i]
      invariant SEP in s[i..]
      decreases |s| - i
    {
      assert s[i..] == [s[i]] + s[i + 1..];
      i := i + 1;
    }
    x, y := s[..i], s[i + 1..];
  }

  /**
   The exact condition for the record to be pinned by its pre-image: some different entry
   hashes to the same value precisely when one of the three strings holds a separator.
   */
  lemma AmbiguousIff(e: Entry)
    ensures (exists f: Entry :: f.(hash := e.hash) != e && Preimage(f) == Preimage(e)) <==> !Unsplittable(e)
  {
    if exists f: Entry :: f.(hash := e.hash) != e && Preimage(f) == Preimage(e) {
      var f: Entry :| f.(hash := e.hash) != e && Preimage(f) == Preimage(e);
      if Unsplittable(e) {
        UnsplittableIsUnique(e, f);
        assert false;
      }
    } else if !Unsplittable(e) {
      var f := ShiftedTwin(e);
      assert f.(hash := e.hash) != e && Preimage(f) == Preimage(e);
    }
  }

  /** Moving a field boundary to another separator keeps the pre-image and changes the record. */
  lemma ShiftedTwin(e: Entry) returns (f: Entry)
    requires !Unsplittable(e)
    ensures f.(hash := e.hash) != e && Preimage(f) == Preimage(e)
  {
    if !SepFree(e.actor) {
      var x, y := FirstSep(e.actor);
      f := e.(actor := x, action := y, detail := e.action + [SEP] + e.detail);
      assert |f.actor| < |e.actor|;
    } else if !SepFree(e.action) {
      var x, y := FirstSep(e.action);
      f := e.(action := x, detail := y + [SEP] + e.detail);
      assert |f.action| < |e.action|;
    } else {
      var x, y := FirstSep(e.detail);
      f := e.(action := e.action + [SEP] + x, detail := y);
      assert |f.action| > |e.action|;
    }
    assert Text(f) == Text(e);
    SamePreimageIff(f, e);
  }

  // ----- replay

  /** One line of a segment file: skipped, unparsable, unreadable, or a record. */
  datatype Line = Blank | Malformed | Unreadable | Rec(e: Entry)

  type File = seq<Line>

  datatype VerifyError = Io | MalformedAt(file: nat, line: nat) | ChainBreak(seqNo: U64)

  datatype Replayed = Replayed(seqNo: U64, lastHash: Hash, ring: seq<Entry>, entries: nat,
                               firstSeq: U64, lastSeq: U64)

  function Entries(lines: File): seq<Entry> {
    if lines == [] then []
    else Entries(lines[..|lines| - 1]) + if Last(lines).Rec? then [Last(lines).e] else []
  }

  ghost predicate Clean(lines: File) {
    forall i :: 0 <= i < |lines| ==> lines[i].Rec? || lines[i].Blank?
  }

  /** What verification accepts: only records and blank lines, and the records chain. */
  ghost predicate Accepts(mac: Bytes -> Hash, lines: File) {
    Clean(lines) && Chained(mac, Entries(lines))
  }

  function HeadSeq(es: seq<Entry>): U64 {
    if es == [] then 0 else Last(es).seqNo
  }

  function HeadHash(es: seq<Entry>): Hash {
    if es == [] then GENESIS else Last(es).hash
  }

  /** What replay reports about an accepted chain. */
  function Summary(es: seq<Entry>, cap: nat): Replayed {
    Replayed(HeadSeq(es), HeadHash(es), Tail(es, cap), |es|, if es == [] then 0 else es[0].seqNo, HeadSeq(es))
  }

  ghost predicate Links(mac: Bytes -> Hash, es: seq<Entry>, e: Entry) {
    Sealed(mac, e) && (es != [] ==> Follows(Last(es), e))
  }

  /** Line `l`, coming after the accepted lines `before`, is refused with `err`. */
  ghost predicate Refused(mac: Bytes -> Hash, before: File, l: Line, i: nat, j: nat, err: VerifyError) {
    match l
    case Blank => false
    case Malformed => err == MalformedAt(i, j + 1)
    case Unreadable => err == Io
    case Rec(e) => err == ChainBreak(e.seqNo) && !Links(mac, Entries(before), e)
  }

  /** Everything read before line `j` of file `i`. */
  ghost function UpTo(files: seq<File>, i: nat, j: nat): File
    requires i < |files| && j <= |files[i]|
  {
    Flatten(files[..i]) + files[i][..j]
  }

  lemma UpToStep(files: seq<File>, i: nat, j: nat)
    requires i < |files| && j < |files[i]|
    ensures UpTo(files, i, j + 1) == UpTo(files, i, j) + [files[i][j]]
  {
    assert files[i][..j + 1] == files[i][..j] + [files[i][j]];
  }

  lemma UpToBounds(files: seq<File>, i: nat)
    requires i < |files|
    ensures UpTo(files, i, 0) == Flatten(files[..i])
    ensures UpTo(files, i, |files[i]|) == Flatten(files[..i + 1])
  {
    assert files[..i + 1] == files[..i] + [files[i]];
    FlattenAppend(files[..i], files[i]);
    assert files[i][..|files[i]|] == files[i];
  }

  /** The line at `(i, j)` is the first one replay cannot accept, and `err` says why. */
  ghost predicate FaultAt(mac: Bytes -> Hash, files: seq<File>, i: nat, j: nat, err: VerifyError) {
    && i < |files| && j < |files[i]|
    && Accepts(mac, UpTo(files, i, j))
    && Refused(mac, UpTo(files, i, j), files[i][j], i, j, err)
  }

  lemma EntriesStep(lines: File, l: Line)
    ensures Entries(lines + [l]) == Entries(lines) + if l.Rec? then [l.e] else []
  {
    assert (lines + [l])[..|lines|] == lines;
  }

  lemma {:induction false} EntriesConcat(a: File, b: File)
    ensures Entries(a + b) == Entries(a) + Entries(b)
  {
    if b == [] {
      assert a + b == a;
    } else {
      EntriesConcat(a, b[..|b| - 1]);
      assert (a + b)[..|a + b| - 1] == a + b[..|b| - 1];
    }
  }

  lemma ChainedStep(mac: Bytes -> Hash, es: seq<Entry>, e: Entry)
    ensures Chained(mac, es + [e]) <==> Chained(mac, es) && Links(mac, es, e)
  {
    var fs := es + [e];
    if Chained(mac, fs) {
      assert forall i :: 0 <= i < |es| ==> fs[i] == es[i];
      assert forall i :: 0 <= i < |es| ==> Sealed(mac, fs[i]);
      assert forall i :: 0 < i < |es| ==> Follows(fs[i - 1], fs[i]);
      assert Sealed(mac, fs[|es|]);
    }
  }

  lemma ChainedSuffix(mac: Bytes -> Hash, es: seq<Entry>, d: nat)
    requires Chained(mac, es) && d <= |es|
    ensures Chained(mac, es[d..])
  {
    var fs := es[d..];
    forall i | 0 < i < |fs|
      ensures Follows(fs[i - 1], fs[i])
    {
      assert Follows(es[i + d - 1], es[i + d]);
    }
  }

  lemma {:induction false} ChainedPrefix(mac: Bytes -> Hash, es: seq<Entry>, n: nat)
    requires n <= |es|
    ensures Chained(mac, es) ==> Chained(mac, es[..n])
  {
  }

  /** A fault early in the stream rejects everything that follows it. */
  lemma FaultRejects(mac: Bytes -> Hash, before: File, l: Line, after: File)
    requires l.Malformed? || l.Unreadable? || (l.Rec? && !Links(mac, Entries(before), l.e))
    ensures !Accepts(mac, before + [l] + after)
  {
    var all := before + [l] + after;
    assert all[|before|] == l;
    if l.Rec? {
      EntriesStep(before, l);
      EntriesConcat(before + [l], after);
      var es := Entries(before) + [l.e];
      assert Entries(all) == es + Entries(after);
      assert Entries(all)[..|es|] == es;
      ChainedPrefix(mac, Entries(all), |es|);
      ChainedStep(mac, Entries(before), l.e);
    }
  }

  /** The replay accumulators. */
  datatype Scan = Scan(acc: Replayed, prev: Hash, expected: Option<U64>)

  predicate LinkOk(mac: Bytes -> Hash, s: Scan, e: Entry) {
    && (s.expected.Some? ==> e.seqNo == s.expected.value)
    && (s.acc.entries > 0 ==> e.prev == s.prev)
    && mac(Preimage(e)) == e.hash
  }

  function ScanRec(s: Scan, cap: nat, e: Entry): Scan {
    Scan(Replayed(e.seqNo, e.hash, if cap > 0 then Push(s.acc.ring, cap, e) else s.acc.ring, s.acc.entries + 1,
                  if s.expected.None? then e.seqNo else s.acc.firstSeq, e.seqNo),
         e.hash, Some(WrapSucc(e.seqNo)))
  }

  /** The accumulators describe the lines read so far, all of them acceptable. */
  ghost predicate Tracks(mac: Bytes -> Hash, seen: File, cap: nat, s: Scan) {
    && Accepts(mac, seen)
    && s.acc == Summary(Entries(seen), cap)
    && s.prev == s.acc.lastHash
    && s.expected == if s.acc.entries == 0 then None else Some(WrapSucc(s.acc.lastSeq))
  }

  lemma TracksBlank(mac: Bytes -> Hash, seen: File, cap: nat, s: Scan)
    requires Tracks(mac, seen, cap, s)
    ensures Tracks(mac, seen + [Blank], cap, s)
  {
    EntriesStep(seen, Blank);
  }

  /** The three comparisons made on a record are the link condition. */
  lemma TracksRec(mac: Bytes -> Hash, seen: File, cap: nat, s: Scan, e: Entry)
    requires Tracks(mac, seen, cap, s)
    ensures LinkOk(mac, s, e) <==> Links(mac, Entries(seen), e)
    ensures LinkOk(mac, s, e) ==> Tracks(mac, seen + [Rec(e)], cap, ScanRec(s, cap, e))
  {
    var es := Entries(seen);
    EntriesStep(seen, Rec(e));
    ChainedStep(mac, es, e);
    if cap > 0 {
      TailPush(es, cap, e);
    } else {
      assert Tail(es, 0) == [] == Tail(es + [e], 0);
    }
  }

  /** One line of a segment file: skip it, fold it in, or say why it is refused. */
  method ReplayLine(files: seq<File>, i: nat, j: nat, mac: Bytes -> Hash, cap: nat, s0: Scan)
    returns (err: Option<VerifyError>, s: Scan)
    requires i < |files| && j < |files[i]|
    requires Tracks(mac, UpTo(files, i, j), cap, s0)
    ensures err.None? ==> Tracks(mac, UpTo(files, i, j + 1), cap, s)
    ensures err.Some? ==> FaultAt(mac, files, i, j, err.value)
  {
    err, s := None, s0;
    UpToStep(files, i, j);
    match files[i][j] {
      case Blank =>
        TracksBlank(mac, UpTo(files, i, j), cap, s);
      case Malformed =>
        err := Some(MalformedAt(i, j + 1));
      case Unreadable =>
        err := Some(Io);
      case Rec(e) =>
        TracksRec(mac, UpTo(files, i, j), cap, s, e);
        if LinkOk(mac, s, e) {
          s := ScanRec(s, cap, e);
        } else {
          err := Some(ChainBreak(e.seqNo));
        }
    }
  }

  /**
   Reads and verifies the chain across `files`: succeeds exactly on the accepted contents,
   reports their summary, and otherwise names the first line at fault.
   */
  method Replay(files: seq<File>, mac: Bytes -> Hash, cap: nat) returns (r: Result<Replayed, VerifyError>)
    ensures r.Ok? <==> Accepts(mac, Flatten(files))
    ensures r.Ok? ==> r.value == Summary(Entries(Flatten(files)), cap)
    ensures r.Err? ==> exists i, j :: FaultAt(mac, files, i, j, r.error)
  {
    var s := Scan(Replayed(0, GENESIS, [], 0, 0, 0), GENESIS, None);
    for i := 0 to |files|
      invariant Tracks(mac, Flatten(files[..i]), cap, s)
    {
      UpToBounds(files, i);
      for j := 0 to |files[i]|
        invariant Tracks(mac, UpTo(files, i, j), cap, s)
      {
        var err;
        err, s := ReplayLine(files, i, j, mac, cap, s);
        if err.Some? {
          FaultInFiles(mac, files, i, j, err.value);
          return Err(err.value);
        }
      }
    }
    assert files[..|files|] == files;
    return Ok(s.acc);
  }

  lemma LinesAround(a: File, f: File, j: nat, c: File)
    requires j < |f|
    ensures (a + f) + c == (a + f[..j]) + [f[j]] + (f[j + 1..] + c)
  {
    assert f == f[..j] + [f[j]] + f[j + 1..];
  }

  lemma FaultInFiles(mac: Bytes -> Hash, files: seq<File>, i: nat, j: nat, err: VerifyError)
    requires FaultAt(mac, files, i, j, err)
    ensures !Accepts(mac, Flatten(files))
  {
    FlattenSplit(files, i + 1);
    UpToBounds(files, i);
    LinesAround(Flatten(files[..i]), files[i], j, Flatten(files[i + 1..]));
    assert files[i][..|files[i]|] == files[i];
    FaultRejects(mac, UpTo(files, i, j), files[i][j], files[i][j + 1..] + Flatten(files[i + 1..]));
  }
}
