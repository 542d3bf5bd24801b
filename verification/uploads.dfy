/**
 * The upload side (uploadHandler, main.go:388-470): the parts of the multipart field "files"
 * are saved one after the other into the working directory. A part whose destination already
 * stats stops the batch with 409 and is never overwritten; the parts before it stay saved and
 * the parts after it are not looked at. Every part is copied through one reused 1 MiB buffer.
 */
module Uploads {
  import opened Common
  import opened Text
  import opened FilePath
  import opened Files

  /** The size of the copy buffer, make([]byte, 1024*1024). */
  const Chunk: nat := 1024 * 1024

  /** What the environment makes go wrong with one part. */
  datatype Fault =
    | NoFault
      /** fileHeader.Open fails. */
    | OpenFault
      /** os.Create fails. */
    | CreateFault
      /** The Read call numbered `call` (from 0) of the copy loop, or the Write of its bytes, fails. */
    | CopyFault(call: nat)

  /** One part of the "files" field: the file name the client sent and the bytes it carries. */
  datatype Part = Part(filename: string, content: seq<byte>, fault: Fault)

  /** The handler's answers; the per-part ones carry the part's file name, as the messages do. */
  datatype Reply =
    | MethodNotAllowed
    | BadForm
    | NoFiles
    | MkdirFailed
    | OpenFailed(name: string)
    | Conflict(name: string)
    | CreateFailed(name: string)
    | CopyFailed(name: string)
    | Uploaded(names: seq<string>)

  /** The HTTP status of a reply: 200 only for a batch saved in full, 409 only for an existing destination. */
  function Status(reply: Reply): (code: int)
    ensures code == 200 <==> reply.Uploaded?
    ensures code == 409 <==> reply.Conflict?
    ensures code == 405 <==> reply.MethodNotAllowed?
    ensures code == 400 <==> reply.BadForm? || reply.NoFiles?
  {
    match reply
    case MethodNotAllowed => 405
    case BadForm => 400
    case NoFiles => 400
    case Conflict(_) => 409
    case Uploaded(_) => 200
    case _ => 500
  }

  /** The body of the 200 response. */
  function SuccessText(names: seq<string>): string
  {
    "Successfully uploaded " + Decimal(|names|) + " files: " + Join(names, ", ")
  }

  /** filepath.Join(saveDir, fileHeader.Filename). */
  function Dest(wd: string, p: Part): string
  {
    JoinPath(wd, p.filename)
  }

  function Min(a: int, b: int): int
  {
    if a <= b then a else b
  }

  /**
   * What the copy loop leaves in the new file, and whether it reached EOF. Read call `c` happens
   * exactly when the calls before it all returned data, that is when c * Chunk < |content| + Chunk;
   * a fault there leaves the c full chunks before it.
   */
  function Copied(content: seq<byte>, fault: Fault): (r: (seq<byte>, bool))
    ensures |r.0| <= |content| && r.0 == content[..|r.0|]
    ensures r.1 <==> r.0 == content && !(fault.CopyFault? && fault.call * Chunk < |content| + Chunk)
  {
    if fault.CopyFault? && fault.call * Chunk < |content| + Chunk
    then (content[..Min(fault.call * Chunk, |content|)], false)
    else (content, true)
  }

  /** os.MkdirAll(wd): nothing to do for a directory, an error for anything else, a new directory otherwise. */
  function MkdirAll(fs: FileSystem, wd: string): (r: Option<FileSystem>)
    ensures r.None? <==> wd in fs && !fs[wd].Dir?
    ensures r.Some? ==> wd in r.value && r.value[wd].Dir?
    ensures r.Some? ==> forall p :: p in fs && p != wd ==> p in r.value && r.value[p] == fs[p]
  {
    if wd in fs then (if fs[wd].Dir? then Some(fs) else None)
    else Some(fs[wd := Dir])
  }

  /** A part together with the path it is saved to. */
  datatype Target = Target(dest: string, part: Part)

  /** The parts of the batch with their destinations, in order. */
  function Targets(wd: string, parts: seq<Part>): (ts: seq<Target>)
    ensures |ts| == |parts|
    ensures forall i :: 0 <= i < |parts| ==> ts[i] == Target(Dest(wd, parts[i]), parts[i])
  {
    if parts == [] then [] else Targets(wd, parts[..|parts| - 1]) + [Target(Dest(wd, parts[|parts| - 1]), parts[|parts| - 1])]
  }

  /** The state of the batch: the filesystem, the names saved so far, and the reply that stopped it. */
  datatype Run = Run(fs: FileSystem, saved: seq<string>, stop: Option<Reply>)

  /** One turn of the loop: open the part, refuse an existing destination, create, copy. */
  function SavePart(r: Run, t: Target): Run
  {
    var p := t.part;
    if p.fault == OpenFault then r.(stop := Some(OpenFailed(p.filename)))
    else if StatOk(r.fs, t.dest) then r.(stop := Some(Conflict(p.filename)))
    else if p.fault == CreateFault then r.(stop := Some(CreateFailed(p.filename)))
    else
      var copied := Copied(p.content, p.fault);
      var fs := r.fs[t.dest := File(copied.0, true)];
      if copied.1 then Run(fs, r.saved + [p.filename], None)
      else Run(fs, r.saved, Some(CopyFailed(p.filename)))
  }

  /** The loop over the targets, which ends at the first one that stops it. */
  function Batch(fs: FileSystem, ts: seq<Target>): Run
  {
    if ts == [] then Run(fs, [], None)
    else
      var r := Batch(fs, ts[..|ts| - 1]);
      if r.stop.Some? then r else SavePart(r, ts[|ts| - 1])
  }

  /**
   * uploadHandler on the filesystem `fs`: `form` is what ParseMultipartForm yields (None when
   * it fails); the result is the new filesystem and the reply.
   */
  function UploadSpec(fs: FileSystem, wd: string, httpMethod: string, form: Option<seq<Part>>): (FileSystem, Reply)
  {
    if httpMethod != "POST" then (fs, MethodNotAllowed)
    else if form.None? then (fs, BadForm)
    else if form.value == [] then (fs, NoFiles)
    else
      match MkdirAll(fs, wd)
      case None => (fs, MkdirFailed)
      case Some(fs1) =>
        var r := Batch(fs1, Targets(wd, form.value));
        (r.fs, Answer(r))
  }

  /** The reply to a batch that ran: the failure that stopped it, or the list of saved names. */
  function Answer(r: Run): Reply
  {
    if r.stop.Some? then r.stop.value else Uploaded(r.saved)
  }

  /** The file names of the targets, in order. */
  function Names(ts: seq<Target>): (names: seq<string>)
    ensures |names| == |ts|
    ensures forall i :: 0 <= i < |ts| ==> names[i] == ts[i].part.filename
  {
    if ts == [] then [] else Names(ts[..|ts| - 1]) + [ts[|ts| - 1].part.filename]
  }

  /** The host's filesystem, which the upload handler changes file by file. */
  class Disk {
    var files: FileSystem

    constructor(files: FileSystem)
      ensures this.files == files
    {
      this.files := files;
    }

    /** uploadHandler: saves the parts in order and answers as UploadSpec says. */
    method Upload(wd: string, httpMethod: string, form: Option<seq<Part>>) returns (reply: Reply)
      modifies this
      ensures (files, reply) == UploadSpec(old(files), wd, httpMethod, form)
    {
      if httpMethod != "POST" {
        return MethodNotAllowed;
      }
      if form.None? {
        return BadForm;
      }
      var parts := form.value;
      if |parts| == 0 {
        return NoFiles;
      }
      if wd in files {
        if !files[wd].Dir? {
          return MkdirFailed;
        }
      } else {
        files := files[wd := Dir];
      }
      assert MkdirAll(old(files), wd) == Some(files);
      var uploaded, stop := SaveAll(wd, parts);
      reply := if stop.Some? then stop.value else Uploaded(uploaded);
    }

    /** The loop over the parts: each is saved in turn until one of them fails. */
    method SaveAll(wd: string, parts: seq<Part>) returns (uploaded: seq<string>, stop: Option<Reply>)
      modifies this
      ensures Batch(old(files), Targets(wd, parts)) == Run(files, uploaded, stop)
    {
      ghost var fs0 := files;
      ghost var ts := Targets(wd, parts);
      uploaded, stop := [], None;
      var buf := new byte[Chunk];
      var i := 0;
      while i < |parts| && stop.None?
        invariant 0 <= i <= |parts|
        invariant buf.Length == Chunk
        invariant Batch(fs0, ts[..i]) == Run(files, uploaded, stop)
      {
        BatchNext(fs0, ts, i);
        stop := SaveOne(wd, parts[i], buf, uploaded);
        if stop.None? {
          uploaded := uploaded + [parts[i].filename];
        }
        i := i + 1;
      }
      if stop.Some? {
        BatchStopped(fs0, ts, i);
      } else {
        assert ts[..i] == ts;
      }
    }

    /** One turn of the loop: open the part, refuse an existing destination, create it, copy into it. */
    method SaveOne(wd: string, part: Part, buf: array<byte>, ghost saved: seq<string>) returns (stop: Option<Reply>)
      requires buf.Length == Chunk
      modifies this, buf
      ensures SavePart(Run(old(files), saved, None), Target(Dest(wd, part), part))
        == Run(files, if stop.None? then saved + [part.filename] else saved, stop)
    {
      if part.fault == OpenFault {
        return Some(OpenFailed(part.filename));
      }
      var savePath := JoinPath(wd, part.filename);
      if StatOk(files, savePath) {
        return Some(Conflict(part.filename));
      }
      if part.fault == CreateFault {
        return Some(CreateFailed(part.filename));
      }
      var complete := CopyPart(part, savePath, buf);
      stop := if complete then None else Some(CopyFailed(part.filename));
    }

    /** os.Create(dest) followed by the chunked copy loop, through the reused buffer `buf`. */
    method CopyPart(part: Part, dest: string, buf: array<byte>) returns (complete: bool)
      requires buf.Length == Chunk
      modifies this, buf
      ensures var copied := Copied(part.content, part.fault);
        complete == copied.1 && files == old(files)[dest := File(copied.0, true)]
    {
      var content := part.content;
      files := files[dest := File([], true)];
      var off, call := 0, 0;
      while true
        invariant off == Min(call * Chunk, |content|)
        invariant call * Chunk < |content| + Chunk
        invariant !(part.fault.CopyFault? && part.fault.call < call)
        invariant files == old(files)[dest := File(content[..off], true)]
        decreases |content| - off
      {
        if part.fault == CopyFault(call) {
          return false;
        }
        var n := ReadChunk(content, off, buf);
        if n > 0 {
          files := files[dest := File(files[dest].content + buf[..n], true)];
          assert content[..off] + content[off..off + n] == content[..off + n];
        }
        if n == 0 {
          assert content[..off] == content;
          return true;
        }
        off, call := off + n, call + 1;
      }
    }
  }

  /** file.Read(buf) on the part: the next min(Chunk, what is left) bytes land at the front of `buf`. */
  method ReadChunk(content: seq<byte>, off: nat, buf: array<byte>) returns (n: nat)
    requires off <= |content| && buf.Length == Chunk
    modifies buf
    ensures n == Min(Chunk, |content| - off)
    ensures buf[..n] == content[off..off + n]
  {
    n := Min(Chunk, |content| - off);
    forall j | 0 <= j < n {
      buf[j] := content[off + j];
    }
  }

  // ---------------------------------------------------------------------------------------
  // The batch, one part further

  lemma BatchNext(fs: FileSystem, ts: seq<Target>, i: nat)
    requires i < |ts|
    ensures var r := Batch(fs, ts[..i]);
      Batch(fs, ts[..i + 1]) == if r.stop.Some? then r else SavePart(r, ts[i])
  {
    assert ts[..i + 1][..i] == ts[..i];
  }

  /** Once a part has stopped the batch, the parts after it change nothing. */
  lemma {:induction false} BatchStopped(fs: FileSystem, ts: seq<Target>, k: nat)
    requires k <= |ts|
    requires Batch(fs, ts[..k]).stop.Some?
    ensures Batch(fs, ts) == Batch(fs, ts[..k])
    decreases |ts| - k
  {
    if k < |ts| {
      BatchNext(fs, ts, k);
      BatchStopped(fs, ts, k + 1);
    } else {
      assert ts[..k] == ts;
    }
  }

  /**
   * What one part does: it either stops the batch or is saved with exactly its bytes at a
   * destination that did not stat; no other path changes, and no path that stats changes.
   */
  lemma SavePartEffect(r: Run, t: Target, q: string)
    ensures var r' := SavePart(r, t);
      && (r'.stop.None? ==>
            && r'.saved == r.saved + [t.part.filename]
            && t.dest in r'.fs && r'.fs[t.dest] == File(t.part.content, true)
            && !StatOk(r.fs, t.dest))
      && (r'.stop.Some? ==> r'.saved == r.saved)
      && (q != t.dest || StatOk(r.fs, q) ==> (q in r'.fs <==> q in r.fs) && (q in r.fs ==> r'.fs[q] == r.fs[q]))
  {
  }

  // ---------------------------------------------------------------------------------------
  // What the batch promises

  /** Nothing that stats before the batch is replaced: every part refuses a destination that stats. */
  lemma {:induction false} BatchKeepsExisting(fs: FileSystem, ts: seq<Target>, p: string)
    requires StatOk(fs, p)
    ensures var r := Batch(fs, ts);
      p in r.fs && r.fs[p] == fs[p]
  {
    if ts != [] {
      BatchKeepsExisting(fs, ts[..|ts| - 1], p);
    }
  }

  /** The batch writes no path other than the destinations of its parts. */
  lemma {:induction false} BatchFrame(fs: FileSystem, ts: seq<Target>, p: string)
    requires forall i :: 0 <= i < |ts| ==> p != ts[i].dest
    ensures var r := Batch(fs, ts);
      (p in r.fs <==> p in fs) && (p in fs ==> r.fs[p] == fs[p])
  {
    if ts != [] {
      BatchFrame(fs, ts[..|ts| - 1], p);
    }
  }

  /** The saved names are the first file names in order; the batch saves all parts unless one stops it. */
  lemma {:induction false} BatchSavedNames(fs: FileSystem, ts: seq<Target>)
    ensures var r := Batch(fs, ts);
      && |r.saved| <= |ts|
      && r.saved == Names(ts[..|r.saved|])
      && (r.stop.None? <==> |r.saved| == |ts|)
  {
    if ts != [] {
      var init := ts[..|ts| - 1];
      BatchSavedNames(fs, init);
      var r0 := Batch(fs, init);
      assert init[..|r0.saved|] == ts[..|r0.saved|];
      if r0.stop.None? {
        SavePartEffect(r0, ts[|ts| - 1], []);
        assert ts[..|ts|] == ts;
      }
    }
  }

  /** Every saved part's destination holds exactly its bytes and did not stat before the batch. */
  lemma {:induction false} BatchSavedContent(fs: FileSystem, ts: seq<Target>)
    ensures var r := Batch(fs, ts);
      forall i :: 0 <= i < |r.saved| && i < |ts| ==>
        && ts[i].dest in r.fs && r.fs[ts[i].dest] == File(ts[i].part.content, true)
        && !StatOk(fs, ts[i].dest)
  {
    if ts != [] {
      var init := ts[..|ts| - 1];
      var last := ts[|ts| - 1];
      BatchSavedContent(fs, init);
      BatchSavedNames(fs, init);
      var r0 := Batch(fs, init);
      if StatOk(fs, last.dest) {
        BatchKeepsExisting(fs, init, last.dest);
      }
      SavedContentStep(fs, r0, init, ts);
    }
  }

  /** The step of BatchSavedContent: the last part either stops the batch or is saved beside the earlier ones. */
  lemma SavedContentStep(fs: FileSystem, r0: Run, init: seq<Target>, ts: seq<Target>)
    requires ts != [] && init == ts[..|ts| - 1]
    requires |r0.saved| <= |init| && (r0.stop.None? ==> |r0.saved| == |init|)
    requires forall i :: 0 <= i < |r0.saved| && i < |init| ==>
      && init[i].dest in r0.fs && r0.fs[init[i].dest] == File(init[i].part.content, true)
      && !StatOk(fs, init[i].dest)
    requires StatOk(fs, ts[|ts| - 1].dest) ==> StatOk(r0.fs, ts[|ts| - 1].dest)
    ensures var r := if r0.stop.Some? then r0 else SavePart(r0, ts[|ts| - 1]);
      forall i :: 0 <= i < |r.saved| && i < |ts| ==>
        && ts[i].dest in r.fs && r.fs[ts[i].dest] == File(ts[i].part.content, true)
        && !StatOk(fs, ts[i].dest)
  {
    var last := ts[|ts| - 1];
    var r := if r0.stop.Some? then r0 else SavePart(r0, last);
    forall i | 0 <= i < |r.saved| && i < |ts|
      ensures ts[i].dest in r.fs && r.fs[ts[i].dest] == File(ts[i].part.content, true)
      ensures !StatOk(fs, ts[i].dest)
    {
      if i < |init| {
        assert ts[i] == init[i];
        if r0.stop.None? {
          SavePartEffect(r0, last, ts[i].dest);
        }
      } else {
        SavePartEffect(r0, last, []);
      }
    }
  }

  /** The saved parts have pairwise different destinations. */
  lemma {:induction false} BatchSavedDistinct(fs: FileSystem, ts: seq<Target>)
    ensures var r := Batch(fs, ts);
      forall i, j :: 0 <= i < j < |r.saved| && j < |ts| ==> ts[i].dest != ts[j].dest
  {
    if ts != [] {
      var init := ts[..|ts| - 1];
      BatchSavedDistinct(fs, init);
      BatchSavedNames(fs, init);
      BatchSavedContent(fs, init);
      SavedDistinctStep(Batch(fs, init), init, ts);
    }
  }

  /** The step of BatchSavedDistinct: the last part, once saved, has a destination no earlier one has. */
  lemma SavedDistinctStep(r0: Run, init: seq<Target>, ts: seq<Target>)
    requires ts != [] && init == ts[..|ts| - 1]
    requires |r0.saved| <= |init| && (r0.stop.None? ==> |r0.saved| == |init|)
    requires forall i :: 0 <= i < |r0.saved| && i < |init| ==> init[i].dest in r0.fs && r0.fs[init[i].dest].File?
    requires forall i, j :: 0 <= i < j < |r0.saved| && j < |init| ==> init[i].dest != init[j].dest
    ensures var r := if r0.stop.Some? then r0 else SavePart(r0, ts[|ts| - 1]);
      forall i, j :: 0 <= i < j < |r.saved| && j < |ts| ==> ts[i].dest != ts[j].dest
  {
    var last := ts[|ts| - 1];
    var r := if r0.stop.Some? then r0 else SavePart(r0, last);
    SavePartEffect(r0, last, []);
    forall i, j | 0 <= i < j < |r.saved| && j < |ts|
      ensures ts[i].dest != ts[j].dest
    {
      assert ts[i] == init[i];
      if j < |init| {
        assert ts[j] == init[j];
      } else {
        assert StatOk(r0.fs, init[i].dest);
      }
    }
  }

  /** A batch that stops does so at the part after the saved ones, on the state the saved ones left. */
  lemma {:induction false} BatchStopIndex(fs: FileSystem, ts: seq<Target>)
    requires Batch(fs, ts).stop.Some?
    ensures var r := Batch(fs, ts);
      var k := |r.saved|;
      && k < |ts|
      && Batch(fs, ts[..k]).stop.None?
      && r == SavePart(Batch(fs, ts[..k]), ts[k])
  {
    var init := ts[..|ts| - 1];
    var r0 := Batch(fs, init);
    if r0.stop.Some? {
      assert Batch(fs, ts) == r0;
      BatchStopIndex(fs, init);
      var k := |r0.saved|;
      assert init[..k] == ts[..k] && init[k] == ts[k];
    } else {
      assert Batch(fs, ts) == SavePart(r0, ts[|ts| - 1]);
      BatchSavedNames(fs, init);
      SavePartEffect(r0, ts[|ts| - 1], []);
      assert |r0.saved| == |init|;
    }
  }

  /** A part whose destination stats before the batch is never passed: the batch stops there at the latest. */
  lemma BatchExistingDestStops(fs: FileSystem, ts: seq<Target>, j: nat)
    requires j < |ts| && StatOk(fs, ts[j].dest)
    ensures var r := Batch(fs, ts);
      && r.stop.Some? && |r.saved| <= j
      && (|r.saved| == j ==>
            r.stop.value == (if ts[j].part.fault == OpenFault then OpenFailed(ts[j].part.filename)
                             else Conflict(ts[j].part.filename)))
  {
    BatchSavedNames(fs, ts);
    BatchSavedContent(fs, ts);
    var r := Batch(fs, ts);
    if |r.saved| == j {
      BatchStopIndex(fs, ts);
      BatchKeepsExisting(fs, ts[..j], ts[j].dest);
    }
  }

  /**
   * Two parts with the same destination are never both saved: the batch stops at the second at
   * the latest, and when it reaches the second, that part conflicts (or fails to open).
   */
  lemma BatchRepeatedDestStops(fs: FileSystem, ts: seq<Target>, i: nat, j: nat)
    requires i < j < |ts| && ts[i].dest == ts[j].dest
    ensures var r := Batch(fs, ts);
      && r.stop.Some? && |r.saved| <= j
      && (|r.saved| == j ==>
            r.stop.value == (if ts[j].part.fault == OpenFault then OpenFailed(ts[j].part.filename)
                             else Conflict(ts[j].part.filename)))
  {
    BatchSavedNames(fs, ts);
    BatchSavedDistinct(fs, ts);
    var r := Batch(fs, ts);
    if |r.saved| == j {
      BatchStopIndex(fs, ts);
      RepeatedDestStats(fs, ts, i, j);
    }
  }

  /** When the batch reaches part `j` unstopped, an earlier part's saved destination stats. */
  lemma RepeatedDestStats(fs: FileSystem, ts: seq<Target>, i: nat, j: nat)
    requires i < j < |ts|
    requires Batch(fs, ts[..j]).stop.None?
    ensures StatOk(Batch(fs, ts[..j]).fs, ts[i].dest)
  {
    var init := ts[..j];
    BatchSavedNames(fs, init);
    BatchSavedContent(fs, init);
    assert init[i] == ts[i];
  }

  /**
   * A batch that is not stopped has saved every part: the names in order, each destination with
   * exactly its part's bytes, none of which stated before, all different.
   */
  lemma BatchSucceeds(fs: FileSystem, ts: seq<Target>)
    requires Batch(fs, ts).stop.None?
    ensures var r := Batch(fs, ts);
      && r.saved == Names(ts)
      && (forall i :: 0 <= i < |ts| ==>
            ts[i].dest in r.fs && r.fs[ts[i].dest] == File(ts[i].part.content, true) && !StatOk(fs, ts[i].dest))
      && (forall i, j :: 0 <= i < j < |ts| ==> ts[i].dest != ts[j].dest)
  {
    BatchSavedNames(fs, ts);
    BatchSavedContent(fs, ts);
    BatchSavedDistinct(fs, ts);
    assert ts[..|ts|] == ts;
  }

  /** A stopped batch answers with the failure of one part, which carries that part's file name. */
  lemma BatchFailure(fs: FileSystem, ts: seq<Target>)
    requires Batch(fs, ts).stop.Some?
    ensures var r := Batch(fs, ts);
      var reply := r.stop.value;
      && |r.saved| < |ts|
      && (reply.OpenFailed? || reply.Conflict? || reply.CreateFailed? || reply.CopyFailed?)
      && reply.name == ts[|r.saved|].part.filename
  {
    BatchStopIndex(fs, ts);
  }

  /** A stopped batch writes no path other than the destinations of the saved parts and the part that stopped it. */
  lemma BatchStopFrame(fs: FileSystem, ts: seq<Target>, p: string)
    requires Batch(fs, ts).stop.Some?
    requires var k := |Batch(fs, ts).saved|;
      forall i :: 0 <= i <= k && i < |ts| ==> p != ts[i].dest
    ensures var r := Batch(fs, ts);
      (p in r.fs <==> p in fs) && (p in fs ==> r.fs[p] == fs[p])
  {
    var k := |Batch(fs, ts).saved|;
    BatchStopIndex(fs, ts);
    BatchNext(fs, ts, k);
    BatchStopped(fs, ts, k + 1);
    BatchFrame(fs, ts[..k + 1], p);
  }

  // ---------------------------------------------------------------------------------------
  // What the handler promises

  /** A POST with a non-empty form whose directory can be made runs the batch over its parts. */
  lemma UploadRuns(fs: FileSystem, wd: string, parts: seq<Part>)
    requires parts != [] && MkdirAll(fs, wd).Some?
    ensures var r := Batch(MkdirAll(fs, wd).value, Targets(wd, parts));
      UploadSpec(fs, wd, "POST", Some(parts)) == (r.fs, Answer(r))
  {
  }

  /** An upload never replaces a path that stats: no file and no directory is overwritten. */
  lemma UploadNeverReplaces(fs: FileSystem, wd: string, httpMethod: string, form: Option<seq<Part>>, p: string)
    requires StatOk(fs, p)
    ensures var fs' := UploadSpec(fs, wd, httpMethod, form).0;
      p in fs' && fs'[p] == fs[p]
  {
    if httpMethod == "POST" && form.Some? && form.value != [] && MkdirAll(fs, wd).Some? {
      var fs1 := MkdirAll(fs, wd).value;
      assert p in fs1 && fs1[p] == fs[p];
      UploadRuns(fs, wd, form.value);
      BatchKeepsExisting(fs1, Targets(wd, form.value), p);
    }
  }

  /** An upload changes no path but the working directory and the destinations of its parts. */
  lemma UploadFrame(fs: FileSystem, wd: string, httpMethod: string, form: Option<seq<Part>>, p: string)
    requires p != wd
    requires form.Some? ==> forall i :: 0 <= i < |form.value| ==> p != Dest(wd, form.value[i])
    ensures var fs' := UploadSpec(fs, wd, httpMethod, form).0;
      (p in fs' <==> p in fs) && (p in fs ==> fs'[p] == fs[p])
  {
    if httpMethod == "POST" && form.Some? && form.value != [] && MkdirAll(fs, wd).Some? {
      UploadRuns(fs, wd, form.value);
      BatchFrame(MkdirAll(fs, wd).value, Targets(wd, form.value), p);
    }
  }

  /**
   * 200 is answered only to a POST whose form parsed with at least one part, whose directory
   * could be made, and whose batch ran to the end.
   */
  lemma UploadSucceedsOnlyWhen(fs: FileSystem, wd: string, httpMethod: string, form: Option<seq<Part>>)
    ensures Status(UploadSpec(fs, wd, httpMethod, form).1) == 200 <==>
      && httpMethod == "POST" && form.Some? && form.value != [] && MkdirAll(fs, wd).Some?
      && Batch(MkdirAll(fs, wd).value, Targets(wd, form.value)).stop.None?
  {
    if httpMethod == "POST" && form.Some? && form.value != [] && MkdirAll(fs, wd).Some? {
      UploadRuns(fs, wd, form.value);
      var r := Batch(MkdirAll(fs, wd).value, Targets(wd, form.value));
      if r.stop.Some? {
        BatchFailure(MkdirAll(fs, wd).value, Targets(wd, form.value));
      }
    }
  }

  /**
   * On 200 the reply lists the file names in upload order, each destination holds exactly its
   * part's bytes, no destination stated before, and no two parts share a destination.
   */
  lemma UploadSavesAll(fs: FileSystem, wd: string, parts: seq<Part>)
    requires UploadSpec(fs, wd, "POST", Some(parts)).1.Uploaded?
    ensures var (fs', reply) := UploadSpec(fs, wd, "POST", Some(parts));
      && reply.names == Names(Targets(wd, parts))
      && (forall i :: 0 <= i < |parts| ==>
            && Dest(wd, parts[i]) in fs' && fs'[Dest(wd, parts[i])] == File(parts[i].content, true)
            && !StatOk(fs, Dest(wd, parts[i])))
      && (forall i, j :: 0 <= i < j < |parts| ==> Dest(wd, parts[i]) != Dest(wd, parts[j]))
  {
    var ts := Targets(wd, parts);
    UploadSucceedsOnlyWhen(fs, wd, "POST", Some(parts));
    var fs1 := MkdirAll(fs, wd).value;
    UploadRuns(fs, wd, parts);
    BatchSucceeds(fs1, ts);
    forall i | 0 <= i < |parts| ensures !StatOk(fs, Dest(wd, parts[i])) {
      assert !StatOk(fs1, ts[i].dest);
    }
  }

  /**
   * When a part stops the upload (it cannot be opened, its destination stats, it cannot be
   * created, or its copy fails), the reply names that part and every part before it is saved
   * with its bytes.
   */
  lemma UploadStopsAtPart(fs: FileSystem, wd: string, parts: seq<Part>)
    requires parts != [] && MkdirAll(fs, wd).Some?
    requires Batch(MkdirAll(fs, wd).value, Targets(wd, parts)).stop.Some?
    ensures var (fs', reply) := UploadSpec(fs, wd, "POST", Some(parts));
      var k := |Batch(MkdirAll(fs, wd).value, Targets(wd, parts)).saved|;
      && k < |parts|
      && (reply.OpenFailed? || reply.Conflict? || reply.CreateFailed? || reply.CopyFailed?)
      && reply.name == parts[k].filename
      && (forall i :: 0 <= i < k ==>
            Dest(wd, parts[i]) in fs' && fs'[Dest(wd, parts[i])] == File(parts[i].content, true))
  {
    var fs1 := MkdirAll(fs, wd).value;
    var ts := Targets(wd, parts);
    UploadRuns(fs, wd, parts);
    BatchFailure(fs1, ts);
    BatchSavedContent(fs1, ts);
  }

  /**
   * Nothing past the part that stops the upload is written: a path that is neither the working
   * directory nor the destination of that part or an earlier one is unchanged.
   */
  lemma UploadStopsBeforeLaterParts(fs: FileSystem, wd: string, parts: seq<Part>, p: string)
    requires parts != [] && MkdirAll(fs, wd).Some?
    requires Batch(MkdirAll(fs, wd).value, Targets(wd, parts)).stop.Some?
    requires var k := |Batch(MkdirAll(fs, wd).value, Targets(wd, parts)).saved|;
      p != wd && forall i :: 0 <= i <= k && i < |parts| ==> p != Dest(wd, parts[i])
    ensures var fs' := UploadSpec(fs, wd, "POST", Some(parts)).0;
      (p in fs' <==> p in fs) && (p in fs ==> fs'[p] == fs[p])
  {
    var fs1 := MkdirAll(fs, wd).value;
    var ts := Targets(wd, parts);
    UploadRuns(fs, wd, parts);
    BatchStopFrame(fs1, ts, p);
  }

  /**
   * A part whose destination stats before the upload is never saved: the upload fails there at
   * the latest, and with 409 when every part before it was saved and it can be opened.
   */
  lemma UploadExistingDestination(fs: FileSystem, wd: string, parts: seq<Part>, j: nat)
    requires j < |parts| && StatOk(fs, Dest(wd, parts[j]))
    ensures var reply := UploadSpec(fs, wd, "POST", Some(parts)).1;
      && !reply.Uploaded?
      && ((MkdirAll(fs, wd).Some? && |Batch(MkdirAll(fs, wd).value, Targets(wd, parts)).saved| == j
           && parts[j].fault != OpenFault) ==> reply == Conflict(parts[j].filename))
  {
    if MkdirAll(fs, wd).Some? {
      var fs1 := MkdirAll(fs, wd).value;
      var ts := Targets(wd, parts);
      UploadRuns(fs, wd, parts);
      assert StatOk(fs1, ts[j].dest);
      BatchExistingDestStops(fs1, ts, j);
      BatchFailure(fs1, ts);
    }
  }

  /**
   * Two parts with the same file name (or any two names that join to the same path) are never
   * both saved: the upload fails at the second one at the latest, and when it gets there with
   * the part opened, the answer is 409 naming it.
   */
  lemma UploadRepeatedName(fs: FileSystem, wd: string, parts: seq<Part>, i: nat, j: nat)
    requires i < j < |parts| && Dest(wd, parts[i]) == Dest(wd, parts[j])
    ensures !UploadSpec(fs, wd, "POST", Some(parts)).1.Uploaded?
    ensures MkdirAll(fs, wd).Some? ==> |Batch(MkdirAll(fs, wd).value, Targets(wd, parts)).saved| <= j
    ensures (MkdirAll(fs, wd).Some? && |Batch(MkdirAll(fs, wd).value, Targets(wd, parts)).saved| == j
             && parts[j].fault != OpenFault) ==>
      UploadSpec(fs, wd, "POST", Some(parts)).1 == Conflict(parts[j].filename)
  {
    if MkdirAll(fs, wd).Some? {
      var fs1 := MkdirAll(fs, wd).value;
      var ts := Targets(wd, parts);
      UploadRuns(fs, wd, parts);
      BatchRepeatedDestStops(fs1, ts, i, j);
      BatchFailure(fs1, ts);
    }
  }
}
