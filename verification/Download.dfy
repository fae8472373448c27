/**
  The resumable payload download (updater/src/lib.rs): `.part` and `.progress` are rewritten step by step, and
  the process may die between any two steps. A call is described by the list of file states it passes through;
  a crash leaves any one of them.
 */
module Download {
  import opened Basics
  import opened Decimal
  import opened Fetch

  /** `progress` is absent when the file is missing or not UTF-8. */
  datatype Files = Files(part: Option<Bytes>, progress: Option<string>, payload: Option<Bytes>)

  datatype Env = Env(
    manifestOk: bool,
    server: Server,
    cancelledAfterFetch: bool,
    cancelledBeforeCheck: bool)

  datatype CallError = BadManifest | FetchFailed(error: FetchError) | CallCancelled | HashMismatch

  /** `fs::metadata(part).len()`, and the bytes behind it. */
  function PartBytes(f: Files): Bytes {
    if f.part.Some? then f.part.value else []
  }

  function Progress(f: Files): Option<nat> {
    if f.progress.Some? then ParseU64(f.progress.value) else None
  }

  function ResumeOffset(f: Files): (offset: nat)
    ensures offset <= |PartBytes(f)|
  {
    var len := |PartBytes(f)|;
    match Progress(f)
    case None => len
    case Some(n) => if n < len then n else len
  }

  function Truncated(f: Files): Files {
    var offset := ResumeOffset(f);
    if offset < |PartBytes(f)| then f.(part := Some(PartBytes(f)[..offset])) else f
  }

  lemma TruncatedBytes(f: Files)
    ensures PartBytes(Truncated(f)) == PartBytes(f)[..ResumeOffset(f)]
  {
  }

  /** `File::create` empties the file, then the bytes arrive in order. */
  function PartWrites(f: Files, bytes: Bytes): (r: seq<Files>)
    ensures |r| == |bytes| + 1 && forall i | 0 <= i <= |bytes| :: r[i] == f.(part := Some(bytes[..i]))
  {
    seq(|bytes| + 1, i requires 0 <= i <= |bytes| => f.(part := Some(bytes[..i])))
  }

  function PartAppends(f: Files, bytes: Bytes): (r: seq<Files>)
    ensures |r| == |bytes| + 1 && forall i | 0 <= i <= |bytes| :: r[i] == f.(part := Some(PartBytes(f) + bytes[..i]))
  {
    seq(|bytes| + 1, i requires 0 <= i <= |bytes| => f.(part := Some(PartBytes(f) + bytes[..i])))
  }

  function ProgressWrites(f: Files, text: string): (r: seq<Files>)
    ensures |r| == |text| + 1 && forall i | 0 <= i <= |text| :: r[i] == f.(progress := Some(text[..i]))
  {
    seq(|text| + 1, i requires 0 <= i <= |text| => f.(progress := Some(text[..i])))
  }

  /** The states in which `.part` grows or is rewritten. */
  function Stores(f: Files, fetched: Fetched): (r: seq<Files>)
    ensures r != []
  {
    if fetched.append && |PartBytes(f)| > 0 then PartAppends(f, fetched.bytes) else PartWrites(f, fetched.bytes)
  }

  function Last(states: seq<Files>): Files
    requires states != []
  {
    states[|states| - 1]
  }

  datatype Trace = Trace(states: seq<Files>, result: Result<(), CallError>)

  /** `download_resumable_payload`: truncate, fetch, store, record the length. */
  function Resume(f: Files, env: Env): (t: Trace)
    ensures t.states != []
  {
    var start := Truncated(f);
    match FetchFrom(env.server, 0, ResumeOffset(f), false)
    case Err(e) => Trace([start], Err(FetchFailed(e)))
    case Ok(fetched) =>
      if env.cancelledAfterFetch then Trace([start], Err(CallCancelled))
      else
        var stored := Stores(start, fetched);
        var recorded := ProgressWrites(Last(stored), ToDecimal(|PartBytes(Last(stored))|));
        Trace([start] + stored + recorded, Ok(()))
  }

  /** `download_patch_files`: resume, check the hash, rename into place, forget the progress. */
  function Call(f: Files, env: Env, sha256: Bytes -> string, expected: string): (t: Trace)
    ensures t.states != [] && t.states[0] == f
  {
    if !env.manifestOk then Trace([f], Err(BadManifest))
    else
      var resumed := Resume(f, env);
      var states, end := [f] + resumed.states, Last(resumed.states);
      if resumed.result.Err? then Trace(states, resumed.result)
      else if env.cancelledBeforeCheck then Trace(states, Err(CallCancelled))
      else if sha256(PartBytes(end)) != expected then Trace(states, Err(HashMismatch))
      else
        var renamed := end.(part := None, payload := Some(PartBytes(end)));
        Trace(states + [renamed, renamed.(progress := None)], Ok(()))
  }

  // ---------------------------------------------------------------- the code

  class Downloads {
    var part: Option<Bytes>
    var progress: Option<string>
    var payload: Option<Bytes>
    /** Every state the files have been in since the object was made. */
    ghost var seen: seq<Files>

    constructor (f: Files)
      ensures Now() == f && seen == [f]
    {
      part, progress, payload := f.part, f.progress, f.payload;
      seen := [f];
    }

    ghost function Now(): Files
      reads this
    {
      Files(part, progress, payload)
    }

    method Observe()
      modifies this`seen
      ensures seen == old(seen) + [Now()]
    {
      seen := seen + [Now()];
    }

    method WritePart(bytes: Bytes)
      modifies this`part, this`seen
      ensures seen == old(seen) + PartWrites(old(Now()), bytes)
      ensures Now() == Last(PartWrites(old(Now()), bytes))
    {
      part := Some([]);
      Observe();
      var i := 0;
      while i < |bytes|
        invariant 0 <= i <= |bytes|
        invariant part == Some(bytes[..i])
        invariant progress == old(progress) && payload == old(payload)
        invariant seen == old(seen) + PartWrites(old(Now()), bytes)[..i + 1]
      {
        assert bytes[..i + 1] == bytes[..i] + [bytes[i]];
        part := Some(part.value + [bytes[i]]);
        Observe();
        i := i + 1;
      }
    }

    method AppendPart(bytes: Bytes)
      requires part.Some?
      modifies this`part, this`seen
      ensures seen == old(seen) + PartAppends(old(Now()), bytes)
      ensures Now() == Last(PartAppends(old(Now()), bytes))
    {
      Observe();
      var i := 0;
      assert old(part).value + bytes[..0] == old(part).value;
      while i < |bytes|
        invariant 0 <= i <= |bytes|
        invariant part == Some(old(part).value + bytes[..i])
        invariant progress == old(progress) && payload == old(payload)
        invariant seen == old(seen) + PartAppends(old(Now()), bytes)[..i + 1]
      {
        assert old(part).value + bytes[..i + 1] == old(part).value + bytes[..i] + [bytes[i]];
        part := Some(part.value + [bytes[i]]);
        Observe();
        i := i + 1;
      }
    }

    method WriteProgress(text: string)
      modifies this`progress, this`seen
      ensures seen == old(seen) + ProgressWrites(old(Now()), text)
      ensures Now() == Last(ProgressWrites(old(Now()), text))
    {
      progress := Some("");
      Observe();
      var i := 0;
      while i < |text|
        invariant 0 <= i <= |text|
        invariant progress == Some(text[..i])
        invariant part == old(part) && payload == old(payload)
        invariant seen == old(seen) + ProgressWrites(old(Now()), text)[..i + 1]
      {
        assert text[..i + 1] == text[..i] + [text[i]];
        progress := Some(progress.value + [text[i]]);
        Observe();
        i := i + 1;
      }
    }

    method PrepareOffset() returns (offset: nat)
      modifies this`part, this`seen
      ensures offset == ResumeOffset(old(Now())) && Now() == Truncated(old(Now()))
      ensures seen == old(seen) + [Now()]
    {
      var partLen := if part.Some? then |part.value| else 0;
      var recorded := if progress.Some? then ParseU64(progress.value) else None;
      offset := partLen;
      if recorded.Some? && recorded.value < partLen {
        offset := recorded.value;
      }
      if offset < partLen {
        part := Some(part.value[..offset]);
      }
      Observe();
    }

    method DownloadResumablePayload(env: Env) returns (r: Result<(), CallError>)
      modifies this`part, this`progress, this`seen
      ensures r == Resume(old(Now()), env).result
      ensures seen == old(seen) + Resume(old(Now()), env).states
      ensures Now() == Last(Resume(old(Now()), env).states)
    {
      hide PartWrites, PartAppends, ProgressWrites, FetchFrom, ToDecimal, ResumeOffset, Truncated;
      TruncatedBytes(Now());
      var offset := PrepareOffset();
      var fetched := DownloadBytesFromWithCancel(env.server, offset);
      if fetched.Err? { return Err(FetchFailed(fetched.error)); }
      if env.cancelledAfterFetch { return Err(CallCancelled); }
      if fetched.value.append && offset > 0 {
        AppendPart(fetched.value.bytes);
      } else {
        WritePart(fetched.value.bytes);
      }
      var written := if part.Some? then |part.value| else 0;
      WriteProgress(ToDecimal(written));
      return Ok(());
    }

    method DownloadPatchFiles(env: Env, sha256: Bytes -> string, expected: string) returns (r: Result<(), CallError>)
      modifies this
      ensures r == Call(old(Now()), env, sha256, expected).result
      ensures seen == old(seen) + Call(old(Now()), env, sha256, expected).states[1..]
      ensures Now() == Last(Call(old(Now()), env, sha256, expected).states)
    {
      hide Resume;
      if !env.manifestOk { return Err(BadManifest); }
      r := DownloadResumablePayload(env);
      if r.Err? { return; }
      var bytes := if part.Some? then part.value else [];
      if env.cancelledBeforeCheck { return Err(CallCancelled); }
      if sha256(bytes) != expected { return Err(HashMismatch); }
      payload := Some(bytes);
      part := None;
      Observe();
      progress := None;
      Observe();
      return Ok(());
    }
  }
}
