/** What the resumable download guarantees across crashes, and that it repairs itself. */
module ResumeSafety {
  import opened Basics
  import opened Decimal
  import opened Fetch
  import opened Download

  // ---------------------------------------------------------------- no wrong byte is kept

  /** The bytes that are on record as received: all of `.part`, unless `.progress` holds a smaller number. */
  function Kept(f: Files): Bytes {
    match Progress(f)
    case Some(n) => if n < |PartBytes(f)| then PartBytes(f)[..n] else PartBytes(f)
    case None => PartBytes(f)
  }

  /** A call continues from those, and drops the others. */
  lemma KeptIsResumed(f: Files)
    ensures ResumeOffset(f) == |Kept(f)| && PartBytes(f)[..ResumeOffset(f)] == Kept(f)
    ensures PartBytes(Truncated(f)) == Kept(f)
    ensures Truncated(f).progress == f.progress && Truncated(f).payload == f.payload
  {
    assert PartBytes(f)[..|PartBytes(f)|] == PartBytes(f);
  }

  /** With the length of `kept` on record, also inside white space, whatever follows `kept` is cut off. */
  lemma StaleBytesAreDropped(f: Files, kept: Bytes, stale: Bytes, left: string, right: string)
    requires f.part == Some(kept + stale) && |kept| < 0x1_0000_0000_0000_0000
    requires f.progress == Some(left + ToDecimal(|kept|) + right) && Blank(left) && Blank(right)
    ensures ResumeOffset(f) == |kept| && Truncated(f) == f.(part := Some(kept)) && Kept(f) == kept
  {
    hide ToDecimal, ParseU64, Blank;
    PaddedRoundTrip(left, |kept|, right);
    assert (kept + stale)[..|kept|] == kept;
    assert stale == [] ==> kept + stale == kept;
  }

  /** With no number on record, or one that is not smaller, all of `.part` stays. */
  lemma NothingIsDropped(f: Files)
    requires Progress(f).None? || Progress(f).value >= |PartBytes(f)|
    ensures ResumeOffset(f) == |PartBytes(f)| && Truncated(f) == f && Kept(f) == PartBytes(f)
  {
  }

  /** A 24-byte record and a longer `.part`. */
  lemma TwentyFourBytesAreKept(f: Files, kept: Bytes, stale: Bytes)
    requires f.part == Some(kept + stale) && |kept| == 24 && f.progress == Some("24")
    ensures ResumeOffset(f) == 24 && Truncated(f).part == Some(kept)
  {
    TwentyFour();
    assert "" + "24" + "" == "24";
    StaleBytesAreDropped(f, kept, stale, "", "");
  }

  /** The bytes the next call will build on are the payload's. */
  ghost predicate ResumeSafe(f: Files, payload: Bytes) {
    Kept(f) <= payload
  }

  /** When all of `.part` is the payload's, any content of `.progress` is harmless. */
  lemma PrefixIsSafe(f: Files, payload: Bytes)
    requires PartBytes(f) <= payload
    ensures ResumeSafe(f, payload)
  {
  }

  lemma StoresPrefixes(start: Files, fetched: Fetched, payload: Bytes)
    requires PartBytes(start) <= payload
    requires if fetched.append then 0 < |PartBytes(start)| && fetched.bytes <= payload[|PartBytes(start)|..]
             else fetched.bytes <= payload
    ensures forall s | s in Stores(start, fetched) :: PartBytes(s) <= payload && s.payload == start.payload
  {
    var kept := PartBytes(start);
    assert payload == kept + payload[|kept|..];
    forall s | s in Stores(start, fetched) ensures PartBytes(s) <= payload && s.payload == start.payload {
      var i :| 0 <= i < |Stores(start, fetched)| && Stores(start, fetched)[i] == s;
      assert fetched.bytes[..i] <= fetched.bytes;
    }
  }

  lemma ResumeStoresPrefixes(f: Files, env: Env, payload: Bytes)
    requires SendsContiguous(env.server, payload) && ResumeSafe(f, payload)
    ensures forall s | s in Resume(f, env).states :: PartBytes(s) <= payload && s.payload == f.payload
  {
    hide FetchFrom, Stores, SendsContiguous, ParseU64, ResumeOffset;
    var start := Truncated(f);
    FetchIsContiguous(env.server, 0, ResumeOffset(f), false, payload);
    KeptIsResumed(f);
    var fetched := FetchFrom(env.server, 0, ResumeOffset(f), false);
    if fetched.Ok? && !env.cancelledAfterFetch {
      StoresPrefixes(start, fetched.value, payload);
      var stored := Stores(start, fetched.value);
      assert Last(stored) in stored;
    }
  }

  /**
    Through one call, wherever it is interrupted: the bytes to resume from stay the payload's, and `payload.bin`
    is either untouched or has the announced hash.
   */
  lemma CallIsSafe(f: Files, env: Env, sha256: Bytes -> string, expected: string, payload: Bytes)
    requires SendsContiguous(env.server, payload) && ResumeSafe(f, payload)
    ensures forall s | s in Call(f, env, sha256, expected).states ::
              ResumeSafe(s, payload) && (s.payload == f.payload || (s.payload.Some? && sha256(s.payload.value) == expected))
  {
    hide Resume, SendsContiguous, ResumeOffset;
    ResumeStoresPrefixes(f, env, payload);
    var resumed := Resume(f, env);
    forall s | s in Call(f, env, sha256, expected).states
      ensures ResumeSafe(s, payload) && (s.payload == f.payload || (s.payload.Some? && sha256(s.payload.value) == expected))
    {
      if s != f {
        assert s in resumed.states || s.part.None?;
        PrefixIsSafe(s, payload);
      }
    }
  }

  /** One life of the process: a call, and the point at which it dies (beyond the last state: it does not). */
  datatype Life = Life(env: Env, diesAt: nat)

  function AfterLife(f: Files, life: Life, sha256: Bytes -> string, expected: string): (r: Files)
    ensures r in Call(f, life.env, sha256, expected).states
  {
    var states := Call(f, life.env, sha256, expected).states;
    if life.diesAt < |states| then states[life.diesAt] else states[|states| - 1]
  }

  function AfterLives(f: Files, lives: seq<Life>, sha256: Bytes -> string, expected: string): Files {
    if lives == [] then f
    else AfterLife(AfterLives(f, lives[..|lives| - 1], sha256, expected), lives[|lives| - 1], sha256, expected)
  }

  /**
    Through any number of calls with short bodies, failures, cancellations and crashes at any write, the bytes
    kept for resuming are the payload's, and only bytes with the announced hash are ever put in place.
   */
  lemma {:induction false} NoWrongByteIsKept(f: Files, lives: seq<Life>, sha256: Bytes -> string, expected: string, payload: Bytes)
    requires ResumeSafe(f, payload) && forall life | life in lives :: SendsContiguous(life.env.server, payload)
    ensures var g := AfterLives(f, lives, sha256, expected);
            ResumeSafe(g, payload) && (g.payload == f.payload || (g.payload.Some? && sha256(g.payload.value) == expected))
  {
    hide Call, ResumeSafe;
    if lives != [] {
      var front, last := lives[..|lives| - 1], lives[|lives| - 1];
      NoWrongByteIsKept(f, front, sha256, expected, payload);
      CallIsSafe(AfterLives(f, front, sha256, expected), last.env, sha256, expected, payload);
    }
  }

  // ---------------------------------------------------------------- self-stabilisation

  ghost predicate Undisturbed(env: Env, payload: Bytes) {
    env.manifestOk && !env.cancelledAfterFetch && !env.cancelledBeforeCheck && Conforms(env.server, payload)
  }

  /** `expected` is the hash of the payload and of nothing else. */
  ghost predicate Identifies(sha256: Bytes -> string, expected: string, payload: Bytes) {
    forall b :: sha256(b) == expected <==> b == payload
  }

  /** Did the server continue what was on disk? */
  predicate Continues(f: Files, env: Env) {
    var r := FetchFrom(env.server, 0, ResumeOffset(f), false);
    r.Ok? && r.value.append
  }

  /** What it sent. */
  function Piece(f: Files, env: Env): Bytes {
    var r := FetchFrom(env.server, 0, ResumeOffset(f), false);
    if r.Ok? then r.value.bytes else []
  }

  /** An undisturbed download stores the payload, or what was kept continued by a piece of the rest. */
  lemma ResumeGrows(f: Files, env: Env, payload: Bytes)
    requires Undisturbed(env, payload) && |payload| <= MAX_BODY_BYTES
    ensures var t, o, piece := Resume(f, env), ResumeOffset(f), Piece(f, env);
            && t.result.Ok?
            && (Continues(f, env) ==> 0 < o < |payload| && piece != [] && piece <= payload[o..])
            && PartBytes(Last(t.states)) == (if Continues(f, env) then PartBytes(f)[..o] + piece else payload)
            && Progress(Last(t.states)) == Some(|PartBytes(Last(t.states))|)
            && (Continues(f, env) && ServesWholeRanges(env.server, payload) ==> piece == payload[o..])
  {
    hide FetchFrom, Conforms, ParseU64, ToDecimal, ResumeOffset, Stores, ProgressWrites, ServesWholeRanges;
    ConformingFetch(env.server, ResumeOffset(f), payload);
    var fetched := FetchFrom(env.server, 0, ResumeOffset(f), false).value;
    TruncatedBytes(f);
    StoredBytes(Truncated(f), fetched);
    var stored := Last(Stores(Truncated(f), fetched));
    RecordedBytes(stored, |PartBytes(stored)|);
  }

  lemma StoredBytes(start: Files, fetched: Fetched)
    ensures PartBytes(Last(Stores(start, fetched))) == if fetched.append then PartBytes(start) + fetched.bytes else fetched.bytes
  {
    assert fetched.bytes[..|fetched.bytes|] == fetched.bytes;
  }

  lemma RecordedBytes(f: Files, n: u64)
    ensures Progress(Last(ProgressWrites(f, ToDecimal(n)))) == Some(n)
    ensures PartBytes(Last(ProgressWrites(f, ToDecimal(n)))) == PartBytes(f)
  {
    hide ParseU64, ToDecimal;
    var text := ToDecimal(n);
    ParseRoundTrip(n);
    assert text[..|text|] == text;
  }

  /**
    When a call by itself succeeds: if the server did not continue the file, or if what it continued was right and it
    sent all the rest. A call that fails leaves more bytes to build on, as right or wrong as the ones before it.
   */
  lemma UndisturbedCallIff(f: Files, env: Env, sha256: Bytes -> string, expected: string, payload: Bytes)
    requires Undisturbed(env, payload) && Identifies(sha256, expected, payload) && |payload| <= MAX_BODY_BYTES
    ensures var t, o := Call(f, env, sha256, expected), ResumeOffset(f);
            && (t.result.Ok? <==> (Continues(f, env) ==> ResumeSafe(f, payload) && o + |Piece(f, env)| == |payload|))
            && (t.result.Ok? ==> Last(t.states) == Files(None, None, Some(payload)))
            && (!t.result.Ok? ==>
                  && t.result == Err(HashMismatch) && Continues(f, env)
                  && 0 < o < ResumeOffset(Last(t.states)) == o + |Piece(f, env)| <= |payload|
                  && (ResumeSafe(Last(t.states), payload) <==> ResumeSafe(f, payload)))
  {
    hide Resume, Continues, Undisturbed, Piece;
    assert env.manifestOk && !env.cancelledBeforeCheck by { UndisturbedFlags(env, payload); }
    ResumeGrows(f, env, payload);
    var end, o, piece := Last(Resume(f, env).states), ResumeOffset(f), Piece(f, env);
    KeptIsResumed(f);
    NothingIsDropped(end);
    if Continues(f, env) {
      PieceFits(PartBytes(f)[..o], piece, payload);
      assert PartBytes(end)[..o + |piece|] == PartBytes(end);
    }
    assert sha256(PartBytes(end)) == expected <==> PartBytes(end) == payload;
  }

  lemma PieceFits(kept: Bytes, piece: Bytes, payload: Bytes)
    requires |kept| <= |payload| && piece <= payload[|kept|..]
    ensures kept + piece <= payload <==> kept <= payload
    ensures kept + piece == payload <==> kept <= payload && |kept| + |piece| == |payload|
  {
    assert payload == payload[..|kept|] + payload[|kept|..];
    assert (kept + piece)[..|kept|] == kept;
  }

  lemma UndisturbedFlags(env: Env, payload: Bytes)
    requires Undisturbed(env, payload)
    ensures env.manifestOk && !env.cancelledAfterFetch && !env.cancelledBeforeCheck
  {
  }

  /** Call again until it works: did it, and with which files? */
  function Retry(f: Files, envs: seq<Env>, sha256: Bytes -> string, expected: string): (bool, Files)
    decreases |envs|
  {
    if envs == [] then (false, f)
    else
      var t := Call(f, envs[0], sha256, expected);
      if t.result.Ok? then (true, Last(t.states)) else Retry(Last(t.states), envs[1..], sha256, expected)
  }

  /** One call from nothing or from too much; otherwise one for each missing byte, and one more if the bytes kept are wrong. */
  ghost function CallsNeeded(f: Files, payload: Bytes): nat {
    var o := |Kept(f)|;
    if o == 0 || o >= |payload| then 1 else |payload| - o + (if ResumeSafe(f, payload) then 0 else 1)
  }

  /** From any contents of `.part` and `.progress`, against any conforming servers, that many calls put the payload in place. */
  lemma {:induction false} EnoughCallsSuffice(f: Files, envs: seq<Env>, sha256: Bytes -> string, expected: string, payload: Bytes)
    requires (forall env | env in envs :: Undisturbed(env, payload)) && Identifies(sha256, expected, payload)
    requires |payload| <= MAX_BODY_BYTES && |envs| >= CallsNeeded(f, payload)
    ensures Retry(f, envs, sha256, expected) == (true, Files(None, None, Some(payload)))
    decreases |envs|
  {
    hide Call, Undisturbed, Identifies, ResumeOffset, ResumeSafe, Piece, Kept;
    UndisturbedCallIff(f, envs[0], sha256, expected, payload);
    var t := Call(f, envs[0], sha256, expected);
    KeptIsResumed(f);
    if !t.result.Ok? {
      KeptIsResumed(Last(t.states));
      EnoughCallsSuffice(Last(t.states), envs[1..], sha256, expected, payload);
    }
  }

  /** When the first server sends ranges to their end, at most two calls do, whatever the second one sends. */
  lemma TwoCallsSuffice(f: Files, first: Env, second: Env, sha256: Bytes -> string, expected: string, payload: Bytes)
    requires Undisturbed(first, payload) && ServesWholeRanges(first.server, payload) && Undisturbed(second, payload)
    requires Identifies(sha256, expected, payload) && |payload| <= MAX_BODY_BYTES
    ensures var t := Call(f, first, sha256, expected);
            if t.result.Ok? then Last(t.states) == Files(None, None, Some(payload))
            else var u := Call(Last(t.states), second, sha256, expected);
                 u.result.Ok? && Last(u.states) == Files(None, None, Some(payload))
  {
    hide Call, Resume, Undisturbed, Identifies, ServesWholeRanges, Piece;
    UndisturbedCallIff(f, first, sha256, expected, payload);
    var t := Call(f, first, sha256, expected);
    if !t.result.Ok? {
      ResumeGrows(f, first, payload);
      UndisturbedCallIff(Last(t.states), second, sha256, expected, payload);
      ResumeGrows(Last(t.states), second, payload);
    }
  }

  /** One call repairs a crash that left stale bytes behind the ones on record, when the server sends the range to its end. */
  lemma OneCallAfterACrash(f: Files, kept: Bytes, stale: Bytes, env: Env, sha256: Bytes -> string, expected: string, payload: Bytes)
    requires f.part == Some(kept + stale) && f.progress == Some(ToDecimal(|kept|)) && kept <= payload
    requires Undisturbed(env, payload) && ServesWholeRanges(env.server, payload)
    requires Identifies(sha256, expected, payload) && |payload| <= MAX_BODY_BYTES
    ensures var t := Call(f, env, sha256, expected);
            t.result.Ok? && Last(t.states) == Files(None, None, Some(payload))
  {
    hide Call, Resume, Undisturbed, Identifies, ServesWholeRanges, ToDecimal;
    assert "" + ToDecimal(|kept|) + "" == ToDecimal(|kept|);
    StaleBytesAreDropped(f, kept, stale, "", "");
    UndisturbedCallIff(f, env, sha256, expected, payload);
    ResumeGrows(f, env, payload);
  }

  /** A call that is cancelled, or whose manifest cannot be had, fails and installs nothing. */
  lemma DisturbedCallFails(f: Files, env: Env, sha256: Bytes -> string, expected: string)
    requires !env.manifestOk || env.cancelledAfterFetch || env.cancelledBeforeCheck
    ensures var t := Call(f, env, sha256, expected);
            t.result.Err? && forall s | s in t.states :: s.payload == f.payload
    ensures !env.manifestOk ==> Call(f, env, sha256, expected).states == [f]
  {
    hide FetchFrom, ToDecimal, ResumeOffset;
  }

  // ---------------------------------------------------------------- the bound is reached

  function Whole(payload: Bytes): Reply {
    Response(200, Body(if payload == [] then [] else [payload], true))
  }

  /** A conforming server that answers a range with its first byte only. */
  function DripServer(payload: Bytes): Server {
    Server((attempt, offset: nat) => if offset == 0 then Whole(payload)
                                     else if offset < |payload| then Response(206, Body([[payload[offset]]], true))
                                     else Response(416, Body([], true)),
           (attempt, poll) => false)
  }

  function DripEnv(payload: Bytes): Env { Env(true, DripServer(payload), false, false) }

  lemma DripConforms(payload: Bytes)
    ensures Undisturbed(DripEnv(payload), payload)
  {
    var server := DripServer(payload);
    forall a: nat, offset: nat {:trigger server.reply(a, offset)}
      ensures var r := server.reply(a, offset);
              || Carries(r, 200, payload)
              || (0 < offset < |payload| && CarriesSome(r, payload[offset..]))
              || (offset >= |payload| && offset > 0 && r.Response? && r.status == 416)
    {
      if offset == 0 {
        assert Flatten([payload]) == payload + Flatten([]) == payload;
      } else if offset < |payload| {
        assert Flatten([[payload[offset]]]) == [payload[offset]] + Flatten([]) == [payload[offset]];
        assert payload[offset..][..1] == [payload[offset]];
      }
    }
  }

  lemma DripPiece(f: Files, payload: Bytes)
    requires 0 < ResumeOffset(f) < |payload| <= MAX_BODY_BYTES
    ensures Continues(f, DripEnv(payload)) && |Piece(f, DripEnv(payload))| == 1
  {
    hide ResumeOffset;
    var server, o := DripServer(payload), ResumeOffset(f);
    var body := server.reply(0, o).body;
    ReadsWholeBodyIffSmall(server, 0, body, 1, []);
    assert Flatten(body.chunks) == [payload[o]] + Flatten([]);
    assert [] + Flatten(body.chunks) == Flatten(body.chunks);
  }

  /** Against that server `n` calls succeed if and only if `n` reaches the bound. */
  lemma {:induction false} DripCallsIff(f: Files, n: nat, sha256: Bytes -> string, expected: string, payload: Bytes)
    requires Identifies(sha256, expected, payload) && |payload| <= MAX_BODY_BYTES
    ensures Retry(f, seq(n, _ => DripEnv(payload)), sha256, expected).0 <==> n >= CallsNeeded(f, payload)
    decreases n
  {
    hide Call, Identifies, Undisturbed, Continues, Piece, ResumeOffset, ResumeSafe, DripEnv, Kept;
    KeptIsResumed(f);
    var env := DripEnv(payload);
    var envs := seq(n, _ => env);
    DripConforms(payload);
    if n >= CallsNeeded(f, payload) {
      EnoughCallsSuffice(f, envs, sha256, expected, payload);
    } else if n > 0 {
      DripPiece(f, payload);
      UndisturbedCallIff(f, env, sha256, expected, payload);
      var t := Call(f, env, sha256, expected);
      assert envs[1..] == seq(n - 1, _ => env);
      if !t.result.Ok? {
        KeptIsResumed(Last(t.states));
        DripCallsIff(Last(t.states), n - 1, sha256, expected, payload);
      }
    }
  }

  /** So two calls need not be enough, even from a correct `.part`. */
  lemma TwoCallsNeedNotSuffice(f: Files, sha256: Bytes -> string, expected: string, payload: Bytes)
    requires Identifies(sha256, expected, payload) && |payload| <= MAX_BODY_BYTES
    requires 0 < |Kept(f)| && |Kept(f)| + 2 < |payload|
    ensures Undisturbed(DripEnv(payload), payload)
    ensures !Retry(f, [DripEnv(payload), DripEnv(payload)], sha256, expected).0
  {
    hide Identifies, Undisturbed, Retry;
    DripConforms(payload);
    DripCallsIff(f, 2, sha256, expected, payload);
    assert seq(2, _ => DripEnv(payload)) == [DripEnv(payload), DripEnv(payload)];
  }

  // ---------------------------------------------------------------- the body limit

  /** A fresh undisturbed download succeeds if and only if the payload fits the 64 MiB body limit. */
  lemma FreshDownloadIff(env: Env, sha256: Bytes -> string, expected: string, payload: Bytes)
    requires Undisturbed(env, payload) && Identifies(sha256, expected, payload)
    ensures var t := Call(Files(None, None, None), env, sha256, expected);
            && (t.result.Ok? <==> |payload| <= 67108864)
            && (t.result.Ok? ==> Last(t.states).payload == Some(payload))
            && (!t.result.Ok? ==> Last(t.states) == Files(None, None, None))
  {
    hide FetchFrom, Conforms, Identifies;
    var f := Files(None, None, None);
    FreshFetch(env.server, 0, payload);
    if |payload| <= MAX_BODY_BYTES {
      UndisturbedCallIff(f, env, sha256, expected, payload);
      ResumeGrows(f, env, payload);
    }
  }

  /** And there are such payloads, with a conforming server and a hash that identifies them: a fresh download of one fails. */
  lemma LargePayloadFails()
    ensures exists env, sha256, expected, payload ::
              && Undisturbed(env, payload) && Identifies(sha256, expected, payload)
              && !Call(Files(None, None, None), env, sha256, expected).result.Ok?
  {
    var payload: Bytes := seq(MAX_BODY_BYTES + 1, _ => 0);
    var env := DripEnv(payload);
    var sha256: Bytes -> string := b => if b == payload then "yes" else "no";
    DripConforms(payload);
    assert "yes" != "no" by { assert |"yes"| == 3; }
    FreshDownloadIff(env, sha256, "yes", payload);
    assert Undisturbed(env, payload) && Identifies(sha256, "yes", payload)
           && !Call(Files(None, None, None), env, sha256, "yes").result.Ok?;
  }
}
