/** The pieces of a torrent as the client keeps them, from resume data to verified download. */
module Session {
  import opened Bytes
  import opened Bitfield
  import opened Layout
  import opened Blocks
  import opened PieceStatus
  import opened Download

  lemma CountPrefix(s: seq<Status>, i: nat)
    requires i < |s|
    ensures CountHave(s[..i + 1]) == CountHave(s[..i]) + (if s[i] == Have then 1 else 0)
  {
    assert s[..i + 1][..i] == s[..i];
  }

  // ---- Resume data ----

  /**
   * What load_session_state finds: whether the resume file is there and not empty, its bitfield, the pieces of each
   * missing file (unless there are no file times to go by), and block bitfields of unfinished pieces.
   */
  datatype Resume = Resume(present: bool, bitfield: bytes, missing: seq<seq<nat>>, unfinished: seq<(nat, bytes)>)

  predicate Lost(missing: seq<seq<nat>>, i: nat) {
    exists f :: 0 <= f < |missing| && i in missing[f]
  }

  /** Block bitfields that claim the whole piece. */
  predicate AllBlocks(size: nat, bits: bytes) {
    forall i :: 0 <= i < TotalBlocks(size) ==> i / 8 < |bits| && HasBit(bits, i)
  }

  /** A needed piece of which some blocks, but not all, are said to be there. */
  predicate TakesUp(status: Status, size: nat, bits: bytes) {
    status == Needed && bits != [] && !AllBlocks(size, bits)
  }

  /** Some entry of the resume data lets a needed piece be taken up again. */
  ghost predicate Resumable(e: Env, unfinished: seq<(nat, bytes)>, p: nat)
    requires ValidEnv(e)
  {
    exists k :: 0 <= k < |unfinished| && unfinished[k].0 == p && TakesUp(Needed, Size(e, p), unfinished[k].1)
  }

  /** The piece has exactly the blocks that the bitfield says. */
  predicate HasBlocks(x: Progress, bits: bytes) {
    forall i :: 0 <= i < |x.flags| ==> (x.flags[i] <==> i / 8 < |bits| && HasBit(bits, i))
  }

  predicate Usable(r: Resume, n: nat) {
    r.present && |r.bitfield| == (n + 7) / 8
  }

  /** What reading each piece from disk gives, as verify_piece reads it. */
  predicate ReadOk(e: Env, disk: seq<bytes>)
    requires ValidEnv(e)
  {
    |disk| == |e.expected| && forall i :: 0 <= i < |disk| ==> |disk[i]| == Size(e, i)
  }

  /** The status of a piece after verification on these bytes. */
  function Checked(e: Env, was: Status, p: nat, data: bytes): Status
    requires p < |e.expected|
  {
    if was == Skipped then Skipped else if Matches(e, p, data) then Have else Needed
  }

  lemma SkippedIsNotHave(e: Env, was: Status, p: nat, data: bytes)
    requires p < |e.expected|
    ensures Checked(e, was, p, data) == Have ==> was != Skipped
  {
  }

  // ---- The session ----

  class TorrentSession {
    const env: Env

    var status: seq<Status>
    var completed: nat
    var complete: bool
    var progress: map<nat, Progress>

    // Where the coroutines stand that start or complete pieces.
    var starting: multiset<nat>
    var stage: map<nat, Stage>

    ghost var content: map<nat, bytes>
    ghost var claimed: set<nat>
    ghost var overwritten: nat
    ghost var overrun: bool

    ghost function State(): State
      reads this
    {
      Download.State.State(status, completed, complete, progress, starting, stage, content, claimed, overwritten, overrun)
    }

    ghost predicate Valid()
      reads this
    {
      ValidEnv(env) && Ok(env, State())
    }

    /** Nobody is starting or completing a piece, and nobody has. */
    ghost predicate Idle()
      reads this
    {
      starting == multiset{} && stage == map[] && overwritten == 0 && !overrun
    }

    /** The start-up invariant while the counter is being rebuilt. */
    ghost predicate Loading()
      reads this
    {
      ValidEnv(env) && Idle() && !complete && WorkOk(env, State()) && ContentOk(env, State())
    }

    /** Exactly the Have pieces are claimed. */
    ghost predicate AllClaimed()
      reads this
    {
      forall i :: i in claimed <==> 0 <= i < |status| && status[i] == Have
    }

    constructor (t: Torrent, expected: seq<Digest>, sha1: bytes -> Digest)
      requires ValidTorrent(t) && |expected| == t.numPieces
      ensures env == Env(t, expected, sha1) && Valid() && State() == Begin(env)
    {
      env := Env(t, expected, sha1);
      status := seq(|expected|, _ => Needed);
      completed, complete, progress := 0, false, map[];
      starting, stage := multiset{}, map[];
      content, claimed, overwritten, overrun := map[], {}, 0, false;
      BeginOk(Env(t, expected, sha1));
    }

    // ---- Starting up ----

    /** preallocate_files: pieces that lie only in files not selected are skipped. */
    method Preallocate(needed: seq<bool>)
      requires Valid() && Idle() && completed == 0 && !complete && |needed| == |status|
      modifies this`status
      ensures Valid() && |status| == |old(status)|
      ensures forall i :: 0 <= i < |status| ==> status[i] == if needed[i] then Needed else Skipped
    {
      hide ProgressOk, Size, Matches;
      for k := 0 to |status|
        invariant |status| == |old(status)|
        invariant forall i :: 0 <= i < k ==> status[i] == if needed[i] then Needed else Skipped
      {
        status := status[k := if needed[k] then Needed else Skipped];
      }
      CountBounds(status);
      Unstaged(env, old(State()), State());
    }

    /** reset */
    method Reset()
      requires Loading()
      modifies this`status, this`completed, this`progress, this`claimed
      ensures Valid() && completed == 0 && progress == map[] && claimed == {} && |status| == |old(status)|
      ensures forall i :: 0 <= i < |status| ==> status[i] == Needed
    {
      hide ProgressOk, Size, Matches;
      for k := 0 to |status|
        invariant |status| == |old(status)|
        invariant forall i :: 0 <= i < k ==> status[i] == Needed
      {
        status := status[k := Needed];
      }
      completed, progress := 0, map[];
      claimed := {};
      CountBounds(status);
    }

    /** The bitfield part of load_session_state; the result counts the pieces claimed. */
    method LoadBitfield(bits: bytes) returns (done: nat)
      requires Loading() && claimed == {} && |bits| == (|status| + 7) / 8
      modifies this`status, this`claimed
      ensures Loading() && done == CountHave(status) && AllClaimed() && |status| == |old(status)|
      ensures forall i :: 0 <= i < |status| ==>
                status[i] == if HasBit(bits, i) then Have else if old(status[i]) == Skipped then Skipped else Needed
    {
      hide HasBit, CountHave, WorkOk, ContentOk;
      done := 0;
      CountBounds(status[..0]);
      for k := 0 to |status|
        invariant |status| == |old(status)| && done == CountHave(status[..k])
        invariant forall i :: 0 <= i < k ==>
                    status[i] == if HasBit(bits, i) then Have else if old(status[i]) == Skipped then Skipped else Needed
        invariant forall i :: k <= i < |status| ==> status[i] == old(status[i])
        invariant forall i :: i in claimed <==> 0 <= i < k && status[i] == Have
      {
        ghost var was := status;
        if HasBit(bits, k) {
          status := status[k := Have];
          claimed := claimed + {k};
          done := done + 1;
        } else if status[k] != Skipped {
          status := status[k := Needed];
        }
        assert status[..k] == was[..k];
        CountPrefix(status, k);
      }
      assert status[..|status|] == status;
      Unstaged(env, old(State()), State());
      ClaimedContent(env, old(State()), State());
    }

    /** Pieces of a missing file are needed again; a piece is uncounted only if it still counted. */
    method DropFile(pieces: seq<nat>, before: nat) returns (done: nat)
      requires Loading() && AllClaimed() && before == CountHave(status)
      requires forall k :: 0 <= k < |pieces| ==> pieces[k] < |status|
      modifies this`status, this`claimed
      ensures Loading() && AllClaimed() && done == CountHave(status) && |status| == |old(status)|
      ensures forall i :: 0 <= i < |status| ==>
                status[i] == if old(status[i]) == Have && i in pieces then Needed else old(status[i])
    {
      hide CountHave, WorkOk, ContentOk;
      done := before;
      for k := 0 to |pieces|
        invariant |status| == |old(status)| && AllClaimed() && done == CountHave(status)
        invariant forall i :: 0 <= i < |status| ==>
                    status[i] == if old(status[i]) == Have && i in pieces[..k] then Needed else old(status[i])
      {
        var p := pieces[k];
        CountUpdate(status, p, Needed);
        assert status[p] == Have ==> done > 0;
        assert pieces[..k + 1] == pieces[..k] + [p];
        if status[p] == Have {
          status := status[p := Needed];
          claimed := claimed - {p};
          done := done - 1;
        }
      }
      assert pieces[..|pieces|] == pieces;
      Unstaged(env, old(State()), State());
      ClaimedContent(env, old(State()), State());
    }

    method DropMissing(missing: seq<seq<nat>>, before: nat) returns (done: nat)
      requires Loading() && AllClaimed() && before == CountHave(status) && PiecesKnown(missing, |status|)
      modifies this`status, this`claimed
      ensures Loading() && AllClaimed() && done == CountHave(status) && |status| == |old(status)|
      ensures forall i :: 0 <= i < |status| ==>
                status[i] == if old(status[i]) == Have && Lost(missing, i) then Needed else old(status[i])
    {
      hide CountHave, WorkOk, ContentOk;
      done := before;
      for f := 0 to |missing|
        invariant Loading() && AllClaimed() && done == CountHave(status) && |status| == |old(status)|
        invariant forall i :: 0 <= i < |status| ==>
                    status[i] == if old(status[i]) == Have && Lost(missing[..f], i) then Needed else old(status[i])
      {
        done := DropFile(missing[f], done);
        forall i: nat ensures Lost(missing[..f + 1], i) <==> Lost(missing[..f], i) || i in missing[f] {
          LostNext(missing, f, i);
        }
      }
      assert missing[..|missing|] == missing;
    }

    /** Takes up an unfinished piece again; one that is complete or not needed is passed over. */
    method ResumePiece(p: nat, bits: bytes)
      requires Valid() && Idle() && AllClaimed()
      modifies this`status, this`progress
      ensures Valid() && AllClaimed() && |status| == |old(status)|
      ensures forall i :: 0 <= i < |status| ==>
                status[i] == if i == p && TakesUp(old(status[p]), Size(env, p), bits) then InProgress else old(status[i])
      ensures progress - {p} == old(progress) - {p}
      ensures p < |status| && status[p] != old(status[p]) ==>
                p in progress && (p !in old(progress) ==> HasBlocks(progress[p], bits))
      ensures p in old(progress) || (p < |status| && status[p] == old(status[p])) ==> progress == old(progress)
    {
      hide TotalBlocks, CountHave, HasBit, AllBlocks, Size, Matches, HasBlocks;
      if p >= |status| || status[p] != Needed || bits == [] {
        return;
      }
      var x := Restored(Size(env, p), bits);
      if Full(x) {
        return;
      }
      CountUpdate(status, p, InProgress);
      status := status[p := InProgress];
      if p !in progress {
        progress := progress[p := x];
      }
      TakenUp(env, old(State()), State(), p);
    }

    method LoadUnfinished(unfinished: seq<(nat, bytes)>)
      requires Valid() && Idle() && AllClaimed()
      modifies this`status, this`progress
      ensures Valid() && AllClaimed() && |status| == |old(status)|
      ensures forall i :: 0 <= i < |status| ==>
                status[i] == if old(status[i]) == Needed && Resumable(env, unfinished, i) then InProgress else old(status[i])
    {
      hide Ok, Size, Resumable, AllBlocks;
      forall i: nat ensures !Resumable(env, unfinished[..0], i) {
        NothingToResume(env, unfinished[..0], i);
      }
      for k := 0 to |unfinished|
        invariant Valid() && AllClaimed() && |status| == |old(status)|
        invariant forall i :: 0 <= i < |status| ==>
                    status[i] == (if old(status[i]) == Needed && Resumable(env, unfinished[..k], i) then InProgress
                                  else old(status[i]))
      {
        ResumePiece(unfinished[k].0, unfinished[k].1);
        forall i: nat ensures Resumable(env, unfinished[..k + 1], i) <==>
            Resumable(env, unfinished[..k], i) || (unfinished[k].0 == i && TakesUp(Needed, Size(env, i), unfinished[k].1)) {
          ResumableNext(env, unfinished, k, i);
        }
      }
      assert unfinished[..|unfinished|] == unfinished;
    }

    /** load_session_state */
    method LoadSessionState(r: Resume)
      requires Valid() && Idle() && !complete && claimed == {} && PiecesKnown(r.missing, |status|)
      modifies this`status, this`completed, this`progress, this`claimed
      ensures Valid() && AllClaimed() && |status| == |old(status)|
      ensures forall i :: 0 <= i < |status| ==>
                (status[i] == Have <==> Usable(r, |status|) && HasBit(r.bitfield, i) && !Lost(r.missing, i))
      ensures forall i :: 0 <= i < |status| ==>
                (status[i] == Skipped <==> Usable(r, |status|) && !HasBit(r.bitfield, i) && old(status[i]) == Skipped)
      ensures forall i :: 0 <= i < |status| ==>
                (status[i] == InProgress <==>
                  Usable(r, |status|) && Resumable(env, r.unfinished, i) && status[i] != Have && status[i] != Skipped)
    {
      hide HasBit, CountHave, WorkOk, ContentOk, Resumable;
      if !r.present || |r.bitfield| != (|status| + 7) / 8 {
        Reset();
        return;
      }
      var done := LoadBitfield(r.bitfield);
      done := DropMissing(r.missing, done);
      ghost var loaded := State();
      completed := done;
      SamePieces(env, State(), loaded);
      LoadUnfinished(r.unfinished);
    }

    /** What verify_pieces does with one piece. */
    method VerifyPiece(k: nat, data: bytes) returns (good: bool)
      requires ValidEnv(env) && ContentOk(env, State()) && k < |status| && |data| == Size(env, k)
      modifies this`status, this`content, this`claimed
      ensures ContentOk(env, State()) && claimed == old(claimed) - {k}
      ensures status == old(status)[k := Checked(env, old(status[k]), k, data)]
      ensures good == (status[k] == Have && old(status[k]) != Skipped)
    {
      ghost var before := State();
      good := false;
      if status[k] != Skipped {
        good := env.sha1(data) == env.expected[k];
        if good {
          status := status[k := Have];
          content := content[k := data];
        } else {
          status := status[k := Needed];
        }
      }
      claimed := claimed - {k};
      VerifiedOne(env, before, State(), k, data);
    }

    /** verify_pieces on what the disk holds: a piece is Have exactly if its bytes match, and the counter is rebuilt. */
    method VerifyPieces(disk: seq<bytes>)
      requires Valid() && Idle() && !complete && ReadOk(env, disk) && AllClaimed()
      modifies this`status, this`completed, this`claimed, this`content
      ensures Valid() && claimed == {} && |status| == |old(status)|
      ensures forall i :: 0 <= i < |status| ==> status[i] == Checked(env, old(status[i]), i, disk[i])
    {
      hide CountHave, ProgressOk, Size, WorkOk, ContentOk, Checked;
      var have := 0;
      CountBounds(status[..0]);
      for k := 0 to |status|
        invariant |status| == |old(status)| && have == CountHave(status[..k]) && ContentOk(env, State())
        invariant forall i :: 0 <= i < k ==> status[i] == Checked(env, old(status[i]), i, disk[i])
        invariant forall i :: k <= i < |status| ==> status[i] == old(status[i])
        invariant forall i :: i in claimed <==> k <= i < |status| && status[i] == Have
      {
        ghost var was := status;
        var good := VerifyPiece(k, disk[k]);
        SkippedIsNotHave(env, was[k], k, disk[k]);
        if good {
          have := have + 1;
        }
        assert status[..k] == was[..k];
        CountPrefix(status, k);
      }
      assert status[..|status|] == status;
      ghost var loaded := State();
      completed := have;
      SamePieces(env, State(), loaded);
      Unstaged(env, old(State()), State());
    }

    /** verify_seed_data and what follows it: every piece is verified, and then every piece is Have. */
    method StartSeeding(filesOk: bool, disk: seq<bytes>) returns (ok: bool)
      requires Valid() && Idle() && !complete && claimed == {} && ReadOk(env, disk)
      modifies this`status, this`completed, this`complete, this`content
      ensures Valid() && claimed == {} && |status| == |old(status)|
      ensures ok <==> filesOk && forall i :: 0 <= i < |status| ==> Matches(env, i, disk[i])
      ensures ok ==> complete && forall i :: 0 <= i < |status| ==> status[i] == Have
      ensures !ok ==> State() == old(State())
    {
      hide CountHave, ProgressOk, Size, WorkOk, ContentOk;
      if !filesOk {
        return false;
      }
      for k := 0 to |status|
        invariant State() == old(State())
        invariant forall i :: 0 <= i < k ==> Matches(env, i, disk[i])
      {
        if env.sha1(disk[k]) != env.expected[k] {
          return false;
        }
      }
      for k := 0 to |status|
        invariant |status| == |old(status)| && ContentOk(env, State())
        invariant forall i :: 0 <= i < k ==> status[i] == Have
      {
        ghost var before := State();
        status := status[k := Have];
        content := content[k := disk[k]];
        VerifiedOne(env, before, State(), k, disk[k]);
      }
      CountBounds(status);
      ghost var loaded := State();
      completed, complete := |status|, true;
      SamePieces(env, State(), loaded);
      Unstaged(env, old(State()), State());
      return true;
    }

    /** init, given what the disk and the resume file hold. No claim of the resume file is left unverified. */
    method Init(seeding: bool, filesOk: bool, needed: seq<bool>, resume: Option<Resume>, disk: seq<bytes>)
      returns (ok: bool)
      requires Valid() && State() == Begin(env) && |needed| == |status| && ReadOk(env, disk)
      requires resume.Some? ==> PiecesKnown(resume.value.missing, |status|)
      modifies this
      ensures Valid() && Idle() && claimed == {} && |status| == |old(status)|
      ensures ok <==> filesOk && (seeding ==> forall i :: 0 <= i < |status| ==> Matches(env, i, disk[i]))
      ensures ok && seeding ==> complete
      ensures ok && !seeding && resume.Some? ==> forall i :: 0 <= i < |status| ==>
                (status[i] == Have <==>
                  Matches(env, i, disk[i]) && (needed[i] || !Usable(resume.value, |status|) || HasBit(resume.value.bitfield, i)))
      ensures ok && !seeding && resume.None? ==> completed == 0
      ensures ok && !seeding ==> (complete <==> resume.Some? && completed == |status|)
    {
      hide HasBit, CountHave, WorkOk, ContentOk, Matches;
      if seeding {
        ok := StartSeeding(filesOk, disk);
        return;
      }
      if !filesOk {
        return false;
      }
      Preallocate(needed);
      if resume.Some? {
        LoadSessionState(resume.value);
        VerifyPieces(disk);
        if completed == |status| {
          complete := true;
          SamePieces(env, State(), State().(complete := false));
        }
      }
      return true;
    }

    // ---- Downloading ----

    /** try_piece_download up to its peer lookup. */
    method TestNeeded(p: nat) returns (go: bool)
      requires Valid() && !overrun && p < |status|
      modifies this`starting
      ensures Valid() && State() == Next(env, old(State()), Test(p)) && go == (status[p] == Needed)
    {
      hide WorkOk, ContentOk, CounterOk;
      NextOk(env, State(), Test(p));
      if status[p] != Needed {
        return false;
      }
      starting := starting + multiset{p};
      return true;
    }

    /** try_piece_download after its peer lookup, which found nobody or somebody; the status is not looked at again. */
    method StartPiece(p: nat, found: bool)
      requires Valid() && !overrun && p < |status| && p in starting
      modifies this`starting, this`status, this`progress, this`overwritten
      ensures Valid() && State() == Next(env, old(State()), if found then Proceed(p) else GiveUp(p))
    {
      hide WorkOk, ContentOk, CounterOk, Size;
      NextOk(env, State(), if found then Proceed(p) else GiveUp(p));
      starting := starting - multiset{p};
      if !found {
        return;
      }
      overwritten := overwritten + (if status[p] == Have then 1 else 0);
      status := status[p := InProgress];
      if p !in progress {
        progress := progress[p := Fresh(Size(env, p))];
      }
    }

    /**
     * on_piece_block up to the point where it knows whether the piece is complete. A block that does not fit is copied past
     * the end of the piece; what the original does then is undefined, and the model stops there.
     */
    method OnPieceBlock(p: nat, d: Delivery)
      requires Valid() && !overrun && p < |status|
      modifies this`progress, this`stage, this`overrun
      ensures Valid() && State() == Next(env, old(State()), Block(p, d))
    {
      hide WorkOk, ContentOk, CounterOk, Fits, Observes, Delivered;
      NextOk(env, State(), Block(p, d));
      if status[p] == Have || p !in progress {
        return;
      }
      var x := progress[p];
      if !Fits(x, d) {
        overrun := true;
        return;
      }
      progress := progress[p := Delivered(x, d)];
      if Observes(x, d) {
        stage := stage[p := Checking];
      }
    }

    /** A completed piece is hashed: it is written if the digest matches, and otherwise goes back to the queue. */
    method HashPiece(p: nat)
      requires Valid() && !overrun && p in stage && stage[p] == Checking && p in progress && p < |status|
      modifies this`stage
      ensures Valid() && State() == Next(env, old(State()), Hash(p))
    {
      hide WorkOk, ContentOk, CounterOk;
      NextOk(env, State(), Hash(p));
      var data := progress[p].data;
      if env.sha1(data) != env.expected[p] {
        stage := stage[p := Returning];
        return;
      }
      stage := stage[p := Writing(data)];
    }

    /** return_piece_to_queue */
    method ReturnPiece(p: nat)
      requires Valid() && !overrun && p in stage && stage[p] == Returning && p < |status|
      modifies this`status, this`progress, this`stage
      ensures Valid() && State() == Next(env, old(State()), Return(p))
      ensures status == old(status)[p := Needed] && progress == old(progress) - {p} && stage == old(stage) - {p}
    {
      hide WorkOk, ContentOk, CounterOk;
      NextOk(env, State(), Return(p));
      stage := stage - {p};
      progress := progress - {p};
      status := status[p := Needed];
    }

    /** The write is done: the piece counts. */
    method MarkHave(p: nat)
      requires Valid() && !overrun && p in stage && stage[p].Writing? && p < |status|
      modifies this`status, this`completed, this`stage, this`content
      ensures Valid() && State() == Next(env, old(State()), Mark(p))
    {
      hide WorkOk, ContentOk, CounterOk;
      NextOk(env, State(), Mark(p));
      content := content[p := stage[p].data];
      stage := stage[p := Finishing];
      status := status[p := Have];
      completed := completed + 1;
    }

    /** After announcing the piece: the bookkeeping goes, and the download is complete if all pieces count. */
    method Finish(p: nat)
      requires Valid() && !overrun && p in stage && stage[p] == Finishing && p < |status|
      modifies this`progress, this`stage, this`complete
      ensures Valid() && State() == Next(env, old(State()), Done(p))
    {
      hide WorkOk, ContentOk, CounterOk;
      NextOk(env, State(), Done(p));
      stage := stage - {p};
      progress := progress - {p};
      if completed == |status| {
        complete := true;
      }
    }

    /** get_have_bitfield_str */
    method HaveBitfield() returns (bits: bytes)
      ensures |bits| == (|status| + 7) / 8
      ensures forall i :: 0 <= i < |status| ==> (HasBit(bits, i) <==> status[i] == Have)
    {
      bits := FromFlags(seq(|status|, i requires 0 <= i < |status| reads this => status[i] == Have));
    }
  }

  // ---- Start-up keeps the pieces in progress ----

  lemma Unstaged(e: Env, s: State, r: State)
    requires ValidEnv(e) && WorkOk(e, s) && s.stage == map[] && |r.status| == |s.status|
    requires r.stage == map[] && r.progress == s.progress
    ensures WorkOk(e, r)
  {
    hide ProgressOk, Size;
    forall p | p in r.progress ensures PieceOk(e, r, p) {
      assert PieceOk(e, s, p);
    }
  }

  lemma TakenUp(e: Env, s: State, r: State, p: nat)
    requires ValidEnv(e) && WorkOk(e, s) && s.stage == map[] && |r.status| == |s.status| && p < |r.status|
    requires r.stage == map[] && p in r.progress && r.progress - {p} == s.progress - {p}
    requires ProgressOk(r.progress[p], Size(e, p))
    ensures WorkOk(e, r)
  {
    hide ProgressOk, Size;
    forall q | q in r.progress ensures PieceOk(e, r, q) {
      if q != p {
        assert q in r.progress - {p} && q in s.progress - {p};
        assert PieceOk(e, s, q);
      }
    }
  }

  lemma ClaimedContent(e: Env, s: State, r: State)
    requires ValidEnv(e) && ContentOk(e, s) && |r.status| == |s.status| && r.content == s.content
    requires forall i :: 0 <= i < |r.status| && r.status[i] == Have ==> i in r.claimed
    ensures ContentOk(e, r)
  {
  }

  /** A piece is Have with bytes that match, or not Have. */
  lemma VerifiedOne(e: Env, s: State, r: State, k: nat, data: bytes)
    requires ValidEnv(e) && ContentOk(e, s) && k < |s.status| && |data| == Size(e, k)
    requires |r.status| == |s.status| && forall i :: 0 <= i < |s.status| && i != k ==> r.status[i] == s.status[i]
    requires s.claimed - {k} <= r.claimed
    requires if r.status[k] == Have then r.content == s.content[k := data] && Matches(e, k, data) else r.content == s.content
    ensures ContentOk(e, r)
  {
  }

  /** The counter and the completion flag do not matter to the pieces. */
  lemma SamePieces(e: Env, s: State, r: State)
    requires ValidEnv(e)
    requires s.status == r.status && s.progress == r.progress && s.stage == r.stage && s.content == r.content
    requires s.claimed == r.claimed
    ensures WorkOk(e, s) <==> WorkOk(e, r)
    ensures ContentOk(e, s) <==> ContentOk(e, r)
  {
  }

  /** Saving the bitfield of one session and loading it into a fresh one keeps exactly the finished pieces. */
  method SaveAndLoad(a: TorrentSession, b: TorrentSession, unfinished: seq<(nat, bytes)>)
    requires a != b && a.Valid() && b.Valid() && b.State() == Begin(b.env) && |a.status| == |b.status|
    modifies b
    ensures b.Valid() && |a.status| == |b.status|
    ensures forall i :: 0 <= i < |b.status| ==> (b.status[i] == Have <==> a.status[i] == Have)
    ensures a.overwritten == 0 ==> b.completed == a.completed
  {
    hide CountHave, HasBit, Bitfield.BitAt, WorkOk, ContentOk;
    var bits := a.HaveBitfield();
    b.LoadSessionState(Resume(true, bits, [], unfinished));
    SameCount(a.status, b.status);
  }

  lemma {:induction false} SameCount(s: seq<Status>, t: seq<Status>)
    requires |s| == |t| && forall i :: 0 <= i < |s| ==> (t[i] == Have <==> s[i] == Have)
    ensures CountHave(s) == CountHave(t)
  {
    if s != [] {
      SameCount(s[..|s| - 1], t[..|t| - 1]);
    }
  }

  predicate PiecesKnown(missing: seq<seq<nat>>, n: nat) {
    forall f, k :: 0 <= f < |missing| && 0 <= k < |missing[f]| ==> missing[f][k] < n
  }

  lemma NothingToResume(e: Env, unfinished: seq<(nat, bytes)>, i: nat)
    requires ValidEnv(e) && unfinished == []
    ensures !Resumable(e, unfinished, i)
  {
  }

  lemma ResumableNext(e: Env, unfinished: seq<(nat, bytes)>, k: nat, i: nat)
    requires ValidEnv(e) && k < |unfinished|
    ensures Resumable(e, unfinished[..k + 1], i) <==>
            Resumable(e, unfinished[..k], i) || (unfinished[k].0 == i && TakesUp(Needed, Size(e, i), unfinished[k].1))
  {
    hide Size, AllBlocks;
    assert unfinished[..k + 1] == unfinished[..k] + [unfinished[k]];
  }

  lemma LostNext(missing: seq<seq<nat>>, f: nat, i: nat)
    requires f < |missing|
    ensures Lost(missing[..f + 1], i) <==> Lost(missing[..f], i) || i in missing[f]
  {
  }

  /** A piece of which the resume data says which blocks it has. */
  method Restored(size: nat, bits: bytes) returns (x: Progress)
    ensures ProgressOk(x, size)
    ensures HasBlocks(x, bits)
    ensures Full(x) <==> AllBlocks(size, bits)
  {
    hide HasBit, TotalBlocks;
    x := Fresh(size);
    FreshOk(size);
    var n := |x.flags|;
    var k := 0;
    while k < n && k / 8 < |bits|
      invariant 0 <= k <= n && |x.flags| == n && ProgressOk(x, size)
      invariant forall i :: 0 <= i < k ==> i / 8 < |bits| && (x.flags[i] <==> HasBit(bits, i))
      invariant forall i :: k <= i < n ==> !x.flags[i]
    {
      if HasBit(bits, k) {
        CountSet(x.flags, k);
        x := x.(flags := x.flags[k := true], count := x.count + 1);
      }
      k := k + 1;
    }
    CountAll(x.flags);
    if Full(x) {
      forall i | 0 <= i < TotalBlocks(size) ensures i / 8 < |bits| && HasBit(bits, i) {
        assert x.flags[i];
      }
    }
  }
}
