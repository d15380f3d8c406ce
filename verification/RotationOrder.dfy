/** What comes before what in a rotation: the operator's consent before anything is created or revoked, the
    reads before the create, and which message and which outcome each turn of the command gives. */
module RotationOrder {
  import opened Wrappers
  import C = AdminCredentials
  import opened RotationWorkflow

  // ---- consent ----------------------------------------------------------------------------

  /** A create request is sent only by a command that was just told to go on. */
  lemma CreateIsSentOnConsent(w: World, a: Action, n: nat)
    requires Enabled(w, a) && PendingCreate(Apply(w, a), n) && !PendingCreate(w, n)
    ensures a == Prepare(true) && w.pc.Ready? && n == w.next
  {
    if !IsClient(a) {
      ServerServes(w, a);
    } else if a.Receive? {
      ReplySendsNoCreate(w, w.replies[Awaits(w.pc).value], n);
    }
  }

  lemma ReplySendsNoCreate(w: World, r: Reply, n: nat)
    ensures PendingCreate(OnReply(w, r), n) ==> PendingCreate(w, n)
  {
  }

  lemma {:induction false} PendingCreateHasConsent(worlds: seq<World>, actions: seq<Action>, j: nat, n: nat)
      returns (k: nat)
    requires Run(worlds, actions) && j < |worlds| && PendingCreate(worlds[j], n)
    ensures k < j && actions[k] == Prepare(true) && worlds[k].pc.Ready?
  {
    var last := j - 1;
    if PendingCreate(worlds[last], n) {
      k := PendingCreateHasConsent(worlds, actions, last, n);
    } else {
      CreateIsSentOnConsent(worlds[last], actions[last], n);
      k := last;
    }
  }

  lemma CreationMoves(w: World, a: Action)
    requires Enabled(w, a) && Apply(w, a).past.creates > 0
    ensures w.past.creates > 0 || a.Create?
  {
    if IsClient(a) {
      ClientExtends(w, a);
    }
  }

  lemma {:induction false} CreationHasCreate(worlds: seq<World>, actions: seq<Action>, j: nat) returns (i: nat)
    requires Run(worlds, actions) && j < |worlds| && worlds[j].past.creates > 0
    ensures i < j && actions[i].Create?
  {
    var last := j - 1;
    CreationMoves(worlds[last], actions[last]);
    if worlds[last].past.creates > 0 {
      i := CreationHasCreate(worlds, actions, last);
    } else {
      i := last;
    }
  }

  /** Nothing is created and nothing revoked unless the operator agreed before. */
  lemma ConsentComesFirst(worlds: seq<World>, actions: seq<Action>, j: nat) returns (k: nat)
    requires Run(worlds, actions) && j < |actions| && (actions[j].Create? || actions[j].Complete?)
    ensures k < j && actions[k] == Prepare(true) && worlds[k].pc.Ready?
  {
    var i := j;
    if actions[j].Complete? {
      RunKeepsInv(worlds, actions, j);
      CompletionNeedsCreation(worlds[j], actions[j]);
      i := CreationHasCreate(worlds, actions, j);
    }
    assert Enabled(worlds[i], actions[i]);
    k := PendingCreateHasConsent(worlds, actions, i, actions[i].n);
  }

  lemma CompletionNeedsCreation(w: World, a: Action)
    requires Inv(w) && Enabled(w, a) && a.Complete?
    ensures w.past.creates > 0
  {
    assert PendingCompletion(w, a.n);
  }

  /** Stopped for good with nothing created and nothing on its way to be. */
  ghost predicate Stopped(w: World) {
    w.pc == Done(Failed(Declined)) && w.past.creates == 0 && forall n :: !PendingCreate(w, n)
  }

  lemma DeclineStops(w: World)
    requires Inv(w) && w.pc.Ready?
    ensures Stopped(Apply(w, Prepare(false)))
  {
    var w' := Apply(w, Prepare(false));
    assert forall n :: PendingCreate(w', n) ==> PendingCreate(w, n);
  }

  lemma StoppedStays(w: World, a: Action)
    requires Stopped(w) && Enabled(w, a)
    ensures Stopped(Apply(w, a))
  {
    StepKeepsDone(w, a);
    forall n
      ensures !PendingCreate(Apply(w, a), n)
    {
      if PendingCreate(Apply(w, a), n) {
        CreateIsSentOnConsent(w, a, n);
      }
    }
    NoCreateWithoutRequest(w, a);
  }

  lemma NoCreateWithoutRequest(w: World, a: Action)
    requires Enabled(w, a) && forall n :: !PendingCreate(w, n)
    ensures Apply(w, a).past.creates == w.past.creates
  {
    assert a.Create? ==> PendingCreate(w, a.n);
    if IsClient(a) {
      ClientExtends(w, a);
    }
  }

  /** A refused confirmation ends the command: it reports so, and nothing is ever created for it. */
  lemma {:induction false} DeclinedStaysDeclined(worlds: seq<World>, actions: seq<Action>, k: nat, j: nat)
    requires Run(worlds, actions) && k < j < |worlds| && actions[k] == Prepare(false)
    ensures worlds[j].pc == Done(Failed(Declined)) && worlds[j].past.creates == 0 && Stopped(worlds[j])
  {
    if j == k + 1 {
      RunKeepsInv(worlds, actions, k);
      DeclineStops(worlds[k]);
    } else {
      DeclinedStaysDeclined(worlds, actions, k, j - 1);
      StoppedStays(worlds[j - 1], actions[j - 1]);
    }
  }

  // ---- what was read before the create ----------------------------------------------------

  /** Until the create, the consulted table is the present one or its revision is past. */
  ghost predicate Recent(w: World) {
    w.past.creates == 0 && w.past.consulted.Some? ==>
      var r := C.Authority(w.past.consulted.value);
      r <= C.Authority(w.db.rows) && (C.Authority(w.db.rows) == r ==> w.db.rows == w.past.consulted.value)
  }

  ghost predicate TellsConsulted(w: World, r: nat) {
    w.past.consulted.Some? && r == C.Authority(w.past.consulted.value)
  }

  /** The revision the command learned, and the one its create names, are the consulted table's; the create
      goes out with the operator's own bearer, after the old credential was shown active. */
  ghost predicate Informed(w: World) {
    && (w.pc.LoadingAuthority? && w.pc.n in w.replies && w.replies[w.pc.n].AuthorityIs? ==>
          TellsConsulted(w, w.replies[w.pc.n].revision))
    && (w.pc.Ready? ==> TellsConsulted(w, w.pc.ifMatch))
    && (forall n :: PendingCreate(w, n) ==>
          TellsConsulted(w, w.wire[n].body.ifMatch) && w.wire[n].bearer == w.selected && w.past.sawActive)
    && (forall n :: n in w.replies && ShowsActive(w.replies[n], w.oldId) ==> w.past.sawActive)
    && (w.pc.LoadingAuthority? || w.pc.Ready? ==> w.past.sawActive)
  }

  predicate PendingAuthority(w: World, n: nat) {
    n in w.wire && w.wire[n].body.GetAuthority?
  }

  /** Before the create, the authority is asked for once, and not any more once a create is on its way. */
  ghost predicate AsksOnce(w: World) {
    forall n :: PendingAuthority(w, n) && w.past.creates == 0 ==>
      w.pc == LoadingAuthority(n) || (w.pc.Done? && forall m :: !PendingCreate(w, m))
  }

  lemma CommitKeepsRecent(w: World, e: C.Event, after: C.Db)
    requires C.Inv(w.db) && Recent(w) && C.Step(w.db, e, after)
    ensures Recent(w.(db := after))
  {
    C.StepRaisesAuthority(w.db, e, after);
  }

  lemma StepKeepsRecent(w: World, a: Action)
    requires C.Inv(w.db) && Recent(w) && Enabled(w, a)
    ensures Recent(Apply(w, a))
  {
    if IsClient(a) {
      ClientExtends(w, a);
    } else if a.Complete? {
      CommitKeepsRecent(w, CompletionEvent(w, a.n, a.oldNow, a.newNow), a.after);
    } else if a.Other? {
      CommitKeepsRecent(w, a.e, a.after);
    }
  }

  lemma ReplyAsks(w: World, r: Reply, n: nat)
    requires PendingAuthority(OnReply(w, r), n) && !PendingAuthority(w, n)
    ensures n == w.next && (OnReply(w, r).pc == LoadingAuthority(n) || OnReply(w, r).pc.FinalAuthority?)
  {
  }

  lemma ClientAsks(w: World, a: Action, n: nat)
    requires Enabled(w, a) && IsClient(a) && PendingAuthority(Apply(w, a), n) && !PendingAuthority(w, n)
    ensures n == w.next && (Apply(w, a).pc == LoadingAuthority(n) || Apply(w, a).pc.FinalAuthority?)
  {
    if a.Receive? {
      ReplyAsks(w, w.replies[Awaits(w.pc).value], n);
    }
  }

  /** A reply or a failure takes the command out of its wait for the authority; it then has no request for it
      pending, or it is done. */
  lemma LeavesWait(w: World, a: Action)
    requires Numbered(w) && Enabled(w, a) && IsClient(a) && w.pc.LoadingAuthority?
    ensures Apply(w, a).pc.Done? || (w.pc.n !in w.wire && Apply(w, a).pc.Ready?)
    ensures Apply(w, a).wire == w.wire
  {
  }

  lemma ClientKeepsAsksOnce(w: World, a: Action)
    requires Inv(w) && AsksOnce(w) && IsClient(a) && Enabled(w, a)
    ensures AsksOnce(Apply(w, a))
  {
    var w' := Apply(w, a);
    ClientExtends(w, a);
    ClientKeepsLearned(w, a);
    ClientKeepsCreatesOnce(w, a);
    forall n | PendingAuthority(w', n) && w'.past.creates == 0
      ensures w'.pc == LoadingAuthority(n) || (w'.pc.Done? && forall m :: !PendingCreate(w', m))
    {
      if !PendingAuthority(w, n) {
        ClientAsks(w, a, n);
      } else if w.pc.LoadingAuthority? {
        LeavesWait(w, a);
        assert forall m :: PendingCreate(w', m) ==> PendingCreate(w, m);
      }
    }
  }

  lemma ServerKeepsAsksOnce(w: World, a: Action)
    requires AsksOnce(w) && !IsClient(a) && Enabled(w, a)
    ensures AsksOnce(Apply(w, a))
  {
    var w' := Apply(w, a);
    ServerServes(w, a);
    assert forall n :: PendingAuthority(w', n) ==> PendingAuthority(w, n);
    assert forall n :: PendingCreate(w', n) ==> PendingCreate(w, n);
    assert w'.past.creates == 0 ==> w.past.creates == 0;
  }

  lemma ReplyKeepsInformed(w: World, n: nat)
    requires Numbered(w) && Informed(w) && Awaits(w.pc) == Some(n) && n in w.replies
    ensures Informed(OnReply(w, w.replies[n]))
  {
    var w' := OnReply(w, w.replies[n]);
    ReplyExtends(w, w.replies[n]);
    forall m | PendingCreate(w', m)
      ensures PendingCreate(w, m) && w'.wire[m] == w.wire[m]
    {
      ReplySendsNoCreate(w, w.replies[n], m);
    }
  }

  lemma ClientKeepsInformed(w: World, a: Action)
    requires Numbered(w) && Informed(w) && IsClient(a) && Enabled(w, a)
    ensures Informed(Apply(w, a))
  {
    if a.Receive? {
      ReplyKeepsInformed(w, Awaits(w.pc).value);
    } else {
      ClientExtends(w, a);
    }
  }

  lemma ReadKeepsInformed(w: World, n: nat, now: int)
    requires Inv(w) && AsksOnce(w) && Informed(w) && Enabled(w, Read(n, now))
    ensures Informed(Apply(w, Read(n, now)))
  {
    var w' := Apply(w, Read(n, now));
    assert forall m :: PendingCreate(w', m) ==> PendingCreate(w, m) && w'.wire[m] == w.wire[m];
    if w.wire[n].body.GetAuthority? {
      assert PendingAuthority(w, n);
    }
  }

  lemma ServerKeepsInformed(w: World, a: Action)
    requires Inv(w) && AsksOnce(w) && Informed(w) && !IsClient(a) && Enabled(w, a)
    ensures Informed(Apply(w, a))
  {
    if a.Read? {
      ReadKeepsInformed(w, a.n, a.now);
    } else {
      var w' := Apply(w, a);
      ServerServes(w, a);
      assert forall m :: PendingCreate(w', m) ==> PendingCreate(w, m);
      assert w'.past.consulted == w.past.consulted && w'.past.sawActive == w.past.sawActive
          && w'.selected == w.selected;
    }
  }

  lemma {:induction false} RunIsInformed(worlds: seq<World>, actions: seq<Action>, i: nat)
    requires Run(worlds, actions) && i < |worlds|
    ensures Recent(worlds[i]) && AsksOnce(worlds[i]) && Informed(worlds[i])
  {
    if i > 0 {
      var w, a := worlds[i - 1], actions[i - 1];
      RunIsInformed(worlds, actions, i - 1);
      RunKeepsInv(worlds, actions, i - 1);
      StepKeepsRecent(w, a);
      if IsClient(a) {
        ClientKeepsAsksOnce(w, a);
        ClientKeepsInformed(w, a);
      } else {
        ServerKeepsAsksOnce(w, a);
        ServerKeepsInformed(w, a);
      }
    }
  }

  lemma CreateMeetsConsulted(w: World, a: Action)
    requires Inv(w) && Recent(w) && Informed(w) && Enabled(w, a) && a.Create?
    ensures w.past.sawActive && w.past.consulted == Some(w.db.rows) && w.wire[a.n].bearer == w.selected
  {
    assert PendingCreate(w, a.n);
    assert C.Step(w.db, CreateEvent(w, a.n, a.c, a.now, a.victims), a.after);
    assert w.past.creates == 0;
  }

  /** The create takes effect only if the old credential was shown active before, only with the operator's
      bearer, and only on the very table whose authority the command was told. */
  lemma CreateIsConditional(worlds: seq<World>, actions: seq<Action>, j: nat)
    requires Run(worlds, actions) && j < |actions| && actions[j].Create?
    ensures worlds[j].past.sawActive && worlds[j].past.consulted == Some(worlds[j].db.rows)
    ensures actions[j].n in worlds[j].wire && worlds[j].wire[actions[j].n].bearer == worlds[j].selected
  {
    RunKeepsInv(worlds, actions, j);
    RunIsInformed(worlds, actions, j);
    CreateMeetsConsulted(worlds[j], actions[j]);
  }

  // ---- turn by turn -----------------------------------------------------------------------

  /** The command waits for the answer to this request, newly sent and not yet authenticated. */
  ghost predicate Asks(w: World, w': World, bearer: string, body: Body) {
    && Awaits(w'.pc) == Some(w.next) && w'.next == w.next + 1
    && w.next in w'.wire && w'.wire[w.next] == Request(bearer, body, None)
  }

  ghost predicate Ends(w': World, failure: Failure) {
    w'.pc == Done(Failed(failure))
  }

  /** The command begins by asking for the old credential, with the operator's bearer. */
  lemma BeginAsks(w: World)
    requires Enabled(w, Begin)
    ensures Apply(w, Begin).pc.LoadingOld? && Asks(w, Apply(w, Begin), w.selected, GetCredential(w.oldId))
  {
  }

  /** Told to go on, the command creates against the revision it was told; otherwise it stops. */
  lemma PrepareDecides(w: World, confirmed: bool)
    requires Enabled(w, Prepare(confirmed))
    ensures var w' := Apply(w, Prepare(confirmed));
      if confirmed then w'.pc.Creating? && Asks(w, w', w.selected, PostCreate(w.pc.ifMatch)) else Ends(w', Declined)
  {
  }

  /** Only a file that holds the bearer, written and read back without error, is verified. */
  lemma PublishDecides(w: World, contents: Option<string>, intact: bool)
    requires Enabled(w, Publish(contents, intact))
    ensures var w' := Apply(w, Publish(contents, intact));
      && w'.file == contents
      && if intact && contents == Some(w.pc.bearer)
         then w'.pc.Verifying? && w'.pc.created == w.pc.created
             && Asks(w, w', w.pc.bearer, GetCredential(w.pc.created.id))
         else Ends(w', PublishFailed)
  {
  }

  /** Only an active old credential and a consistent authority lead on. */
  lemma LoadingDecides(w: World, r: Reply)
    requires w.pc.LoadingOld? || w.pc.LoadingAuthority?
    ensures var w' := OnReply(w, r);
      if w.pc.LoadingOld? then
        if r.CredentialIs? && r.meta.id == w.oldId && r.meta.status == C.SeenActive
        then w'.pc.LoadingAuthority? && Asks(w, w', w.selected, GetAuthority)
        else Ends(w', if r.CredentialIs? && r.meta.id == w.oldId then OldInactive else LoadFailed)
      else
        if r.AuthorityIs? && r.etag == r.revision then w'.pc == Ready(r.revision) else Ends(w', LoadFailed)
  {
  }

  /** Only another credential, active and without expiry, at the revision of its tag, is published. */
  lemma CreatingDecides(w: World, r: Reply)
    requires w.pc.Creating?
    ensures var w' := OnReply(w, r);
      if r.Created? && r.meta.id != w.oldId && r.meta.status == C.SeenActive && r.meta.expiresAt == None
         && r.etag == r.meta.revision
      then w'.pc == Publishing(r.meta, r.bearer)
      else Ends(w', if r.Refused? then CreateFailed else CreateUncertain)
  {
  }

  /** Only the replacement read back as it was created leads to the completion, which names the old
      credential, the replacement and the created revision. */
  lemma VerifyingDecides(w: World, r: Reply)
    requires w.pc.Verifying? && ValidReplacement(w.pc.created, w.oldId)
    ensures var w', created := OnReply(w, r), w.pc.created;
      if r.CredentialIs? && r.meta == created
      then w'.pc.Completing? && w'.pc.created == created
           && Asks(w, w', w.pc.bearer, PostCompletion(w.oldId, created.id, created.revision))
      else Ends(w', VerificationFailed)
  {
  }

  /** A refusal leaves the rotation incomplete; a sound completion is checked further; anything else is
      uncertain, and one read with the replacement's bearer follows. */
  lemma CompletingDecides(w: World, r: Reply)
    requires w.pc.Completing? && ValidReplacement(w.pc.created, w.oldId)
    ensures var w' := OnReply(w, r);
      if r.Refused? then Ends(w', Incomplete)
      else
        && Asks(w, w', w.pc.bearer, GetCredential(w.oldId))
        && if r.Completed? && r.retired.id == w.oldId && r.retired.status == C.SeenRevoked
              && r.replacement == w.pc.created && r.etag == r.retired.revision
           then w'.pc.FinalOld? && w'.pc.completion == r.retired
           else w'.pc.Recovering?
  {
  }

  /** The final reads must repeat the completion, the replacement and the completion's revision. */
  lemma FinalDecides(w: World, r: Reply)
    requires w.pc.FinalOld? || w.pc.FinalNew? || w.pc.FinalAuthority?
    ensures var w' := OnReply(w, r);
      if w.pc.FinalOld? then
        if r == CredentialIs(w.pc.completion)
        then w'.pc.FinalNew? && Asks(w, w', w.pc.bearer, GetCredential(w.pc.created.id))
        else Ends(w', FinalVerificationFailed)
      else if w.pc.FinalNew? then
        if r == CredentialIs(w.pc.created) then w'.pc.FinalAuthority? && Asks(w, w', w.pc.bearer, GetAuthority)
        else Ends(w', FinalVerificationFailed)
      else
        if r == AuthorityIs(w.pc.completion.revision, w.pc.completion.revision)
        then w'.pc == Done(Rotated(w.pc.completion, w.pc.created))
        else Ends(w', FinalVerificationFailed)
  {
  }

  /** The recovery read reports success exactly when it shows the old credential revoked. */
  lemma RecoveringDecides(w: World, r: Reply)
    requires w.pc.Recovering?
    ensures var w' := OnReply(w, r);
      if r.CredentialIs? && r.meta.id == w.oldId && r.meta.status == C.SeenRevoked
      then w'.pc == Done(Rotated(r.meta, w.pc.created))
      else Ends(w', RevokeUncertain)
  {
  }

  /** Without a usable reply: an uncertain completion is followed up by one read, an uncertain create is
      reported as such, and nothing else is sent. */
  lemma FailureDecides(w: World, uncertain: bool)
    requires Awaits(w.pc).Some?
    ensures var w' := OnFailure(w, uncertain);
      if w.pc.Completing? && uncertain
      then w'.pc.Recovering? && w'.pc.created == w.pc.created && Asks(w, w', w.pc.bearer, GetCredential(w.oldId))
      else
        && w'.wire == w.wire
        && Ends(w', if w.pc.LoadingOld? || w.pc.LoadingAuthority? then LoadFailed
                    else if w.pc.Creating? then if uncertain then CreateUncertain else CreateFailed
                    else if w.pc.Verifying? then VerificationFailed
                    else if w.pc.Completing? then Incomplete
                    else if w.pc.Recovering? then RevokeUncertain
                    else FinalVerificationFailed)
  {
  }

  // ---- the server's side ------------------------------------------------------------------

  /** Metadata show the row's columns and what a reader sees of its status. */
  predicate Shows(meta: Meta, id: nat, row: C.Row, now: int) {
    && meta.id == id && meta.fingerprint == row.fingerprint && meta.createdAt == row.createdAt
    && meta.expiresAt == row.expiresAt && meta.revision == row.revision
    && (meta.status == C.SeenRevoked <==> row.status == C.Revoked)
    && (meta.status == C.SeenActive <==>
          row.status == C.Active && (row.expiresAt == None || now < row.expiresAt.value))
  }

  /** The request is answered and gone, and no other is touched. */
  ghost predicate Answers(w: World, w': World, n: nat) {
    && w'.wire == w.wire - {n} && n in w'.replies && w'.replies == w.replies[n := w'.replies[n]]
    && w'.pc == w.pc && w'.file == w.file
  }

  /** Reads tell the row asked for, or the maximum revision, and change no table. */
  lemma ReadAnswers(w: World, n: nat, now: int)
    requires Enabled(w, Read(n, now))
    ensures var w', body := Apply(w, Read(n, now)), w.wire[n].body;
      && Answers(w, w', n) && w'.db == w.db
      && if body.GetAuthority? then w'.replies[n] == AuthorityIs(C.Authority(w.db.rows), C.Authority(w.db.rows))
         else w'.replies[n].CredentialIs? && Shows(w'.replies[n].meta, body.id, w.db.rows[body.id], now)
  {
  }

  /** A create answers with the secret and the row it stored; a completion with both rows. */
  lemma CommitAnswers(w: World, a: Action)
    requires Enabled(w, a) && (a.Create? || a.Complete?)
    ensures var w' := Apply(w, a);
      && Answers(w, w', a.n) && w'.db == a.after
      && if a.Create? then
           && w'.replies[a.n].Created? && w'.replies[a.n].bearer == a.c.bearer && a.c.id in a.after.rows
           && Shows(w'.replies[a.n].meta, a.c.id, a.after.rows[a.c.id], a.now)
           && w'.replies[a.n].etag == a.after.rows[a.c.id].revision
         else
           var b, rows := w.wire[a.n].body, a.after.rows;
           && w'.replies[a.n].Completed? && b.oldId in rows && b.newId in rows
           && Shows(w'.replies[a.n].retired, b.oldId, rows[b.oldId], a.oldNow)
           && Shows(w'.replies[a.n].replacement, b.newId, rows[b.newId], a.newNow)
           && w'.replies[a.n].etag == rows[b.oldId].revision
  {
  }

  /** A refusal answers and changes no table; authentication marks the request with the identity it found. */
  lemma RefusalAnswers(w: World, n: nat)
    requires Enabled(w, Refuse(n))
    ensures var w' := Apply(w, Refuse(n)); Answers(w, w', n) && w'.replies[n] == Refused && w'.db == w.db
  {
  }

  lemma AuthenticationMarks(w: World, n: nat, id: nat, now: int)
    requires Enabled(w, Authenticate(n, id, now))
    ensures var w' := Apply(w, Authenticate(n, id, now));
      && n in w'.wire && w'.wire[n] == w.wire[n].(identity := Some(id)) && w'.wire == w.wire[n := w'.wire[n]]
      && w'.replies == w.replies && w'.db == w.db
  {
  }

  /** What may happen: a wait may be given up at any time and ends with a reply if there is one; a request may
      be refused at any time and is authenticated by an active row of its bearer; an authenticated read of a
      row that exists is answered; and anybody may commit a transaction at any time. */
  lemma MayHappen(w: World, n: nat, id: nat, now: int, e: C.Event, after: C.Db)
    ensures Awaits(w.pc) == Some(n) ==> Enabled(w, Fail(true)) && Enabled(w, Fail(false))
    ensures Awaits(w.pc) == Some(n) && n in w.replies ==> Enabled(w, Receive)
    ensures w.pc.Ready? ==> Enabled(w, Prepare(true)) && Enabled(w, Prepare(false))
    ensures n in w.wire ==> Enabled(w, Refuse(n))
    ensures (n in w.wire && w.wire[n].identity == None && id in w.db.rows && w.db.rows[id].expiresAt == None
             && w.db.rows[id].verifier.bearer == w.wire[n].bearer && w.db.rows[id].status == C.Active) ==>
              Enabled(w, Authenticate(n, id, now))
    ensures n in w.wire && w.wire[n].identity == Some(id) && w.wire[n].body == GetAuthority ==> Enabled(w, Read(n, now))
    ensures (n in w.wire && w.wire[n].identity == Some(id) && w.wire[n].body.GetCredential?
             && w.wire[n].body.id in w.db.rows) ==> Enabled(w, Read(n, now))
    ensures C.Step(w.db, e, after) ==> Enabled(w, Other(e, after))
  {
  }
}
