/** The administrator rotation command against a server that other administrators use at the same
    time. A request is handled at most once, possibly long after the command gave up on it; a reply may
    never arrive; the server authenticates a request and handles it in separate steps. Delivered
    replies are authentic. */
module RotationWorkflow {
  import opened Wrappers
  import C = AdminCredentials

  // ---- messages ---------------------------------------------------------------------------

  /** Credential metadata as the API renders it; no expiry is the same as non-expiring. */
  datatype Meta = Meta(id: nat, fingerprint: nat, createdAt: int, expiresAt: Option<int>, status: C.Seen, revision: nat)

  function MetaOf(rows: C.Table, id: nat, now: int): Meta
    requires id in rows
  {
    var row := rows[id];
    Meta(id, row.fingerprint, row.createdAt, row.expiresAt, C.StatusAt(row, now), row.revision)
  }

  datatype Body =
    | GetCredential(id: nat)
    | GetAuthority
    | PostCreate(ifMatch: nat)
    | PostCompletion(oldId: nat, newId: nat, ifMatch: nat)

  /** A request on the wire; `identity` is whom the server has authenticated it as. */
  datatype Request = Request(bearer: string, body: Body, identity: Option<nat>)

  datatype Reply =
    | CredentialIs(meta: Meta)
    | AuthorityIs(revision: nat, etag: nat)
    | Created(meta: Meta, bearer: string, etag: nat)
    | Completed(retired: Meta, replacement: Meta, etag: nat)
    | Refused

  // ---- the command ------------------------------------------------------------------------

  datatype Failure =
    | LoadFailed | OldInactive | Declined | CreateFailed | CreateUncertain | PublishFailed | VerificationFailed
    | Incomplete | FinalVerificationFailed | RevokeUncertain

  datatype Outcome = Rotated(retired: Meta, replacement: Meta) | Failed(failure: Failure)

  /** Where the command stands; `n` is the request whose reply it waits for. */
  datatype Pc =
    | Start
    | LoadingOld(n: nat)
    | LoadingAuthority(n: nat)
    | Ready(ifMatch: nat)
    | Creating(n: nat)
    | Publishing(created: Meta, bearer: string)
    | Verifying(n: nat, created: Meta, bearer: string)
    | Completing(n: nat, created: Meta, bearer: string)
    | FinalOld(n: nat, created: Meta, bearer: string, completion: Meta)
    | FinalNew(n: nat, created: Meta, bearer: string, completion: Meta)
    | FinalAuthority(n: nat, created: Meta, completion: Meta)
    | Recovering(n: nat, created: Meta)
    | Done(outcome: Outcome)

  /** What the server did for the command: the tables its create and its completion left, how often it
      created and revoked, whom it last authenticated the published bearer as when asked about the
      replacement, whether the authority was read while the table was as the completion left it, whether it
      showed the old credential active, and the table whose authority it told before the create. */
  datatype Creation = Creation(rows: C.Table, meta: Meta, bearer: string)

  datatype Past = Past(
    creation: Option<Creation>, creates: nat,
    completion: Option<C.Table>, revokes: nat,
    verified: Option<nat>, settled: bool, reborn: bool,
    sawActive: bool, consulted: Option<C.Table>)

  /** `selected` is the operator's bearer; `file` is the replacement bearer file; `reborn` in the past
      records that someone inserted the old identity since the server last showed it revoked. */
  datatype World = World(db: C.Db, oldId: nat, selected: string, pc: Pc, file: Option<string>,
                         wire: map<nat, Request>, replies: map<nat, Reply>, next: nat, past: Past)

  function Send(w: World, bearer: string, body: Body, pc: Pc): World {
    w.(wire := w.wire[w.next := Request(bearer, body, None)], next := w.next + 1, pc := pc)
  }

  function Stop(w: World, failure: Failure): World {
    w.(pc := Done(Failed(failure)))
  }

  predicate ValidReplacement(meta: Meta, oldId: nat) {
    meta.id != oldId && meta.status.SeenActive? && meta.expiresAt.None?
  }

  predicate ValidCompletion(retired: Meta, replacement: Meta, oldId: nat, verified: Meta) {
    retired.id == oldId && retired.status.SeenRevoked? && replacement == verified && replacement.status.SeenActive?
        && replacement.expiresAt.None?
  }

  function Recover(w: World, created: Meta, bearer: string): World {
    Send(w, bearer, GetCredential(w.oldId), Recovering(w.next, created))
  }

  function OnReply(w: World, r: Reply): World {
    match w.pc
    case LoadingOld(_) =>
      if !r.CredentialIs? || r.meta.id != w.oldId then Stop(w, LoadFailed)
      else if !r.meta.status.SeenActive? then Stop(w, OldInactive)
      else Send(w, w.selected, GetAuthority, LoadingAuthority(w.next))
    case LoadingAuthority(_) =>
      if !r.AuthorityIs? || r.etag != r.revision then Stop(w, LoadFailed) else w.(pc := Ready(r.revision))
    case Creating(_) =>
      if r.Refused? then Stop(w, CreateFailed)
      else if !r.Created? || !ValidReplacement(r.meta, w.oldId) || r.etag != r.meta.revision
        then Stop(w, CreateUncertain)
      else w.(pc := Publishing(r.meta, r.bearer))
    case Verifying(_, created, bearer) =>
      if !r.CredentialIs? || r.meta != created || !r.meta.status.SeenActive? || r.meta.expiresAt.Some?
        then Stop(w, VerificationFailed)
      else Send(w, bearer, PostCompletion(w.oldId, created.id, created.revision), Completing(w.next, created, bearer))
    case Completing(_, created, bearer) =>
      if r.Refused? then Stop(w, Incomplete)
      else if !r.Completed? || !ValidCompletion(r.retired, r.replacement, w.oldId, created)
          || r.etag != r.retired.revision then Recover(w, created, bearer)
      else Send(w, bearer, GetCredential(w.oldId), FinalOld(w.next, created, bearer, r.retired))
    case _ => OnFinalReply(w, r)
  }

  /** The reads that follow the completion. */
  function OnFinalReply(w: World, r: Reply): World {
    match w.pc
    case FinalOld(_, created, bearer, completion) =>
      if !r.CredentialIs? || r.meta != completion then Stop(w, FinalVerificationFailed)
      else Send(w, bearer, GetCredential(created.id), FinalNew(w.next, created, bearer, completion))
    case FinalNew(_, created, bearer, completion) =>
      if !r.CredentialIs? || r.meta != created then Stop(w, FinalVerificationFailed)
      else Send(w, bearer, GetAuthority, FinalAuthority(w.next, created, completion))
    case FinalAuthority(_, created, completion) =>
      if !r.AuthorityIs? || r.etag != r.revision || r.revision != completion.revision
        then Stop(w, FinalVerificationFailed)
      else w.(pc := Done(Rotated(completion, created)))
    case Recovering(_, created) =>
      if !r.CredentialIs? || r.meta.id != w.oldId || !r.meta.status.SeenRevoked? then Stop(w, RevokeUncertain)
      else w.(pc := Done(Rotated(r.meta, created)))
    case _ => w
  }

  /** No usable reply: a lost one, a transport error or an error status. The request may still be
      handled later. */
  function OnFailure(w: World, uncertain: bool): World {
    match w.pc
    case LoadingOld(_) => Stop(w, LoadFailed)
    case LoadingAuthority(_) => Stop(w, LoadFailed)
    case Creating(_) => Stop(w, if uncertain then CreateUncertain else CreateFailed)
    case Verifying(_, _, _) => Stop(w, VerificationFailed)
    case Completing(_, created, bearer) => if uncertain then Recover(w, created, bearer) else Stop(w, Incomplete)
    case FinalOld(_, _, _, _) => Stop(w, FinalVerificationFailed)
    case FinalNew(_, _, _, _) => Stop(w, FinalVerificationFailed)
    case FinalAuthority(_, _, _) => Stop(w, FinalVerificationFailed)
    case Recovering(_, _) => Stop(w, RevokeUncertain)
    case _ => w
  }

  function Awaits(pc: Pc): Option<nat> {
    match pc
    case LoadingOld(n) => Some(n)
    case LoadingAuthority(n) => Some(n)
    case Creating(n) => Some(n)
    case Verifying(n, _, _) => Some(n)
    case Completing(n, _, _) => Some(n)
    case FinalOld(n, _, _, _) => Some(n)
    case FinalNew(n, _, _, _) => Some(n)
    case FinalAuthority(n, _, _) => Some(n)
    case Recovering(n, _) => Some(n)
    case _ => None
  }

  // ---- steps ------------------------------------------------------------------------------

  /** `Publish` carries what is in the file afterwards and whether writing and reading it back raised no
      error; `Other` is any transaction of another administrator. */
  datatype Action =
    | Begin
    | Receive
    | Fail(uncertain: bool)
    | Prepare(confirmed: bool)
    | Publish(contents: Option<string>, intact: bool)
    | Authenticate(n: nat, id: nat, now: int)
    | Read(n: nat, now: int)
    | Create(n: nat, c: C.Candidate, now: int, victims: set<nat>, after: C.Db)
    | Complete(n: nat, oldNow: int, newNow: int, after: C.Db)
    | Refuse(n: nat)
    | Other(e: C.Event, after: C.Db)

  predicate Handles(w: World, n: nat) {
    n in w.wire && w.wire[n].identity.Some?
  }

  function CompletionEvent(w: World, n: nat, oldNow: int, newNow: int): C.Event
    requires n in w.wire && w.wire[n].body.PostCompletion?
  {
    var b := w.wire[n].body;
    C.Rotate(b.oldId, b.newId, b.ifMatch, oldNow, newNow)
  }

  function CreateEvent(w: World, n: nat, c: C.Candidate, now: int, victims: set<nat>): C.Event
    requires n in w.wire && w.wire[n].body.PostCreate?
  {
    C.Create(c, now, victims, Some(w.wire[n].body.ifMatch))
  }

  ghost predicate Enabled(w: World, a: Action) {
    match a
    case Begin => w.pc.Start?
    case Receive => Awaits(w.pc).Some? && Awaits(w.pc).value in w.replies
    case Fail(_) => Awaits(w.pc).Some?
    case Prepare(_) => w.pc.Ready?
    case Publish(_, _) => w.pc.Publishing?
    case Authenticate(n, id, now) =>
      && n in w.wire && w.wire[n].identity.None? && id in w.db.rows
      && w.db.rows[id].verifier == C.Digest(w.wire[n].bearer) && C.StatusAt(w.db.rows[id], now).SeenActive?
    case Read(n, _) => Handles(w, n)
        && (w.wire[n].body.GetAuthority? || (w.wire[n].body.GetCredential? && w.wire[n].body.id in w.db.rows))
    case Create(n, c, now, victims, after) =>
      && Handles(w, n) && w.wire[n].body.PostCreate? && c.expiresAt.None?
      && C.Step(w.db, CreateEvent(w, n, c, now, victims), after)
    case Complete(n, oldNow, newNow, after) =>
      Handles(w, n) && w.wire[n].body.PostCompletion? && C.Step(w.db, CompletionEvent(w, n, oldNow, newNow), after)
    case Refuse(n) => n in w.wire
    case Other(e, after) => C.Step(w.db, e, after)
  }

  /** The server answers a request, which leaves the wire. */
  function Answer(w: World, n: nat, r: Reply): World {
    w.(wire := w.wire - {n}, replies := w.replies[n := r])
  }

  function Client(w: World, a: Action): World
    requires a.Receive? ==> Awaits(w.pc).Some? && Awaits(w.pc).value in w.replies
  {
    match a
    case Begin => Send(w, w.selected, GetCredential(w.oldId), LoadingOld(w.next))
    case Receive => OnReply(w, w.replies[Awaits(w.pc).value])
    case Fail(uncertain) => OnFailure(w, uncertain)
    case Prepare(confirmed) =>
      if !w.pc.Ready? then w
      else if !confirmed then Stop(w, Declined)
      else Send(w, w.selected, PostCreate(w.pc.ifMatch), Creating(w.next))
    case Publish(contents, intact) =>
      if !w.pc.Publishing? then w
      else if !intact || contents != Some(w.pc.bearer) then Stop(w.(file := contents), PublishFailed)
      else Send(w.(file := contents), contents.value, GetCredential(w.pc.created.id),
          Verifying(w.next, w.pc.created, contents.value))
    case _ => w
  }

  /** The request is the command asking for its replacement with the published bearer. */
  predicate Proves(w: World, q: Request) {
    w.past.creation.Some? && q.bearer == w.past.creation.value.bearer
        && q.body == GetCredential(w.past.creation.value.meta.id)
  }

  function DoAuthenticate(w: World, n: nat, id: nat): World
    requires n in w.wire
  {
    var marked := w.(wire := w.wire[n := w.wire[n].(identity := Some(id))]);
    if Proves(w, w.wire[n]) then marked.(past := w.past.(verified := Some(id))) else marked
  }

  ghost function DoRead(w: World, n: nat, now: int): World
    requires Handles(w, n)
        && (w.wire[n].body.GetAuthority? || (w.wire[n].body.GetCredential? && w.wire[n].body.id in w.db.rows))
  {
    var r := C.Authority(w.db.rows);
    if w.wire[n].body.GetAuthority? then
      var settled := w.past.settled || w.past.completion == Some(w.db.rows);
      var consulted := if w.past.creates == 0 then Some(w.db.rows) else w.past.consulted;
      Answer(w, n, AuthorityIs(r, r)).(past := w.past.(settled := settled, consulted := consulted))
    else
      var reply := CredentialIs(MetaOf(w.db.rows, w.wire[n].body.id, now));
      Answer(w, n, reply).(
        past := w.past.(reborn := w.past.reborn && !ShowsRevoked(reply, w.oldId),
                        sawActive := w.past.sawActive || ShowsActive(reply, w.oldId)))
  }

  function DoCreate(w: World, n: nat, c: C.Candidate, now: int, after: C.Db): World
    requires c.id in after.rows
  {
    Answer(w, n, Created(MetaOf(after.rows, c.id, now), c.bearer, after.rows[c.id].revision))
      .(db := after, past := w.past.(creation := Some(Creation(after.rows, MetaOf(after.rows, c.id, now), c.bearer)),
                                     creates := w.past.creates + 1, reborn := w.past.reborn || c.id == w.oldId))
  }

  function DoComplete(w: World, n: nat, oldNow: int, newNow: int, after: C.Db): World
    requires n in w.wire && w.wire[n].body.PostCompletion?
    requires w.wire[n].body.oldId in after.rows && w.wire[n].body.newId in after.rows
  {
    var b := w.wire[n].body;
    var retired, replacement := MetaOf(after.rows, b.oldId, oldNow), MetaOf(after.rows, b.newId, newNow);
    var reply := Completed(retired, replacement, retired.revision);
    Answer(w, n, reply).(
      db := after,
      past := w.past.(completion := Some(after.rows), revokes := w.past.revokes + 1,
                      reborn := w.past.reborn && !ShowsRevoked(reply, w.oldId)))
  }

  ghost function Apply(w: World, a: Action): World
    requires Enabled(w, a)
  {
    match a
    case Authenticate(n, id, _) => DoAuthenticate(w, n, id)
    case Read(n, now) => DoRead(w, n, now)
    case Create(n, c, now, victims, after) => DoCreate(w, n, c, now, after)
    case Complete(n, oldNow, newNow, after) => DoComplete(w, n, oldNow, newNow, after)
    case Refuse(n) => Answer(w, n, Refused)
    case Other(e, after) => w.(db := after, past := w.past.(reborn := w.past.reborn || C.Inserts(e, w.oldId)))
    case _ => Client(w, a)
  }

  // ---- invariants -------------------------------------------------------------------------

  /** Requests and replies are numbered below `next` and no request is both pending and answered. */
  ghost predicate Numbered(w: World) {
    && (forall n :: n in w.wire ==> n < w.next && n !in w.replies)
    && (forall n :: n in w.replies ==> n < w.next)
    && (Awaits(w.pc).Some? ==> Awaits(w.pc).value < w.next)
  }

  predicate BeforeCreate(pc: Pc) {
    pc.Start? || pc.LoadingOld? || pc.LoadingAuthority? || pc.Ready?
  }

  /** The command has obtained a replacement. */
  predicate Holds(pc: Pc) {
    pc.Publishing? || pc.Verifying? || pc.Completing? || pc.FinalOld? || pc.FinalNew? || pc.FinalAuthority?
        || pc.Recovering?
  }

  predicate CompletionSent(pc: Pc) {
    || pc.Completing? || pc.FinalOld? || pc.FinalNew? || pc.FinalAuthority? || pc.Recovering?
    || (pc.Done?
         && (pc.outcome.Rotated? || pc.outcome.failure in {Incomplete, FinalVerificationFailed, RevokeUncertain}))
  }

  predicate PendingCreate(w: World, n: nat) {
    n in w.wire && w.wire[n].body.PostCreate?
  }

  predicate PendingCompletion(w: World, n: nat) {
    n in w.wire && w.wire[n].body.PostCompletion?
  }

  /** One create at most is pending or done. */
  ghost predicate CreatesOnce(w: World) {
    && (forall n, m :: PendingCreate(w, n) && PendingCreate(w, m) ==> n == m)
    && (BeforeCreate(w.pc) || w.past.creates > 0 ==> forall n :: !PendingCreate(w, n))
    && (BeforeCreate(w.pc) ==> w.past.creates == 0)
    && w.past.creates <= 1 && (w.past.creation.Some? <==> w.past.creates > 0)
  }

  /** One completion at most is pending or done, and none before the replacement was verified. */
  ghost predicate CompletesOnce(w: World) {
    && (forall n, m :: PendingCompletion(w, n) && PendingCompletion(w, m) ==> n == m)
    && (!CompletionSent(w.pc) || w.past.revokes > 0 ==> forall n :: !PendingCompletion(w, n))
    && (!CompletionSent(w.pc) ==> w.past.revokes == 0)
    && w.past.revokes <= 1 && (w.past.completion.Some? <==> w.past.revokes > 0)
  }

  predicate Describes(c: Creation, meta: Meta, bearer: string) {
    c.meta == meta && c.bearer == bearer
  }

  /** What the command learned of its replacement is what the server created. */
  ghost predicate Learned(w: World) {
    && (forall n :: n in w.replies && w.replies[n].Created? ==>
         w.past.creation.Some? && Describes(w.past.creation.value, w.replies[n].meta, w.replies[n].bearer))
    && (Holds(w.pc) ==> w.past.creation.Some? && w.past.creation.value.meta == w.pc.created)
    && ((w.pc.Publishing? || w.pc.Verifying? || w.pc.Completing? || w.pc.FinalOld? || w.pc.FinalNew?) ==>
         w.past.creation.value.bearer == w.pc.bearer)
  }

  /** Since the create, either nothing touched the table or its revision is past the created one. */
  ghost predicate Fenced(w: World) {
    w.past.creation.Some? ==>
      var c := w.past.creation.value;
      && C.UniqueVerifiers(c.rows) && C.Permanent(c.rows, c.meta.id) && c.rows[c.meta.id].verifier == C.Digest(c.bearer)
      && C.Authority(c.rows) == c.meta.revision <= C.Authority(w.db.rows)
      && (C.Authority(w.db.rows) == c.meta.revision ==>
           w.db.rows == c.rows && (w.past.verified.Some? ==> w.past.verified.value == c.meta.id))
  }

  /** The published bearer is in the file once it was verified, and a usable answer to the verifying
      read comes after an authentication with it. */
  ghost predicate Proven(w: World) {
    && (w.pc.Verifying? && w.pc.n in w.wire ==>
         Proves(w, w.wire[w.pc.n]) && (w.wire[w.pc.n].identity.Some? ==> w.past.verified.Some?))
    && (w.pc.Verifying? && w.pc.n in w.replies && w.replies[w.pc.n].CredentialIs? ==> w.past.verified.Some?)
    && (w.pc.Verifying? ==> w.past.creation.Some? && w.file == Some(w.past.creation.value.bearer))
    && (CompletionSent(w.pc) ==>
         w.past.verified.Some? && w.past.creation.Some? && w.file == Some(w.past.creation.value.bearer))
  }

  /** A pending completion names the old credential, the replacement and the created revision. */
  ghost predicate Targeted(w: World) {
    forall n :: PendingCompletion(w, n) ==>
      && w.past.creation.Some?
      && w.wire[n].bearer == w.past.creation.value.bearer
      && w.wire[n].body == PostCompletion(w.oldId, w.past.creation.value.meta.id, w.past.creation.value.meta.revision)
  }

  /** Revoked, unless someone inserted the identity since it was last shown revoked. */
  predicate OldGone(w: World) {
    w.past.reborn || !C.ActiveRow(w.db.rows, w.oldId)
  }

  predicate ShowsRevoked(r: Reply, oldId: nat) {
    || (r.CredentialIs? && r.meta.id == oldId && r.meta.status.SeenRevoked?)
    || (r.Completed? && r.retired.id == oldId && r.retired.status.SeenRevoked?)
  }

  predicate ShowsActive(r: Reply, oldId: nat) {
    r.CredentialIs? && r.meta.id == oldId && r.meta.status.SeenActive?
  }

  /** Whatever shows the old credential as revoked tells the truth about the present. */
  ghost predicate Truthful(w: World) {
    && (forall n :: n in w.replies && ShowsRevoked(w.replies[n], w.oldId) ==> OldGone(w))
    && (w.pc.FinalOld? || w.pc.FinalNew? || w.pc.FinalAuthority? ==> OldGone(w))
    && (w.pc.Done? && w.pc.outcome.Rotated? ==> OldGone(w))
  }

  predicate Final(pc: Pc) {
    pc.FinalOld? || pc.FinalNew? || pc.FinalAuthority?
  }

  /** What the command carries or reports was checked: an active permanent replacement that is not the old
      credential, and the old credential revoked. */
  predicate Sane(pc: Pc, oldId: nat) {
    && (Holds(pc) ==> ValidReplacement(pc.created, oldId))
    && (Final(pc) ==> pc.completion.id == oldId && pc.completion.status.SeenRevoked?)
    && (pc.Done? && pc.outcome.Rotated? ==>
          ValidReplacement(pc.outcome.replacement, oldId) && pc.outcome.retired.id == oldId
              && pc.outcome.retired.status.SeenRevoked?)
  }

  /** What it reports as the replacement is what the server created. */
  ghost predicate Accurate(w: World) {
    w.pc.Done? && w.pc.outcome.Rotated? ==>
      w.past.creation.Some? && w.past.creation.value.meta == w.pc.outcome.replacement
  }

  /** Since the completion, either nothing touched the table or its revision is past the completed one. */
  ghost predicate Sealed(w: World) {
    w.past.completion.Some? ==>
      var r := C.Authority(w.past.completion.value);
      r <= C.Authority(w.db.rows) && (C.Authority(w.db.rows) == r ==> w.db.rows == w.past.completion.value)
  }

  /** The completion's revision, as the command knows it, is that of the table it left; reading the same
      revision as authority means that the table was that one. */
  ghost predicate Dated(w: World) {
    && (forall n :: n in w.replies && w.replies[n].Completed? ==>
          w.past.completion.Some? && w.replies[n].retired.revision == C.Authority(w.past.completion.value))
    && (Final(w.pc) ==> w.past.completion.Some? && w.pc.completion.revision == C.Authority(w.past.completion.value))
    && (w.pc.FinalAuthority? && w.pc.n in w.replies && w.replies[w.pc.n].AuthorityIs?
         && w.replies[w.pc.n].revision == w.pc.completion.revision ==>
          w.past.settled)
  }

  ghost predicate Inv(w: World) {
    && C.Inv(w.db) && Numbered(w) && CreatesOnce(w) && CompletesOnce(w) && Learned(w) && Fenced(w)
    && Unverified(w) && Proven(w) && Targeted(w) && Truthful(w)
    && Sane(w.pc, w.oldId) && Accurate(w) && Sealed(w) && Dated(w)
  }

  predicate IsClient(a: Action) {
    a.Begin? || a.Receive? || a.Fail? || a.Prepare? || a.Publish?
  }

  /** The most a step of the command does to the world outside it: one new unauthenticated request. */
  ghost predicate Extends(w: World, w': World) {
    && w'.db == w.db && w'.replies == w.replies && w'.past == w.past && w'.oldId == w.oldId && w'.selected == w.selected
    && ((w'.wire == w.wire && w'.next == w.next)
        || (w'.next == w.next + 1 && w.next in w'.wire && w'.wire == w.wire[w.next := w'.wire[w.next]]
             && w'.wire[w.next].identity.None?))
  }

  lemma FinalReplyExtends(w: World, r: Reply)
    ensures Extends(w, OnFinalReply(w, r))
    ensures var pc := OnFinalReply(w, r).pc; Awaits(pc).Some? ==>
        Awaits(pc).value < OnFinalReply(w, r).next || pc == w.pc
  {
  }

  lemma ReplyExtends(w: World, r: Reply)
    ensures Extends(w, OnReply(w, r))
    ensures var pc := OnReply(w, r).pc; Awaits(pc).Some? ==> Awaits(pc).value < OnReply(w, r).next || pc == w.pc
  {
    FinalReplyExtends(w, r);
  }

  lemma ClientExtends(w: World, a: Action)
    requires IsClient(a) && Enabled(w, a)
    ensures Extends(w, Apply(w, a))
    ensures var pc := Apply(w, a).pc; Awaits(pc).Some? ==> Awaits(pc).value < Apply(w, a).next || pc == w.pc
  {
    if a.Receive? {
      ReplyExtends(w, w.replies[Awaits(w.pc).value]);
    }
  }

  lemma StepKeepsNumbered(w: World, a: Action)
    requires Numbered(w) && Enabled(w, a)
    ensures Numbered(Apply(w, a))
  {
    if IsClient(a) {
      ClientExtends(w, a);
    }
  }

  // ---- the command's steps keep the invariants --------------------------------------------

  lemma ReplyKeepsCreatesOnce(w: World, r: Reply)
    requires Numbered(w) && CreatesOnce(w)
    ensures CreatesOnce(OnReply(w, r))
  {
    ReplyExtends(w, r);
    assert forall n :: PendingCreate(OnReply(w, r), n) ==> PendingCreate(w, n);
  }

  lemma ClientKeepsCreatesOnce(w: World, a: Action)
    requires Numbered(w) && CreatesOnce(w) && IsClient(a) && Enabled(w, a)
    ensures CreatesOnce(Apply(w, a))
  {
    if a.Receive? {
      ReplyKeepsCreatesOnce(w, w.replies[Awaits(w.pc).value]);
    } else {
      ClientExtends(w, a);
      assert forall n :: PendingCreate(Apply(w, a), n) ==> PendingCreate(w, n) || (n == w.next && a.Prepare?);
    }
  }

  lemma ReplyKeepsCompletesOnce(w: World, r: Reply)
    requires Numbered(w) && CompletesOnce(w)
    ensures CompletesOnce(OnReply(w, r))
  {
    ReplyExtends(w, r);
    assert forall n :: PendingCompletion(OnReply(w, r), n) ==>
        PendingCompletion(w, n) || (n == w.next && w.pc.Verifying?);
  }

  lemma ClientKeepsCompletesOnce(w: World, a: Action)
    requires Numbered(w) && CompletesOnce(w) && IsClient(a) && Enabled(w, a)
    ensures CompletesOnce(Apply(w, a))
  {
    if a.Receive? {
      ReplyKeepsCompletesOnce(w, w.replies[Awaits(w.pc).value]);
    } else {
      ClientExtends(w, a);
      assert forall n :: PendingCompletion(Apply(w, a), n) ==> PendingCompletion(w, n);
    }
  }

  lemma ReplyKeepsLearned(w: World, n: nat)
    requires Learned(w) && n in w.replies
    ensures Learned(OnReply(w, w.replies[n]))
  {
    ReplyExtends(w, w.replies[n]);
  }

  lemma ClientKeepsLearned(w: World, a: Action)
    requires Learned(w) && IsClient(a) && Enabled(w, a)
    ensures Learned(Apply(w, a))
  {
    ClientExtends(w, a);
    if a.Receive? {
      ReplyKeepsLearned(w, Awaits(w.pc).value);
    }
  }

  lemma ReplyKeepsProven(w: World, n: nat)
    requires Learned(w) && Proven(w) && Awaits(w.pc) == Some(n) && n in w.replies
    ensures Proven(OnReply(w, w.replies[n]))
  {
    ReplyExtends(w, w.replies[n]);
  }

  lemma ClientKeepsProven(w: World, a: Action)
    requires Numbered(w) && Learned(w) && Proven(w) && IsClient(a) && Enabled(w, a)
    ensures Proven(Apply(w, a))
  {
    ClientExtends(w, a);
    if a.Receive? {
      ReplyKeepsProven(w, Awaits(w.pc).value);
    }
  }

  lemma ClientKeepsTargeted(w: World, a: Action)
    requires Learned(w) && Targeted(w) && IsClient(a) && Enabled(w, a)
    ensures Targeted(Apply(w, a))
  {
    ClientExtends(w, a);
  }

  lemma ClientKeepsTruthful(w: World, a: Action)
    requires Truthful(w) && IsClient(a) && Enabled(w, a)
    ensures Truthful(Apply(w, a))
  {
    ClientExtends(w, a);
  }

  lemma FinalReplyKeepsSane(w: World, r: Reply)
    requires Sane(w.pc, w.oldId)
    ensures Sane(OnFinalReply(w, r).pc, w.oldId)
  {
  }

  lemma ReplyKeepsSane(w: World, r: Reply)
    requires Sane(w.pc, w.oldId)
    ensures Sane(OnReply(w, r).pc, w.oldId)
  {
    FinalReplyKeepsSane(w, r);
  }

  lemma ClientKeepsSane(w: World, a: Action)
    requires Sane(w.pc, w.oldId) && IsClient(a) && Enabled(w, a)
    ensures Sane(Apply(w, a).pc, Apply(w, a).oldId)
  {
    ClientExtends(w, a);
    if a.Receive? {
      ReplyKeepsSane(w, w.replies[Awaits(w.pc).value]);
    }
  }

  lemma ClientKeepsAccurate(w: World, a: Action)
    requires Learned(w) && Accurate(w) && IsClient(a) && Enabled(w, a)
    ensures Accurate(Apply(w, a))
  {
    ClientExtends(w, a);
  }

  lemma ReplyKeepsDated(w: World, n: nat)
    requires Numbered(w) && Dated(w) && n in w.replies
    ensures Dated(OnReply(w, w.replies[n]))
  {
    ReplyExtends(w, w.replies[n]);
  }

  lemma ClientKeepsDated(w: World, a: Action)
    requires Numbered(w) && Dated(w) && IsClient(a) && Enabled(w, a)
    ensures Dated(Apply(w, a))
  {
    ClientExtends(w, a);
    if a.Receive? {
      ReplyKeepsDated(w, Awaits(w.pc).value);
    }
  }

  // ---- the server's steps keep the invariants ---------------------------------------------

  /** What any step of the server leaves alone: the command, its file, and every pending request but for
      the identity it is marked with. */
  ghost predicate Serves(w: World, w': World) {
    && w'.pc == w.pc && w'.file == w.file && w'.oldId == w.oldId && w'.next == w.next
    && (forall n :: n in w'.wire ==>
         n in w.wire && w'.wire[n].body == w.wire[n].body && w'.wire[n].bearer == w.wire[n].bearer)
  }

  lemma ServerServes(w: World, a: Action)
    requires !IsClient(a) && Enabled(w, a)
    ensures Serves(w, Apply(w, a))
  {
  }

  lemma ServerKeepsCreatesOnce(w: World, a: Action)
    requires CreatesOnce(w) && !IsClient(a) && Enabled(w, a)
    ensures CreatesOnce(Apply(w, a))
  {
    var w' := Apply(w, a);
    ServerServes(w, a);
    assert forall n :: PendingCreate(w', n) ==> PendingCreate(w, n);
    if a.Create? {
      assert PendingCreate(w, a.n) && !PendingCreate(w', a.n);
    }
  }

  lemma ServerKeepsCompletesOnce(w: World, a: Action)
    requires CompletesOnce(w) && !IsClient(a) && Enabled(w, a)
    ensures CompletesOnce(Apply(w, a))
  {
    var w' := Apply(w, a);
    ServerServes(w, a);
    assert forall n :: PendingCompletion(w', n) ==> PendingCompletion(w, n);
    if a.Complete? {
      assert PendingCompletion(w, a.n) && !PendingCompletion(w', a.n);
    }
  }

  lemma ServerKeepsLearned(w: World, a: Action)
    requires Learned(w) && CreatesOnce(w) && !IsClient(a) && Enabled(w, a)
    ensures Learned(Apply(w, a))
  {
    ServerServes(w, a);
    if a.Create? {
      assert PendingCreate(w, a.n);
    }
  }

  lemma CommitKeepsFenced(w: World, e: C.Event, after: C.Db)
    requires C.Inv(w.db) && Fenced(w) && C.Step(w.db, e, after)
    ensures Fenced(w.(db := after))
  {
    C.StepRaisesAuthority(w.db, e, after);
  }

  lemma CreateFences(w: World, n: nat, c: C.Candidate, now: int, victims: set<nat>, after: C.Db)
    requires C.Inv(w.db) && Enabled(w, Create(n, c, now, victims, after)) && w.past.verified.None?
    ensures Fenced(Apply(w, Create(n, c, now, victims, after)))
  {
    var e := CreateEvent(w, n, c, now, victims);
    C.StepRaisesAuthority(w.db, e, after);
    C.StepKeepsInv(w.db, e, after);
  }

  /** With the table as the create left it, only the replacement has the published bearer. */
  lemma AuthenticationFences(w: World, n: nat, id: nat, now: int)
    requires Fenced(w) && Enabled(w, Authenticate(n, id, now))
    ensures Fenced(Apply(w, Authenticate(n, id, now)))
  {
    if Proves(w, w.wire[n]) && C.Authority(w.db.rows) == w.past.creation.value.meta.revision {
      var c := w.past.creation.value;
      assert c.rows[id].verifier == c.rows[c.meta.id].verifier;
    }
  }

  lemma StepKeepsFenced(w: World, a: Action)
    requires C.Inv(w.db) && Fenced(w) && Unverified(w) && CreatesOnce(w) && Enabled(w, a)
    ensures Fenced(Apply(w, a))
  {
    if IsClient(a) {
      ClientExtends(w, a);
    } else if a.Create? {
      assert PendingCreate(w, a.n);
      CreateFences(w, a.n, a.c, a.now, a.victims, a.after);
    } else if a.Authenticate? {
      AuthenticationFences(w, a.n, a.id, a.now);
    } else if a.Complete? {
      CommitKeepsFenced(w, CompletionEvent(w, a.n, a.oldNow, a.newNow), a.after);
    } else if a.Other? {
      CommitKeepsFenced(w, a.e, a.after);
    }
  }

  /** Nothing is verified before there is something to verify. */
  ghost predicate Unverified(w: World) {
    w.past.creation.None? ==> w.past.verified.None?
  }

  lemma ServerKeepsAccurate(w: World, a: Action)
    requires Accurate(w) && CreatesOnce(w) && !IsClient(a) && Enabled(w, a)
    ensures Accurate(Apply(w, a))
  {
    ServerServes(w, a);
    if a.Create? {
      assert PendingCreate(w, a.n);
    }
  }

  lemma CommitKeepsSealed(w: World, e: C.Event, after: C.Db)
    requires C.Inv(w.db) && Sealed(w) && C.Step(w.db, e, after)
    ensures Sealed(w.(db := after))
  {
    C.StepRaisesAuthority(w.db, e, after);
  }

  lemma StepKeepsSealed(w: World, a: Action)
    requires C.Inv(w.db) && Sealed(w) && Enabled(w, a)
    ensures Sealed(Apply(w, a))
  {
    if IsClient(a) {
      ClientExtends(w, a);
    } else if a.Create? {
      CommitKeepsSealed(w, CreateEvent(w, a.n, a.c, a.now, a.victims), a.after);
    } else if a.Other? {
      CommitKeepsSealed(w, a.e, a.after);
    }
  }

  lemma CompletionRevision(w: World, a: Action)
    requires C.Inv(w.db) && a.Complete? && Enabled(w, a)
    ensures a.after.rows[w.wire[a.n].body.oldId].revision == C.Authority(a.after.rows)
  {
    C.StepRaisesAuthority(w.db, CompletionEvent(w, a.n, a.oldNow, a.newNow), a.after);
  }

  lemma ServerKeepsDated(w: World, a: Action)
    requires C.Inv(w.db) && Sealed(w) && Dated(w) && CompletesOnce(w) && Numbered(w) && !IsClient(a) && Enabled(w, a)
    ensures Dated(Apply(w, a))
  {
    if a.Complete? {
      CompletionKeepsDated(w, a);
    } else if a.Read? {
      ReadKeepsDated(w, a.n, a.now);
    } else {
      OthersKeepDated(w, a);
    }
  }

  lemma OthersKeepDated(w: World, a: Action)
    requires Dated(w) && !IsClient(a) && !a.Complete? && !a.Read? && Enabled(w, a)
    ensures Dated(Apply(w, a))
  {
  }

  lemma ReadKeepsDated(w: World, n: nat, now: int)
    requires Sealed(w) && Dated(w) && Enabled(w, Read(n, now))
    ensures Dated(DoRead(w, n, now))
  {
  }

  lemma CompletionKeepsDated(w: World, a: Action)
    requires C.Inv(w.db) && Dated(w) && CompletesOnce(w) && a.Complete? && Enabled(w, a)
    ensures Dated(Apply(w, a))
  {
    assert PendingCompletion(w, a.n);
    CompletionRevision(w, a);
  }

  lemma ServerKeepsProven(w: World, a: Action)
    requires Numbered(w) && Proven(w) && CreatesOnce(w) && !IsClient(a) && Enabled(w, a)
    ensures Proven(Apply(w, a))
  {
    ServerServes(w, a);
    if a.Create? {
      assert PendingCreate(w, a.n);
    }
  }

  lemma ServerKeepsTargeted(w: World, a: Action)
    requires Targeted(w) && CreatesOnce(w) && !IsClient(a) && Enabled(w, a)
    ensures Targeted(Apply(w, a))
  {
    ServerServes(w, a);
    assert forall n :: PendingCompletion(Apply(w, a), n) ==> PendingCompletion(w, n);
    if a.Create? {
      assert PendingCreate(w, a.n);
    }
  }

  lemma CommitKeepsGone(w: World, e: C.Event, after: C.Db)
    requires OldGone(w) && C.Step(w.db, e, after)
    ensures w.past.reborn || C.Inserts(e, w.oldId) || !C.ActiveRow(after.rows, w.oldId)
  {
    if !w.past.reborn && !C.Inserts(e, w.oldId) {
      C.StepNeverReactivates(w.db, e, after, w.oldId);
    }
  }

  lemma StepKeepsGone(w: World, a: Action)
    requires OldGone(w) && Enabled(w, a)
    ensures OldGone(Apply(w, a))
  {
    if IsClient(a) {
      ClientExtends(w, a);
    } else if a.Create? {
      CommitKeepsGone(w, CreateEvent(w, a.n, a.c, a.now, a.victims), a.after);
    } else if a.Complete? {
      CommitKeepsGone(w, CompletionEvent(w, a.n, a.oldNow, a.newNow), a.after);
    } else if a.Other? {
      CommitKeepsGone(w, a.e, a.after);
    }
  }

  lemma ServerKeepsTruthful(w: World, a: Action)
    requires Truthful(w) && !IsClient(a) && Enabled(w, a)
    ensures Truthful(Apply(w, a))
  {
    ServerServes(w, a);
    if OldGone(w) {
      StepKeepsGone(w, a);
    }
  }

  lemma StepKeepsDb(w: World, a: Action)
    requires C.Inv(w.db) && Enabled(w, a)
    ensures C.Inv(Apply(w, a).db)
  {
    if IsClient(a) {
      ClientExtends(w, a);
    } else if a.Create? {
      C.StepKeepsInv(w.db, CreateEvent(w, a.n, a.c, a.now, a.victims), a.after);
    } else if a.Complete? {
      C.StepKeepsInv(w.db, CompletionEvent(w, a.n, a.oldNow, a.newNow), a.after);
    } else if a.Other? {
      C.StepKeepsInv(w.db, a.e, a.after);
    }
  }

  lemma StepKeepsUnverified(w: World, a: Action)
    requires Unverified(w) && Enabled(w, a)
    ensures Unverified(Apply(w, a))
  {
    if IsClient(a) {
      ClientExtends(w, a);
    }
  }

  lemma ClientKeepsInv(w: World, a: Action)
    requires Inv(w) && IsClient(a) && Enabled(w, a)
    ensures CreatesOnce(Apply(w, a)) && CompletesOnce(Apply(w, a)) && Learned(Apply(w, a)) && Proven(Apply(w, a))
    ensures Targeted(Apply(w, a)) && Truthful(Apply(w, a)) && Accurate(Apply(w, a)) && Dated(Apply(w, a))
    ensures Sane(Apply(w, a).pc, Apply(w, a).oldId)
  {
    ClientKeepsSane(w, a);
    ClientKeepsAccurate(w, a);
    ClientKeepsDated(w, a);
    ClientKeepsCreatesOnce(w, a);
    ClientKeepsCompletesOnce(w, a);
    ClientKeepsLearned(w, a);
    ClientKeepsProven(w, a);
    ClientKeepsTargeted(w, a);
    ClientKeepsTruthful(w, a);
  }

  lemma ServerKeepsInv(w: World, a: Action)
    requires Inv(w) && !IsClient(a) && Enabled(w, a)
    ensures CreatesOnce(Apply(w, a)) && CompletesOnce(Apply(w, a)) && Learned(Apply(w, a)) && Proven(Apply(w, a))
    ensures Targeted(Apply(w, a)) && Truthful(Apply(w, a)) && Accurate(Apply(w, a)) && Dated(Apply(w, a))
    ensures Sane(Apply(w, a).pc, Apply(w, a).oldId)
  {
    ServerServes(w, a);
    ServerKeepsAccurate(w, a);
    ServerKeepsDated(w, a);
    ServerKeepsCreatesOnce(w, a);
    ServerKeepsCompletesOnce(w, a);
    ServerKeepsLearned(w, a);
    ServerKeepsProven(w, a);
    ServerKeepsTargeted(w, a);
    ServerKeepsTruthful(w, a);
  }

  lemma StepKeepsInv(w: World, a: Action)
    requires Inv(w) && Enabled(w, a)
    ensures Inv(Apply(w, a))
  {
    StepKeepsDb(w, a);
    StepKeepsNumbered(w, a);
    StepKeepsFenced(w, a);
    StepKeepsSealed(w, a);
    StepKeepsUnverified(w, a);
    if IsClient(a) {
      ClientKeepsInv(w, a);
    } else {
      ServerKeepsInv(w, a);
    }
  }

  // ---- runs -------------------------------------------------------------------------------

  ghost predicate Initial(w: World) {
    C.Inv(w.db) && w == World(w.db, w.oldId, w.selected, Start, None, map[], map[], 0,
        Past(None, 0, None, 0, None, false, false, false, None))
  }

  ghost predicate Run(worlds: seq<World>, actions: seq<Action>) {
    && |worlds| == |actions| + 1 && Initial(worlds[0])
    && forall i :: 0 <= i < |actions| ==>
        Enabled(worlds[i], actions[i]) && worlds[i + 1] == Apply(worlds[i], actions[i])
  }

  lemma {:induction false} RunKeepsInv(worlds: seq<World>, actions: seq<Action>, i: nat)
    requires Run(worlds, actions) && i < |worlds|
    ensures Inv(worlds[i])
  {
    if i > 0 {
      RunKeepsInv(worlds, actions, i - 1);
      StepKeepsInv(worlds[i - 1], actions[i - 1]);
    }
  }

  /** The proof behind a revocation: the replacement's bearer is in the file and was read back, the
      server authenticated it as the replacement, the table is the one the create left, and afterwards
      the replacement still governs while the old credential is the only thing that changed. */
  ghost predicate Justified(w: World, after: C.Db) {
    && w.past.creation.Some?
    && var c := w.past.creation.value;
       && w.file == Some(c.bearer) && w.past.verified == Some(c.meta.id) && w.db.rows == c.rows && c.meta.id != w.oldId
       && C.ActiveRow(w.db.rows, w.oldId) && !C.ActiveRow(after.rows, w.oldId) && C.Permanent(after.rows, c.meta.id)
       && after.rows == C.RevokeRow(w.db.rows, w.oldId, after.revision)
  }

  lemma CompletionIsJustified(w: World, a: Action)
    requires Inv(w) && a.Complete? && Enabled(w, a)
    ensures Justified(w, a.after)
  {
    assert PendingCompletion(w, a.n);
    assert C.Step(w.db, CompletionEvent(w, a.n, a.oldNow, a.newNow), a.after);
  }

  /** In every run, the command's revocation takes effect only with that proof in hand. */
  lemma RevokesOnlyAfterProof(worlds: seq<World>, actions: seq<Action>, i: nat)
    requires Run(worlds, actions) && i < |actions| && actions[i].Complete?
    ensures Justified(worlds[i], worlds[i + 1].db)
  {
    RunKeepsInv(worlds, actions, i);
    CompletionIsJustified(worlds[i], actions[i]);
  }

  lemma {:induction false} DoneStays(worlds: seq<World>, actions: seq<Action>, i: nat, j: nat)
    requires Run(worlds, actions) && i <= j < |worlds| && worlds[i].pc.Done?
    ensures worlds[j].pc == worlds[i].pc
  {
    if i < j {
      DoneStays(worlds, actions, i, j - 1);
      StepKeepsDone(worlds[j - 1], actions[j - 1]);
    }
  }

  lemma StepKeepsDone(w: World, a: Action)
    requires w.pc.Done? && Enabled(w, a)
    ensures Apply(w, a).pc == w.pc
  {
    if !IsClient(a) {
      ServerServes(w, a);
    }
  }

  /** A report of success, however it was reached, means that the old credential is not active on the
      server, when reported and ever after, unless somebody inserted its identity since the server last
      showed it revoked. */
  lemma RotatedMeansRevoked(worlds: seq<World>, actions: seq<Action>, i: nat, j: nat)
    requires Run(worlds, actions) && i <= j < |worlds| && worlds[i].pc.Done? && worlds[i].pc.outcome.Rotated?
    ensures worlds[j].past.reborn || !C.ActiveRow(worlds[j].db.rows, worlds[j].oldId)
  {
    DoneStays(worlds, actions, i, j);
    RunKeepsInv(worlds, actions, j);
  }

  /** A report of success names the old credential as revoked and the server's own replacement as active
      and permanent. */
  lemma ReportIsAccurate(worlds: seq<World>, actions: seq<Action>, i: nat)
    requires Run(worlds, actions) && i < |worlds| && worlds[i].pc.Done? && worlds[i].pc.outcome.Rotated?
    ensures var w, report := worlds[i], worlds[i].pc.outcome;
      && report.retired.id == w.oldId && report.retired.status.SeenRevoked?
      && ValidReplacement(report.replacement, w.oldId)
      && w.past.creation.Some? && report.replacement == w.past.creation.value.meta
  {
    RunKeepsInv(worlds, actions, i);
  }

  /** Success without recovery is reported only after the authority was read while the table was exactly
      as the completion left it. */
  lemma SuccessIsSettled(worlds: seq<World>, actions: seq<Action>, i: nat)
    requires Run(worlds, actions) && i < |actions| && worlds[i].pc.FinalAuthority?
    requires worlds[i + 1].pc.Done? && worlds[i + 1].pc.outcome.Rotated?
    ensures worlds[i].past.settled && worlds[i].past.completion.Some?
  {
    RunKeepsInv(worlds, actions, i);
    SettledBeforeSuccess(worlds[i], actions[i]);
  }

  lemma SettledBeforeSuccess(w: World, a: Action)
    requires Inv(w) && Enabled(w, a) && w.pc.FinalAuthority? && Apply(w, a).pc.Done? && Apply(w, a).pc.outcome.Rotated?
    ensures w.past.settled && w.past.completion.Some?
  {
    if !IsClient(a) {
      ServerServes(w, a);
    }
  }

  /** After any failure up to the verification of the replacement, the command never revokes. */
  lemma EarlyFailureNeverRevokes(worlds: seq<World>, actions: seq<Action>, i: nat, j: nat)
    requires Run(worlds, actions) && i <= j < |worlds| && worlds[i].pc.Done? && !CompletionSent(worlds[i].pc)
    ensures worlds[j].past.revokes == 0
    ensures j < |actions| ==> !actions[j].Complete?
  {
    DoneStays(worlds, actions, i, j);
    RunKeepsInv(worlds, actions, j);
    if j < |actions| {
      NoCompletionPending(worlds[j], actions[j]);
    }
  }

  lemma NoCompletionPending(w: World, a: Action)
    requires CompletesOnce(w) && !CompletionSent(w.pc) && Enabled(w, a)
    ensures !a.Complete?
  {
    assert a.Complete? ==> PendingCompletion(w, a.n);
  }

  /** Nothing is replayed: whatever is lost or late, at most one create and one revocation happen. */
  lemma NothingIsReplayed(worlds: seq<World>, actions: seq<Action>, i: nat)
    requires Run(worlds, actions) && i < |worlds|
    ensures worlds[i].past.creates <= 1 && worlds[i].past.revokes <= worlds[i].past.creates
  {
    RunKeepsInv(worlds, actions, i);
  }
}
