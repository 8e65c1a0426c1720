/**
  * The IME provider: one compositor connection at a time, negotiated features, one context in
  * force, and identifiers that live as long as the process.
  *
  * The ghost trace records the whole life of the provider. What the protocol promises is said
  * about traces, and every handler keeps its trace lawful.
  */
module ImeProvider {
  import opened Utf8
  import opened Words

  const SURFACE_ID_MAX: nat := 0x7FFF_FFFF
  const MAX_SURFACES: nat := 128
  const MAX_TEXT_BYTES: nat := 1024
  const HEADER_BYTES: nat := 48
  const CANDIDATES_BYTES: nat := 2376
  const MAX_MESSAGE_BYTES: nat := 4096
  const MAX_TIMEOUT: nat := 30000
  const VERSION: nat := 0x1_0000

  datatype Feature =
    | PreeditText | CandidateList | SurroundingText | AsyncRequests | CancelReset | CaretRectangle | AsyncKeyReleases
    | SurfaceContext | SurfaceContextRoster

  const SUPPORTED: set<Feature> :=
    {PreeditText, CandidateList, CancelReset, AsyncKeyReleases, SurfaceContext, SurfaceContextRoster}

  datatype ReplyStatus = Okay | Rejected | Unsupported | Busy | Failed

  datatype Modifiers = Modifiers(shift: bool, control: bool, alt: bool, meta: bool)

  // ---------- Frames ----------

  /** What the compositor sends. */
  datatype Frame =
    | Hello(id: nat, minVersion: nat, maxVersion: nat, features: set<Feature>, required: set<Feature>,
            maxBytes: nat, timeout: nat)
    | ContextV1(id: nat, generation: nat, purpose: nat, maxCommit: nat)
    | ContextV2(id: nat, generation: nat, purpose: nat, maxCommit: nat, surface: nat)
    | ContextV3(id: nat, generation: nat, purpose: nat, maxCommit: nat, surface: nat, roster: seq<nat>)
    | Key(id: nat, generation: nat, noReply: bool, code: nat, pressed: bool, modifiers: Modifiers, scalar: nat)
    | Selection(id: nat, generation: nat, candidates: nat, index: nat)
    | CaretRect(id: nat, generation: nat, noReply: bool)
    | Surrounding(id: nat, generation: nat)
    | CancelInput(id: nat, generation: nat, reason: nat)
    | ResetInput(id: nat, generation: nat, reason: nat)
    | ReplyFrame(id: nat, generation: nat, status: ReplyStatus)
    | ProviderFrame(id: nat, generation: nat)   // a kind only a provider may send

  predicate SurfaceId(s: nat) { 0 < s <= SURFACE_ID_MAX }

  /** Text fields that are not for passwords. */
  predicate TextField(purpose: nat, maxCommit: nat) { purpose <= 3 && purpose != 1 && 0 < maxCommit <= MAX_TEXT_BYTES }

  /** The validator every received frame must pass. */
  predicate WellFormed(f: Frame) {
    && f.id != 0
    && (!f.Hello? ==> f.generation != 0)
    && match f
       case Hello(_, minVersion, maxVersion, features, required, maxBytes, timeout) =>
         && 0 < minVersion <= VERSION <= maxVersion && required <= features
         && HEADER_BYTES <= maxBytes <= MAX_MESSAGE_BYTES && 0 < timeout <= MAX_TIMEOUT
       case ContextV1(_, _, purpose, maxCommit) => TextField(purpose, maxCommit)
       case ContextV2(_, _, purpose, maxCommit, surface) => TextField(purpose, maxCommit) && SurfaceId(surface)
       case ContextV3(_, _, purpose, maxCommit, surface, roster) =>
         && TextField(purpose, maxCommit) && SurfaceId(surface) && |roster| <= MAX_SURFACES
         && (forall i :: 0 <= i < |roster| ==> SurfaceId(roster[i])) && Distinct(roster) && surface in roster
       case Key(_, _, noReply, code, pressed, _, scalar) =>
         && code != 0 && (noReply ==> !pressed) && (!pressed ==> scalar == 0) && (scalar == 0 || IsScalar(scalar))
       case Selection(_, _, candidates, index) => candidates != 0 && index < 16
       case CancelInput(_, _, reason) => 1 <= reason <= 4
       case ResetInput(_, _, reason) => 1 <= reason <= 4
       case _ => true
  }

  /** What the provider sends. */
  datatype Message =
    | Ack(id: nat, features: set<Feature>, required: set<Feature>, maxBytes: nat, timeout: nat)
    | Reply(id: nat, generation: nat, status: ReplyStatus)
    | Preedit(id: nat, generation: nat)
    | Commit(id: nat, generation: nat, text: seq<Byte>)
    | Candidates(id: nat, generation: nat, number: nat)

  /** The same validator, applied by the provider to what it is about to send. */
  predicate Acceptable(m: Message) {
    && m.id != 0
    && (!m.Ack? ==> m.generation != 0)
    && match m
       case Ack(_, features, required, maxBytes, timeout) =>
         required <= features && HEADER_BYTES <= maxBytes <= MAX_MESSAGE_BYTES && 0 < timeout <= MAX_TIMEOUT
       case Commit(_, _, text) => 0 < |text| <= MAX_TEXT_BYTES && ValidFrom(text, 0)
       case Candidates(_, _, number) => number != 0
       case _ => true
  }

  // ---------- Traces ----------

  datatype Event = Reset | Agreed(features: set<Feature>) | Took(frame: Frame) | Put(message: Message)

  /** The context in force: its generation, the surface with the focus and the surfaces alive. */
  datatype Context = NoContext | Context(generation: nat, active: nat, surfaces: seq<nat>)

  predicate IsContext(f: Frame) { f.ContextV1? || f.ContextV2? || f.ContextV3? }

  /** Which kind of context message a connection with these features takes. */
  predicate Admits(features: set<Feature>, f: Frame) {
    match f
    case ContextV1(_, _, _, _) => SurfaceContext !in features
    case ContextV2(_, _, _, _, _) => SurfaceContext in features && SurfaceContextRoster !in features
    case ContextV3(_, _, _, _, _, _) => SurfaceContextRoster in features
    case _ => false
  }

  function ContextOf(f: Frame): Context
    requires IsContext(f)
  {
    match f
    case ContextV1(_, generation, _, _) => Context(generation, 0, [])
    case ContextV2(_, generation, _, _, surface) => Context(generation, surface, [surface])
    case ContextV3(_, generation, _, _, surface, roster) => Context(generation, surface, roster)
  }

  function FeaturesAfter(t: seq<Event>): set<Feature> {
    if t == [] then {} else
    match t[|t| - 1]
    case Reset => {}
    case Agreed(features) => features
    case _ => FeaturesAfter(t[..|t| - 1])
  }

  function ContextAfter(t: seq<Event>): Context {
    if t == [] then NoContext else
    match t[|t| - 1]
    case Reset => NoContext
    case Took(f) =>
      if Admits(FeaturesAfter(t[..|t| - 1]), f) then ContextOf(f) else ContextAfter(t[..|t| - 1])
    case _ => ContextAfter(t[..|t| - 1])
  }

  /** The frame being handled. */
  function Handling(t: seq<Event>): Option<Frame> {
    if t == [] then None else
    match t[|t| - 1]
    case Reset => None
    case Took(f) => Some(f)
    case _ => Handling(t[..|t| - 1])
  }

  /** The highest delivery id, and the highest candidate generation, ever sent. */
  function LastCommit(t: seq<Event>): nat {
    if t == [] then 0 else
    match t[|t| - 1]
    case Put(Commit(id, _, _)) => id
    case _ => LastCommit(t[..|t| - 1])
  }

  function LastCandidates(t: seq<Event>): nat {
    if t == [] then 0 else
    match t[|t| - 1]
    case Put(Candidates(_, _, number)) => number
    case _ => LastCandidates(t[..|t| - 1])
  }

  /** A key press that types text: printable, and no control, alt or super held. */
  predicate Types(f: Frame) {
    && f.Key? && f.pressed && f.scalar >= 0x20 && f.scalar != 0x7F
    && !f.modifiers.control && !f.modifiers.alt && !f.modifiers.meta
  }

  predicate Echoes(t: seq<Event>, id: nat, generation: nat) {
    match Handling(t)
    case None => false
    case Some(f) => !f.Hello? && f.id == id && f.generation == generation
  }

  /** A commit is due only for a key press that types and carries the generation of the context in force. */
  predicate CommitDue(t: seq<Event>, generation: nat, text: seq<Byte>) {
    match Handling(t)
    case None => false
    case Some(f) =>
      && WellFormed(f) && Types(f) && f.generation == generation && text == Encode(f.scalar)
      && ContextAfter(t).Context? && ContextAfter(t).generation == generation
  }

  /** The last thing sent was the acknowledgement of these features. */
  predicate Acknowledged(t: seq<Event>, features: set<Feature>) {
    t != [] && t[|t| - 1].Put? && t[|t| - 1].message.Ack? && t[|t| - 1].message.features == features
  }

  /** What may happen after `t`. */
  predicate LawfulNext(t: seq<Event>, e: Event) {
    match e
    case Reset => true
    case Agreed(features) =>
      && ContextAfter(t) == NoContext && features <= SUPPORTED && Acknowledged(t, features)
      && (SurfaceContextRoster in features ==> SurfaceContext in features)
    case Took(f) => WellFormed(f)
    case Put(m) =>
      && Acceptable(m)
      && match m
         case Ack(_, _, _, _, _) => true
         case Reply(id, generation, _) => Echoes(t, id, generation)
         case Preedit(id, generation) => Echoes(t, id, generation)
         case Commit(id, generation, text) => id > LastCommit(t) && CommitDue(t, generation, text)
         case Candidates(id, generation, number) => number > LastCandidates(t) && Echoes(t, id, generation)
  }

  predicate Lawful(t: seq<Event>) {
    t == [] || (Lawful(t[..|t| - 1]) && LawfulNext(t[..|t| - 1], t[|t| - 1]))
  }

  // ---------- What lawful traces promise ----------

  lemma {:induction false} LawfulAt(t: seq<Event>, i: nat)
    requires Lawful(t) && i < |t|
    ensures Lawful(t[..i]) && LawfulNext(t[..i], t[i])
  {
    var n: nat := |t| - 1;
    if i < n {
      LawfulAt(t[..n], i);
      assert t[..n][..i] == t[..i];
    }
  }

  lemma {:induction false} CommitsBelowLast(t: seq<Event>, i: nat)
    requires Lawful(t) && i < |t| && t[i].Put? && t[i].message.Commit?
    ensures t[i].message.id <= LastCommit(t)
  {
    var n: nat := |t| - 1;
    if i < n { CommitsBelowLast(t[..n], i); }
  }

  /** Delivery ids are never repeated: over the whole life of the provider they strictly increase. */
  lemma CommitIdsIncrease(t: seq<Event>, i: nat, j: nat)
    requires Lawful(t) && i < j < |t|
    requires t[i].Put? && t[i].message.Commit? && t[j].Put? && t[j].message.Commit?
    ensures t[i].message.id < t[j].message.id
  {
    LawfulAt(t, j);
    CommitsBelowLast(t[..j], i);
  }

  lemma {:induction false} CandidatesBelowLast(t: seq<Event>, i: nat)
    requires Lawful(t) && i < |t| && t[i].Put? && t[i].message.Candidates?
    ensures t[i].message.number <= LastCandidates(t)
  {
    var n: nat := |t| - 1;
    if i < n { CandidatesBelowLast(t[..n], i); }
  }

  /** Candidate generations strictly increase over the whole life of the provider. */
  lemma CandidateNumbersIncrease(t: seq<Event>, i: nat, j: nat)
    requires Lawful(t) && i < j < |t|
    requires t[i].Put? && t[i].message.Candidates? && t[j].Put? && t[j].message.Candidates?
    ensures t[i].message.number < t[j].message.number
  {
    LawfulAt(t, j);
    CandidatesBelowLast(t[..j], i);
  }

  /** Every commit ever sent was due when it was sent. */
  lemma CommitsAreDue(t: seq<Event>, i: nat)
    requires Lawful(t) && i < |t| && t[i].Put? && t[i].message.Commit?
    ensures CommitDue(t[..i], t[i].message.generation, t[i].message.text)
  {
    LawfulAt(t, i);
  }

  /** What each kind of connection can have in force. */
  predicate ContextFits(features: set<Feature>, c: Context) {
    c.Context? ==>
      && c.generation != 0
      && if SurfaceContextRoster in features then
           c.active != 0 && c.active in c.surfaces && Distinct(c.surfaces) && |c.surfaces| <= MAX_SURFACES
         else if SurfaceContext in features then c.active != 0 && c.surfaces == [c.active]
         else c.active == 0 && c.surfaces == []
  }

  lemma {:induction false} LawfulFeatures(t: seq<Event>)
    requires Lawful(t)
    ensures FeaturesAfter(t) <= SUPPORTED
    ensures SurfaceContextRoster in FeaturesAfter(t) ==> SurfaceContext in FeaturesAfter(t)
  {
    if t != [] { LawfulFeatures(t[..|t| - 1]); }
  }

  /** The features agreed on admit exactly one kind of context message. */
  lemma OneKindOfContext(t: seq<Event>, v1: Frame, v2: Frame, v3: Frame)
    requires Lawful(t) && v1.ContextV1? && v2.ContextV2? && v3.ContextV3?
    ensures Admits(FeaturesAfter(t), v1) || Admits(FeaturesAfter(t), v2) || Admits(FeaturesAfter(t), v3)
    ensures !(Admits(FeaturesAfter(t), v1) && Admits(FeaturesAfter(t), v2))
    ensures !(Admits(FeaturesAfter(t), v1) && Admits(FeaturesAfter(t), v3))
    ensures !(Admits(FeaturesAfter(t), v2) && Admits(FeaturesAfter(t), v3))
  {
    LawfulFeatures(t);
  }

  /** The context in force is of the kind the features admit. */
  lemma {:induction false} ContextFitsFeatures(t: seq<Event>)
    requires Lawful(t)
    ensures ContextFits(FeaturesAfter(t), ContextAfter(t))
  {
    if t != [] {
      var before := t[..|t| - 1];
      ContextFitsFeatures(before);
      LawfulFeatures(before);
    }
  }

  // ---------- What a frame is answered with ----------

  predicate IsLive(c: Context, generation: nat) { c.Context? && c.generation == generation }

  /**
    * Everything the provider sends for a frame when nothing fails; `c` is the context in force once the frame is taken.
    */
  function Responses(features: set<Feature>, c: Context, commitId: nat, number: nat, f: Frame): seq<Message>
    requires WellFormed(f)
  {
    if f.Hello? then [] else
    var blank := [Preedit(f.id, f.generation)];
    var list := [Candidates(f.id, f.generation, number + 1)];
    var okay, rejected := [Reply(f.id, f.generation, Okay)], [Reply(f.id, f.generation, Rejected)];
    match f
    case Key(_, _, noReply, _, pressed, _, scalar) =>
      if !pressed && noReply then []
      else if !(IsLive(c, f.generation) && pressed) then rejected
      else okay + blank + (if Types(f) then [Commit(commitId, f.generation, Encode(scalar))] else []) + list
    case Selection(_, _, _, _) => rejected
    case CancelInput(_, _, _) => if IsLive(c, f.generation) then okay + blank + list else rejected
    case ResetInput(_, _, _) => if IsLive(c, f.generation) then okay + blank + list else rejected
    case CaretRect(_, _, _) => [Reply(f.id, f.generation, Unsupported)]
    case Surrounding(_, _) => [Reply(f.id, f.generation, Unsupported)]
    case _ => if Admits(features, f) then okay + blank + list else []
  }

  /** How many replies to request `id` the messages hold. */
  function Replies(messages: seq<Message>, id: nat): nat {
    if messages == [] then 0 else
    (if messages[0].Reply? && messages[0].id == id then 1 else 0) + Replies(messages[1..], id)
  }

  /** The wire format: every request is answered, except a key release or caret rectangle marked NO_REPLY. */
  predicate WantsReply(f: Frame) { !((f.Key? || f.CaretRect?) && f.noReply) }

  /** The frames that do not end the connection. */
  predicate Served(features: set<Feature>, f: Frame) {
    !f.Hello? && !f.ReplyFrame? && !f.ProviderFrame? && (IsContext(f) ==> Admits(features, f))
  }

  /**
    * A served frame gets exactly one reply when it wants one and none otherwise, if and only if it is
    * not a caret rectangle marked NO_REPLY: that one is answered although nobody waits for it.
    */
  lemma AnsweredAsWanted(features: set<Feature>, c: Context, commitId: nat, number: nat, f: Frame)
    requires WellFormed(f) && Served(features, f)
    ensures Replies(Responses(features, c, commitId, number, f), f.id) == (if WantsReply(f) then 1 else 0)
            <==> !(f.CaretRect? && f.noReply)
  {
    var messages := Responses(features, c, commitId, number, f);
    if |messages| > 1 { FirstOnly(messages, f.id); }
  }

  /** A caret rectangle nobody wants a reply to gets one. */
  lemma CaretAnsweredUnasked()
    ensures var f := CaretRect(1, 1, true);
            && WellFormed(f) && Served({}, f) && !WantsReply(f)
            && Replies(Responses({}, Context(1, 0, []), 1, 1, f), f.id) == 1
  {
    var messages := [Reply(1, 1, Unsupported)];
    assert messages[1..] == [] && Replies(messages, 1) == 1;
  }

  lemma {:induction false} FirstOnly(messages: seq<Message>, id: nat)
    requires messages != [] && messages[0].Reply? && messages[0].id == id
    requires forall k :: 1 <= k < |messages| ==> !messages[k].Reply?
    ensures Replies(messages, id) == 1
  {
    NoReplies(messages[1..], id);
  }

  lemma {:induction false} NoReplies(messages: seq<Message>, id: nat)
    requires forall k :: 0 <= k < |messages| ==> !messages[k].Reply?
    ensures Replies(messages, id) == 0
  {
    if messages != [] { NoReplies(messages[1..], id); }
  }

  // ---------- The limit on commits ----------

  /** The max_commit_bytes of the context in force, or 0 without one. */
  function LimitAfter(t: seq<Event>): nat {
    if t == [] then 0 else
    match t[|t| - 1]
    case Reset => 0
    case Took(f) => if Admits(FeaturesAfter(t[..|t| - 1]), f) then f.maxCommit else LimitAfter(t[..|t| - 1])
    case _ => LimitAfter(t[..|t| - 1])
  }

  lemma {:induction false} LimitComesWithContext(t: seq<Event>)
    requires Lawful(t)
    ensures LimitAfter(t) <= MAX_TEXT_BYTES && (LimitAfter(t) > 0 <==> ContextAfter(t).Context?)
  {
    if t != [] { LimitComesWithContext(t[..|t| - 1]); }
  }

  /** The first scalar whose encoding is longer than `limit` bytes. */
  function FirstTooLong(limit: nat): nat {
    if limit == 0 then 0 else if limit == 1 then 0x80 else if limit == 2 then 0x800
    else if limit == 3 then 0x1_0000 else 0x11_0000
  }

  /**
    * The provider does not look at the limit. A commit it sends fits the limit of the context in force
    * exactly when the scalar of the key press encodes that short: always if the limit is at least 4.
    */
  lemma CommitsFitLimit(t: seq<Event>, i: nat)
    requires Lawful(t) && i < |t| && t[i].Put? && t[i].message.Commit?
    ensures Handling(t[..i]).Some? && Handling(t[..i]).value.Key? && 0 < LimitAfter(t[..i]) <= MAX_TEXT_BYTES
    ensures |t[i].message.text| <= LimitAfter(t[..i]) <==>
              Handling(t[..i]).value.scalar < FirstTooLong(LimitAfter(t[..i]))
    ensures LimitAfter(t[..i]) >= 4 ==> |t[i].message.text| <= LimitAfter(t[..i])
  {
    LawfulAt(t, i);
    CommitsAreDue(t, i);
    LimitComesWithContext(t[..i]);
  }

  /** What has been sent since the frame being handled was taken. */
  function Said(t: seq<Event>): seq<Message> {
    if t == [] then [] else
    match t[|t| - 1]
    case Put(m) => Said(t[..|t| - 1]) + [m]
    case _ => []
  }

  /** The trace up to what the last messages answer. */
  function Stem(t: seq<Event>): seq<Event> {
    if t != [] && t[|t| - 1].Put? then Stem(t[..|t| - 1]) else t
  }

  function Puts(messages: seq<Message>): seq<Event> {
    if messages == [] then [] else Puts(messages[..|messages| - 1]) + [Put(messages[|messages| - 1])]
  }

  /** A trace is its stem and what has been said since. */
  lemma {:induction false} StemAndSaid(t: seq<Event>)
    ensures t == Stem(t) + Puts(Said(t))
  {
    if t != [] && t[|t| - 1].Put? {
      StemAndSaid(t[..|t| - 1]);
      var said := Said(t);
      assert said[..|said| - 1] == Said(t[..|t| - 1]);
    } else {
      assert Said(t) == [];
    }
  }

  // ---------- The provider ----------

  /** One more message. */
  lemma OnePut(t: seq<Event>, m: Message)
    requires Lawful(t) && LawfulNext(t, Put(m))
    ensures var now := t + [Put(m)];
            && Lawful(now) && FeaturesAfter(now) == FeaturesAfter(t) && ContextAfter(now) == ContextAfter(t)
            && Handling(now) == Handling(t) && Said(now) == Said(t) + [m] && Stem(now) == Stem(t)
            && LastCommit(now) == (if m.Commit? then m.id else LastCommit(t))
            && LastCandidates(now) == (if m.Candidates? then m.number else LastCandidates(t))
  {
    assert (t + [Put(m)])[..|t|] == t;
  }

  /** One frame taken. */
  lemma OneTaken(t: seq<Event>, f: Frame)
    requires Lawful(t) && WellFormed(f)
    ensures var now := t + [Took(f)];
            && Lawful(now) && FeaturesAfter(now) == FeaturesAfter(t)
            && ContextAfter(now) == (if Admits(FeaturesAfter(t), f) then ContextOf(f) else ContextAfter(t))
            && Handling(now) == Some(f) && Said(now) == [] && Stem(now) == now
            && LastCommit(now) == LastCommit(t) && LastCandidates(now) == LastCandidates(t)
  {
    assert (t + [Took(f)])[..|t|] == t;
  }

  /** Features agreed on. */
  lemma OneAgreed(t: seq<Event>, features: set<Feature>)
    requires Lawful(t) && LawfulNext(t, Agreed(features))
    ensures var now := t + [Agreed(features)];
            && Lawful(now) && FeaturesAfter(now) == features && ContextAfter(now) == NoContext
            && LastCommit(now) == LastCommit(t) && LastCandidates(now) == LastCandidates(t)
  {
    assert (t + [Agreed(features)])[..|t|] == t;
  }

  /** What one connection brings: whether its peer is the compositor, what it sends, and which of our sends work. */
  datatype Connection = Connection(authentic: bool, inbox: seq<Frame>, sends: seq<bool>)

  function FirstFrame(inbox: seq<Frame>): Option<Frame> {
    if inbox != [] && WellFormed(inbox[0]) then Some(inbox[0]) else None
  }

  /** An offer the provider accepts, and what it answers. */
  predicate Acceptance(f: Frame) {
    && f.Hello? && f.required <= SUPPORTED && f.maxBytes >= CANDIDATES_BYTES
    && (SurfaceContextRoster in f.features ==> SurfaceContext in f.features)
  }

  function Answer(f: Frame): Message
    requires f.Hello?
  {
    Ack(f.id, f.features * SUPPORTED, f.required, f.maxBytes, f.timeout)
  }

  /** The answer to an acceptable offer passes the validator, and then its features are agreed. */
  lemma AnswerIsLawful(t: seq<Event>, hello: Frame)
    requires Lawful(t) && ContextAfter(t) == NoContext && WellFormed(hello) && Acceptance(hello)
    ensures LawfulNext(t, Put(Answer(hello)))
    ensures LawfulNext(t + [Put(Answer(hello))], Agreed(Answer(hello).features))
  {
    OnePut(t, Answer(hello));
  }

  /** The next frame acknowledges the delivery. */
  predicate Acknowledges(inbox: seq<Frame>, delivery: nat, generation: nat) {
    inbox != [] && inbox[0] == ReplyFrame(delivery, generation, Okay)
  }

  /** The frame types text that cannot be delivered: no id is left, or the compositor does not acknowledge it. */
  predicate CommitFails(inbox: seq<Frame>, commitId: nat, f: Frame) {
    Types(f) && (commitId == U64_MAX || !Acknowledges(inbox, commitId, f.generation))
  }

  /** What a provider goes by when it answers a frame. */
  datatype Books = Books(context: Context, commitId: nat, number: nat)

  /** The context in force once the frame is taken. */
  function ContextFor(features: set<Feature>, c: Context, f: Frame): Context {
    if Admits(features, f) then ContextOf(f) else c
  }

  /** The frame is answered with a commit; its answer ends with the candidates. */
  predicate Commits(c: Context, f: Frame) { Types(f) && IsLive(c, f.generation) }

  predicate Lists(features: set<Feature>, c: Context, f: Frame) {
    || Admits(features, f)
    || ((f.CancelInput? || f.ResetInput? || (f.Key? && f.pressed)) && IsLive(c, f.generation))
  }

  /** The books once the frame has been answered. */
  function After(features: set<Feature>, b: Books, f: Frame): Books {
    Books(ContextFor(features, b.context, f),
          b.commitId + (if Commits(b.context, f) then 1 else 0),
          b.number + (if Lists(features, b.context, f) then 1 else 0))
  }

  /** What is left of the inbox: a commit takes its acknowledgement out as well. */
  function LeftOver(c: Context, f: Frame, inbox: seq<Frame>): seq<Frame> { Without(Commits(c, f), inbox) }

  function Without(first: bool, inbox: seq<Frame>): seq<Frame> {
    if first && inbox != [] then inbox[1..] else inbox
  }

  /**
    * What handling a frame comes to: the response the protocol gives, or a front of it. A frame that is
    * served fails only if a send fails, an identifier has run out or a commit is not acknowledged.
    */
  predicate Outcome(features: set<Feature>, b: Books, f: Frame, inbox: seq<Frame>, ok: bool, broken: bool,
                    said: seq<Message>, b': Books, inbox': seq<Frame>)
    requires WellFormed(f)
  {
    var all := Responses(features, ContextFor(features, b.context, f), b.commitId, b.number, f);
    && said <= all && |inbox'| <= |inbox|
    && (ok ==> said == all && Served(features, f))
    && (ok ==> b' == After(features, b, f) && inbox' == LeftOver(b.context, f, inbox))
    && (!ok && Served(features, f) ==>
          broken || b.number == U64_MAX || (Commits(b.context, f) && CommitFails(inbox, b.commitId, f)))
  }

  /** The reply to a frame that is accepted, and the empty input state. */
  function Cleared(id: nat, generation: nat, number: nat): seq<Message> {
    [Reply(id, generation, Okay)] + [Preedit(id, generation)] + [Candidates(id, generation, number + 1)]
  }

  lemma ContextOutcome(features: set<Feature>, b: Books, f: Frame, inbox: seq<Frame>, ok: bool, broken: bool,
                       said: seq<Message>, b': Books)
    requires WellFormed(f) && IsContext(f)
    requires Admits(features, f) ==>
               var all := Cleared(f.id, f.generation, b.number);
               said <= all && (ok ==> said == all && b' == Books(ContextOf(f), b.commitId, b.number + 1))
    requires Admits(features, f) ==> ok || broken || b.number == U64_MAX
    requires !Admits(features, f) ==> !ok && said == []
    ensures Outcome(features, b, f, inbox, ok, broken, said, b', inbox)
  {
  }

  lemma ControlOutcome(features: set<Feature>, b: Books, f: Frame, inbox: seq<Frame>, ok: bool, broken: bool,
                       said: seq<Message>, b': Books)
    requires WellFormed(f) && (f.CancelInput? || f.ResetInput?)
    requires IsLive(b.context, f.generation) ==>
               var all := Cleared(f.id, f.generation, b.number);
               said <= all && (ok ==> said == all && b' == b.(number := b.number + 1))
    requires IsLive(b.context, f.generation) ==> ok || broken || b.number == U64_MAX
    requires !IsLive(b.context, f.generation) ==>
               said == [Reply(f.id, f.generation, Rejected)] && (ok || broken) && b' == b
    ensures Outcome(features, b, f, inbox, ok, broken, said, b', inbox)
  {
  }

  lemma PoliteOutcome(features: set<Feature>, b: Books, f: Frame, inbox: seq<Frame>, ok: bool, broken: bool,
                      said: seq<Message>, b': Books, inbox': seq<Frame>)
    requires PoliteFrame(features, b, f, inbox) && !broken
    requires Outcome(features, b, f, inbox, ok, broken, said, b', inbox')
    ensures ok && b' == After(features, b, f) && inbox' == LeftOver(b.context, f, inbox)
    ensures [Took(f)] + Puts(said) == Exchange(features, b, f)
  {
  }

  lemma Regrouped(t: seq<Event>, f: Frame, puts: seq<Event>)
    ensures t + [Took(f)] + puts == t + ([Took(f)] + puts)
  {
  }

  /** A frame that is served, with the commit it brings acknowledged by the next frame. */
  predicate PoliteFrame(features: set<Feature>, b: Books, f: Frame, rest: seq<Frame>) {
    && WellFormed(f) && Served(features, f) && b.number < U64_MAX
    && (Commits(b.context, f) ==> b.commitId < U64_MAX && Acknowledges(rest, b.commitId, f.generation))
  }

  /** A compositor that sends nothing but such frames. */
  predicate Polite(features: set<Feature>, b: Books, inbox: seq<Frame>)
    decreases |inbox|
  {
    inbox != [] ==>
      && PoliteFrame(features, b, inbox[0], inbox[1..])
      && Polite(features, After(features, b, inbox[0]), LeftOver(b.context, inbox[0], inbox[1..]))
  }

  /** One frame taken and answered in full. */
  function Exchange(features: set<Feature>, b: Books, f: Frame): seq<Event>
    requires WellFormed(f)
  {
    [Took(f)] + Puts(Responses(features, ContextFor(features, b.context, f), b.commitId, b.number, f))
  }

  /** Everything that happens on a connection with a polite compositor. */
  function Dialogue(features: set<Feature>, b: Books, inbox: seq<Frame>): seq<Event>
    requires Polite(features, b, inbox)
    decreases |inbox|
  {
    if inbox == [] then [] else
    Exchange(features, b, inbox[0])
    + Dialogue(features, After(features, b, inbox[0]), LeftOver(b.context, inbox[0], inbox[1..]))
  }

  lemma DialogueStep(features: set<Feature>, b: Books, inbox: seq<Frame>, t: seq<Event>)
    requires Polite(features, b, inbox) && inbox != []
    ensures var left := LeftOver(b.context, inbox[0], inbox[1..]);
            && |left| < |inbox| && Polite(features, After(features, b, inbox[0]), left)
            && t + Dialogue(features, b, inbox) ==
               t + Exchange(features, b, inbox[0]) + Dialogue(features, After(features, b, inbox[0]), left)
  {
  }

  /** An authentic compositor with an acceptable offer, polite from then on, and every send gets through. */
  predicate Smooth(c: Connection, commitId: nat, number: nat) {
    && Welcome(c) && 4 * |c.inbox| <= |c.sends|
    && Polite(Answer(c.inbox[0]).features, Books(NoContext, commitId, number), c.inbox[1..])
  }

  predicate Welcome(c: Connection) {
    && c.authentic && c.inbox != [] && WellFormed(c.inbox[0]) && Acceptance(c.inbox[0])
    && c.sends != [] && forall k :: 0 <= k < |c.sends| ==> c.sends[k]
  }

  /** What happens on it: the handshake, the dialogue, and a reset at either end. */
  function SmoothTrace(c: Connection, commitId: nat, number: nat): seq<Event>
    requires Smooth(c, commitId, number)
  {
    var answer := Answer(c.inbox[0]);
    [Reset, Put(answer), Agreed(answer.features)]
    + Dialogue(answer.features, Books(NoContext, commitId, number), c.inbox[1..]) + [Reset]
  }

  lemma SmoothAssembled(t: seq<Event>, c: Connection, commitId: nat, number: nat)
    requires Smooth(c, commitId, number)
    ensures var answer := Answer(c.inbox[0]);
            t + [Reset] + [Put(answer)] + [Agreed(answer.features)]
            + Dialogue(answer.features, Books(NoContext, commitId, number), c.inbox[1..]) + [Reset] ==
            t + SmoothTrace(c, commitId, number)
  {
    var answer := Answer(c.inbox[0]);
    assert [Reset] + [Put(answer)] + [Agreed(answer.features)] == [Reset, Put(answer), Agreed(answer.features)];
  }

  class Provider {
    var features: set<Feature>
    var contextGeneration: nat
    var candidateGeneration: nat
    var nextCommitId: nat
    var activeSurface: nat
    var liveSurfaces: seq<nat>
    var inbox: seq<Frame>
    var sends: seq<bool>
    ghost var trace: seq<Event>
    ghost var broken: bool   // a send has failed on this connection

    predicate InForce(c: Context)
      reads this
    {
      match c
      case NoContext => contextGeneration == 0 && activeSurface == 0 && liveSurfaces == []
      case Context(generation, active, surfaces) =>
        contextGeneration == generation && activeSurface == active && liveSurfaces == surfaces
    }

    ghost predicate Identified()
      reads this
    {
      && LastCommit(trace) < nextCommitId <= U64_MAX
      && LastCandidates(trace) <= candidateGeneration <= U64_MAX
    }

    /** The next `n` sends work, and so do all the others. */
    ghost predicate Through(n: nat)
      reads this
    {
      !broken && n <= |sends| && forall k :: 0 <= k < |sends| ==> sends[k]
    }

    ghost function BooksNow(): Books
      reads this
    {
      Books(ContextAfter(trace), nextCommitId, candidateGeneration)
    }

    ghost predicate Valid()
      reads this
    {
      Lawful(trace) && features == FeaturesAfter(trace) && InForce(ContextAfter(trace)) && Identified()
    }

    constructor ()
      ensures Valid() && trace == [] && nextCommitId == 1 && candidateGeneration == 1
    {
      features, contextGeneration, activeSurface, liveSurfaces := {}, 0, 0, [];
      candidateGeneration, nextCommitId := 1, 1;
      inbox, sends, trace, broken := [], [], [], false;
    }

    /** write_frame: everything handed to it passes the validator it applies first. */
    method Send(m: Message) returns (ok: bool)
      requires Valid() && LawfulNext(trace, Put(m))
      requires (m.Commit? ==> m.id < nextCommitId) && (m.Candidates? ==> m.number <= candidateGeneration)
      modifies this`trace, this`sends, this`broken
      ensures Valid() && trace == old(trace) + [Put(m)]
      ensures Handling(trace) == old(Handling(trace)) && Said(trace) == old(Said(trace)) + [m]
      ensures ContextAfter(trace) == old(ContextAfter(trace))
      ensures ok == (old(sends) != [] && old(sends)[0]) && broken == (old(broken) || !ok)
      ensures Stem(trace) == old(Stem(trace)) && (old(Through(1)) ==> Through(|old(sends)| - 1))
    {
      OnePut(trace, m);
      trace := trace + [Put(m)];
      ok := sends != [] && sends[0];
      if sends != [] { sends := sends[1..]; }
      if !ok { broken := true; }
    }

    /** read_frame: nothing, or the next frame if it passes the validator. */
    method Receive() returns (frame: Option<Frame>)
      modifies this`inbox
      ensures frame == FirstFrame(old(inbox)) && inbox == if old(inbox) == [] then [] else old(inbox)[1..]
    {
      if inbox == [] { return None; }
      var f := inbox[0];
      inbox := inbox[1..];
      return if WellFormed(f) then Some(f) else None;
    }

    method SendReply(id: nat, generation: nat, status: ReplyStatus) returns (ok: bool)
      requires Valid() && id != 0 && generation != 0 && Echoes(trace, id, generation)
      modifies this`trace, this`sends, this`broken
      ensures Valid() && old(trace) <= trace && Handling(trace) == old(Handling(trace))
      ensures Said(trace) == old(Said(trace)) + [Reply(id, generation, status)]
      ensures ContextAfter(trace) == old(ContextAfter(trace)) && (ok || broken)
      ensures Stem(trace) == old(Stem(trace)) && (old(Through(1)) ==> Through(|old(sends)| - 1))
    {
      ok := Send(Reply(id, generation, status));
    }

    method SendPreedit(id: nat, generation: nat) returns (ok: bool)
      requires Valid() && id != 0 && generation != 0 && Echoes(trace, id, generation)
      modifies this`trace, this`sends, this`broken
      ensures Valid() && old(trace) <= trace && Handling(trace) == old(Handling(trace))
      ensures Said(trace) == old(Said(trace)) + [Preedit(id, generation)]
      ensures ContextAfter(trace) == old(ContextAfter(trace)) && (ok || broken)
      ensures Stem(trace) == old(Stem(trace)) && (old(Through(1)) ==> Through(|old(sends)| - 1))
    {
      ok := Send(Preedit(id, generation));
    }

    method SendCandidates(id: nat, generation: nat) returns (ok: bool)
      requires Valid() && id != 0 && generation != 0 && Echoes(trace, id, generation)
      modifies this`trace, this`sends, this`broken, this`candidateGeneration
      ensures Valid() && old(trace) <= trace && Handling(trace) == old(Handling(trace))
      ensures var all := old(Said(trace)) + [Candidates(id, generation, old(candidateGeneration) + 1)];
              (Said(trace) == old(Said(trace)) || Said(trace) == all) && (ok ==> Said(trace) == all)
      ensures ok || broken || old(candidateGeneration) == U64_MAX
      ensures ContextAfter(trace) == old(ContextAfter(trace))
      ensures Stem(trace) == old(Stem(trace)) && (old(Through(1)) ==> Through(|old(sends)| - 1))
      ensures ok ==> candidateGeneration == old(candidateGeneration) + 1
    {
      if candidateGeneration == U64_MAX { return false; }
      candidateGeneration := candidateGeneration + 1;
      ok := Send(Candidates(id, generation, candidateGeneration));
    }

    method SendState(id: nat, generation: nat) returns (ok: bool)
      requires Valid() && id != 0 && generation != 0 && Echoes(trace, id, generation)
      modifies this`trace, this`sends, this`broken, this`candidateGeneration
      ensures Valid() && old(trace) <= trace && Handling(trace) == old(Handling(trace))
      ensures ContextAfter(trace) == old(ContextAfter(trace))
      ensures old(Said(trace)) <= Said(trace) <=
                old(Said(trace)) + [Preedit(id, generation), Candidates(id, generation, old(candidateGeneration) + 1)]
      ensures var state := [Preedit(id, generation), Candidates(id, generation, old(candidateGeneration) + 1)];
              var all := old(Said(trace)) + state;
              ok ==> Said(trace) == all
      ensures ok || broken || old(candidateGeneration) == U64_MAX
      ensures Stem(trace) == old(Stem(trace)) && (old(Through(2)) ==> Through(|old(sends)| - 2))
      ensures ok ==> candidateGeneration == old(candidateGeneration) + 1
    {
      ghost var said := Said(trace);
      ok := SendPreedit(id, generation);
      if !ok { return; }
      ok := SendCandidates(id, generation);
      assert said + [Preedit(id, generation)] + [Candidates(id, generation, old(candidateGeneration) + 1)] ==
             said + [Preedit(id, generation), Candidates(id, generation, old(candidateGeneration) + 1)];
    }

    /** A reply, and after it the (empty) input state. */
    method AcceptAndSendState(id: nat, generation: nat) returns (ok: bool)
      requires Valid() && id != 0 && generation != 0 && Echoes(trace, id, generation) && Said(trace) == []
      modifies this`trace, this`sends, this`broken, this`candidateGeneration
      ensures Valid() && old(trace) <= trace && Handling(trace) == old(Handling(trace))
      ensures ContextAfter(trace) == old(ContextAfter(trace))
      ensures var all := Cleared(id, generation, old(candidateGeneration));
              Said(trace) <= all && (ok ==> Said(trace) == all)
      ensures ok || broken || old(candidateGeneration) == U64_MAX
      ensures Stem(trace) == old(Stem(trace)) && (old(Through(3)) ==> Through(|old(sends)| - 3))
      ensures ok ==> candidateGeneration == old(candidateGeneration) + 1
    {
      ok := SendReply(id, generation, Okay);
      if !ok { return; }
      ok := SendState(id, generation);
    }

    /** Sends the text of a key press and waits for its acknowledgement. */
    method SendCommit(generation: nat, scalar: nat) returns (ok: bool)
      requires Valid() && generation != 0 && IsScalar(scalar) && CommitDue(trace, generation, Encode(scalar))
      modifies this`trace, this`sends, this`broken, this`nextCommitId, this`inbox
      ensures Valid() && old(trace) <= trace && Handling(trace) == old(Handling(trace))
      ensures ContextAfter(trace) == old(ContextAfter(trace)) && |inbox| <= |old(inbox)|
      ensures var commit := Commit(old(nextCommitId), generation, Encode(scalar));
              && (Said(trace) == old(Said(trace)) || Said(trace) == old(Said(trace)) + [commit])
              && (ok ==> Said(trace) == old(Said(trace)) + [commit])
      ensures ok ==> Acknowledges(old(inbox), old(nextCommitId), generation)
      ensures ok || broken || old(nextCommitId) == U64_MAX || !Acknowledges(old(inbox), old(nextCommitId), generation)
      ensures Stem(trace) == old(Stem(trace)) && (old(Through(1)) ==> Through(|old(sends)| - 1))
      ensures ok ==> nextCommitId == old(nextCommitId) + 1 && inbox == old(inbox)[1..]
    {
      if nextCommitId == U64_MAX { return false; }
      var delivery := nextCommitId;
      nextCommitId := nextCommitId + 1;
      var text := Compose(scalar);
      if text.None? { return false; }
      ok := Send(Commit(delivery, generation, text.value));
      if !ok { return; }
      ok := AwaitAcknowledgement(delivery, generation);
    }

    method AwaitAcknowledgement(delivery: nat, generation: nat) returns (ok: bool)
      requires delivery != 0 && generation != 0
      modifies this`inbox
      ensures ok == Acknowledges(old(inbox), delivery, generation) && |inbox| <= |old(inbox)|
      ensures ok ==> inbox == old(inbox)[1..]
    {
      var frame := Receive();
      ok := frame.Some? && frame.value == ReplyFrame(delivery, generation, Okay);
    }

    predicate SurfaceIsLive(surface: nat, surfaces: seq<nat>) {
      surface != 0 && surface in surfaces && |surfaces| <= MAX_SURFACES
    }

    /** active_context_is_live */
    predicate ActiveContextIsLive()
      reads this
    {
      && contextGeneration != 0
      && if SurfaceContextRoster in features then SurfaceIsLive(activeSurface, liveSurfaces)
         else if SurfaceContext in features then
           activeSurface != 0 && |liveSurfaces| == 1 && liveSurfaces[0] == activeSurface
         else activeSurface == 0 && |liveSurfaces| == 0
    }

    /** The test for a live context holds exactly when some context is in force. */
    lemma LiveExactlyInForce()
      requires Valid()
      ensures ActiveContextIsLive() <==> ContextAfter(trace).Context?
    {
      ContextFitsFeatures(trace);
    }

    /** Sends the commit of a key press, if it types text. */
    method CommitIfTyped(k: Frame) returns (ok: bool)
      requires Valid() && k.Key? && WellFormed(k) && k.pressed && Handling(trace) == Some(k)
      requires IsLive(ContextAfter(trace), k.generation)
      modifies this`trace, this`sends, this`broken, this`nextCommitId, this`inbox
      ensures Valid() && old(trace) <= trace && Handling(trace) == old(Handling(trace))
      ensures ContextAfter(trace) == old(ContextAfter(trace)) && |inbox| <= |old(inbox)|
      ensures var commit := if Types(k) then [Commit(old(nextCommitId), k.generation, Encode(k.scalar))] else [];
              && old(Said(trace)) <= Said(trace) <= old(Said(trace)) + commit
              && (ok ==> Said(trace) == old(Said(trace)) + commit)
      ensures ok || broken || CommitFails(old(inbox), old(nextCommitId), k)
      ensures Stem(trace) == old(Stem(trace)) && (old(Through(1)) ==> Through(|old(sends)| - 1))
      ensures ok ==>
                && nextCommitId == old(nextCommitId) + (if Types(k) then 1 else 0)
                && inbox == Without(Types(k), old(inbox))
    {
      ok := true;
      if k.scalar >= 0x20 && k.scalar != 0x7F && !k.modifiers.control && !k.modifiers.alt && !k.modifiers.meta {
        ok := SendCommit(k.generation, k.scalar);
      }
    }

    /** A key press in the context in force is accepted, with no text being composed. */
    method AcceptPress(k: Frame) returns (ok: bool)
      requires Valid() && k.Key? && WellFormed(k) && Handling(trace) == Some(k) && Said(trace) == []
      modifies this`trace, this`sends, this`broken
      ensures Valid() && old(trace) <= trace && Handling(trace) == Some(k)
      ensures ContextAfter(trace) == old(ContextAfter(trace))
      ensures var all := [Reply(k.id, k.generation, Okay)] + [Preedit(k.id, k.generation)];
              Said(trace) <= all && (ok ==> Said(trace) == all)
      ensures inbox == old(inbox) && (ok || broken)
      ensures Stem(trace) == old(Stem(trace)) && (old(Through(2)) ==> Through(|old(sends)| - 2))
    {
      ok := SendReply(k.id, k.generation, Okay);
      if !ok { return; }
      ok := SendPreedit(k.id, k.generation);
    }

    /** The commit of a key press, if it types text, and then the candidates. */
    method FinishPress(k: Frame) returns (ok: bool)
      requires Valid() && k.Key? && WellFormed(k) && k.pressed && Handling(trace) == Some(k)
      requires IsLive(ContextAfter(trace), k.generation)
      modifies this`trace, this`sends, this`broken, this`nextCommitId, this`candidateGeneration, this`inbox
      ensures Valid() && old(trace) <= trace && Handling(trace) == Some(k) && |inbox| <= |old(inbox)|
      ensures var commit := if Types(k) then [Commit(old(nextCommitId), k.generation, Encode(k.scalar))] else [];
              var all := old(Said(trace)) + commit + [Candidates(k.id, k.generation, old(candidateGeneration) + 1)];
              old(Said(trace)) <= Said(trace) <= all && (ok ==> Said(trace) == all)
      ensures ok || broken || old(candidateGeneration) == U64_MAX || CommitFails(old(inbox), old(nextCommitId), k)
      ensures Stem(trace) == old(Stem(trace)) && (old(Through(2)) ==> Through(|old(sends)| - 2))
      ensures ok ==>
                && nextCommitId == old(nextCommitId) + (if Types(k) then 1 else 0)
                && inbox == Without(Types(k), old(inbox))
                && candidateGeneration == old(candidateGeneration) + 1
                && ContextAfter(trace) == old(ContextAfter(trace))
    {
      ok := CommitIfTyped(k);
      if !ok { return; }
      ok := SendCandidates(k.id, k.generation);
    }

    /** A key press in the context in force. */
    method HandlePress(k: Frame) returns (ok: bool)
      requires Valid() && k.Key? && WellFormed(k) && k.pressed && Handling(trace) == Some(k) && Said(trace) == []
      requires IsLive(ContextAfter(trace), k.generation)
      modifies this`trace, this`sends, this`broken, this`nextCommitId, this`candidateGeneration, this`inbox
      ensures Valid() && old(trace) <= trace && Handling(trace) == Some(k) && |inbox| <= |old(inbox)|
      ensures var all := Responses(features, old(ContextAfter(trace)), old(nextCommitId), old(candidateGeneration), k);
              Said(trace) <= all && (ok ==> Said(trace) == all)
      ensures ok || broken || old(candidateGeneration) == U64_MAX || CommitFails(old(inbox), old(nextCommitId), k)
      ensures Stem(trace) == old(Stem(trace)) && (old(Through(4)) ==> Through(|old(sends)| - 4))
      ensures ok ==>
                && nextCommitId == old(nextCommitId) + (if Types(k) then 1 else 0)
                && inbox == Without(Types(k), old(inbox))
                && candidateGeneration == old(candidateGeneration) + 1
                && ContextAfter(trace) == old(ContextAfter(trace))
    {
      ok := AcceptPress(k);
      if !ok { return; }
      ok := FinishPress(k);
    }

    method HandleKey(k: Frame) returns (ok: bool)
      requires Valid() && k.Key? && WellFormed(k) && Handling(trace) == Some(k) && Said(trace) == []
      modifies this`trace, this`sends, this`broken, this`nextCommitId, this`candidateGeneration, this`inbox
      ensures Valid() && old(trace) <= trace && Handling(trace) == Some(k)
      ensures Outcome(features, old(BooksNow()), k, old(inbox), ok, broken, Said(trace), BooksNow(), inbox)
      ensures Stem(trace) == old(Stem(trace)) && (old(Through(4)) ==> Through(|old(sends)| - 4))
    {
      if !k.pressed && k.noReply { return true; }
      LiveExactlyInForce();
      if !ActiveContextIsLive() || !k.pressed || k.generation != contextGeneration {
        ok := SendReply(k.id, k.generation, Rejected);
        return;
      }
      ok := HandlePress(k);
    }

    /** Puts a context in force; false if the features agreed on do not admit its kind. */
    method TakeContext(f: Frame) returns (ok: bool)
      requires Valid() && IsContext(f) && WellFormed(f)
      modifies this`trace, this`contextGeneration, this`activeSurface, this`liveSurfaces
      ensures Valid() && trace == old(trace) + [Took(f)] && ok == Admits(features, f)
      ensures Handling(trace) == Some(f) && Said(trace) == []
    {
      OneTaken(trace, f);
      trace := trace + [Took(f)];
      match f
      case ContextV1(_, generation, _, _) =>
        if SurfaceContext in features { return false; }
        activeSurface, liveSurfaces, contextGeneration := 0, [], generation;
        return true;
      case ContextV2(_, generation, _, _, surface) =>
        if SurfaceContext !in features || SurfaceContextRoster in features || surface == 0 { return false; }
        activeSurface, liveSurfaces, contextGeneration := surface, [surface], generation;
        return true;
      case ContextV3(_, generation, _, _, surface, roster) =>
        if SurfaceContextRoster !in features || !WellFormed(f) || !SurfaceIsLive(surface, roster) { return false; }
        activeSurface, liveSurfaces, contextGeneration := surface, roster, generation;
        return true;
    }

    /** A cancel or reset: in the context in force the input state is cleared. */
    method HandleControl(f: Frame) returns (ok: bool)
      requires Valid() && WellFormed(f) && (f.CancelInput? || f.ResetInput?)
      requires Handling(trace) == Some(f) && Said(trace) == []
      modifies this`trace, this`sends, this`broken, this`candidateGeneration
      ensures Valid() && old(trace) <= trace && Handling(trace) == Some(f)
      ensures Outcome(features, old(BooksNow()), f, old(inbox), ok, broken, Said(trace), BooksNow(), inbox)
      ensures Stem(trace) == old(Stem(trace)) && (old(Through(3)) ==> Through(|old(sends)| - 3))
    {
      LiveExactlyInForce();
      ghost var b := BooksNow();
      if !ActiveContextIsLive() || f.generation != contextGeneration {
        ok := SendReply(f.id, f.generation, Rejected);
      } else {
        ok := AcceptAndSendState(f.id, f.generation);
      }
      ControlOutcome(features, b, f, inbox, ok, broken, Said(trace), BooksNow());
    }

    /** A frame that is answered with one reply, whatever the context. */
    method HandlePlain(f: Frame, status: ReplyStatus) returns (ok: bool)
      requires Valid() && WellFormed(f) && Handling(trace) == Some(f) && Said(trace) == []
      requires if f.Selection? then status == Rejected else (f.CaretRect? || f.Surrounding?) && status == Unsupported
      modifies this`trace, this`sends, this`broken
      ensures Valid() && old(trace) <= trace && Handling(trace) == Some(f)
      ensures Outcome(features, old(BooksNow()), f, old(inbox), ok, broken, Said(trace), BooksNow(), inbox)
      ensures Stem(trace) == old(Stem(trace)) && (old(Through(1)) ==> Through(|old(sends)| - 1))
    {
      ok := SendReply(f.id, f.generation, status);
    }

    /** handle_frame on any other frame than a context. */
    method HandleOther(f: Frame) returns (ok: bool)
      requires Valid() && WellFormed(f) && !IsContext(f) && Handling(trace) == Some(f) && Said(trace) == []
      modifies this`trace, this`sends, this`broken, this`nextCommitId, this`candidateGeneration, this`inbox
      ensures Valid() && old(trace) <= trace && Handling(trace) == Some(f)
      ensures Outcome(features, old(BooksNow()), f, old(inbox), ok, broken, Said(trace), BooksNow(), inbox)
      ensures Stem(trace) == old(Stem(trace)) && (old(Through(4)) ==> Through(|old(sends)| - 4))
    {
      match f
      case Key(_, _, _, _, _, _, _) => ok := HandleKey(f);
      case CancelInput(_, _, _) => ok := HandleControl(f);
      case ResetInput(_, _, _) => ok := HandleControl(f);
      case Selection(_, _, _, _) => ok := HandlePlain(f, Rejected);
      case CaretRect(_, _, _) => ok := HandlePlain(f, Unsupported);
      case Surrounding(_, _) => ok := HandlePlain(f, Unsupported);
      case _ => ok := false;
    }

    /** handle_frame */
    method HandleFrame(f: Frame) returns (ok: bool)
      requires Valid() && WellFormed(f)
      modifies this`trace, this`contextGeneration, this`activeSurface, this`liveSurfaces,
               this`sends, this`broken, this`nextCommitId, this`candidateGeneration, this`inbox
      ensures Valid() && old(trace) + [Took(f)] <= trace && Handling(trace) == Some(f)
      ensures Outcome(features, old(BooksNow()), f, old(inbox), ok, broken, Said(trace), BooksNow(), inbox)
      ensures Stem(trace) == old(trace) + [Took(f)] && (old(Through(4)) ==> Through(|old(sends)| - 4))
    {
      OneTaken(trace, f);
      if IsContext(f) {
        ok := HandleContext(f);
      } else {
        trace := trace + [Took(f)];
        ok := HandleOther(f);
      }
    }

    /** A context, put in force and acknowledged if the features agreed on admit its kind. */
    method HandleContext(f: Frame) returns (ok: bool)
      requires Valid() && WellFormed(f) && IsContext(f)
      modifies this`trace, this`contextGeneration, this`activeSurface, this`liveSurfaces,
               this`sends, this`broken, this`candidateGeneration
      ensures Valid() && old(trace) + [Took(f)] <= trace && Handling(trace) == Some(f)
      ensures Outcome(features, old(BooksNow()), f, old(inbox), ok, broken, Said(trace), BooksNow(), inbox)
      ensures Stem(trace) == old(trace) + [Took(f)] && (old(Through(3)) ==> Through(|old(sends)| - 3))
    {
      ghost var b := BooksNow();
      OneTaken(trace, f);
      ok := TakeContext(f);
      if ok { ok := AcceptAndSendState(f.id, f.generation); }
      ContextOutcome(features, b, f, inbox, ok, broken, Said(trace), BooksNow());
    }

    /** Ends or begins a connection; the identifiers stay. */
    method ResetConnection()
      requires Lawful(trace) && Identified()
      modifies this`features, this`contextGeneration, this`activeSurface, this`liveSurfaces, this`trace
      ensures Valid() && trace == old(trace) + [Reset]
      ensures ContextAfter(trace) == NoContext
    {
      assert (trace + [Reset])[..|trace|] == trace;
      features, contextGeneration, activeSurface, liveSurfaces := {}, 0, 0, [];
      trace := trace + [Reset];
    }

    /** An acceptable offer is acknowledged, and if that can be sent its features are agreed. */
    method Acknowledge(hello: Frame) returns (ok: bool)
      requires Valid() && ContextAfter(trace) == NoContext && WellFormed(hello) && Acceptance(hello)
      modifies this`features, this`trace, this`sends, this`broken
      ensures Valid() && (ok || broken)
      ensures trace == old(trace) + [Put(Answer(hello))] + if ok then [Agreed(Answer(hello).features)] else []
      ensures old(Through(1)) ==> Through(|old(sends)| - 1)
    {
      AnswerIsLawful(trace, hello);
      ok := Send(Answer(hello));
      if !ok { return; }
      OneAgreed(trace, Answer(hello).features);
      features := Answer(hello).features;
      trace := trace + [Agreed(features)];
    }

    /** The handshake: the features offered that we support, unless the offer requires others or makes no sense. */
    method Negotiate() returns (ok: bool)
      requires Valid() && ContextAfter(trace) == NoContext
      modifies this`features, this`trace, this`sends, this`broken, this`inbox
      ensures Valid() && |inbox| <= |old(inbox)|
      ensures var offer := FirstFrame(old(inbox));
              if offer.Some? && Acceptance(offer.value)
              then
                && (ok || broken)
                && var answer := Answer(offer.value);
                   trace == old(trace) + [Put(answer)] + if ok then [Agreed(answer.features)] else []
              else !ok && trace == old(trace)
      ensures inbox == Without(true, old(inbox)) && (old(Through(1)) ==> Through(|old(sends)| - 1))
      ensures ok ==> features == FeaturesAfter(trace) && ContextAfter(trace) == NoContext
    {
      var frame := Receive();
      if frame.None? || !frame.value.Hello? { return false; }
      var hello := frame.value;
      if SurfaceContextRoster in hello.features && SurfaceContext !in hello.features { return false; }
      if !(hello.required <= SUPPORTED) || hello.maxBytes < CANDIDATES_BYTES { return false; }
      ok := Acknowledge(hello);
    }

    /** A frame is taken, and what is said to it stands right behind it. */
    method AnswerFrame(f: Frame) returns (ok: bool)
      requires Valid() && WellFormed(f)
      modifies this`trace, this`contextGeneration, this`activeSurface, this`liveSurfaces,
               this`sends, this`broken, this`nextCommitId, this`candidateGeneration, this`inbox
      ensures Valid() && old(trace) <= trace && |inbox| <= |old(inbox)|
      ensures old(Through(4)) && PoliteFrame(features, old(BooksNow()), f, old(inbox)) ==>
                && ok && Through(|old(sends)| - 4)
                && BooksNow() == After(features, old(BooksNow()), f)
                && inbox == LeftOver(old(ContextAfter(trace)), f, old(inbox))
                && trace == old(trace) + Exchange(features, old(BooksNow()), f)
    {
      ok := HandleFrame(f);
      StemAndSaid(trace);
      Regrouped(old(trace), f, Puts(Said(trace)));
      if old(Through(4)) && PoliteFrame(features, old(BooksNow()), f, old(inbox)) {
        PoliteOutcome(features, old(BooksNow()), f, old(inbox), ok, broken, Said(trace), BooksNow(), inbox);
      }
    }

    /** The next frame, if it is well formed; in full if the compositor is polite and the sends get through. */
    method ServeOne() returns (ok: bool)
      requires Valid() && inbox != []
      modifies this`trace, this`contextGeneration, this`activeSurface, this`liveSurfaces,
               this`sends, this`broken, this`nextCommitId, this`candidateGeneration, this`inbox
      ensures Valid() && old(trace) <= trace && |inbox| < |old(inbox)|
      ensures old(Through(4)) && PoliteFrame(features, old(BooksNow()), old(inbox)[0], old(inbox)[1..]) ==>
                && ok && Through(|old(sends)| - 4)
                && BooksNow() == After(features, old(BooksNow()), old(inbox)[0])
                && inbox == LeftOver(old(ContextAfter(trace)), old(inbox)[0], old(inbox)[1..])
                && trace == old(trace) + Exchange(features, old(BooksNow()), old(inbox)[0])
    {
      var frame := Receive();
      ok := frame.Some?;
      if ok { ok := AnswerFrame(frame.value); }
    }

    /** What is left to happen on a smooth connection. */
    ghost predicate OnTrack(whole: seq<Event>)
      reads this
    {
      && Through(4 * |inbox|) && Polite(features, BooksNow(), inbox)
      && whole == trace + Dialogue(features, BooksNow(), inbox)
    }

    /** One frame of a connection; a smooth one stays on track. */
    method ServeOnTrack(ghost whole: seq<Event>) returns (ok: bool)
      requires Valid() && inbox != []
      modifies this`trace, this`contextGeneration, this`activeSurface, this`liveSurfaces,
               this`sends, this`broken, this`nextCommitId, this`candidateGeneration, this`inbox
      ensures Valid() && old(trace) <= trace && |inbox| < |old(inbox)|
      ensures old(OnTrack(whole)) ==> ok && OnTrack(whole)
    {
      if OnTrack(whole) { DialogueStep(features, BooksNow(), inbox, trace); }
      ok := ServeOne();
    }

    /** The frames of a connection, until the peer stops or anything fails. */
    method Converse()
      requires Valid()
      modifies this`trace, this`contextGeneration, this`activeSurface, this`liveSurfaces,
               this`sends, this`broken, this`nextCommitId, this`candidateGeneration, this`inbox
      ensures Valid() && old(trace) <= trace
      ensures old(Through(4 * |inbox|)) && Polite(features, old(BooksNow()), old(inbox)) ==>
                trace == old(trace) + Dialogue(features, old(BooksNow()), old(inbox))
    {
      ghost var smooth := Through(4 * |inbox|) && Polite(features, BooksNow(), inbox);
      ghost var whole := if smooth then trace + Dialogue(features, BooksNow(), inbox) else [];
      var ok := true;
      while ok && inbox != []
        invariant Valid() && old(trace) <= trace
        invariant smooth ==> ok && OnTrack(whole)
        decreases |inbox|
      {
        ok := ServeOnTrack(whole);
      }
    }

    /** A new connection, up to the handshake. */
    method Accept(c: Connection) returns (ok: bool)
      requires Valid()
      modifies this
      ensures Valid() && old(trace) <= trace
      ensures Welcome(c) ==>
                && ok && features == Answer(c.inbox[0]).features && inbox == c.inbox[1..]
                && BooksNow() == Books(NoContext, old(nextCommitId), old(candidateGeneration))
                && Through(|c.sends| - 1)
                && trace == old(trace) + [Reset] + [Put(Answer(c.inbox[0]))] + [Agreed(features)]
    {
      inbox, sends, broken := c.inbox, c.sends, false;
      ResetConnection();
      ok := c.authentic;
      if ok {
        assert Welcome(c) ==> Through(|c.sends|);
        ok := Negotiate();
      }
    }

    /**
      * serve_connection: until the peer stops, or anything fails. A connection that makes an acceptable
      * offer, is polite and gets every send through is served to its end, frame by frame.
      */
    method Serve(c: Connection)
      requires Valid()
      modifies this
      ensures Valid() && old(trace) <= trace && ContextAfter(trace) == NoContext
      ensures Smooth(c, old(nextCommitId), old(candidateGeneration)) ==>
                trace == old(trace) + SmoothTrace(c, old(nextCommitId), old(candidateGeneration))
    {
      var ok := Accept(c);
      if ok { Converse(); }
      ResetConnection();
      if Smooth(c, old(nextCommitId), old(candidateGeneration)) {
        SmoothAssembled(old(trace), c, old(nextCommitId), old(candidateGeneration));
      }
    }

    /** The whole life of the provider: every trace it can leave is lawful. */
    method Live(connections: seq<Connection>)
      requires Valid()
      modifies this
      ensures Valid() && old(trace) <= trace
    {
      for i := 0 to |connections|
        invariant Valid() && old(trace) <= trace
      {
        Serve(connections[i]);
      }
    }
  }

  // ---------- A commit over the limit ----------

  const SMILEY: nat := 0x1F600
  const SMILEY_KEY := Key(3, 1, false, 1, true, Modifiers(false, false, false, false), SMILEY)
  const SMILEY_COMMIT := Commit(1, 1, Encode(SMILEY))

  /** An offer without features, a context that lets one byte in, a key that types four, and their acknowledgement. */
  const HELLO := Hello(1, VERSION, VERSION, {}, {}, MAX_MESSAGE_BYTES, 1000)
  const ONE_BYTE := ContextV1(2, 1, 0, 1)
  const OVER_LIMIT := Connection(true, [HELLO, ONE_BYTE, SMILEY_KEY, ReplyFrame(1, 1, Okay)], seq(16, _ => true))

  const HANDSHAKE: seq<Event> := [Reset, Put(Ack(1, {}, {}, MAX_MESSAGE_BYTES, 1000)), Agreed({})]
  const FOCUS: seq<Event> :=
    [Took(ONE_BYTE), Put(Reply(2, 1, Okay)), Put(Preedit(2, 1)), Put(Candidates(2, 1, 2))]
  const PRESS: seq<Event> :=
    [Took(SMILEY_KEY), Put(Reply(3, 1, Okay)), Put(Preedit(3, 1)), Put(SMILEY_COMMIT), Put(Candidates(3, 1, 3))]

  /** A provider that has just been started, and this connection: the commit is sent, over the limit in force. */
  method CommitOverLimit() returns (p: Provider)
    ensures fresh(p) && p.Valid() && p.trace == HANDSHAKE + FOCUS + PRESS + [Reset]
    ensures LimitAfter(HANDSHAKE + FOCUS + PRESS[..3]) == 1
    ensures PRESS[3] == Put(SMILEY_COMMIT) && |SMILEY_COMMIT.text| == 4
  {
    p := new Provider();
    OverLimitIsSmooth();
    p.Serve(OVER_LIMIT);
    OneByteInForce();
  }

  lemma PutsOfThree(a: Message, b: Message, c: Message)
    ensures Puts([a, b, c]) == [Put(a), Put(b), Put(c)]
  {
    assert [a, b, c][..2] == [a, b] && [a, b][..1] == [a] && [a][..0] == [];
    assert Puts([a]) == [Put(a)] && Puts([a, b]) == [Put(a), Put(b)];
  }

  lemma PutsOfFour(a: Message, b: Message, c: Message, d: Message)
    ensures Puts([a, b, c, d]) == [Put(a), Put(b), Put(c), Put(d)]
  {
    assert [a, b, c, d][..3] == [a, b, c];
    PutsOfThree(a, b, c);
  }

  lemma FocusExchange(start: Books)
    requires start == Books(NoContext, 1, 1)
    ensures PoliteFrame({}, start, ONE_BYTE, [SMILEY_KEY, ReplyFrame(1, 1, Okay)])
    ensures Exchange({}, start, ONE_BYTE) == FOCUS && After({}, start, ONE_BYTE) == Books(Context(1, 0, []), 1, 2)
  {
    PutsOfThree(Reply(2, 1, Okay), Preedit(2, 1), Candidates(2, 1, 2));
    assert Responses({}, Context(1, 0, []), 1, 1, ONE_BYTE) == [Reply(2, 1, Okay), Preedit(2, 1), Candidates(2, 1, 2)];
  }

  lemma PressExchange(focused: Books)
    requires focused == Books(Context(1, 0, []), 1, 2)
    ensures PoliteFrame({}, focused, SMILEY_KEY, [ReplyFrame(1, 1, Okay)])
    ensures Exchange({}, focused, SMILEY_KEY) == PRESS
    ensures LeftOver(focused.context, SMILEY_KEY, [ReplyFrame(1, 1, Okay)]) == []
  {
    PutsOfFour(Reply(3, 1, Okay), Preedit(3, 1), SMILEY_COMMIT, Candidates(3, 1, 3));
    assert Responses({}, Context(1, 0, []), 1, 2, SMILEY_KEY) ==
           [Reply(3, 1, Okay), Preedit(3, 1), SMILEY_COMMIT, Candidates(3, 1, 3)];
  }

  lemma PolitePress(focused: Books, key: seq<Frame>)
    requires focused == Books(Context(1, 0, []), 1, 2) && key == [SMILEY_KEY, ReplyFrame(1, 1, Okay)]
    ensures Polite({}, focused, key) && Dialogue({}, focused, key) == PRESS
  {
    assert key[1..] == [ReplyFrame(1, 1, Okay)];
    PressExchange(focused);
    assert Polite({}, After({}, focused, SMILEY_KEY), []);
    assert Dialogue({}, After({}, focused, SMILEY_KEY), []) == [];
    assert PRESS + [] == PRESS;
  }

  lemma PoliteFocus(start: Books, inbox: seq<Frame>)
    requires start == Books(NoContext, 1, 1) && inbox == [ONE_BYTE, SMILEY_KEY, ReplyFrame(1, 1, Okay)]
    ensures Polite({}, start, inbox) && Dialogue({}, start, inbox) == FOCUS + PRESS
  {
    var key := [SMILEY_KEY, ReplyFrame(1, 1, Okay)];
    assert inbox[1..] == key;
    FocusExchange(start);
    PolitePress(Books(Context(1, 0, []), 1, 2), key);
    assert LeftOver(NoContext, ONE_BYTE, key) == key;
  }

  lemma OverLimitIsSmooth()
    ensures Smooth(OVER_LIMIT, 1, 1) && SmoothTrace(OVER_LIMIT, 1, 1) == HANDSHAKE + FOCUS + PRESS + [Reset]
  {
    var start, inbox := Books(NoContext, 1, 1), [ONE_BYTE, SMILEY_KEY, ReplyFrame(1, 1, Okay)];
    assert OVER_LIMIT.inbox[1..] == inbox;
    HelloAnswered();
    PoliteFocus(start, inbox);
    assert HANDSHAKE + (FOCUS + PRESS) + [Reset] == HANDSHAKE + FOCUS + PRESS + [Reset];
  }

  lemma HelloAnswered()
    ensures WellFormed(HELLO) && Acceptance(HELLO) && Answer(HELLO) == Ack(1, {}, {}, MAX_MESSAGE_BYTES, 1000)
  {
    assert {} * SUPPORTED == {};
  }

  lemma LimitOfPut(t: seq<Event>, m: Message)
    ensures LimitAfter(t + [Put(m)]) == LimitAfter(t) && FeaturesAfter(t + [Put(m)]) == FeaturesAfter(t)
  {
    assert (t + [Put(m)])[..|t|] == t;
  }

  lemma {:induction false} LimitStays(t: seq<Event>, messages: seq<Message>)
    ensures LimitAfter(t + Puts(messages)) == LimitAfter(t) && FeaturesAfter(t + Puts(messages)) == FeaturesAfter(t)
  {
    if messages == [] {
      assert t + Puts(messages) == t;
    } else {
      var n: nat := |messages| - 1;
      LimitStays(t, messages[..n]);
      LimitOfPut(t + Puts(messages[..n]), messages[n]);
      assert t + Puts(messages) == t + Puts(messages[..n]) + [Put(messages[n])];
    }
  }

  lemma LimitTaken(t: seq<Event>, f: Frame)
    ensures LimitAfter(t + [Took(f)]) == if Admits(FeaturesAfter(t), f) then f.maxCommit else LimitAfter(t)
    ensures FeaturesAfter(t + [Took(f)]) == FeaturesAfter(t)
  {
    assert (t + [Took(f)])[..|t|] == t;
  }

  lemma OneByteInForce()
    ensures LimitAfter(HANDSHAKE + FOCUS + PRESS[..3]) == 1 && |SMILEY_COMMIT.text| == 4
  {
    PutsOfThree(Reply(2, 1, Okay), Preedit(2, 1), Candidates(2, 1, 2));
    LimitTaken(HANDSHAKE, ONE_BYTE);
    LimitStays(HANDSHAKE + [Took(ONE_BYTE)], [Reply(2, 1, Okay), Preedit(2, 1), Candidates(2, 1, 2)]);
    assert HANDSHAKE + FOCUS ==
           HANDSHAKE + [Took(ONE_BYTE)] + [Put(Reply(2, 1, Okay)), Put(Preedit(2, 1)), Put(Candidates(2, 1, 2))];
    LimitTaken(HANDSHAKE + FOCUS, SMILEY_KEY);
    var said := [Reply(3, 1, Okay), Preedit(3, 1)];
    assert said[..1] == [Reply(3, 1, Okay)] && said[..1][..0] == [];
    assert Puts(said) == [Put(Reply(3, 1, Okay)), Put(Preedit(3, 1))];
    LimitStays(HANDSHAKE + FOCUS + [Took(SMILEY_KEY)], said);
    assert HANDSHAKE + FOCUS + PRESS[..3] == HANDSHAKE + FOCUS + [Took(SMILEY_KEY)] + Puts(said);
  }

  /** The text of a commit. */
  method Compose(scalar: nat) returns (text: Option<seq<Byte>>)
    ensures text == if IsScalar(scalar) then Some(Encode(scalar)) else None
    ensures text.Some? ==> ValidFrom(text.value, 0)
  {
    var buffer := new Byte[4];
    var size := EncodeInto(scalar, buffer);
    if size.None? { return None; }
    EncodingIsValid(scalar);
    return Some(buffer[..size.value]);
  }

  lemma EncodingIsValid(cp: nat)
    requires IsScalar(cp)
    ensures ValidFrom(Encode(cp), 0)
  {
    var text := Encode(cp);
    assert text[0..0 + |text|] == text;
    EncodingIsNext(cp, text, 0);
  }
}
