/**
 * The `/api/notes` handlers: POST validates and normalises a creation
 * request and stores the note; GET sweeps expired notes and reports the
 * table size and the counters.
 */
module NotesRoute {
  import opened Wrappers
  import opened Strings
  import opened Storage

  const MAX_CONTENT_LENGTH := 10000
  const MIN_HOURS := 1
  const MAX_HOURS := 72
  const DEFAULT_HOURS := 1
  const MS_PER_HOUR := 60 * 60 * 1000
  const PREVIEW_LENGTH := 50

  /**
   * A field of the parsed JSON body: absent, a string, or some other JSON
   * value (number, boolean, null, array or object) with its truthiness.
   */
  datatype Field = Missing | Str(s: string) | Other(truthy: bool)

  /** The body of a creation request; `expiryHours` is the result of `parseInt`, None for NaN. */
  datatype CreateRequest = CreateRequest(content: Field, expiryHours: Option<int>, password: Field)

  datatype CreateError =
    | ContentRequired  // status 400: absent, not a string, or blank
    | ContentTooLong   // status 400: more than 10,000 characters
    | InternalError    // status 500: an exception inside the handler

  /** The body of the 201 response. */
  datatype Created = Created(id: string, expiresAt: nat, expiryHours: int, hasPassword: bool)

  /** The body of the GET response; `noteCount` is reported under the name `totalNotes`. */
  datatype StatusReport = StatusReport(noteCount: nat, stats: Stats)

  /** JavaScript truthiness of a body field. */
  predicate Truthy(f: Field) {
    match f
    case Missing => false
    case Str(s) => s != []
    case Other(t) => t
  }

  /** The two content checks, in the order POST makes them; yields the untrimmed content. */
  function ValidateContent(c: Field): (r: Result<string, CreateError>)
    ensures r.Success? <==> c.Str? && !AllWhitespace(c.s) && |c.s| <= MAX_CONTENT_LENGTH
    ensures r.Success? ==> r.value == c.s
    ensures r == Failure(ContentRequired) <==> !c.Str? || AllWhitespace(c.s)
    ensures r == Failure(ContentTooLong) <==>
              c.Str? && !AllWhitespace(c.s) && |c.s| > MAX_CONTENT_LENGTH
  {
    if !Truthy(c) || !c.Str? || |Trim(c.s)| == 0 then Failure(ContentRequired)
    else if |c.s| > MAX_CONTENT_LENGTH then Failure(ContentTooLong)
    else Success(c.s)
  }

  /** `Math.min(Math.max(parseInt(expiryHours) || 1, 1), 72)`. */
  function EffectiveHours(h: Option<int>): (r: int)
    ensures MIN_HOURS <= r <= MAX_HOURS
    ensures h.Some? && MIN_HOURS <= h.value <= MAX_HOURS ==> r == h.value
    ensures h.None? || h.value < MIN_HOURS ==> r == MIN_HOURS
    ensures h.Some? && h.value > MAX_HOURS ==> r == MAX_HOURS
  {
    var parsed := if h.Some? && h.value != 0 then h.value else DEFAULT_HOURS;
    var atLeast := if parsed < MIN_HOURS then MIN_HOURS else parsed;
    if atLeast > MAX_HOURS then MAX_HOURS else atLeast
  }

  /** Moment a note created at `createdAt` with a lifetime of `hours` hours expires. */
  function ExpiresAt(createdAt: nat, hours: nat): (r: nat)
    ensures r >= createdAt
    ensures (r - createdAt) % MS_PER_HOUR == 0 && (r - createdAt) / MS_PER_HOUR == hours
    ensures hours >= MIN_HOURS ==> r > createdAt
  {
    createdAt + hours * MS_PER_HOUR
  }

  /** The first 50 characters of the untrimmed content, when it is longer than that. */
  function MakePreview(s: string): (r: Option<string>)
    ensures r.Some? <==> |s| > PREVIEW_LENGTH
    ensures r.Some? ==> |r.value| == PREVIEW_LENGTH && r.value <= s
  {
    if |s| > PREVIEW_LENGTH then Some(s[..PREVIEW_LENGTH]) else None
  }

  /**
   * The digest to store: the hash of the trimmed password when one is
   * given and is not blank. Calling `trim` on a truthy value that is not
   * a string throws, which the handler turns into an internal error.
   */
  function PasswordDigest(p: Field, hash: string -> string): (r: Result<Option<string>, CreateError>)
    ensures r.Failure? <==> p.Other? && p.truthy
    ensures r.Failure? ==> r.error == InternalError
    ensures r.Success? ==> (r.value.Some? <==> p.Str? && !AllWhitespace(p.s))
    ensures r.Success? && r.value.Some? ==> r.value.value == hash(Trim(p.s))
  {
    if !Truthy(p) then Success(None)
    else if !p.Str? then Failure(InternalError)
    else if Trim(p.s) == [] then Success(None)
    else Success(Some(hash(Trim(p.s))))
  }

  /** Whether POST accepts the request. */
  ghost predicate Acceptable(req: CreateRequest) {
    && req.content.Str?
    && !AllWhitespace(req.content.s)
    && |req.content.s| <= MAX_CONTENT_LENGTH
    && !(req.password.Other? && req.password.truthy)
  }

  /** Everything POST computes before it touches the table. */
  function BuildNote(req: CreateRequest, now: nat, hash: string -> string): (r: Result<Note, CreateError>)
    ensures r.Success? <==> Acceptable(req)
    ensures r.Failure? && (!req.content.Str? || AllWhitespace(req.content.s)) ==>
              r.error == ContentRequired
    ensures (r.Failure? && req.content.Str? && !AllWhitespace(req.content.s)
              && |req.content.s| > MAX_CONTENT_LENGTH) ==> r.error == ContentTooLong
    ensures (r.Failure? && req.content.Str? && !AllWhitespace(req.content.s)
              && |req.content.s| <= MAX_CONTENT_LENGTH) ==> r.error == InternalError
    ensures r.Success? ==>
              var n, c := r.value, req.content.s;
              && n.content == Trim(c) && n.content != []
              && n.createdAt == now
              && n.expiresAt == now + EffectiveHours(req.expiryHours) * MS_PER_HOUR
              && n.expiresAt > n.createdAt
              && (n.preview.Some? <==> |c| > PREVIEW_LENGTH)
              && (n.preview.Some? ==> n.preview.value == c[..PREVIEW_LENGTH])
              && (n.passwordHash.Some? <==> req.password.Str? && !AllWhitespace(req.password.s))
              && (n.passwordHash.Some? ==> n.passwordHash.value == hash(Trim(req.password.s)))
  {
    match ValidateContent(req.content)
    case Failure(e) => Failure(e)
    case Success(c) =>
      var hours := EffectiveHours(req.expiryHours);
      match PasswordDigest(req.password, hash)
      case Failure(e) => Failure(e)
      case Success(digest) =>
        Success(Note(Trim(c), now, ExpiresAt(now, hours), digest, MakePreview(c)))
  }

  /** Clamping an already clamped value keeps it. */
  lemma EffectiveHoursIdempotent(h: Option<int>)
    ensures EffectiveHours(Some(EffectiveHours(h))) == EffectiveHours(h)
  {
  }

  /** The content POST stores is already trimmed: trimming it again changes nothing. */
  lemma StoredContentTrimmed(req: CreateRequest, now: nat, hash: string -> string)
    requires Acceptable(req)
    ensures BuildNote(req, now, hash).Success?
    ensures var n := BuildNote(req, now, hash).value; Trim(n.content) == n.content
  {
    TrimIdempotent(req.content.s);
  }

  /**
   * Once stored under `id`, a created note survives every sweep before
   * its expiry and no sweep from then on: at least one hour, at most 72.
   */
  lemma CreatedNoteLifetime(req: CreateRequest, now: nat, hash: string -> string,
                            m: map<string, Note>, id: string, t: nat)
    requires Acceptable(req)
    ensures BuildNote(req, now, hash).Success?
    ensures var n := BuildNote(req, now, hash).value;
            && (id in Unexpired(m[id := n], t) <==> t < n.expiresAt)
            && (t < now + MIN_HOURS * MS_PER_HOUR ==> id in Unexpired(m[id := n], t))
            && (t >= now + MAX_HOURS * MS_PER_HOUR ==> id !in Unexpired(m[id := n], t))
  {
  }

  /** `!!passwordHash`: an empty digest would be falsy. */
  predicate HasPassword(n: Note) {
    n.passwordHash.Some? && n.passwordHash.value != []
  }

  /** With a digest that is never empty (bcrypt's never is), `hasPassword` is exactly "a digest was stored". */
  lemma HasPasswordIffDigest(req: CreateRequest, now: nat, hash: string -> string)
    requires Acceptable(req)
    requires forall s :: hash(s) != []
    ensures BuildNote(req, now, hash).Success?
    ensures var n := BuildNote(req, now, hash).value;
            HasPassword(n) <==> req.password.Str? && !AllWhitespace(req.password.s)
  {
  }

  /**
   * POST /api/notes with a caller-supplied fresh id, the current time
   * `now` and the password hash function.
   */
  method Post(store: NoteStore, id: string, req: CreateRequest, now: nat, hash: string -> string)
      returns (r: Result<Created, CreateError>)
    requires store.Valid()
    requires id !in store.notes
    modifies store
    ensures store.Valid()
    ensures r.Success? <==> Acceptable(req)
    ensures r.Failure? ==> r.error == BuildNote(req, now, hash).error
    ensures r.Failure? ==> store.notes == old(store.notes) && store.stats == old(store.stats)
    ensures r.Success? ==>
              var n := BuildNote(req, now, hash).value;
              && store.notes == old(store.notes)[id := n]
              && store.stats == old(store.stats).(totalNotes := old(store.stats.totalNotes) + 1)
              && r.value == Created(id, n.expiresAt, EffectiveHours(req.expiryHours), HasPassword(n))
  {
    var built := BuildNote(req, now, hash);
    if built.Failure? {
      return Failure(built.error);
    }
    var note := built.value;
    store.Add(id, note);
    r := Success(Created(id, note.expiresAt, EffectiveHours(req.expiryHours), HasPassword(note)));
  }

  /** GET /api/notes at time `now`: sweep, then report the table size and the counters. */
  method Get(store: NoteStore, now: nat) returns (r: StatusReport)
    requires store.Valid()
    modifies store
    ensures store.Valid()
    ensures store.notes == Unexpired(old(store.notes), now)
    ensures r.noteCount == |store.notes| == |old(store.notes)| - |ExpiredIds(old(store.notes), now)|
    ensures forall id :: id in store.notes ==> store.notes[id].expiresAt > now
    ensures r.stats == store.stats
    ensures r.stats == old(store.stats).(expiredNotes :=
              old(store.stats.expiredNotes) + |ExpiredIds(old(store.notes), now)|)
  {
    var _ := store.Cleanup(now);
    r := StatusReport(|store.notes|, store.stats);
  }
}
