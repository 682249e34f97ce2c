# Ghost Notes: the ephemeral note store and its create path

Ghost Notes keeps secret notes in process memory, each with a time to live
of one to 72 hours. This project models the part that owns that memory:

- the shared table from note id to stored note (`content`, `createdAt`,
  `expiresAt`, optional `passwordHash`, optional `preview`) and the
  `stats` record with `totalNotes`, `totalViews` and `expiredNotes`;
- the batch expiry sweep `cleanupExpiredNotes`, which collects every id
  whose note expires at or before now, deletes them, adds their number to
  `expiredNotes` and returns that number;
- `POST /api/notes`, which validates and normalises a creation request
  and stores the note: non-blank content of at most 10,000 characters, an
  expiry clamped into [1, 72] hours, `expiresAt = now + hours * 3,600,000`
  milliseconds, a 50-character preview of long content, a hash of the trimmed
  password when one is given;
- `GET /api/notes`, which runs the sweep and reports the table size and the
  counters.

Modules:

- `Wrappers` (wrappers.dfy): `Option` and `Result`.
- `Strings` (strings.dfy): `String.prototype.trim` over the ECMAScript
  white-space and line-terminator code points, with a reference definition
  (`IsTrimOf`) and the proof that `Trim` is the unique trim.
- `Storage` (storage.dfy): the `Note` and `Stats` values, and the class
  `NoteStore` whose fields `notes: map<string, Note>` and `stats: Stats`
  are the two module-level objects of lib/storage.ts. `Valid()` is the
  accounting identity `totalNotes == totalViews + expiredNotes + |notes|`,
  together with `createdAt < expiresAt` for every stored note. `Cleanup` is
  specified by the functions `Unexpired` and `ExpiredIds`, and the lemmas
  about the sweep are stated over those functions.
- `NotesRoute` (notes_route.dfy): the pure validation and normalisation
  steps of POST, `BuildNote` composing them, and the handlers `Post` and
  `Get` acting on a `NoteStore`.

Time is a `nat` count of milliseconds, passed in wherever the source calls
`new Date()`. The note id is passed in by the caller, who must pick one not
yet in the table; this stands for `nanoid(16)`'s uniqueness. The bcrypt hash
is a function-valued parameter `hash: string -> string`. One call's salt is
part of the function the caller passes. The JSON body's fields are values of
`Field`: absent, a string, or another JSON value together with its JavaScript
truthiness. `expiryHours` arrives as the result of `parseInt`, with `None`
for NaN. A missing `expiryHours` defaults to 1, and `None` and `Some(1)` give
the same result.

Some behaviours of the code are kept as written:

- The 10,000-character limit applies to the untrimmed content, and exactly
  10,000 is accepted, although the error message says "less than".
- The preview is cut from the untrimmed content, while the stored content is
  trimmed. So a preview can exist for content whose trimmed form is short.
- A truthy non-string `password` makes `password.trim()` throw. The handler
  then answers with an internal error and stores nothing.
- `hasPassword` is `!!passwordHash`, so an empty digest would read as "no
  password". `HasPasswordIffDigest` shows that this flag matches the
  digest's presence whenever digests are non-empty, as bcrypt's are.
- GET reports the table size under the name `totalNotes`. The model calls
  it `noteCount` to keep it apart from `stats.totalNotes`.

Nothing in this model increments `totalViews`: the handlers that reveal a
note are not part of it.

## Model

| member | source | states |
|---|---|---|
| `Storage.NoteStore.constructor` | lib/storage.ts:10-18 | a fresh store has an empty table and all three counters at 0, and satisfies the accounting invariant |
| `Storage.NoteStore.Add` | app/api/notes/route.ts:39-48 | for an id not in the table, the table gains exactly that entry and every other entry stays the same; `totalNotes` goes up by exactly 1 and the other counters stay the same; the accounting invariant is preserved |
| `Storage.NoteStore.Cleanup` | lib/storage.ts:21-37 | the new table is the old one without its expired entries: no remaining note has `expiresAt <= now`, and every note with `expiresAt > now` is kept unchanged; the returned count is the number of expired ids, which is `old |notes| - new |notes|`; `expiredNotes` goes up by exactly that count; `totalNotes` and `totalViews` stay the same; the accounting invariant is preserved |
| `Storage.NoteStore.CollectExpired` | lib/storage.ts:22-30 | the collected ids are exactly the ids whose note has `expiresAt <= now`, and each appears once, since the list's length is the number of such ids |
| `Storage.NoteStore.DeleteAll` | lib/storage.ts:32-33 | the table loses exactly the given ids and the counters stay the same |
| `Storage.SweepPartition` | lib/storage.ts:23-36 | the surviving table is the table minus the expired ids, and its size drops by exactly the number of expired ids |
| `Storage.SweepIdempotent` | lib/storage.ts:21-37 | after a sweep at `now`, no id is expired at `now`, and a second sweep at the same `now` leaves the table as it is, so it returns 0 |
| `Storage.SweepLater` | lib/storage.ts:26-33 | a sweep at `t1` followed by a sweep at a later `t2` leaves the same table as a single sweep at `t2` |
| `Strings.LeadingEnd` | app/api/notes/route.ts:12 | the index of the first non-white-space character: everything before it is white space |
| `Strings.TrailingStart` | app/api/notes/route.ts:40 | the index just past the last non-white-space character: everything from it on is white space |
| `Strings.Trim` | app/api/notes/route.ts:12 | the trim is no longer than its input; it is empty exactly when the input is all white space; otherwise it neither starts nor ends with white space |
| `Strings.TrimIsTrimOf` | app/api/notes/route.ts:40 | `Trim(s)` is `s` with a white-space prefix and a white-space suffix removed, as the reference `IsTrimOf` says |
| `Strings.TrimOfUnique` | app/api/notes/route.ts:40 | any string meeting the reference definition of a trim of `s` equals `Trim(s)` |
| `Strings.TrimSpec` | app/api/notes/route.ts:31-32 | `r` is a trim of `s` by the reference definition exactly when `r == Trim(s)` |
| `Strings.TrimIdempotent` | app/api/notes/route.ts:40 | trimming a trimmed string changes nothing |
| `NotesRoute.ValidateContent` | app/api/notes/route.ts:12-18 | content is accepted exactly when it is a string that is not all white space and whose untrimmed length is at most 10,000, so length 10,000 is accepted; absent, non-string or blank content gives `ContentRequired`; non-blank content over 10,000 characters gives `ContentTooLong` |
| `NotesRoute.EffectiveHours` | app/api/notes/route.ts:21 | the effective hours always lie in [1, 72]; an in-range value is kept; NaN, 0 and anything below 1 give 1; anything above 72 gives 72 |
| `NotesRoute.EffectiveHoursIdempotent` | app/api/notes/route.ts:21 | clamping an already clamped value gives it back |
| `NotesRoute.ExpiresAt` | app/api/notes/route.ts:26-27 | the expiry moment is an exact whole number of hours after creation, and that number of hours can be recovered from it; for at least one hour it lies strictly after creation |
| `NotesRoute.MakePreview` | app/api/notes/route.ts:36 | a preview exists exactly when the untrimmed content is longer than 50 characters; it is then the 50-character prefix of that content |
| `NotesRoute.PasswordDigest` | app/api/notes/route.ts:30-33 | a truthy non-string password is an internal error; otherwise a digest is produced exactly when the password is a string that is not all white space, and it is then the hash of the trimmed password |
| `NotesRoute.BuildNote` | app/api/notes/route.ts:8-45 | a note is built exactly when the request is acceptable; the error follows the handler's check order (content required, then too long, then internal); the note holds the trimmed, non-empty content, `createdAt == now`, `expiresAt == now + hours * 3,600,000 > createdAt` with the clamped hours, the preview and the password digest as above |
| `NotesRoute.StoredContentTrimmed` | app/api/notes/route.ts:40 | the stored content is its own trim |
| `NotesRoute.CreatedNoteLifetime` | app/api/notes/route.ts:26-45 | once stored, a created note survives exactly the sweeps made before its `expiresAt`: it is always kept for the first hour and always removed from 72 hours on |
| `NotesRoute.HasPasswordIffDigest` | app/api/notes/route.ts:58 | when the hash never returns an empty digest, the `hasPassword` flag in the response is true exactly when a non-blank password was given |
| `NotesRoute.Post` | app/api/notes/route.ts:6-71 | an acceptable request adds exactly one entry under the fresh id, built as `BuildNote` says, and raises `totalNotes` by exactly 1; every other entry and counter stays the same; the response carries the id, `expiresAt`, the clamped hours and `hasPassword`; a rejected request changes neither the table nor any counter; the accounting invariant is preserved |
| `NotesRoute.Get` | app/api/notes/route.ts:73-95 | the sweep runs first, so the reported note count is the size of the table after it has removed every note expired at `now`; the reported stats are the counters after the sweep |

## Left out

- The five-minute `setInterval` sweep and its `SIGTERM` shutdown (lib/storage.ts:39-54), and the deferred `setImmediate` sweep after a create (app/api/notes/route.ts:51): these are runtime scheduling, and a sweep is an explicit `Cleanup` call here.
- Concurrency: the `await` on bcrypt before `notes.set` lets other requests interleave in the real code; the model is sequential.
- HTTP and JSON transport: status codes, headers, error messages, `process.uptime()`, the `message` field, ISO date formatting, and the internal error when `request.json()` fails to parse the body.
- `nanoid(16)`, `bcrypt.hash` and `new Date()` are foreign; they become a caller-supplied fresh id, a hash-function parameter that never fails, and a time parameter.
- `parseInt`'s own parsing of the raw `expiryHours` value; the model starts from its result.
- Strings are sequences of Unicode scalar values, whereas JavaScript counts UTF-16 code units: content with characters outside the Basic Multilingual Plane has a different `length` and preview cut in the source.
- Counters and times are unbounded naturals; JavaScript numbers and `Date` values lose exactness beyond 2^53 and 8.64e15 ms.
- The handlers of app/api/notes/[id]/route.ts (retrieve, password check, delete) and app/api/stats/route.ts: each declares its own module-local table and counters, which nothing else writes, so they share no state with the store modelled here.
- The pages and components (app/page.tsx, app/docs/page.tsx, app/layout.tsx, app/note/[id]/page.tsx, components/qr-code.tsx): rendering and browser behaviour.
