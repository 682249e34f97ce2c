/**
 * The shared in-memory note table, its usage counters and the batch
 * expiry sweep.
 */
module Storage {
  import opened Wrappers

  /** A stored note; times are milliseconds since the epoch. */
  datatype Note = Note(
    content: string,
    createdAt: nat,
    expiresAt: nat,
    passwordHash: Option<string>,
    preview: Option<string>)

  /** The process-wide usage counters. */
  datatype Stats = Stats(totalNotes: nat, totalViews: nat, expiredNotes: nat)

  /** Ids of the entries that count as expired at `now`. */
  function ExpiredIds(m: map<string, Note>, now: nat): set<string> {
    set id | id in m && m[id].expiresAt <= now
  }

  /** The entries of `m` still alive at `now`: what a sweep leaves behind. */
  function Unexpired(m: map<string, Note>, now: nat): map<string, Note> {
    map id | id in m && m[id].expiresAt > now :: m[id]
  }

  /** A sweep removes exactly the expired ids, and one entry per expired id. */
  lemma SweepPartition(m: map<string, Note>, now: nat)
    ensures Unexpired(m, now) == m - ExpiredIds(m, now)
    ensures ExpiredIds(m, now) <= m.Keys
    ensures |Unexpired(m, now)| == |m| - |ExpiredIds(m, now)|
  {
  }

  /** After a sweep at `now` nothing expired at `now` is left, so a second sweep changes nothing. */
  lemma SweepIdempotent(m: map<string, Note>, now: nat)
    ensures ExpiredIds(Unexpired(m, now), now) == {}
    ensures Unexpired(Unexpired(m, now), now) == Unexpired(m, now)
  {
  }

  /** Sweeping at `t1` and then at a later `t2` leaves what one sweep at `t2` leaves. */
  lemma SweepLater(m: map<string, Note>, t1: nat, t2: nat)
    requires t1 <= t2
    ensures Unexpired(Unexpired(m, t1), t2) == Unexpired(m, t2)
  {
  }

  class NoteStore {
    var notes: map<string, Note>
    var stats: Stats

    /**
     * Every note ever created is either counted as viewed, counted as
     * expired, or still in the table; and every stored note expires
     * strictly after it was created.
     */
    ghost predicate Valid()
      reads this
    {
      && stats.totalNotes == stats.totalViews + stats.expiredNotes + |notes|
      && forall id :: id in notes ==> notes[id].createdAt < notes[id].expiresAt
    }

    /** The freshly loaded module: an empty table and all counters at zero. */
    constructor ()
      ensures Valid()
      ensures notes == map[]
      ensures stats == Stats(0, 0, 0)
    {
      notes := map[];
      stats := Stats(0, 0, 0);
    }

    /** `notes.set(id, note)` followed by `stats.totalNotes++`, for an id not yet in use. */
    method Add(id: string, note: Note)
      requires Valid()
      requires id !in notes
      requires note.createdAt < note.expiresAt
      modifies this
      ensures Valid()
      ensures notes == old(notes)[id := note]
      ensures |notes| == |old(notes)| + 1
      ensures stats == old(stats).(totalNotes := old(stats.totalNotes) + 1)
    {
      notes := notes[id := note];
      stats := stats.(totalNotes := stats.totalNotes + 1);
    }

    /**
     * Collects every id whose note expires at or before `now`, deletes
     * them as one batch, adds the batch size to `expiredNotes` and
     * returns it.
     */
    method Cleanup(now: nat) returns (count: nat)
      requires Valid()
      modifies this
      ensures Valid()
      ensures notes == Unexpired(old(notes), now)
      ensures forall id :: id in notes ==> notes[id].expiresAt > now
      ensures forall id :: id in old(notes) && old(notes)[id].expiresAt > now ==>
                id in notes && notes[id] == old(notes)[id]
      ensures count == |ExpiredIds(old(notes), now)| == |old(notes)| - |notes|
      ensures stats == old(stats).(expiredNotes := old(stats.expiredNotes) + count)
    {
      var expiredIds := CollectExpired(now);
      DeleteAll(expiredIds);
      SweepPartition(old(notes), now);
      assert notes == old(notes) - ExpiredIds(old(notes), now);
      stats := stats.(expiredNotes := stats.expiredNotes + |expiredIds|);
      count := |expiredIds|;
    }

    /** The scan half of Cleanup: the ids, each once, of the notes expired at `now`. */
    method CollectExpired(now: nat) returns (expiredIds: seq<string>)
      ensures forall id :: id in expiredIds <==> id in ExpiredIds(notes, now)
      ensures |expiredIds| == |ExpiredIds(notes, now)|
    {
      expiredIds := [];
      ghost var found: set<string> := {};
      var pending := notes.Keys;
      while pending != {}
        invariant pending <= notes.Keys
        invariant found == ExpiredIds(notes, now) - pending
        invariant |expiredIds| == |found|
        invariant forall id :: id in expiredIds <==> id in found
        decreases pending
      {
        var id :| id in pending;
        if notes[id].expiresAt <= now {
          expiredIds := expiredIds + [id];
          found := found + {id};
        }
        pending := pending - {id};
      }
    }

    /** The delete half of Cleanup: `ids.forEach(id => notes.delete(id))`. */
    method DeleteAll(ids: seq<string>)
      modifies this
      ensures notes == old(notes) - (set id | id in ids)
      ensures stats == old(stats)
    {
      var i := 0;
      while i < |ids|
        invariant 0 <= i <= |ids|
        invariant notes == old(notes) - (set k | 0 <= k < i :: ids[k])
        invariant stats == old(stats)
      {
        notes := notes - {ids[i]};
        i := i + 1;
      }
      assert (set k | 0 <= k < |ids| :: ids[k]) == (set id | id in ids);
    }
  }
}
