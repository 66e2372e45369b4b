/** The upload directory as the two cleanup routines see it: a listing of names, each a regular
    file with its modification time or something else (a directory). */
module UploadFolder {
  import opened PyStr

  datatype Entry = RegularFile(mtime: int) | Directory

  /** `CLEANUP_AGE`: files older than 24 hours are removed. */
  const CleanupAge := 86400

  /** `os.path.isfile(p)` and `now - os.path.getmtime(p) > CLEANUP_AGE`. */
  predicate Expired(e: Entry, now: int)
  {
    e.RegularFile? && now - e.mtime > CleanupAge
  }

  /** The listing after `cleanup_old_files`: expired regular files are gone, except those whose
      removal failed (`locked`, a file in use), which the bare `except` skips. */
  function WithoutExpired(m: map<string, Entry>, now: int, locked: set<string>): map<string, Entry>
  {
    map n | n in m && !(Expired(m[n], now) && n !in locked) :: m[n]
  }

  /** The listing after the loop of app.py's `cleanup`: every name starting with `id` is removed,
      except where `os.remove` fails (a directory, or a name in `locked`), which is skipped. */
  function WithoutPrefixed(m: map<string, Entry>, id: string, locked: set<string>): map<string, Entry>
  {
    map n | n in m && !(StartsWith(n, id) && m[n].RegularFile? && n !in locked) :: m[n]
  }

  /** The age filter removes exactly the expired, removable regular files; every other entry stays
      as it was, and nothing is added. */
  lemma WithoutExpiredExactly(m: map<string, Entry>, now: int, locked: set<string>)
    ensures var r := WithoutExpired(m, now, locked);
      && r.Keys <= m.Keys
      && (forall n :: n in m && n !in r <==> n in m && Expired(m[n], now) && n !in locked)
      && (forall n :: n in r ==> r[n] == m[n] && !(Expired(m[n], now) && n !in locked))
  {
  }

  /** Files younger than a day, and anything that is not a regular file, survive. */
  lemma RecentFilesSurvive(m: map<string, Entry>, now: int, locked: set<string>, n: string)
    requires n in m && (m[n].Directory? || now - m[n].mtime <= CleanupAge)
    ensures n in WithoutExpired(m, now, locked) && WithoutExpired(m, now, locked)[n] == m[n]
  {
  }

  /** The prefix filter removes exactly the removable regular files whose names start with `id`;
      with an empty `id` that is every removable regular file. */
  lemma WithoutPrefixedExactly(m: map<string, Entry>, id: string, locked: set<string>)
    ensures var r := WithoutPrefixed(m, id, locked);
      && r.Keys <= m.Keys
      && (forall n :: n in m && n !in r <==> n in m && StartsWith(n, id) && m[n].RegularFile? && n !in locked)
      && (forall n :: n in r ==> r[n] == m[n])
  {
  }

  /** The directory itself. `present` is whether it exists. */
  class Folder {
    var present: bool
    var entries: map<string, Entry>

    constructor (entries0: map<string, Entry>)
      ensures present && entries == entries0
    {
      present := true;
      entries := entries0;
    }

    /** `cleanup_old_files`, with the clock reading passed in as `now`: a missing directory is
        left alone; otherwise every listed name is visited once. */
    method CleanupOldFiles(now: int, locked: set<string>)
      modifies this
      ensures present == old(present)
      ensures entries == if present then WithoutExpired(old(entries), now, locked) else old(entries)
    {
      if !present {
        return;
      }
      ghost var m := entries;
      var pending := entries.Keys;
      while pending != {}
        invariant present && pending <= m.Keys && entries.Keys <= m.Keys
        invariant forall n :: n in pending ==> n in entries && entries[n] == m[n]
        invariant forall n :: n in m && n !in pending ==>
          (n in entries <==> n in WithoutExpired(m, now, locked)) && (n in entries ==> entries[n] == m[n])
        decreases pending
      {
        var n :| n in pending;
        if Expired(entries[n], now) && n !in locked {
          entries := entries - {n};
        }
        pending := pending - {n};
      }
      assert entries.Keys == WithoutExpired(m, now, locked).Keys;
    }

    /** The loop of app.py's `cleanup`: every listed name starting with `id` is passed to
        `os.remove`, whose failures are ignored. */
    method RemovePrefixed(id: string, locked: set<string>)
      requires present
      modifies this
      ensures present
      ensures entries == WithoutPrefixed(old(entries), id, locked)
    {
      ghost var m := entries;
      var pending := entries.Keys;
      while pending != {}
        invariant present && pending <= m.Keys && entries.Keys <= m.Keys
        invariant forall n :: n in pending ==> n in entries && entries[n] == m[n]
        invariant forall n :: n in m && n !in pending ==>
          (n in entries <==> n in WithoutPrefixed(m, id, locked)) && (n in entries ==> entries[n] == m[n])
        decreases pending
      {
        var n :| n in pending;
        if StartsWith(n, id) && entries[n].RegularFile? && n !in locked {
          entries := entries - {n};
        }
        pending := pending - {n};
      }
      assert entries.Keys == WithoutPrefixed(m, id, locked).Keys;
    }
  }
}
