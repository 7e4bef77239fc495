/**
 * Duplicate detection before a book is queued, and the registry of held-back
 * requests: `detect_duplicate`, `queue_book`, `remove_duplicate` and
 * `force_duplicate` (backend.py).
 */
module Duplicates {
  import opened Common
  import opened Models
  import opened Filenames

  /**
   * What the backend reads from its configuration and the file system:
   * `USE_BOOK_TITLE`, `INGEST_DIR`, MD5 of a book id as hex, and whether a
   * path exists.
   */
  datatype Env = Env(useBookTitle: bool, ingestDir: string, md5Hex: string -> string,
                     pathExists: string -> bool)

  /** A status that still counts as pending: set, and not ERROR, DONE or CANCELLED. */
  predicate IsPending(status: Option<QueueStatus>) {
    status.Some? && status.value != Error && status.value != Done && status.value != Cancelled
  }

  /**
   * The reason checks of `detect_duplicate`, first match wins: a pending queue
   * status, then a file at the final path, then a partial `.crdownload` file.
   */
  function ChooseReason(status: Option<QueueStatus>, finalExists: bool, partialExists: bool)
    : (r: Option<DuplicateReason>)
    ensures r == Some(AlreadyQueued) <==> IsPending(status)
    ensures r == Some(OnDisk) <==> !IsPending(status) && finalExists
    ensures r == Some(StillDownloading) <==> !IsPending(status) && !finalExists && partialExists
    ensures r == None <==> !IsPending(status) && !finalExists && !partialExists
  {
    if IsPending(status) then Some(AlreadyQueued)
    else if finalExists then Some(OnDisk)
    else if partialExists then Some(StillDownloading)
    else None
  }

  /**
   * `detect_duplicate(book)`, given what the queue knows about the book
   * (`get_status_for`, `get_book`).
   */
  function DetectDuplicate(book: BookInfo, status: Option<QueueStatus>, known: Option<BookInfo>,
                           env: Env): (r: Option<DuplicateEntry>)
    ensures var paths := BuildIngestPaths(book, env.useBookTitle, env.ingestDir, env.md5Hex);
      var reason := ChooseReason(status, env.pathExists(PathString(paths.final)),
                                 env.pathExists(PathString(paths.intermediate)));
      && (r.None? <==> reason.None?)
      && (r.Some? ==>
            && r.value.reason == reason.value
            && r.value.bookId == book.id && r.value.bookInfo == book
            && r.value.ingestPath == PathString(paths.final)
            && r.value.priority == 0
            && (r.value.status.Some? <==> status.Some?)
            && (status.Some? ==> r.value.status == Some(StatusValue(status.value)))
            && (reason.value == OnDisk ==> r.value.existingPath == Some(PathString(paths.final)))
            && (reason.value == StillDownloading ==>
                  r.value.existingPath == Some(PathString(paths.intermediate)))
            && (reason.value == AlreadyQueued ==>
                  r.value.existingPath ==
                    if known.Some? && known.value.downloadPath.Some? && known.value.downloadPath.value != []
                    then known.value.downloadPath else None))
  {
    var paths := BuildIngestPaths(book, env.useBookTitle, env.ingestDir, env.md5Hex);
    var finalPath := PathString(paths.final);
    var partialPath := PathString(paths.intermediate);
    var reason := ChooseReason(status, env.pathExists(finalPath), env.pathExists(partialPath));
    if reason.None? then None
    else
      var existing :=
        match reason.value
        case AlreadyQueued =>
          if known.Some? && known.value.downloadPath.Some? && known.value.downloadPath.value != []
          then known.value.downloadPath else None
        case OnDisk => Some(finalPath)
        case StillDownloading => Some(partialPath);
      var statusValue := if status.Some? then Some(StatusValue(status.value)) else None;
      Some(DuplicateEntry(book.id, book, finalPath, reason.value, existing, statusValue, 0))
  }

  /** A book the queue still has pending is reported as queued even when its files are present. */
  lemma PendingWinsOverFiles(book: BookInfo, status: Option<QueueStatus>, known: Option<BookInfo>, env: Env)
    requires IsPending(status)
    ensures DetectDuplicate(book, status, known, env).Some?
    ensures DetectDuplicate(book, status, known, env).value.reason == AlreadyQueued
  {
  }

  /**
   * `queue_book(book_id, priority, force)`. `lookup` is what
   * `book_manager.get_book_info(book_id)` returns; None stands for the
   * exception it raises for an unknown book.
   */
  method QueueBook(q: BookQueue, bookId: string, priority: int, force: bool,
                   lookup: Option<BookInfo>, env: Env)
    returns (ok: bool, duplicate: Option<DuplicateEntry>)
    requires q.Valid()
    modifies q
    ensures q.Valid()
    ensures q.statusLog == old(q.statusLog)
    ensures ok <==> lookup.Some? && duplicate.None?
    ensures force ==> duplicate.None?
    ensures lookup.None? ==> !ok && duplicate.None?
    ensures lookup.None? ==>
      && q.status == old(q.status) && q.books == old(q.books) && q.queued == old(q.queued)
      && q.duplicates == old(q.duplicates)
    ensures lookup.Some? && !force ==>
      var found := DetectDuplicate(lookup.value, old(q.GetStatusFor(lookup.value.id)),
                                   old(q.GetBook(lookup.value.id)), env);
      && (found.Some? ==>
            && duplicate == Some(found.value.(priority := priority))
            && q.duplicates == old(q.duplicates)[lookup.value.id := duplicate.value]
            && q.status == old(q.status) && q.books == old(q.books) && q.queued == old(q.queued))
      && (found.None? ==> duplicate.None? && q.duplicates == old(q.duplicates))
    ensures lookup.Some? && force ==> q.duplicates == old(q.duplicates) - {bookId}
    ensures ok ==>
      && q.books == old(q.books)[bookId := lookup.value]
      && q.status == old(q.status)[bookId := Queued]
      && q.queued == old(q.queued)[bookId := priority]
  {
    if lookup.None? {
      return false, None;
    }
    var info := lookup.value;
    if force {
      var _ := q.ResolveDuplicate(bookId);
    } else {
      var found := DetectDuplicate(info, q.GetStatusFor(info.id), q.GetBook(info.id), env);
      if found.Some? {
        var entry := found.value.(priority := priority);
        q.RecordDuplicate(entry);
        return false, Some(entry);
      }
    }
    q.Add(bookId, info, priority);
    return true, None;
  }

  /** `remove_duplicate(book_id)`: drop the held-back request without queueing the book. */
  method RemoveDuplicate(q: BookQueue, bookId: string) returns (removed: Option<DuplicateEntry>)
    requires q.Valid()
    modifies q
    ensures q.Valid()
    ensures removed == Get(old(q.duplicates), bookId)
    ensures bookId !in q.duplicates
    ensures q.duplicates == old(q.duplicates) - {bookId}
    ensures q.status == old(q.status) && q.books == old(q.books) && q.queued == old(q.queued)
    ensures q.statusLog == old(q.statusLog)
  {
    removed := q.ResolveDuplicate(bookId);
  }

  /**
   * `force_duplicate(book_id, priority)`: queue a held-back book anyway, at the
   * given priority or else the one it was requested with; if queueing fails,
   * the entry goes back into the registry with that priority.
   */
  method ForceDuplicate(q: BookQueue, bookId: string, priority: Option<int>,
                        lookup: Option<BookInfo>, env: Env)
    returns (ok: bool, entry: Option<DuplicateEntry>, error: Option<string>)
    requires q.Valid()
    modifies q
    ensures q.Valid()
    ensures q.statusLog == old(q.statusLog)
    ensures bookId !in old(q.duplicates) ==>
      && !ok && entry.None? && error == Some("Duplicate entry not found")
      && q.duplicates == old(q.duplicates)
      && q.status == old(q.status) && q.books == old(q.books) && q.queued == old(q.queued)
    ensures bookId in old(q.duplicates) ==>
      var target := if priority.Some? then priority.value else old(q.duplicates)[bookId].priority;
      && entry == Some(old(q.duplicates)[bookId].(priority := target))
      && (ok <==> lookup.Some?)
      && (ok ==>
            && error.None?
            && q.duplicates == old(q.duplicates) - {bookId}
            && q.books == old(q.books)[bookId := lookup.value]
            && q.status == old(q.status)[bookId := Queued]
            && q.queued == old(q.queued)[bookId := target])
      && (!ok ==>
            && error == Some("Failed to queue duplicate")
            && q.duplicates == old(q.duplicates)[bookId := entry.value]
            && q.status == old(q.status) && q.books == old(q.books) && q.queued == old(q.queued))
  {
    var resolved := q.ResolveDuplicate(bookId);
    if resolved.None? {
      return false, None, Some("Duplicate entry not found");
    }
    var target := if priority.Some? then priority.value else resolved.value.priority;
    var held := resolved.value.(priority := target);
    var success, duplicate := QueueBook(q, bookId, target, true, lookup, env);
    if success {
      return true, Some(held), None;
    }
    // With force set, QueueBook never reports a duplicate, so the branch that
    // would re-record `duplicate` (backend.py:333-335) cannot be taken.
    q.RecordDuplicate(held);
    return false, Some(held), Some("Failed to queue duplicate");
  }
}
