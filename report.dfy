/**
 * What the backend reports about the queue and how a finished job is filed:
 * `queue_status`, `_process_single_download` and `_is_truthy` (backend.py).
 */
module QueueReport {
  import opened Common
  import opened Text
  import opened Models

  /** A stored download path that no longer exists on disk is forgotten; an empty one is kept. */
  function DropStalePath(b: BookInfo, pathExists: string -> bool): (r: BookInfo)
    ensures r.downloadPath.Some? ==> r.downloadPath == b.downloadPath
    ensures r.downloadPath.Some? && r.downloadPath.value != [] ==> pathExists(r.downloadPath.value)
    ensures b.downloadPath.Some? && pathExists(b.downloadPath.value) ==> r == b
    ensures r == b.(downloadPath := r.downloadPath)
    ensures r.downloadPath.None? <==>
      b.downloadPath.None? || (b.downloadPath.value != [] && !pathExists(b.downloadPath.value))
  {
    if b.downloadPath.Some? && b.downloadPath.value != [] && !pathExists(b.downloadPath.value)
    then b.(downloadPath := None) else b
  }

  /** Applying `DropStalePath` twice changes nothing more. */
  lemma DropStalePathIdempotent(b: BookInfo, pathExists: string -> bool)
    ensures DropStalePath(DropStalePath(b, pathExists), pathExists) == DropStalePath(b, pathExists)
  {
  }

  /** The position of a status in `AllStatuses`, the order `get_status` lists them in. */
  function Rank(s: QueueStatus): (r: nat)
    ensures r < |AllStatuses| && AllStatuses[r] == s
  {
    match s
    case Queued => 0
    case Downloading => 1
    case Available => 2
    case Error => 3
    case Done => 4
    case Cancelled => 5
  }

  /** The books filed under status `s`, each serialised without its None fields. */
  ghost function Serialized(books: map<string, BookInfo>, status: map<string, QueueStatus>, s: QueueStatus)
    : map<string, map<string, string>>
  {
    map id | id in books && id in status && status[id] == s :: BookInfoToDict(books[id])
  }

  /** `Serialized` for status `s` only looks at the books filed under `s`. */
  lemma SerializedFrame(b1: map<string, BookInfo>, b2: map<string, BookInfo>,
                        status: map<string, QueueStatus>, s: QueueStatus)
    requires b1.Keys == b2.Keys
    requires forall id :: id in b1 && id in status && status[id] == s ==> b1[id] == b2[id]
    ensures Serialized(b1, status, s) == Serialized(b2, status, s)
  {
  }

  /** The registry once the books in `done` have been refreshed. */
  ghost function RefreshedOn(books0: map<string, BookInfo>, done: set<string>, pathExists: string -> bool)
    : map<string, BookInfo>
  {
    map id | id in books0 :: if id in done then DropStalePath(books0[id], pathExists) else books0[id]
  }

  /** The records of the books in `done`, each serialised after its refresh. */
  ghost function SerializedOn(books0: map<string, BookInfo>, done: set<string>, pathExists: string -> bool)
    : map<string, map<string, string>>
    requires done <= books0.Keys
  {
    map id | id in done :: BookInfoToDict(DropStalePath(books0[id], pathExists))
  }

  /** Refreshing and serialising one more book extends both maps by that book. */
  lemma RefreshStep(books0: map<string, BookInfo>, done: set<string>, id: string, pathExists: string -> bool)
    requires done <= books0.Keys && id in books0 && id !in done
    ensures RefreshedOn(books0, done, pathExists)[id := DropStalePath(books0[id], pathExists)]
         == RefreshedOn(books0, done + {id}, pathExists)
    ensures SerializedOn(books0, done, pathExists)[id := BookInfoToDict(DropStalePath(books0[id], pathExists))]
         == SerializedOn(books0, done + {id}, pathExists)
  {
  }

  /** Once every book filed under `s` is done, the two descriptions of the result agree. */
  lemma RefreshedListed(books0: map<string, BookInfo>, status: map<string, QueueStatus>, s: QueueStatus,
                        listed: set<string>, pathExists: string -> bool)
    requires forall id :: id in listed <==> id in books0 && id in status && status[id] == s
    ensures RefreshedOn(books0, listed, pathExists) == RefreshedWhere(books0, status, s, pathExists)
    ensures SerializedOn(books0, listed, pathExists) == Serialized(RefreshedWhere(books0, status, s, pathExists), status, s)
  {
    var r := RefreshedWhere(books0, status, s, pathExists);
    assert RefreshedOn(books0, listed, pathExists) == r by {
      assert RefreshedOn(books0, listed, pathExists).Keys == r.Keys;
    }
    var left, right := SerializedOn(books0, listed, pathExists), Serialized(r, status, s);
    assert r.Keys == books0.Keys;
    forall id ensures id in left <==> id in right {
      assert id in left <==> id in listed;
      assert id in right <==> id in r && id in status && status[id] == s;
    }
    forall id | id in left ensures left[id] == right[id] {
      assert r[id] == DropStalePath(books0[id], pathExists);
    }
  }

  /**
   * One round of the outer loop of `queue_status()`: every book filed under
   * `s` loses a download path that no longer exists, in the queue itself, and
   * is serialised.
   */
  method RefreshAndSerialize(q: BookQueue, s: QueueStatus, pathExists: string -> bool)
    returns (serialized: map<string, map<string, string>>)
    requires q.Valid()
    modifies q
    ensures q.Valid()
    ensures q.status == old(q.status) && q.queued == old(q.queued) && q.duplicates == old(q.duplicates)
    ensures q.statusLog == old(q.statusLog)
    ensures q.books == RefreshedWhere(old(q.books), q.status, s, pathExists)
    ensures serialized == Serialized(q.books, q.status, s)
  {
    ghost var books0 := q.books;
    var listed := set id | id in q.books && id in q.status && q.status[id] == s;
    var pending := listed;
    ghost var done: set<string> := {};
    serialized := map[];
    assert q.books == RefreshedOn(books0, done, pathExists);
    while pending != {}
      invariant q.Valid()
      invariant q.status == old(q.status) && q.queued == old(q.queued) && q.duplicates == old(q.duplicates)
      invariant q.statusLog == old(q.statusLog)
      invariant pending + done == listed && pending !! done
      invariant q.books == RefreshedOn(books0, done, pathExists)
      invariant serialized == SerializedOn(books0, done, pathExists)
      decreases pending
    {
      var id :| id in pending;
      RefreshStep(books0, done, id, pathExists);
      var record := RefreshBook(q, id, pathExists);
      serialized := serialized[id := record];
      pending := pending - {id};
      done := done + {id};
    }
    assert done == listed;
    RefreshedListed(books0, q.status, s, listed, pathExists);
  }

  /**
   * The body of the inner loop of `queue_status()` for one book: a stored
   * path that no longer exists is cleared in the queue, and the book's
   * record is returned.
   */
  method RefreshBook(q: BookQueue, id: string, pathExists: string -> bool)
    returns (record: map<string, string>)
    requires q.Valid() && id in q.books
    modifies q
    ensures q.Valid()
    ensures q.status == old(q.status) && q.queued == old(q.queued) && q.duplicates == old(q.duplicates)
    ensures q.statusLog == old(q.statusLog)
    ensures q.books == old(q.books)[id := DropStalePath(old(q.books)[id], pathExists)]
    ensures record == BookInfoToDict(q.books[id])
  {
    var book := q.books[id];
    if book.downloadPath.Some? && book.downloadPath.value != [] && !pathExists(book.downloadPath.value) {
      q.books := q.books[id := book.(downloadPath := None)];
    } else {
      assert q.books == q.books[id := DropStalePath(book, pathExists)];
    }
    record := BookInfoToDict(q.books[id]);
  }

  /** The registry with the books filed under `s` refreshed. */
  ghost function RefreshedWhere(books: map<string, BookInfo>, status: map<string, QueueStatus>, s: QueueStatus,
                                pathExists: string -> bool): map<string, BookInfo>
  {
    map id | id in books :: if id in status && status[id] == s then DropStalePath(books[id], pathExists) else books[id]
  }

  /** The registry with the books filed under the first `k` statuses refreshed. */
  ghost function RefreshedBelow(books: map<string, BookInfo>, status: map<string, QueueStatus>, k: nat,
                                pathExists: string -> bool): map<string, BookInfo>
  {
    map id | id in books :: if id in status && Rank(status[id]) < k then DropStalePath(books[id], pathExists) else books[id]
  }

  lemma RankOf(k: nat)
    requires k < |AllStatuses|
    ensures Rank(AllStatuses[k]) == k
  {
  }

  /** Refreshing the books of the next status extends the refreshed prefix by one status. */
  lemma RefreshedBelowStep(books: map<string, BookInfo>, status: map<string, QueueStatus>, k: nat,
                           pathExists: string -> bool)
    requires k < |AllStatuses|
    ensures RefreshedWhere(RefreshedBelow(books, status, k, pathExists), status, AllStatuses[k], pathExists)
         == RefreshedBelow(books, status, k + 1, pathExists)
  {
    RankOf(k);
  }

  /**
   * `queue_status()`: for every status, its books serialised without None
   * fields, keyed by the status value. On the way, every listed book whose
   * download path has disappeared gets its path set to None in the queue itself.
   */
  method QueueStatusReport(q: BookQueue, pathExists: string -> bool)
    returns (report: map<string, map<string, map<string, string>>>)
    requires q.Valid()
    modifies q
    ensures q.Valid()
    ensures q.status == old(q.status) && q.queued == old(q.queued) && q.duplicates == old(q.duplicates)
    ensures q.statusLog == old(q.statusLog)
    ensures q.books.Keys == old(q.books).Keys
    ensures forall id :: id in q.books ==>
      q.books[id] == if id in q.status then DropStalePath(old(q.books)[id], pathExists) else old(q.books)[id]
    ensures forall s :: StatusValue(s) in report
    ensures forall key :: key in report ==> exists s :: key == StatusValue(s)
    ensures forall s :: report[StatusValue(s)] == Serialized(q.books, q.status, s)
  {
    ghost var books0 := q.books;
    ghost var final := RefreshedBelow(books0, q.status, |AllStatuses|, pathExists);
    report := map[];
    assert q.books == RefreshedBelow(books0, q.status, 0, pathExists);
    for k := 0 to |AllStatuses|
      invariant q.Valid()
      invariant q.status == old(q.status) && q.queued == old(q.queued) && q.duplicates == old(q.duplicates)
      invariant q.statusLog == old(q.statusLog)
      invariant q.books == RefreshedBelow(books0, q.status, k, pathExists)
      invariant ReportBelow(report, k, final, q.status)
    {
      var s := AllStatuses[k];
      RankOf(k);
      RefreshedBelowStep(books0, q.status, k, pathExists);
      var serialized := RefreshAndSerialize(q, s, pathExists);
      SerializedFrame(q.books, final, q.status, s);
      ReportStep(report, k, final, q.status, serialized);
      report := report[StatusValue(s) := serialized];
    }
  }

  /** The report once the first `k` statuses of `AllStatuses` are filled in from the registry `final`. */
  ghost predicate ReportBelow(report: map<string, map<string, map<string, string>>>, k: nat,
                              final: map<string, BookInfo>, status: map<string, QueueStatus>)
  {
    && (forall s :: StatusValue(s) in report <==> Rank(s) < k)
    && (forall key :: key in report ==> exists s :: key == StatusValue(s))
    && (forall s :: Rank(s) < k ==> report[StatusValue(s)] == Serialized(final, status, s))
  }

  /** Filing the books of status number `k` under its value extends the report by that status. */
  lemma ReportStep(report: map<string, map<string, map<string, string>>>, k: nat,
                   final: map<string, BookInfo>, status: map<string, QueueStatus>,
                   serialized: map<string, map<string, string>>)
    requires k < |AllStatuses| && ReportBelow(report, k, final, status)
    requires serialized == Serialized(final, status, AllStatuses[k])
    ensures ReportBelow(report[StatusValue(AllStatuses[k]) := serialized], k + 1, final, status)
  {
    var s := AllStatuses[k];
    RankOf(k);
    forall t
      ensures StatusValue(t) == StatusValue(s) ==> t == s
    {
      StatusValueInjective(t, s);
    }
  }

  /** How the download of one job ended: with the path it returned (None on failure), or by raising. */
  datatype DownloadOutcome = Finished(path: Option<string>) | Raised

  /**
   * The status `_process_single_download` files a job under: CANCELLED when
   * the cancel flag is set (also after an exception), else AVAILABLE when a
   * path came back, else ERROR.
   */
  function FinalStatus(outcome: DownloadOutcome, cancelled: bool): (s: QueueStatus)
    ensures s == Cancelled <==> cancelled
    ensures s == Available <==> !cancelled && outcome.Finished? && outcome.path.Some? && outcome.path.value != []
    ensures s == Error <==> !cancelled && !(outcome.Finished? && outcome.path.Some? && outcome.path.value != [])
  {
    if cancelled then Cancelled
    else if outcome.Finished? && outcome.path.Some? && outcome.path.value != [] then Available
    else Error
  }

  /**
   * `_process_single_download(book_id, cancel_flag)`: the job is marked
   * DOWNLOADING, then filed under its final status; a returned path is
   * recorded on the book first. `cancelled` is the state of the cancel flag
   * when it is checked after the download.
   */
  method ProcessSingleDownload(q: BookQueue, bookId: string, outcome: DownloadOutcome, cancelled: bool)
    requires q.Valid()
    modifies q
    ensures q.Valid()
    ensures q.statusLog == old(q.statusLog) + [(bookId, Downloading), (bookId, FinalStatus(outcome, cancelled))]
    ensures q.status == old(q.status)[bookId := FinalStatus(outcome, cancelled)]
    ensures q.books == if FinalStatus(outcome, cancelled) == Available && bookId in old(q.books)
                       then old(q.books)[bookId := old(q.books)[bookId].(downloadPath := outcome.path)]
                       else old(q.books)
    ensures q.queued == old(q.queued) && q.duplicates == old(q.duplicates)
  {
    q.UpdateStatus(bookId, Downloading);
    if outcome.Raised? {
      if !cancelled {
        q.UpdateStatus(bookId, Error);
      } else {
        q.UpdateStatus(bookId, Cancelled);
      }
      return;
    }
    if cancelled {
      q.UpdateStatus(bookId, Cancelled);
      return;
    }
    var newStatus;
    if outcome.path.Some? && outcome.path.value != [] {
      q.UpdateDownloadPath(bookId, outcome.path.value);
      newStatus := Available;
    } else {
      newStatus := Error;
    }
    q.UpdateStatus(bookId, newStatus);
  }

  /** The words `_is_truthy` accepts, compared after lower-casing. */
  const TruthyWords: set<string> := {"1", "true", "yes", "on"}

  /** `_is_truthy(value)`. */
  predicate IsTruthy(value: string) {
    Lower(value) in TruthyWords
  }

  /** `a` and `b` are equal but for ASCII letter case. */
  predicate EqualsIgnoringCase(a: string, b: string) {
    |a| == |b| && forall i :: 0 <= i < |a| ==> LowerChar(a[i]) == LowerChar(b[i])
  }

  /** A value is truthy exactly when it spells one of the four words in any mix of letter case. */
  lemma IsTruthyIgnoresCase(value: string)
    ensures IsTruthy(value) <==> exists w :: w in TruthyWords && EqualsIgnoringCase(value, w)
  {
    if IsTruthy(value) {
      var w := Lower(value);
      assert w in TruthyWords && EqualsIgnoringCase(value, w);
    }
    if w :| w in TruthyWords && EqualsIgnoringCase(value, w) {
      assert Lower(w) == w;
      assert Lower(value) == Lower(w);
    }
  }
}
