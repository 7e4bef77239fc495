/**
 * The data types and the download-queue registry the backend works on.
 * They stand for `models.BookInfo`, `models.DuplicateEntry`, `models.QueueStatus`
 * and the shared `models.book_queue` object; models.py itself is not part of
 * this model, so the behaviour given to `BookQueue`'s operations below is an
 * assumption drawn from their names and from how the backend uses them.
 */
module Models {
  import opened Common

  datatype QueueStatus = Queued | Downloading | Available | Error | Done | Cancelled

  /** `QueueStatus.value`: the key under which a status is reported. */
  function StatusValue(s: QueueStatus): string {
    match s
    case Queued => "queued"
    case Downloading => "downloading"
    case Available => "available"
    case Error => "error"
    case Done => "done"
    case Cancelled => "cancelled"
  }

  /** The order in which the registry lists its statuses. */
  const AllStatuses: seq<QueueStatus> := [Queued, Downloading, Available, Error, Done, Cancelled]

  lemma StatusValueInjective(s: QueueStatus, t: QueueStatus)
    ensures StatusValue(s) == StatusValue(t) ==> s == t
  {
  }

  /** A book as the catalogue describes it; every field but `id` and `title` may be None. */
  datatype BookInfo = BookInfo(
    id: string,
    title: string,
    author: Option<string>,
    publisher: Option<string>,
    year: Option<string>,
    language: Option<string>,
    format: Option<string>,
    size: Option<string>,
    preview: Option<string>,
    downloadPath: Option<string>)

  /** The attribute names of `BookInfo.__dict__`, in declaration order. */
  const FieldNames: seq<string> :=
    ["id", "title", "author", "publisher", "year", "language", "format", "size", "preview", "download_path"]

  /** `getattr(book, key)` for each attribute name; None for any other key. */
  function FieldValue(b: BookInfo, key: string): Option<string> {
    if key == "id" then Some(b.id)
    else if key == "title" then Some(b.title)
    else if key == "author" then b.author
    else if key == "publisher" then b.publisher
    else if key == "year" then b.year
    else if key == "language" then b.language
    else if key == "format" then b.format
    else if key == "size" then b.size
    else if key == "preview" then b.preview
    else if key == "download_path" then b.downloadPath
    else None
  }

  /** `_book_info_to_dict`: the attributes of the book, leaving out every None-valued one. */
  function BookInfoToDict(b: BookInfo): (d: map<string, string>)
    ensures "id" in d && d["id"] == b.id && "title" in d && d["title"] == b.title
    ensures forall k :: k in d ==> k in FieldNames && FieldValue(b, k) == Some(d[k])
    ensures forall k :: k in FieldNames && FieldValue(b, k).Some? ==> k in d
    ensures forall k :: FieldValue(b, k).None? ==> k !in d
  {
    map k | k in FieldNames && FieldValue(b, k).Some? :: FieldValue(b, k).value
  }

  /** Reading a serialised book back: a missing key stands for None. */
  function BookInfoFromDict(d: map<string, string>): BookInfo
    requires "id" in d && "title" in d
  {
    BookInfo(d["id"], d["title"], Get(d, "author"), Get(d, "publisher"), Get(d, "year"),
             Get(d, "language"), Get(d, "format"), Get(d, "size"), Get(d, "preview"),
             Get(d, "download_path"))
  }

  lemma GetField(b: BookInfo, k: string)
    requires k in FieldNames
    ensures Get(BookInfoToDict(b), k) == FieldValue(b, k)
  {
  }

  /** Leaving out the None fields loses nothing: the record reads back as the same book. */
  lemma BookInfoDictRoundTrip(b: BookInfo)
    ensures "id" in BookInfoToDict(b) && "title" in BookInfoToDict(b)
    ensures BookInfoFromDict(BookInfoToDict(b)) == b
  {
    var d := BookInfoToDict(b);
    GetField(b, "author");
    GetField(b, "publisher");
    GetField(b, "year");
    GetField(b, "language");
    GetField(b, "format");
    GetField(b, "size");
    GetField(b, "preview");
    GetField(b, "download_path");
  }

  /**
   * Why a download request was held back as a duplicate (`DuplicateEntry.reason`),
   * stored by the source as "queued", "on_disk" and "downloading".
   */
  datatype DuplicateReason = AlreadyQueued | OnDisk | StillDownloading

  /** A download request held back for review; `priority` defaults to 0. */
  datatype DuplicateEntry = DuplicateEntry(
    bookId: string,
    bookInfo: BookInfo,
    ingestPath: string,
    reason: DuplicateReason,
    existingPath: Option<string>,
    status: Option<string>,
    priority: int)

  /**
   * The shared download queue: per-book status and book record, the ids
   * waiting to be downloaded with their priority, and the registry of
   * duplicate entries keyed by book id.
   */
  class BookQueue {
    var status: map<string, QueueStatus>
    var books: map<string, BookInfo>
    var queued: map<string, int>
    var duplicates: map<string, DuplicateEntry>
    /** Every `update_status` call, in order. */
    ghost var statusLog: seq<(string, QueueStatus)>

    ghost predicate Valid()
      reads this
    {
      && queued.Keys <= books.Keys
      && queued.Keys <= status.Keys
      && (forall id :: id in duplicates ==> duplicates[id].bookId == id)
    }

    constructor ()
      ensures Valid()
      ensures status == map[] && books == map[] && queued == map[] && duplicates == map[]
      ensures statusLog == []
    {
      status, books, queued, duplicates := map[], map[], map[], map[];
      statusLog := [];
    }

    /** `get_status_for(id)`: None for a book the queue has never seen. */
    function GetStatusFor(id: string): Option<QueueStatus>
      reads this
    {
      Get(status, id)
    }

    /** `get_book(id)`. */
    function GetBook(id: string): Option<BookInfo>
      reads this
    {
      Get(books, id)
    }

    /** `record_duplicate(entry)`: the entry replaces any earlier one for the same book. */
    method RecordDuplicate(entry: DuplicateEntry)
      requires Valid()
      modifies this
      ensures Valid()
      ensures duplicates == old(duplicates)[entry.bookId := entry]
      ensures status == old(status) && books == old(books) && queued == old(queued)
      ensures statusLog == old(statusLog)
    {
      duplicates := duplicates[entry.bookId := entry];
    }

    /** `resolve_duplicate(id)`: removes the entry for `id` and returns it, if there was one. */
    method ResolveDuplicate(id: string) returns (entry: Option<DuplicateEntry>)
      requires Valid()
      modifies this
      ensures Valid()
      ensures entry == Get(old(duplicates), id)
      ensures entry.Some? ==> entry.value.bookId == id
      ensures duplicates == old(duplicates) - {id}
      ensures status == old(status) && books == old(books) && queued == old(queued)
      ensures statusLog == old(statusLog)
    {
      entry := Get(duplicates, id);
      duplicates := duplicates - {id};
    }

    /** `add(id, info, priority)`: the book is recorded and waits in the queue with that priority. */
    method Add(id: string, info: BookInfo, priority: int)
      requires Valid()
      modifies this
      ensures Valid()
      ensures books == old(books)[id := info]
      ensures status == old(status)[id := Queued]
      ensures queued == old(queued)[id := priority]
      ensures duplicates == old(duplicates) && statusLog == old(statusLog)
    {
      books := books[id := info];
      status := status[id := Queued];
      queued := queued[id := priority];
    }

    /** `update_status(id, s)`. */
    method UpdateStatus(id: string, s: QueueStatus)
      requires Valid()
      modifies this
      ensures Valid()
      ensures status == old(status)[id := s]
      ensures statusLog == old(statusLog) + [(id, s)]
      ensures books == old(books) && queued == old(queued) && duplicates == old(duplicates)
    {
      status := status[id := s];
      statusLog := statusLog + [(id, s)];
    }

    /** `update_download_path(id, path)`: sets the path on the stored book, if there is one. */
    method UpdateDownloadPath(id: string, path: string)
      requires Valid()
      modifies this
      ensures Valid()
      ensures books == if id in old(books) then old(books)[id := old(books)[id].(downloadPath := Some(path))]
                       else old(books)
      ensures status == old(status) && queued == old(queued) && duplicates == old(duplicates)
      ensures statusLog == old(statusLog)
    {
      if id in books {
        books := books[id := books[id].(downloadPath := Some(path))];
      }
    }
  }
}
