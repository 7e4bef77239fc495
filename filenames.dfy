/**
 * File names in the ingest directory: `_sanitize_filename` and
 * `_build_ingest_paths` (backend.py). MD5 is an uninterpreted function from a
 * book id to its hex digest, passed in by the caller.
 */
module Filenames {
  import opened Common
  import opened Text
  import opened Models

  /** The characters `_sanitize_filename` keeps: alphanumerics, space, '.' and '_'. */
  predicate Keep(c: char) {
    IsAlnum(c) || c == ' ' || c == '.' || c == '_'
  }

  /** `a` is `b` with some characters deleted, the rest in their original order. */
  predicate IsSubsequence(a: string, b: string)
    decreases |b|
  {
    if |a| == 0 then true
    else if |b| == 0 then false
    else if a[|a| - 1] == b[|b| - 1] then IsSubsequence(a[..|a| - 1], b[..|b| - 1])
    else IsSubsequence(a, b[..|b| - 1])
  }

  /** The generator `c for c in filename if c.isalnum() or c in keepcharacters`. */
  function KeepOnly(s: string): (r: string)
    ensures forall i :: 0 <= i < |r| ==> Keep(r[i])
  {
    if |s| == 0 then [] else KeepOnly(s[..|s| - 1]) + (if Keep(s[|s| - 1]) then [s[|s| - 1]] else [])
  }

  /** Every kept character survives as often as it occurs; nothing else survives. */
  lemma {:induction false} KeepOnlyCounts(s: string, c: char)
    ensures multiset(KeepOnly(s))[c] == if Keep(c) then multiset(s)[c] else 0
  {
    if |s| > 0 {
      var init := s[..|s| - 1];
      KeepOnlyCounts(init, c);
      assert s == init + [s[|s| - 1]];
    }
  }

  /** The kept characters stay in their original order. */
  lemma {:induction false} KeepOnlyInOrder(s: string)
    ensures IsSubsequence(KeepOnly(s), s)
  {
    if |s| > 0 {
      var init, c := s[..|s| - 1], s[|s| - 1];
      var k := KeepOnly(init);
      KeepOnlyInOrder(init);
      if Keep(c) {
        assert (k + [c])[..|k + [c]| - 1] == k;
      } else {
        assert KeepOnly(s) == k;
        assert |k| > 0 ==> Keep(k[|k| - 1]);
      }
    }
  }

  /**
   * `_sanitize_filename`: the kept characters in their original order, with
   * trailing whitespace removed. Spaces are not replaced by underscores.
   */
  function Sanitize(s: string): (r: string)
    ensures forall i :: 0 <= i < |r| ==> Keep(r[i])
    ensures r <= KeepOnly(s)
    ensures forall i :: |r| <= i < |KeepOnly(s)| ==> KeepOnly(s)[i] == ' '
    ensures r == [] || r[|r| - 1] != ' '
  {
    TrimEnd(KeepOnly(s), IsSpace)
  }

  lemma {:induction false} KeepOnlyOfKept(s: string)
    requires forall i :: 0 <= i < |s| ==> Keep(s[i])
    ensures KeepOnly(s) == s
  {
    if |s| > 0 {
      KeepOnlyOfKept(s[..|s| - 1]);
      assert s == s[..|s| - 1] + [s[|s| - 1]];
    }
  }

  /** Sanitising a sanitised name changes nothing. */
  lemma SanitizeIdempotent(s: string)
    ensures Sanitize(Sanitize(s)) == Sanitize(s)
  {
    var r := Sanitize(s);
    KeepOnlyOfKept(r);
  }

  /** The result keeps every character `Keep` accepts, except for trailing spaces. */
  lemma SanitizeKeepsEveryKeptCharacter(s: string, c: char)
    requires Keep(c) && c != ' '
    ensures multiset(Sanitize(s))[c] == multiset(s)[c]
  {
    var k := KeepOnly(s);
    var r := Sanitize(s);
    KeepOnlyCounts(s, c);
    var tail := k[|r|..];
    assert k == r + tail;
    assert multiset(k) == multiset(r) + multiset(tail);
    assert c !in multiset(tail) by {
      assert forall i :: 0 <= i < |tail| ==> tail[i] == ' ';
      assert c !in tail;
    }
  }

  /** `"book"` when the title sanitises to nothing. */
  function TitleStem(title: string): (t: string)
    ensures |t| > 0
    ensures forall i :: 0 <= i < |t| ==> Keep(t[i])
    ensures Sanitize(title) != [] ==> t == Sanitize(title)
    ensures Sanitize(title) == [] ==> t == "book"
  {
    var s := Sanitize(title);
    if s == [] then "book" else s
  }

  /** Python's `s[:n]`. */
  function Take(s: string, n: nat): (r: string)
    ensures r <= s && |r| == if |s| < n then |s| else n
  {
    if |s| < n then s else s[..n]
  }

  /** A path `dir / name`; `str()` of it joins the two with a slash. */
  datatype Path = Path(dir: string, name: string)

  function PathString(p: Path): string {
    p.dir + "/" + p.name
  }

  /** `"." + format` when the book has a non-empty format, else nothing. */
  function Extension(format: Option<string>): (e: string)
    ensures e == [] <==> format.None? || format.value == []
    ensures e != [] ==> e == "." + format.value
  {
    if format.Some? && format.value != [] then "." + format.value else ""
  }

  datatype IngestPaths = IngestPaths(final: Path, intermediate: Path, stem: string)

  /**
   * `_build_ingest_paths`: where a finished download of `book` lands in the
   * ingest directory, and where it sits while being moved there.
   */
  function BuildIngestPaths(book: BookInfo, useBookTitle: bool, ingestDir: string,
                            md5Hex: string -> string): (p: IngestPaths)
    ensures p.final.dir == ingestDir && p.intermediate.dir == ingestDir
    ensures p.final.name == p.stem + Extension(book.format)
    ensures p.intermediate.name == book.id + ".crdownload"
    ensures !useBookTitle ==> p.stem == book.id
    ensures useBookTitle ==> p.stem == TitleStem(book.title) + "-" + Take(md5Hex(book.id), 8)
  {
    var stem := if useBookTitle then TitleStem(book.title) + "-" + Take(md5Hex(book.id), 8)
                else book.id;
    IngestPaths(Path(ingestDir, stem + Extension(book.format)),
                Path(ingestDir, book.id + ".crdownload"), stem)
  }

  /**
   * With titles in file names, the stem splits back into the sanitised title
   * and the 8-character digest prefix, whatever the title contains.
   */
  lemma {:induction false} TitledStemSplits(book: BookInfo, ingestDir: string, md5Hex: string -> string)
    requires |md5Hex(book.id)| >= 8
    ensures var stem := BuildIngestPaths(book, true, ingestDir, md5Hex).stem;
      && |stem| >= 10
      && stem[|stem| - 9] == '-'
      && stem[|stem| - 8..] == md5Hex(book.id)[..8]
      && stem[..|stem| - 9] == TitleStem(book.title)
      && forall i :: 0 <= i < |stem| - 9 ==> Keep(stem[i])
  {
    var t := TitleStem(book.title);
    var stem := BuildIngestPaths(book, true, ingestDir, md5Hex).stem;
    assert stem == t + "-" + md5Hex(book.id)[..8];
    assert stem[..|stem| - 9] == t;
    assert stem[|stem| - 8..] == md5Hex(book.id)[..8];
  }

  /** `sanitized_stem` of a file in `list_duplicate_groups`: lower-cased, the raw stem if nothing survives. */
  function GroupingStem(stem: string): (r: string)
    ensures Sanitize(stem) != [] ==>
      && |r| == |Sanitize(stem)|
      && forall i :: 0 <= i < |r| ==> r[i] == LowerChar(Sanitize(stem)[i]) && Keep(r[i])
    ensures Sanitize(stem) == [] ==> r == Lower(stem)
    ensures stem != [] ==> r != []
  {
    var s := Lower(Sanitize(stem));
    if s == [] then Lower(stem) else s
  }
}
