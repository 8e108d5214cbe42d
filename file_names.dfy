/**
 * The entry name the controller gives a downloaded file:
 * `Path.GetFileName(url).Split('?')[0]`.
 *
 * `Path.GetFileName` returns the text after the last directory separator
 * (the whole string when there is none); only '/' is a separator here, as
 * on Unix. `Split('?')[0]` keeps the text before the first '?' (the whole
 * string when there is none). The separator cut comes first, so a '/'
 * inside the query string still cuts the name.
 */
module FileNames {

  const Separator: char := '/'
  const QueryMark: char := '?'

  /** Path.GetFileName: the text after the last separator. */
  function FileName(path: string): (name: string)
    ensures |name| <= |path|
    decreases |path|
  {
    if path == [] || path[|path| - 1] == Separator then []
    else FileName(path[..|path| - 1]) + [path[|path| - 1]]
  }

  /** FileName is the longest suffix of `path` free of separators. */
  lemma {:induction false} FileNameIsLastSegment(path: string)
    ensures var name := FileName(path);
      name == path[|path| - |name|..] &&
      Separator !in name &&
      (|name| < |path| ==> path[|path| - |name| - 1] == Separator)
    decreases |path|
  {
    if path != [] && path[|path| - 1] != Separator {
      var front, last := path[..|path| - 1], path[|path| - 1];
      FileNameIsLastSegment(front);
      var rest := FileName(front);
      var name := rest + [last];
      assert FileName(path) == name;
      assert front[|front| - |rest|..] + [last] == path[|path| - |name|..];
      assert Separator !in name by {
        assert forall c :: c in name ==> c in rest || c == last;
      }
      if |name| < |path| {
        assert path[|path| - |name| - 1] == front[|front| - |rest| - 1];
      }
    }
  }

  /** Split('?')[0]: the text before the first query mark. */
  function BeforeQuery(s: string): (r: string)
    ensures |r| <= |s|
    decreases |s|
  {
    if s == [] || s[0] == QueryMark then [] else [s[0]] + BeforeQuery(s[1..])
  }

  /** BeforeQuery is the longest prefix of `s` free of query marks. */
  lemma {:induction false} BeforeQueryIsFirstPart(s: string)
    ensures var r := BeforeQuery(s);
      r <= s && QueryMark !in r && (|r| < |s| ==> s[|r|] == QueryMark)
    decreases |s|
  {
    if s != [] && s[0] != QueryMark {
      BeforeQueryIsFirstPart(s[1..]);
    }
  }

  /** The entry name derived from a download URL (Controllers/ZipController.cs:68). */
  function DeriveName(url: string): (name: string)
    ensures Separator !in name && QueryMark !in name
    ensures |name| <= |url|
  {
    var file := FileName(url);
    FileNameIsLastSegment(url);
    BeforeQueryIsFirstPart(file);
    var name := BeforeQuery(file);
    assert forall c :: c in name ==> c in file by {
      forall c | c in name ensures c in file {
        var i :| 0 <= i < |name| && name[i] == c;
        assert file[i] == c;
      }
    }
    name
  }

  /** Where the last segment of `url` starts. */
  function SegmentStart(url: string): (start: nat)
    ensures start <= |url|
  {
    |url| - |FileName(url)|
  }

  /**
   * An independent description of a derived name: `name` starts at
   * `start`, right after a separator or at the beginning; no separator
   * follows `start`; and `name` runs up to the first query mark after
   * `start`, or to the end.
   */
  predicate NamedAt(url: string, start: nat, name: string)
  {
    start + |name| <= |url| &&
    url[start..start + |name|] == name &&
    (start == 0 || url[start - 1] == Separator) &&
    Separator !in url[start..] &&
    QueryMark !in name &&
    (start + |name| == |url| || url[start + |name|] == QueryMark)
  }

  /** Any separator-free suffix preceded by a separator (or the start) is the file name. */
  lemma {:induction false} FileNameUnique(path: string, name: string)
    requires |name| <= |path| && name == path[|path| - |name|..]
    requires Separator !in name
    requires |name| < |path| ==> path[|path| - |name| - 1] == Separator
    ensures name == FileName(path)
  {
    var file := FileName(path);
    FileNameIsLastSegment(path);
    if |name| < |file| {
      SeparatorInLongerSuffix(path, name, file);
    } else if |file| < |name| {
      SeparatorInLongerSuffix(path, file, name);
    }
  }

  /** A longer suffix contains the character just before a shorter one. */
  lemma SeparatorInLongerSuffix(path: string, short: string, long: string)
    requires |short| < |long| <= |path|
    requires short == path[|path| - |short|..] && long == path[|path| - |long|..]
    requires path[|path| - |short| - 1] == Separator
    ensures Separator in long
  {
    assert long[|long| - |short| - 1] == path[|path| - |short| - 1];
  }

  /** Any query-free prefix followed by a query mark (or the end) is the part before the query. */
  lemma {:induction false} BeforeQueryUnique(s: string, r: string)
    requires r <= s
    requires QueryMark !in r
    requires |r| < |s| ==> s[|r|] == QueryMark
    ensures r == BeforeQuery(s)
  {
    BeforeQueryIsFirstPart(s);
  }

  /** The derived name sits where NamedAt says. */
  lemma DeriveNameLocated(url: string)
    ensures NamedAt(url, SegmentStart(url), DeriveName(url))
  {
    var start, file, name := SegmentStart(url), FileName(url), DeriveName(url);
    FileNameIsLastSegment(url);
    BeforeQueryIsFirstPart(file);
    assert url[start..] == file;
    assert url[start..start + |name|] == file[..|name|] == name;
    if start + |name| < |url| {
      assert url[start + |name|] == file[|name|];
    }
  }

  /** NamedAt determines both the start and the name: it is the derived name. */
  lemma DeriveNameDetermined(url: string, start: nat, name: string)
    requires NamedAt(url, start, name)
    ensures start == SegmentStart(url) && name == DeriveName(url)
  {
    var tail := url[start..];
    assert tail == url[|url| - |tail|..];
    FileNameUnique(url, tail);
    assert name == tail[..|name|];
    assert |name| < |tail| ==> tail[|name|] == QueryMark;
    BeforeQueryUnique(tail, name);
  }

  /** A '/' inside the query string still cuts the name: the separator cut comes first. */
  lemma SeparatorCutBeforeQuery()
    ensures DeriveName("http://h/a.txt?x=1/b") == "b"
  {
    DeriveNameDetermined("http://h/a.txt?x=1/b", 19, "b");
  }

  /** The query string is dropped from the last segment. */
  lemma QueryDropped()
    ensures DeriveName("http://h/r.pdf?sig=1") == "r.pdf"
  {
    DeriveNameDetermined("http://h/r.pdf?sig=1", 9, "r.pdf");
  }

  /** A URL that ends in a separator, or whose last segment starts with '?', derives the empty name. */
  lemma EmptyNames()
    ensures DeriveName("http://h/dir/") == ""
    ensures DeriveName("http://h/?id=7") == ""
  {
    DeriveNameDetermined("http://h/dir/", 13, "");
    DeriveNameDetermined("http://h/?id=7", 9, "");
  }
}
