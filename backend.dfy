/** The article store behind the REST API (backend/app.py).  The articles directory is a map
    from file name to file content, the images directory the set of its file names. */
module Backend {
  import opened Common

  // ---------------------------------------------------------------------------------------
  // Titles and file names
  // ---------------------------------------------------------------------------------------

  /** One character of the class `[A-Za-z0-9 ]` of `TITLE_REGEX`. */
  predicate IsTitleChar(c: char) { IsUpper(c) || IsLower(c) || IsDigit(c) || c == ' ' }

  predicate AllTitleChars(s: string) { forall i :: 0 <= i < |s| ==> IsTitleChar(s[i]) }

  /** How far the greedy `[A-Za-z0-9 ]+` reaches from the start of `s`. */
  function TitleRun(s: string): (n: nat)
    ensures n <= |s|
    ensures AllTitleChars(s[..n])
    ensures n < |s| ==> !IsTitleChar(s[n])
    decreases |s|
  {
    if |s| > 0 && IsTitleChar(s[0]) then
      var m := TitleRun(s[1..]);
      assert s[..1 + m] == [s[0]] + s[1..][..m];
      1 + m
    else 0
  }

  /** `TITLE_REGEX.match(t)` for `^[A-Za-z0-9 ]+$`: a non-empty run of title characters,
      then Python's `$`, which holds at the end of the string and also just before a final
      line feed. */
  predicate TitleRegexMatches(t: string)
  {
    var n := TitleRun(t);
    n > 0 && (n == |t| || (n == |t| - 1 && t[n] == '\n'))
  }

  /** A prefix made of title characters is covered by the greedy run. */
  lemma {:induction false} TitleRunCovers(s: string, k: nat)
    requires k <= |s| && AllTitleChars(s[..k])
    ensures TitleRun(s) >= k
    decreases k
  {
    if k > 0 {
      assert IsTitleChar(s[..k][0]);
      assert s[1..][..k - 1] == s[..k][1..];
      TitleRunCovers(s[1..], k - 1);
    }
  }

  /** The regular expression accepts exactly the non-empty strings of title characters,
      optionally followed by one line feed. */
  lemma TitleRegexMatchesIff(t: string)
    ensures TitleRegexMatches(t) <==>
      (|t| > 0 && AllTitleChars(t)) || (|t| > 1 && t[|t| - 1] == '\n' && AllTitleChars(t[..|t| - 1]))
  {
    var n := TitleRun(t);
    if |t| > 0 && AllTitleChars(t) {
      assert t[..|t|] == t;
      TitleRunCovers(t, |t|);
    }
    if |t| > 1 && t[|t| - 1] == '\n' && AllTitleChars(t[..|t| - 1]) {
      TitleRunCovers(t, |t| - 1);
    }
    if TitleRegexMatches(t) && n == |t| - 1 {
      assert t[..|t| - 1] == t[..n];
    }
  }

  /** On a Python-stripped string (as every route passes it) the trailing-newline case of `$`
      cannot arise: the title is valid iff it is non-empty and made of title characters. */
  lemma StrippedTitleMatches(title: string)
    ensures var t := PyStrip(title);
      TitleRegexMatches(t) <==> |t| > 0 && AllTitleChars(t)
  {
    var t := PyStrip(title);
    TitleRegexMatchesIff(t);
    if |t| > 1 { assert IsPySpace('\n'); }
  }

  /** `title_to_filename`: the file name of a valid title, spaces becoming underscores. */
  function TitleToFilename(t: string): (r: Option<string>)
    ensures r.None? <==> !TitleRegexMatches(t)
    ensures r.Some? ==> |r.value| == |t| + 4 && r.value[|t|..] == ".txt"
    ensures r.Some? ==> forall i :: 0 <= i < |t| ==> r.value[i] == (if t[i] == ' ' then '_' else t[i])
  {
    if !TitleRegexMatches(t) then None else Some(ReplaceChar(t, ' ', '_') + ".txt")
  }

  /** `filename_to_title`: drops a `.txt` suffix and turns underscores into spaces. */
  function FilenameToTitle(f: string): (t: string)
    ensures |t| == if EndsWith(f, ".txt") then |f| - 4 else |f|
    ensures forall i :: 0 <= i < |t| ==> t[i] == if f[i] == '_' then ' ' else f[i]
    ensures '_' !in t
  {
    var stem := if EndsWith(f, ".txt") then f[..|f| - 4] else f;
    var t := ReplaceChar(stem, '_', ' ');
    assert forall i :: 0 <= i < |t| ==> t[i] != '_';
    t
  }

  /** Every valid title survives the trip to a file name and back. */
  lemma TitleRoundTrip(t: string)
    requires TitleToFilename(t).Some?
    ensures FilenameToTitle(TitleToFilename(t).value) == t
  {
    var f := TitleToFilename(t).value;
    TitleRegexMatchesIff(t);
    assert EndsWith(f, ".txt");
    var back := FilenameToTitle(f);
    assert |back| == |t|;
    forall i | 0 <= i < |t| ensures back[i] == t[i] {
      assert t[i] != '_' by {
        if AllTitleChars(t) { assert IsTitleChar(t[i]); }
        else if i < |t| - 1 { assert IsTitleChar(t[..|t| - 1][i]); }
      }
      assert f[..|f| - 4][i] == f[i];
    }
  }

  /** Distinct valid titles are stored in distinct files. */
  lemma TitleToFilenameInjective(t1: string, t2: string)
    requires TitleToFilename(t1).Some? && TitleToFilename(t1) == TitleToFilename(t2)
    ensures t1 == t2
  {
    TitleRoundTrip(t1);
    TitleRoundTrip(t2);
  }

  // ---------------------------------------------------------------------------------------
  // Image extensions
  // ---------------------------------------------------------------------------------------

  const ImageExtensions: set<string> := {"png", "jpg", "jpeg", "gif", "webp"}

  /** The text after the last `.` of `f` (`f.rsplit('.', 1)[1]`), when `f` has a `.`. */
  function AfterLastDot(f: string): (r: Option<string>)
    ensures r.None? <==> '.' !in f
    ensures r.Some? ==> |r.value| < |f| && f[|f| - |r.value| - 1] == '.'
    ensures r.Some? ==> r.value == f[|f| - |r.value|..] && '.' !in r.value
    decreases |f|
  {
    if |f| == 0 then None
    else if f[|f| - 1] == '.' then Some([])
    else
      var init := f[..|f| - 1];
      assert f == init + [f[|f| - 1]];
      match AfterLastDot(init)
      case None => None
      case Some(tail) => Some(tail + [f[|f| - 1]])
  }

  /** An extension `allowed_image_file` accepts, compared after lower-casing. */
  predicate IsImageExtension(ext: string)
  {
    Lower(ext) in ImageExtensions
  }

  /** `allowed_image_file`. */
  predicate AllowedImageFile(f: string)
  {
    match AfterLastDot(f)
    case None => false
    case Some(ext) => IsImageExtension(ext)
  }

  lemma LaterDot(f: string, i: nat, d: nat)
    requires i < |f| && d < |f| && f[d] == '.'
    ensures i < d ==> '.' in f[i + 1..]
  {
    if i < d { assert f[i + 1..][d - i - 1] == f[d]; }
  }

  /** Only one `.` of a string is followed by no other `.`. */
  lemma LastDotUnique(f: string, i: nat, d: nat)
    requires i < |f| && d < |f| && f[i] == '.' && f[d] == '.'
    requires '.' !in f[i + 1..] && '.' !in f[d + 1..]
    ensures i == d
  {
    LaterDot(f, i, d);
    LaterDot(f, d, i);
  }

  /** An image name is accepted iff it has a `.` and the text after its last `.`,
      lower-cased, is one of png, jpg, jpeg, gif and webp. */
  lemma AllowedImageFileIff(f: string)
    ensures AllowedImageFile(f) <==>
      exists i :: 0 <= i < |f| && f[i] == '.' && '.' !in f[i + 1..] && IsImageExtension(f[i + 1..])
  {
    if AllowedImageFile(f) {
      var d := |f| - |AfterLastDot(f).value| - 1;
      assert f[d + 1..] == AfterLastDot(f).value;
    }
    if exists i :: 0 <= i < |f| && f[i] == '.' && '.' !in f[i + 1..] && IsImageExtension(f[i + 1..]) {
      var i :| 0 <= i < |f| && f[i] == '.' && '.' !in f[i + 1..] && IsImageExtension(f[i + 1..]);
      AfterLastDotAt(f, i);
    }
  }

  /** The text after the last `.` starts after the one `.` that no other `.` follows. */
  lemma AfterLastDotAt(f: string, i: nat)
    requires i < |f| && f[i] == '.' && '.' !in f[i + 1..]
    ensures AfterLastDot(f) == Some(f[i + 1..])
  {
    assert f[i] in f;
    var ext := AfterLastDot(f).value;
    var d := |f| - |ext| - 1;
    assert f[d + 1..] == ext;
    LastDotUnique(f, i, d);
  }

  // ---------------------------------------------------------------------------------------
  // The articles directory
  // ---------------------------------------------------------------------------------------

  /** The JSON answer of a route: success, or an HTTP status code with the error message. */
  datatype Reply = Success | Failure(status: int, message: string)

  /** `filename if filename.endswith('.txt') else filename + '.txt'`: the file a URL segment names. */
  function TxtKey(f: string): (k: string)
    ensures EndsWith(k, ".txt")
    ensures EndsWith(f, ".txt") ==> k == f
    ensures !EndsWith(f, ".txt") ==> k == f + ".txt"
  {
    if EndsWith(f, ".txt") then f else
      assert (f + ".txt")[|f|..] == ".txt";
      f + ".txt"
  }

  /** Normalising a URL segment to its `.txt` file is idempotent. */
  lemma TxtKeyIdempotent(f: string)
    ensures TxtKey(TxtKey(f)) == TxtKey(f)
  {
  }

  datatype Article = Article(title: string, content: string)

  /** Reading a file in Python's text mode with universal newlines: each `\r\n` and each
      lone `\r` comes back as `\n`. */
  function ReadText(s: string): (r: string)
    ensures '\r' !in r
    ensures |r| <= |s|
    decreases |s|
  {
    if s == [] then []
    else if s[0] == '\r' then
      "\n" + ReadText(if |s| > 1 && s[1] == '\n' then s[2..] else s[1..])
    else [s[0]] + ReadText(s[1..])
  }

  /** Text without a carriage return is read back unchanged. */
  lemma {:induction false} ReadTextPlain(s: string)
    requires '\r' !in s
    ensures ReadText(s) == s
    decreases |s|
  {
    if s != [] {
      assert s == [s[0]] + s[1..];
      ReadTextPlain(s[1..]);
    }
  }

  /** A `\r\n` after carriage-return-free text is read back as one `\n`. */
  lemma {:induction false} ReadTextCrLf(a: string, b: string)
    requires '\r' !in a
    ensures ReadText(a + "\r\n" + b) == a + "\n" + ReadText(b)
    decreases |a|
  {
    if a == [] {
      assert a + "\r\n" + b == "\r\n" + b;
      assert ("\r\n" + b)[2..] == b;
    } else {
      assert (a + "\r\n" + b)[1..] == a[1..] + "\r\n" + b;
      ReadTextCrLf(a[1..], b);
      assert a == [a[0]] + a[1..];
    }
  }

  /** A lone `\r`, not followed by `\n`, after carriage-return-free text is read back as `\n`. */
  lemma {:induction false} ReadTextLoneCr(a: string, b: string)
    requires '\r' !in a
    requires b == [] || b[0] != '\n'
    ensures ReadText(a + "\r" + b) == a + "\n" + ReadText(b)
    decreases |a|
  {
    if a == [] {
      assert a + "\r" + b == "\r" + b;
      assert ("\r" + b)[1..] == b;
    } else {
      assert (a + "\r" + b)[1..] == a[1..] + "\r" + b;
      ReadTextLoneCr(a[1..], b);
      assert a == [a[0]] + a[1..];
    }
  }

  /** Reading what was read gives the same text again. */
  lemma ReadTextIdempotent(s: string)
    ensures ReadText(ReadText(s)) == ReadText(s)
  {
    ReadTextPlain(ReadText(s));
  }

  /** `get_article`: the title and the content, as text mode reads it, of the file the segment
      names, or `None` for the 404 answer. */
  function GetArticle(files: map<string, string>, segment: string): (r: Option<Article>)
    ensures r.None? <==> TxtKey(segment) !in files
    ensures r.Some? ==> r.value.content == ReadText(files[TxtKey(segment)])
    ensures r.Some? ==> r.value.title == FilenameToTitle(TxtKey(segment))
    ensures r.Some? ==> |r.value.title| == |TxtKey(segment)| - 4 && '_' !in r.value.title
  {
    var key := TxtKey(segment);
    if key in files then Some(Article(FilenameToTitle(key), ReadText(files[key]))) else None
  }

  /** Reading an article back by its file name gives the title it was created with and its content
      with line ends translated; content without a carriage return comes back unchanged. */
  lemma GetCreated(files: map<string, string>, title: string, content: string)
    requires TitleToFilename(title).Some?
    ensures var key := TitleToFilename(title).value;
      GetArticle(files[key := content], key) == Some(Article(title, ReadText(content)))
    ensures var key := TitleToFilename(title).value;
      '\r' !in content ==> GetArticle(files[key := content], key) == Some(Article(title, content))
  {
    TitleRoundTrip(title);
    if '\r' !in content {
      ReadTextPlain(content);
    }
  }

  class ArticleDirectory {
    var files: map<string, string>

    constructor (initial: map<string, string>)
      ensures files == initial
    {
      files := initial;
    }

    /** `create_article`: writes a new file for the stripped title. */
    method CreateArticle(title: string, content: string) returns (reply: Reply)
      modifies this
      ensures !TitleRegexMatches(PyStrip(title)) ==>
        reply == Failure(400, "Invalid title") && files == old(files)
      ensures TitleRegexMatches(PyStrip(title)) && TitleToFilename(PyStrip(title)).value in old(files) ==>
        reply == Failure(409, "Article already exists") && files == old(files)
      ensures TitleRegexMatches(PyStrip(title)) && TitleToFilename(PyStrip(title)).value !in old(files) ==>
        reply == Success && files == old(files)[TitleToFilename(PyStrip(title)).value := content]
    {
      var t := PyStrip(title);
      if !TitleRegexMatches(t) {
        return Failure(400, "Invalid title");
      }
      var key := TitleToFilename(t).value;
      if key in files {
        return Failure(409, "Article already exists");
      }
      files := files[key := content];
      reply := Success;
    }

    /** `update_article`: writes the content under the new title's file and removes the old
        file when the name changed. */
    method UpdateArticle(segment: string, title: string, content: string) returns (reply: Reply)
      modifies this
      ensures !TitleRegexMatches(PyStrip(title)) ==>
        reply == Failure(400, "Invalid title") && files == old(files)
      ensures TitleRegexMatches(PyStrip(title)) && TxtKey(segment) !in old(files) ==>
        reply == Failure(404, "Article not found") && files == old(files)
      ensures TitleRegexMatches(PyStrip(title)) && TxtKey(segment) in old(files) ==>
        var newKey := TitleToFilename(PyStrip(title)).value;
        if TxtKey(segment) != newKey && newKey in old(files) then
          reply == Failure(409, "Target article already exists") && files == old(files)
        else
          reply == Success &&
          files == (if TxtKey(segment) == newKey then old(files) else old(files) - {TxtKey(segment)})[newKey := content]
      ensures reply == Success ==> var newKey := TitleToFilename(PyStrip(title)).value;
        && newKey in files && files[newKey] == content
        && (TxtKey(segment) in files <==> TxtKey(segment) == newKey)
        && forall k :: k != newKey && k != TxtKey(segment) ==>
             (k in files <==> k in old(files)) && (k in files ==> files[k] == old(files)[k])
    {
      var t := PyStrip(title);
      if !TitleRegexMatches(t) {
        return Failure(400, "Invalid title");
      }
      var newKey := TitleToFilename(t).value;
      var oldKey := TxtKey(segment);
      if oldKey !in files {
        return Failure(404, "Article not found");
      }
      if oldKey != newKey && newKey in files {
        return Failure(409, "Target article already exists");
      }
      files := files[newKey := content];
      if oldKey != newKey {
        files := files - {oldKey};
      }
      reply := Success;
    }

    /** `delete_article`. */
    method DeleteArticle(segment: string) returns (reply: Reply)
      modifies this
      ensures TxtKey(segment) !in old(files) ==>
        reply == Failure(404, "Article not found") && files == old(files)
      ensures TxtKey(segment) in old(files) ==>
        reply == Success && files == old(files) - {TxtKey(segment)}
    {
      var key := TxtKey(segment);
      if key !in files {
        return Failure(404, "Article not found");
      }
      files := files - {key};
      reply := Success;
    }
  }

  // ---------------------------------------------------------------------------------------
  // Listing
  // ---------------------------------------------------------------------------------------

  /** What `os.listdir` may return for `files`: every file name exactly once, in an order
      the file system chooses. */
  predicate IsListingOf(listing: seq<string>, files: map<string, string>)
  {
    && (forall k :: k in files ==> k in listing)
    && (forall i :: 0 <= i < |listing| ==> listing[i] in files)
    && Distinct(listing)
  }

  /** `[f for f in listing if f.endswith('.txt')]`. */
  function TxtFiles(listing: seq<string>): (r: seq<string>)
    ensures forall f :: f in r <==> f in listing && EndsWith(f, ".txt")
    ensures |r| <= |listing|
    decreases |listing|
  {
    if |listing| == 0 then []
    else
      var rest := TxtFiles(listing[1..]);
      assert forall f :: f in listing <==> f == listing[0] || f in listing[1..];
      if EndsWith(listing[0], ".txt") then [listing[0]] + rest else rest
  }

  function TitlesOf(names: seq<string>): (r: seq<string>)
    ensures |r| == |names|
    ensures forall i :: 0 <= i < |names| ==> r[i] == FilenameToTitle(names[i])
  {
    seq(|names|, i requires 0 <= i < |names| => FilenameToTitle(names[i]))
  }

  /** Python's `a <= b` on strings: lexicographic order of code points. */
  predicate LexLe(a: string, b: string)
    decreases |a|
  {
    |a| == 0 || (|b| > 0 && (a[0] < b[0] || (a[0] == b[0] && LexLe(a[1..], b[1..]))))
  }

  lemma {:induction false} LexLeTotal(a: string, b: string)
    ensures LexLe(a, b) || LexLe(b, a)
    decreases |a|
  {
    if |a| > 0 && |b| > 0 && a[0] == b[0] {
      LexLeTotal(a[1..], b[1..]);
    }
  }

  lemma {:induction false} LexLeTransitive(a: string, b: string, c: string)
    requires LexLe(a, b) && LexLe(b, c)
    ensures LexLe(a, c)
    decreases |a|
  {
    if |a| > 0 && a[0] == b[0] && b[0] == c[0] {
      LexLeTransitive(a[1..], b[1..], c[1..]);
    }
  }

  /** Ordered as `sort(key=lambda x: x.lower())` leaves a list. */
  predicate SortedByLower(s: seq<string>)
  {
    forall i, j :: 0 <= i < j < |s| ==> LexLe(Lower(s[i]), Lower(s[j]))
  }

  /** Every element of `s` has a key no smaller than that of `h`. */
  predicate AllAbove(h: string, s: seq<string>)
  {
    forall j :: 0 <= j < |s| ==> LexLe(Lower(h), Lower(s[j]))
  }

  lemma ConsSorted(h: string, t: seq<string>)
    requires SortedByLower(t) && AllAbove(h, t)
    ensures SortedByLower([h] + t)
  {
    var r := [h] + t;
    forall i, j | 0 <= i < j < |r| ensures LexLe(Lower(r[i]), Lower(r[j])) {
      assert r[j] == t[j - 1];
      if i > 0 {
        assert r[i] == t[i - 1];
      }
    }
  }

  lemma HeadBelowSorted(x: string, s: seq<string>)
    requires SortedByLower(s) && (|s| == 0 || LexLe(Lower(x), Lower(s[0])))
    ensures AllAbove(x, s)
  {
    forall j | 0 < j < |s| ensures LexLe(Lower(x), Lower(s[j])) {
      LexLeTransitive(Lower(x), Lower(s[0]), Lower(s[j]));
    }
  }

  /** After inserting `x` into the tail of `s`, the head of `s` still comes first. */
  lemma TailAbove(x: string, s: seq<string>, tail: seq<string>)
    requires SortedByLower(s) && |s| > 0 && !LexLe(Lower(x), Lower(s[0]))
    requires multiset(tail) == multiset(s[1..]) + multiset{x}
    ensures AllAbove(s[0], tail)
  {
    LexLeTotal(Lower(x), Lower(s[0]));
    forall j | 0 <= j < |tail| ensures LexLe(Lower(s[0]), Lower(tail[j])) {
      var v := tail[j];
      assert v in multiset(tail);
      if v != x {
        assert v in multiset(s[1..]);
        var k :| 0 <= k < |s[1..]| && s[1..][k] == v;
        assert s[k + 1] == v;
      }
    }
  }

  /** Inserts `x` before the first element whose key is not smaller, keeping equal keys in
      their original order. */
  function InsertByLower(x: string, s: seq<string>): (r: seq<string>)
    requires SortedByLower(s)
    ensures SortedByLower(r)
    ensures multiset(r) == multiset(s) + multiset{x}
    decreases |s|
  {
    if |s| == 0 || LexLe(Lower(x), Lower(s[0])) then
      HeadBelowSorted(x, s);
      ConsSorted(x, s);
      [x] + s
    else
      var tail := InsertByLower(x, s[1..]);
      TailAbove(x, s, tail);
      ConsSorted(s[0], tail);
      assert s == [s[0]] + s[1..];
      [s[0]] + tail
  }

  /** A stable insertion sort of titles by their lower-cased form, the effect of
      `articles.sort(key=lambda x: x.lower())`. */
  function SortByLower(s: seq<string>): (r: seq<string>)
    ensures SortedByLower(r)
    ensures multiset(r) == multiset(s)
    decreases |s|
  {
    if |s| == 0 then []
    else
      assert s == [s[0]] + s[1..];
      InsertByLower(s[0], SortByLower(s[1..]))
  }

  /** `list_articles`: the titles of the `.txt` files, sorted case-insensitively. */
  function ListArticles(files: map<string, string>, listing: seq<string>): (r: seq<string>)
    requires IsListingOf(listing, files)
    ensures SortedByLower(r)
    ensures multiset(r) == multiset(TitlesOf(TxtFiles(listing)))
  {
    SortByLower(TitlesOf(TxtFiles(listing)))
  }

  /** The `.txt` files of the directory. */
  function TxtKeys(files: map<string, string>): set<string>
  {
    set k | k in files && EndsWith(k, ".txt")
  }

  predicate Distinct(s: seq<string>)
  {
    forall i, j :: 0 <= i < j < |s| ==> s[i] != s[j]
  }

  lemma DistinctTail(s: seq<string>)
    requires Distinct(s) && |s| > 0
    ensures Distinct(s[1..]) && s[0] !in s[1..]
  {
    var tail := s[1..];
    forall i, j | 0 <= i < j < |tail| ensures tail[i] != tail[j] {
      assert tail[i] == s[i + 1] && tail[j] == s[j + 1];
    }
    forall k | 0 <= k < |tail| ensures tail[k] != s[0] {
      assert tail[k] == s[k + 1];
    }
  }

  lemma {:induction false} TxtFilesDistinct(listing: seq<string>)
    requires Distinct(listing)
    ensures Distinct(TxtFiles(listing))
    decreases |listing|
  {
    if |listing| > 0 {
      DistinctTail(listing);
      TxtFilesDistinct(listing[1..]);
      var rest := TxtFiles(listing[1..]);
      assert listing[0] !in rest;
      if EndsWith(listing[0], ".txt") {
        var r := [listing[0]] + rest;
        forall i, j | 0 <= i < j < |r| ensures r[i] != r[j] {
          if i == 0 { assert r[j] == rest[j - 1]; assert rest[j - 1] in rest; }
          else { assert r[i] == rest[i - 1] && r[j] == rest[j - 1]; }
        }
      }
    }
  }

  /** A sequence without repetitions has as many elements as the set of its elements. */
  lemma {:induction false} DistinctCard(s: seq<string>)
    requires Distinct(s)
    ensures |set x | x in s| == |s|
    decreases |s|
  {
    if |s| > 0 {
      DistinctTail(s);
      DistinctCard(s[1..]);
      var tail := set x | x in s[1..];
      assert (set x | x in s) == tail + {s[0]};
    }
  }

  lemma SameElements(a: seq<string>, b: seq<string>)
    requires multiset(a) == multiset(b)
    ensures |a| == |b|
    ensures forall t :: t in a <==> t in b
  {
    assert |multiset(a)| == |multiset(b)|;
    forall t ensures t in a <==> t in b {
      assert t in a <==> t in multiset(a);
      assert t in b <==> t in multiset(b);
    }
  }

  /** The `.txt` entries of a listing are the `.txt` keys of the directory. */
  lemma TxtFilesOfListing(files: map<string, string>, listing: seq<string>)
    requires IsListingOf(listing, files)
    ensures (set x | x in TxtFiles(listing)) == TxtKeys(files)
  {
    var txt := TxtFiles(listing);
    forall x | x in txt ensures x in TxtKeys(files) {
      var i :| 0 <= i < |listing| && listing[i] == x;
    }
  }

  /** The listing holds one title per `.txt` file: files without the suffix are ignored. */
  lemma ListArticlesLength(files: map<string, string>, listing: seq<string>)
    requires IsListingOf(listing, files)
    ensures |ListArticles(files, listing)| == |TxtKeys(files)|
  {
    var txt := TxtFiles(listing);
    SameElements(ListArticles(files, listing), TitlesOf(txt));
    TxtFilesDistinct(listing);
    DistinctCard(txt);
    TxtFilesOfListing(files, listing);
  }

  lemma TitlesOfMember(names: seq<string>, t: string)
    ensures t in TitlesOf(names) <==> exists k :: k in names && FilenameToTitle(k) == t
  {
    var titles := TitlesOf(names);
    if t in titles {
      var i :| 0 <= i < |titles| && titles[i] == t;
      assert names[i] in names;
    }
    if exists k :: k in names && FilenameToTitle(k) == t {
      var k :| k in names && FilenameToTitle(k) == t;
      var i :| 0 <= i < |names| && names[i] == k;
      assert titles[i] == t;
    }
  }

  /** A title is listed iff some `.txt` file of the directory carries it. */
  lemma ListArticlesMembers(files: map<string, string>, listing: seq<string>, t: string)
    requires IsListingOf(listing, files)
    ensures t in ListArticles(files, listing) <==>
      exists k :: k in files && EndsWith(k, ".txt") && FilenameToTitle(k) == t
  {
    var txt := TxtFiles(listing);
    SameElements(ListArticles(files, listing), TitlesOf(txt));
    TitlesOfMember(txt, t);
    assert forall k :: k in txt <==> k in files && EndsWith(k, ".txt") by {
      forall k | k in txt ensures k in files {
        var i :| 0 <= i < |listing| && listing[i] == k;
      }
    }
  }

  // ---------------------------------------------------------------------------------------
  // Images
  // ---------------------------------------------------------------------------------------

  /** `os.path.splitext` for a name without `/`: the extension starts at the last `.`,
      provided some character before that `.` is not a `.` (so `.bashrc` has none). */
  function SplitExt(name: string): (r: (string, string))
    ensures r.0 + r.1 == name
    ensures r.1 == [] || (r.1[0] == '.' && '.' !in r.1[1..])
    ensures r.1 != [] <==>
      (AfterLastDot(name).Some? && exists i :: 0 <= i < |name| - |AfterLastDot(name).value| - 1 && name[i] != '.')
    ensures r.1 != [] ==> r.1[1..] == AfterLastDot(name).value
  {
    match AfterLastDot(name)
    case None => (name, [])
    case Some(tail) =>
      var d := |name| - |tail| - 1;
      if exists i :: 0 <= i < d && name[i] != '.' then
        assert name[d..][1..] == tail;
        (name[..d], name[d..])
      else (name, [])
  }

  /** The name tried on the `counter`-th round of the loop in `upload_image`. */
  function Candidate(base: string, ext: string, counter: nat): string
  {
    base + "_" + NatToDecimal(counter) + ext
  }

  /** Different rounds try different names. */
  lemma CandidateInjective(base: string, ext: string, j: nat, k: nat)
    requires Candidate(base, ext, j) == Candidate(base, ext, k)
    ensures j == k
  {
    var a, b := Candidate(base, ext, j), Candidate(base, ext, k);
    var dj, dk := NatToDecimal(j), NatToDecimal(k);
    assert |dj| == |dk|;
    assert a[|base| + 1..|base| + 1 + |dj|] == dj;
    assert b[|base| + 1..|base| + 1 + |dk|] == dk;
    DecimalInjective(j, k);
  }

  ghost function Tried(base: string, ext: string, counter: nat): set<string>
  {
    set j | 1 <= j < counter :: Candidate(base, ext, j)
  }

  /** Trying one more taken name leaves fewer taken names untried. */
  lemma TriedGrows(existing: set<string>, base: string, ext: string, counter: nat)
    requires counter >= 1 && Candidate(base, ext, counter) in existing
    ensures |existing - Tried(base, ext, counter + 1)| < |existing - Tried(base, ext, counter)|
  {
    var before, after := Tried(base, ext, counter), Tried(base, ext, counter + 1);
    var c := Candidate(base, ext, counter);
    assert after == before + {c};
    assert c !in before by {
      forall j | 1 <= j < counter ensures Candidate(base, ext, j) != c {
        if Candidate(base, ext, j) == c { CandidateInjective(base, ext, j, counter); }
      }
    }
    assert existing - after == (existing - before) - {c};
  }

  /** The loop of `upload_image` that avoids overwriting: the secured name itself when it is
      free, otherwise `base_k + ext` for the smallest `k >= 1` that is free. */
  method FreeImageName(existing: set<string>, name: string) returns (chosen: string)
    ensures chosen !in existing
    ensures name !in existing ==> chosen == name
    ensures name in existing ==>
      exists k :: k >= 1 && chosen == Candidate(SplitExt(name).0, SplitExt(name).1, k) &&
        (forall j :: 1 <= j < k ==> Candidate(SplitExt(name).0, SplitExt(name).1, j) in existing)
  {
    var base, ext := SplitExt(name).0, SplitExt(name).1;
    if name !in existing {
      return name;
    }
    // The first round of the loop: `name` was taken.
    var counter: nat := 1;
    chosen := Candidate(base, ext, counter);
    while chosen in existing
      invariant counter >= 1 && chosen == Candidate(base, ext, counter)
      invariant forall j :: 1 <= j < counter ==> Candidate(base, ext, j) in existing
      decreases |existing - Tried(base, ext, counter)|
    {
      TriedGrows(existing, base, ext, counter);
      counter := counter + 1;
      chosen := Candidate(base, ext, counter);
    }
    assert base == SplitExt(name).0 && ext == SplitExt(name).1;
  }

  datatype UploadReply = Uploaded(url: string) | Rejected(status: int, message: string)

  class ImageDirectory {
    var files: set<string>

    constructor (initial: set<string>)
      ensures files == initial
    {
      files := initial;
    }

    /** `upload_image`.  `hasFile` says whether the form has a `file` part, `clientName` is
        the name the browser sent and `securedName` what `secure_filename` made of it. */
    method UploadImage(hasFile: bool, clientName: string, securedName: string) returns (reply: UploadReply)
      modifies this
      ensures !hasFile ==> reply == Rejected(400, "No file part") && files == old(files)
      ensures hasFile && clientName == "" ==> reply == Rejected(400, "No selected file") && files == old(files)
      ensures hasFile && clientName != "" && !AllowedImageFile(clientName) ==>
        reply == Rejected(400, "Invalid file type") && files == old(files)
      ensures hasFile && clientName != "" && AllowedImageFile(clientName) ==>
        && reply.Uploaded? && StartsWith(reply.url, "/images/")
        && var saved := reply.url[8..];
           saved !in old(files) && files == old(files) + {saved}
           && (securedName !in old(files) ==> saved == securedName)
           && (securedName in old(files) ==>
                 exists k :: k >= 1 && saved == Candidate(SplitExt(securedName).0, SplitExt(securedName).1, k)
                   && forall j :: 1 <= j < k ==> Candidate(SplitExt(securedName).0, SplitExt(securedName).1, j) in old(files))
    {
      if !hasFile {
        return Rejected(400, "No file part");
      }
      if clientName == "" {
        return Rejected(400, "No selected file");
      }
      if !AllowedImageFile(clientName) {
        return Rejected(400, "Invalid file type");
      }
      var name := FreeImageName(files, securedName);
      files := files + {name};
      reply := Uploaded("/images/" + name);
      assert reply.url[8..] == name;
    }
  }
}
