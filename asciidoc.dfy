/** The blog's content loader: every `.adoc` file found under the base
    directory is read, its metadata checked and normalised, and one record per
    file is upserted into the content store under the file's relative path.
    A failure in one file is logged and never stops the others. */
module Asciidoc {
  import opened Wrappers
  import opened Strings

  /** A document title as asciidoctor partitions it: main part and optional subtitle. */
  datatype Title = Title(main: string, subtitle: Option<string>)

  /** What asciidoctor yields for one file: the document title (absent when the
      document has none), the attribute map, and the outcome of converting the
      body to HTML (the markup, or the message of the exception it threw). */
  datatype Parsed = Parsed(title: Option<Title>, attributes: map<string, string>, html: Result<string, string>)

  /** One discovered file: its absolute path (used in messages), its path relative
      to the base directory, and what reading and loading it produced (the parsed
      document, or the message of the exception thrown while reading or loading). */
  datatype SourceFile = SourceFile(filePath: string, relativePath: string, content: Result<Parsed, string>)

  /** The data stored for one blog post. Dates are kept as the attribute strings
      they are built from. */
  datatype Record = Record(
    slug: string,
    title: string,
    date: string,
    publishedAt: string,
    updatedAt: string,
    author: string,
    description: string,
    tags: seq<string>,
    lang: string,
    restricted: bool,
    bodyHtml: string)

  /** Why a file produced no record. */
  datatype LoadError =
    | ReadOrParseFailed(message: string)
    | NoTitle
    | MissingAttributes(names: seq<string>)
    | ConvertFailed(message: string)

  datatype LogEntry = Info(message: string) | Error(message: string)

  /** The attributes every post must set, in the order they are checked. */
  const RequiredAttributes: seq<string> := ["description", "revdate", "published_at", "author"]

  /** Position of a required attribute in the checking order (4 for any other name). */
  function Rank(name: string): nat
  {
    if name == "description" then 0
    else if name == "revdate" then 1
    else if name == "published_at" then 2
    else if name == "author" then 3
    else 4
  }

  /** `doc.getAttribute(name)` is truthy: present and not the empty string. */
  predicate Truthy(attributes: map<string, string>, name: string)
  {
    name in attributes && attributes[name] != ""
  }

  /** The names pushed onto `missingAttributes`: exactly the required attributes
      that are absent or empty, each once, in checking order. */
  function MissingNames(attributes: map<string, string>): (r: seq<string>)
    ensures forall n :: n in r <==> n in RequiredAttributes && !Truthy(attributes, n)
    ensures r == [] <==> forall n :: n in RequiredAttributes ==> Truthy(attributes, n)
  {
    (if Truthy(attributes, "description") then [] else ["description"])
    + (if Truthy(attributes, "revdate") then [] else ["revdate"])
    + (if Truthy(attributes, "published_at") then [] else ["published_at"])
    + (if Truthy(attributes, "author") then [] else ["author"])
  }

  /** The missing names come in checking order, so none is listed twice. */
  lemma MissingNamesInOrder(attributes: map<string, string>)
    ensures var r := MissingNames(attributes);
      forall i, j :: 0 <= i < j < |r| ==> Rank(r[i]) < Rank(r[j])
  {
  }

  /** The title string: `main: subtitle` when there is a subtitle, else `main`. */
  function ComposeTitle(t: Title): string
  {
    match t.subtitle
    case Some(sub) => t.main + ": " + sub
    case None => t.main
  }

  /** Each piece of a comma split, trimmed. */
  function TrimAll(pieces: seq<string>): (r: seq<string>)
    ensures |r| == |pieces|
    ensures forall i :: 0 <= i < |r| ==> r[i] == Trim(pieces[i])
  {
    seq(|pieces|, i requires 0 <= i < |pieces| => Trim(pieces[i]))
  }

  /** The `tags` attribute split on commas and trimmed; `[]` when it is absent or empty. */
  function Tags(attributes: map<string, string>): seq<string>
  {
    if Truthy(attributes, "tags") then TrimAll(Split(attributes["tags"], ',')) else []
  }

  /** `restricted` is the string comparison `getAttribute("restricted") === "true"`. */
  function Restricted(attributes: map<string, string>): bool
  {
    "restricted" in attributes && attributes["restricted"] == "true"
  }

  /** The locale: the first segment of the relative path. */
  function Lang(relativePath: string): string
  {
    Split(relativePath, '/')[0]
  }

  /** The slug: the segments after the first, joined with `/`, with one trailing
      `.adoc` removed. */
  function Slug(relativePath: string): string
  {
    StripSuffix(Join(Split(relativePath, '/')[1..], "/"), ".adoc")
  }

  /** The single-file pipeline: the record the file produces, or why it produces none.
      The checks run in the order of `load`'s `try` block: reading and loading, the title, the
      required attributes, then the HTML conversion. */
  function IngestOne(f: SourceFile): (r: Result<Record, LoadError>)
    ensures r.Success? <==>
      && f.content.Success?
      && f.content.value.title.Some?
      && (forall n :: n in RequiredAttributes ==> Truthy(f.content.value.attributes, n))
      && f.content.value.html.Success?
    ensures r.Failure? && r.error.MissingAttributes? ==>
      f.content.Success? && r.error.names != [] && r.error.names == MissingNames(f.content.value.attributes)
    ensures f.content.Failure? ==> r == Failure(ReadOrParseFailed(f.content.error))
    ensures f.content.Success? && f.content.value.title.None? ==> r == Failure(NoTitle)
    ensures f.content.Success? && f.content.value.title.Some? && MissingNames(f.content.value.attributes) != [] ==>
      r == Failure(MissingAttributes(MissingNames(f.content.value.attributes)))
    ensures (&& f.content.Success? && f.content.value.title.Some?
             && MissingNames(f.content.value.attributes) == [] && f.content.value.html.Failure?) ==>
      r == Failure(ConvertFailed(f.content.value.html.error))
  {
    match f.content
    case Failure(message) => Failure(ReadOrParseFailed(message))
    case Success(d) =>
      if d.title.None? then Failure(NoTitle)
      else
        var missing := MissingNames(d.attributes);
        if missing != [] then Failure(MissingAttributes(missing))
        else
          match d.html
          case Failure(message) => Failure(ConvertFailed(message))
          case Success(html) =>
            var a := d.attributes;
            Success(Record(
              slug := Slug(f.relativePath),
              title := ComposeTitle(d.title.value),
              date := a["published_at"],
              publishedAt := a["published_at"],
              updatedAt := a["revdate"],
              author := a["author"],
              description := a["description"],
              tags := Tags(a),
              lang := Lang(f.relativePath),
              restricted := Restricted(a),
              bodyHtml := html))
  }

  /** The text after `Failed to load <filePath>: ` in the error log. */
  function ErrorText(filePath: string, e: LoadError): string
  {
    match e
    case ReadOrParseFailed(message) => message
    case NoTitle => "Cannot read properties of undefined (reading 'hasSubtitle')"
    case MissingAttributes(names) => "Missing required attributes in " + filePath + ": " + Join(names, ", ")
    case ConvertFailed(message) => message
  }

  function FailureMessage(filePath: string, e: LoadError): string
  {
    "Failed to load " + filePath + ": " + ErrorText(filePath, e)
  }

  /** The store after one file: its record upserted under its relative path, or
      the store unchanged when the file fails. */
  function Step(store: map<string, Record>, f: SourceFile): map<string, Record>
  {
    var r := IngestOne(f);
    if r.Success? then store[f.relativePath := r.value] else store
  }

  /** The store after the files, taken one after another. */
  function LoadAll(store: map<string, Record>, files: seq<SourceFile>): map<string, Record>
    decreases |files|
  {
    if files == [] then store
    else Step(LoadAll(store, files[..|files| - 1]), files[|files| - 1])
  }

  /** The error log lines the files produce, in order. */
  function FailureLog(files: seq<SourceFile>): seq<LogEntry>
    decreases |files|
  {
    if files == [] then []
    else
      var f := files[|files| - 1];
      FailureLog(files[..|files| - 1])
      + match IngestOne(f)
        case Failure(e) => [Error(FailureMessage(f.filePath, e))]
        case Success(_) => []
  }

  /** No two of the files with the same relative path differ. */
  ghost predicate PathsFunctional(files: seq<SourceFile>)
  {
    forall f, g :: f in files && g in files && f.relativePath == g.relativePath ==> f == g
  }

  /** The content store, as the loader sees it, and the operator-facing log. */
  class Loader {
    const base: string
    var store: map<string, Record>
    var log: seq<LogEntry>

    constructor (base: string, store: map<string, Record>)
      ensures this.base == base && this.store == store && this.log == []
    {
      this.base := base;
      this.store := store;
      this.log := [];
    }

    /** Ingest every discovered file: each successful file is upserted under its
        relative path, each failure is logged, and the loop goes on. */
    method Load(files: seq<SourceFile>)
      modifies this
      ensures store == LoadAll(old(store), files)
      ensures log == old(log) + [Info("Loading adoc files from " + base)] + FailureLog(files)
    {
      log := log + [Info("Loading adoc files from " + base)];
      ghost var store0, log0 := store, log;
      for i := 0 to |files|
        invariant store == LoadAll(store0, files[..i])
        invariant log == log0 + FailureLog(files[..i])
      {
        var f := files[i];
        assert files[..i + 1][..i] == files[..i];
        match IngestOne(f) {
          case Success(rec) =>
            store := store[f.relativePath := rec];
          case Failure(e) =>
            log := log + [Error(FailureMessage(f.filePath, e))];
        }
      }
      assert files[..|files|] == files;
    }
  }

  // ---------------------------------------------------------------------------
  // Properties of a single file.

  /** Every field of a stored record is derived from the file as `load` derives
      it: the title from its parts, the four required attributes (all non-empty)
      verbatim, `date` from the same `published_at` as `publishedAt`, and the
      locale and slug from the relative path. */
  lemma IngestedRecord(f: SourceFile)
    requires IngestOne(f).Success?
    ensures var d := f.content.value;
      var a := d.attributes;
      var rec := IngestOne(f).value;
      && d.title.Some?
      && rec.title == (if d.title.value.subtitle.Some?
                       then d.title.value.main + ": " + d.title.value.subtitle.value
                       else d.title.value.main)
      && Truthy(a, "description") && rec.description == a["description"]
      && Truthy(a, "published_at") && rec.publishedAt == a["published_at"]
      && rec.date == rec.publishedAt
      && Truthy(a, "revdate") && rec.updatedAt == a["revdate"]
      && Truthy(a, "author") && rec.author == a["author"]
      && rec.tags == Tags(a)
      && rec.restricted == ("restricted" in a && a["restricted"] == "true")
      && rec.lang == Lang(f.relativePath)
      && rec.slug == Slug(f.relativePath)
      && d.html.Success? && rec.bodyHtml == d.html.value
  {
  }

  /** The tags are the comma-separated pieces of the attribute, trimmed, one per
      piece and in order: a value that is the comma-join of comma-free pieces
      yields those pieces trimmed. */
  lemma TagsArePieces(attributes: map<string, string>, pieces: seq<string>)
    requires Truthy(attributes, "tags")
    requires |pieces| >= 1 && forall i :: 0 <= i < |pieces| ==> ',' !in pieces[i]
    requires Join(pieces, ",") == attributes["tags"]
    ensures |Tags(attributes)| == |pieces| == Count(attributes["tags"], ',') + 1
    ensures forall i :: 0 <= i < |pieces| ==> Tags(attributes)[i] == Trim(pieces[i])
  {
    SplitJoin(pieces, ',');
  }

  /** Without a truthy `tags` attribute there are no tags. */
  lemma NoTagsWhenAbsent(attributes: map<string, string>)
    requires !Truthy(attributes, "tags")
    ensures Tags(attributes) == []
  {
  }

  /** A path `lang/rest`: the locale is the first segment and the slug is the rest
      without its `.adoc` extension, so the slug never includes the locale segment. */
  lemma PathWithLocale(lang: string, rest: string)
    requires '/' !in lang
    ensures Lang(lang + "/" + rest) == lang
    ensures Slug(lang + "/" + rest) == StripSuffix(rest, ".adoc")
  {
    SplitAtFirst(lang, rest, '/');
    assert lang + "/" + rest == lang + ['/'] + rest;
    JoinSplit(rest, '/');
  }

  /** A path with no separator is its own locale and has the empty slug. */
  lemma PathWithoutSeparator(relativePath: string)
    requires '/' !in relativePath
    ensures Lang(relativePath) == relativePath
    ensures Slug(relativePath) == ""
  {
    SplitNoSeparator(relativePath, '/');
  }

  /** A file that fails stores nothing: the store is exactly as before. */
  lemma FailureStoresNothing(store: map<string, Record>, f: SourceFile)
    requires IngestOne(f).Failure?
    ensures LoadAll(store, [f]) == store
  {
    assert [f][..0] == [];
  }

  /** A successful file writes its own key only, replacing any record there wholesale. */
  lemma SuccessWritesOwnKey(store: map<string, Record>, f: SourceFile)
    requires IngestOne(f).Success?
    ensures var s := LoadAll(store, [f]);
      && s.Keys == store.Keys + {f.relativePath}
      && s[f.relativePath] == IngestOne(f).value
      && forall k :: k in store && k != f.relativePath ==> s[k] == store[k]
  {
    assert [f][..0] == [];
  }

  // ---------------------------------------------------------------------------
  // Properties of a whole load.

  /** A load overrides the prior store with a map that depends on the files alone. */
  lemma {:induction false} LoadAllOverrides(store: map<string, Record>, files: seq<SourceFile>)
    ensures LoadAll(store, files) == store + LoadAll(map[], files)
    decreases |files|
  {
    if files != [] {
      var init, f := files[..|files| - 1], files[|files| - 1];
      LoadAllOverrides(store, init);
      var r := IngestOne(f);
      if r.Success? {
        var m := LoadAll(map[], init);
        assert (store + m)[f.relativePath := r.value] == store + m[f.relativePath := r.value];
      }
    }
  }

  /** A key that no successful file owns keeps its prior record, or stays absent. */
  lemma {:induction false} LoadAllFrame(store: map<string, Record>, files: seq<SourceFile>, k: string)
    requires forall f :: f in files && IngestOne(f).Success? ==> f.relativePath != k
    ensures k in LoadAll(store, files) <==> k in store
    ensures k in store ==> LoadAll(store, files)[k] == store[k]
    decreases |files|
  {
    if files != [] {
      var init := files[..|files| - 1];
      assert forall f :: f in init ==> f in files;
      LoadAllFrame(store, init, k);
    }
  }

  /** A failing file changes nothing: the other files are loaded exactly as if it
      were absent. */
  lemma {:induction false} LoadAllSkipsFailure(store: map<string, Record>, a: seq<SourceFile>, f: SourceFile, b: seq<SourceFile>)
    requires IngestOne(f).Failure?
    ensures LoadAll(store, a + [f] + b) == LoadAll(store, a + b)
    decreases |b|
  {
    if b == [] {
      assert a + [f] + b == a + [f];
      assert a + b == a;
      LoadAllSnoc(store, a, f);
    } else {
      var b', x := b[..|b| - 1], b[|b| - 1];
      LoadAllSkipsFailure(store, a, f, b');
      assert a + [f] + b == (a + [f] + b') + [x];
      assert a + b == (a + b') + [x];
      LoadAllSnoc(store, a + [f] + b', x);
      LoadAllSnoc(store, a + b', x);
    }
  }

  /** The last file is taken after all the others. */
  lemma LoadAllSnoc(store: map<string, Record>, init: seq<SourceFile>, x: SourceFile)
    ensures LoadAll(store, init + [x]) == Step(LoadAll(store, init), x)
    ensures IngestOne(x).Failure? ==> LoadAll(store, init + [x]) == LoadAll(store, init)
  {
    assert (init + [x])[..|init + [x]| - 1] == init;
  }

  /** With no two different files under one path, the records stored are exactly
      those of the successful files, each under its own path. */
  lemma {:induction false} LoadAllContents(files: seq<SourceFile>)
    requires PathsFunctional(files)
    ensures forall k :: k in LoadAll(map[], files) <==>
      exists f :: f in files && f.relativePath == k && IngestOne(f).Success?
    ensures forall f :: f in files && IngestOne(f).Success? ==>
      f.relativePath in LoadAll(map[], files) && LoadAll(map[], files)[f.relativePath] == IngestOne(f).value
    decreases |files|
  {
    if files != [] {
      var init, last := files[..|files| - 1], files[|files| - 1];
      assert files == init + [last];
      assert forall f :: f in files <==> f in init || f == last;
      LoadAllContents(init);
    }
  }

  /** `Promise.all` runs the files in no fixed order; with no two different files
      under one path, every order yields the same store. */
  lemma LoadOrderIndependent(store: map<string, Record>, a: seq<SourceFile>, b: seq<SourceFile>)
    requires multiset(a) == multiset(b)
    requires PathsFunctional(a)
    ensures LoadAll(store, a) == LoadAll(store, b)
  {
    assert forall f :: f in a <==> f in b by {
      forall f ensures f in a <==> f in b {
        assert f in a <==> f in multiset(a);
        assert f in b <==> f in multiset(b);
      }
    }
    LoadAllContents(a);
    LoadAllContents(b);
    var ma, mb := LoadAll(map[], a), LoadAll(map[], b);
    assert ma.Keys == mb.Keys;
    forall k | k in ma ensures ma[k] == mb[k] {
      var f :| f in a && f.relativePath == k && IngestOne(f).Success?;
    }
    assert ma == mb;
    LoadAllOverrides(store, a);
    LoadAllOverrides(store, b);
  }

  /** Loading the same files again changes nothing. */
  lemma LoadIdempotent(store: map<string, Record>, files: seq<SourceFile>)
    ensures LoadAll(LoadAll(store, files), files) == LoadAll(store, files)
  {
    var m := LoadAll(map[], files);
    LoadAllOverrides(store, files);
    LoadAllOverrides(store + m, files);
    assert store + m + m == store + m;
  }

  /** Every failing file is logged with its path and reason, and the error log holds
      nothing else. */
  lemma {:induction false} FailuresLogged(files: seq<SourceFile>)
    ensures forall f :: f in files && IngestOne(f).Failure? ==>
      Error(FailureMessage(f.filePath, IngestOne(f).error)) in FailureLog(files)
    ensures forall e :: e in FailureLog(files) ==>
      exists f :: f in files && IngestOne(f).Failure? && e == Error(FailureMessage(f.filePath, IngestOne(f).error))
    decreases |files|
  {
    if files != [] {
      var init, last := files[..|files| - 1], files[|files| - 1];
      assert files == init + [last];
      assert forall f :: f in files <==> f in init || f == last;
      FailuresLogged(init);
    }
  }

  /** Two comma-separated tags with a space after the comma, such as `a, b`, give
      exactly those two tags. */
  lemma TwoTags(attributes: map<string, string>, x: string, y: string)
    requires "tags" in attributes && attributes["tags"] == x + ", " + y
    requires ',' !in x && ',' !in y
    requires Trimmed(x) && Trimmed(y)
    ensures Tags(attributes) == [x, y]
  {
    var sy := [' '] + y;
    SplitTwo(x, sy);
    TrimLeadingSpace(x);
    TrimLeadingSpace(y);
    TrimTwo(x, sy, y);
    CommaSpace(x, y);
  }

  lemma CommaSpace(x: string, y: string)
    ensures x + ", " + y == x + [','] + ([' '] + y)
  {
    assert ", " == [','] + [' '];
  }

  lemma SplitTwo(x: string, y: string)
    requires ',' !in x && ',' !in y
    ensures Split(x + [','] + y, ',') == [x, y]
  {
    SplitAtFirst(x, y, ',');
    SplitNoSeparator(y, ',');
  }

  lemma TrimTwo(x: string, y: string, t: string)
    requires Trim(x) == x && Trim(y) == t
    ensures TrimAll([x, y]) == [x, t]
  {
  }
}
