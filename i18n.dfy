/** The site's translations: the language of a page from its URL path, and the
    lookup of a UI string with the default language as fallback followed by the
    substitution of `#{name}` placeholders. */
module I18n {
  import opened Wrappers
  import opened Strings

  /** The language used when a path names none, and the fallback table. */
  const DefaultLang: string := "ja"

  /** The Japanese UI strings. */
  const JaStrings: map<string, string> := map[
      "nav.home" := "ホーム",
      "nav.publications" := "研究業績",
      "nav.blog" := "ブログ",
      "nav.changelog" := "更新履歴",
      "hero.role" := "Ph.D. candidate in Statistical Science",
      "hero.eyebrow" := "About Me",
      "hero.focus_label" := "専門",
      "hero.base_label" := "拠点",
      "career.title" := "経歴",
      "career.education" := "学歴",
      "career.experience" := "職歴",
      "site.subtitle" := "Research CV",
      "publications.title" := "研究業績",
      "publications.show_abstract" := "概要を表示",
      "publications.open_link" := "外部リンク",
      "publications.category.journal_papers" := "Journal Papers",
      "publications.category.refereed_international_conference" := "Refereed Internal Conferences",
      "publications.category.international_conference" := "International Conferences",
      "publications.category.domestic_workshop" := "国内ワークショップ",
      "blog.no_posts" := "まだ記事はありません。",
      "blog.list_title" := "ブログ記事一覧",
      "blog.list_description" := "個人的な記事",
      "blog.back_to_home" := "ホームに戻る",
      "blog.all_posts" := "すべての記事",
      "blog.tag_title" := "タグ: ",
      "blog.tag_description" := "タグ #{tag} に関連する記事一覧",
      "post.published_at" := "初版投稿日時",
      "post.updated_at" := "最終編集日時",
      "post.author" := "著者",
      "changelog.no_entries" := "更新履歴はありません。",
      "pagination.prev" := "前へ",
      "pagination.next" := "次へ",
      "pagination.page" := "ページ",
      "404.title" := "404 - ページが見つかりません",
      "404.description" := "申し訳ありませんが，お探しのページは見つかりませんでした．",
      "404.back" := "ホームに戻る"
    ]

  /** The English UI strings. */
  const EnStrings: map<string, string> := map[
      "nav.home" := "Home",
      "nav.publications" := "Publications",
      "nav.blog" := "Blog",
      "nav.changelog" := "Changelog",
      "hero.role" := "Ph.D. candidate in Statistical Science",
      "hero.eyebrow" := "About Me",
      "hero.focus_label" := "Focus",
      "hero.base_label" := "Base",
      "career.title" := "Career",
      "career.education" := "Education",
      "career.experience" := "Experience",
      "site.subtitle" := "Research CV",
      "publications.title" := "Publications",
      "publications.show_abstract" := "Show abstract",
      "publications.open_link" := "Open external link",
      "publications.category.journal_papers" := "Journal Papers",
      "publications.category.refereed_international_conference" := "Refereed International Conferences",
      "publications.category.international_conference" := "International Conferences",
      "publications.category.domestic_workshop" := "Workshops in Japan",
      "blog.no_posts" := "No posts found.",
      "blog.list_title" := "Blog Posts",
      "blog.list_description" := "Personal Posts",
      "blog.back_to_home" := "Back to Home",
      "blog.all_posts" := "All Posts",
      "blog.tag_title" := "Tag: ",
      "blog.tag_description" := "Articles tagged with #{tag}",
      "post.published_at" := "Published At",
      "post.updated_at" := "Updated At",
      "post.author" := "Author",
      "changelog.no_entries" := "No changelog entries found.",
      "pagination.prev" := "Previous",
      "pagination.next" := "Next",
      "pagination.page" := "Page",
      "404.title" := "404 - Page Not Found",
      "404.description" := "Sorry, we couldn't find the page you're looking for.",
      "404.back" := "Go back home"
    ]

  /** `ui`: the UI strings of each language. */
  const Ui: map<string, map<string, string>> := map["ja" := JaStrings, "en" := EnStrings]

  /** The two languages of the table. */
  lemma UiLanguages()
    ensures Ui.Keys == {"ja", "en"}
    ensures forall lang :: lang in Ui ==> '/' !in lang
  {
  }

  /** `getLangFromUrl`: the path segment after the leading `/` when it names a
      language of the table, the default language otherwise. Only the table's
      own keys count as languages. */
  function GetLangFromUrl(pathname: string): (r: string)
    ensures r in Ui
  {
    var parts := Split(pathname, '/');
    if |parts| >= 2 && parts[1] in Ui then parts[1] else DefaultLang
  }

  /** The pieces of `/segment/rest` and of `/segment`, for a segment without `/`. */
  lemma SplitRootedPath(segment: string, rest: string)
    requires '/' !in segment
    ensures Split("/" + segment + "/" + rest, '/') == ["", segment] + Split(rest, '/')
    ensures Split("/" + segment, '/') == ["", segment]
  {
    assert "/" + segment + "/" + rest == [] + ['/'] + (segment + ['/'] + rest);
    SplitAtFirst([], segment + ['/'] + rest, '/');
    SplitAtFirst(segment, rest, '/');
    assert "/" + segment == [] + ['/'] + segment;
    SplitAtFirst([], segment, '/');
    SplitNoSeparator(segment, '/');
  }

  /** A path whose first segment is a language gives that language, with or
      without more segments after it. */
  lemma LangOfPrefixedPath(lang: string, rest: string)
    requires lang in Ui
    ensures GetLangFromUrl("/" + lang + "/" + rest) == lang
    ensures GetLangFromUrl("/" + lang) == lang
  {
    UiLanguages();
    SplitRootedPath(lang, rest);
  }

  /** A path whose first segment is not a language gives the default language. */
  lemma LangOfOtherPath(segment: string, rest: string)
    requires '/' !in segment && segment !in Ui
    ensures GetLangFromUrl("/" + segment + "/" + rest) == DefaultLang
    ensures GetLangFromUrl("/" + segment) == DefaultLang
  {
    SplitRootedPath(segment, rest);
  }

  /** A string without any `/` gives the default language. */
  lemma LangOfBareString(pathname: string)
    requires '/' !in pathname
    ensures GetLangFromUrl(pathname) == DefaultLang
  {
    SplitNoSeparator(pathname, '/');
  }

  /** `/en/blog` is English.
      The strings are fixed by `requires` rather than written into the contract,
      which keeps the solver from unfolding the functions on literal strings. */
  lemma EnglishBlogPath(path: string, lang: string, rest: string)
    requires path == "/en/blog" && lang == "en" && rest == "blog"
    ensures GetLangFromUrl(path) == "en"
  {
    assert path == "/" + lang + "/" + rest;
    LangOfPrefixedPath(lang, rest);
  }

  /** `/` is in the default language.
      The strings are fixed by `requires` rather than written into the contract,
      which keeps the solver from unfolding the functions on literal strings. */
  lemma RootPath(path: string, segment: string)
    requires path == "/" && segment == ""
    ensures GetLangFromUrl(path) == "ja"
  {
    assert path == "/" + segment;
    LangOfOtherPath(segment, "");
  }

  /** `/blog/x` is in the default language.
      The strings are fixed by `requires` rather than written into the contract,
      which keeps the solver from unfolding the functions on literal strings. */
  lemma BlogPostPath(path: string, segment: string, rest: string)
    requires path == "/blog/x" && segment == "blog" && rest == "x"
    ensures GetLangFromUrl(path) == "ja"
  {
    assert path == "/" + segment + "/" + rest;
    LangOfOtherPath(segment, rest);
  }

  /** `ui[lang][key] || ui[defaultLang][key]`: a missing or empty entry of the
      language falls back to the default language's entry. */
  function Lookup(lang: string, key: string): string
    requires lang in Ui && key in Ui[DefaultLang]
  {
    if key in Ui[lang] && Ui[lang][key] != "" then Ui[lang][key] else Ui[DefaultLang][key]
  }

  /** The fallback rule: the language's own text when it has a non-empty one. */
  lemma LookupFallback(lang: string, key: string)
    requires lang in Ui && key in Ui[DefaultLang]
    ensures key in Ui[lang] && Ui[lang][key] != "" ==> Lookup(lang, key) == Ui[lang][key]
    ensures !(key in Ui[lang] && Ui[lang][key] != "") ==> Lookup(lang, key) == Ui[DefaultLang][key]
    ensures Lookup(DefaultLang, key) == Ui[DefaultLang][key]
  {
  }

  /** Both languages have the same keys. */
  lemma SameKeys()
    ensures JaStrings.Keys == EnStrings.Keys
  {
    assert forall k :: k in JaStrings ==> k in EnStrings;
    assert forall k :: k in EnStrings ==> k in JaStrings;
  }

  /** No Japanese text is empty. */
  lemma NoEmptyJapanese()
    ensures forall k :: k in JaStrings ==> JaStrings[k] != ""
  {
  }

  /** No English text is empty. */
  lemma NoEmptyEnglish()
    ensures forall k :: k in EnStrings ==> EnStrings[k] != ""
  {
  }

  /** Every lookup gives the language's own text: the fallback is never taken. */
  lemma TableComplete(lang: string, key: string)
    requires lang in Ui && key in Ui[DefaultLang]
    ensures key in Ui[lang] && Lookup(lang, key) == Ui[lang][key]
  {
    SameKeys();
    NoEmptyJapanese();
    NoEmptyEnglish();
    UiLanguages();
  }

  /** The text `#{name}` that a parameter `name` replaces. */
  function Placeholder(name: string): string
  {
    "#{" + name + "}"
  }

  /** The substitutions of `t`, one per parameter entry in order, each applied to
      the result of the previous one and each replacing only the first occurrence
      of its placeholder. */
  function Substitute(s: string, params: seq<(string, string)>): string
    decreases |params|
  {
    if params == [] then s
    else Substitute(ReplaceFirst(s, Placeholder(params[0].0), params[0].1), params[1..])
  }

  /** `useTranslations(lang)` called on `key` and `params`; without a parameter
      object there is nothing to substitute. */
  method Translate(lang: string, key: string, params: Option<seq<(string, string)>>) returns (translation: string)
    requires lang in Ui && key in Ui[DefaultLang]
    ensures translation == Substitute(Lookup(lang, key), params.GetOr([]))
  {
    translation := Lookup(lang, key);
    if params.Some? {
      var entries := params.value;
      assert entries[0..] == entries;
      var i := 0;
      while i < |entries|
        invariant 0 <= i <= |entries|
        invariant Substitute(translation, entries[i..]) == Substitute(Lookup(lang, key), entries)
      {
        var (k, v) := entries[i];
        assert entries[i..][1..] == entries[i + 1..];
        translation := ReplaceFirst(translation, Placeholder(k), v);
        i := i + 1;
      }
    }
  }

  /** Without parameters the looked-up text is returned unchanged. */
  lemma NoParamsUnchanged(s: string, params: Option<seq<(string, string)>>)
    requires params == None || params == Some([])
    ensures Substitute(s, params.GetOr([])) == s
  {
  }

  /** Substituting a list of entries is substituting its first part and then the
      rest on that result. */
  lemma {:induction false} SubstituteAppend(s: string, a: seq<(string, string)>, b: seq<(string, string)>)
    ensures Substitute(s, a + b) == Substitute(Substitute(s, a), b)
    decreases |a|
  {
    if a == [] {
      assert a + b == b;
    } else {
      var t := ReplaceFirst(s, Placeholder(a[0].0), a[0].1);
      assert (a + b)[0] == a[0];
      assert (a + b)[1..] == a[1..] + b;
      SubstituteAppend(t, a[1..], b);
    }
  }

  /** A placeholder starts with `#`, so text without `#` holds none. */
  lemma NoHashNoPlaceholder(s: string, name: string)
    requires '#' !in s
    ensures NoOccurrence(s, Placeholder(name))
  {
    var p := Placeholder(name);
    forall j: nat ensures !OccursAt(s, p, j) {
      if j + |p| <= |s| {
        assert s[j] in s;
        assert s[j..j + |p|][0] == s[j] != p[0];
      }
    }
  }

  /** A placeholder that does not occur leaves the text unchanged. */
  lemma AbsentPlaceholder(s: string, name: string, v: string)
    requires '#' !in s
    ensures ReplaceFirst(s, Placeholder(name), v) == s
  {
    NoHashNoPlaceholder(s, name);
  }

  /** Only the first occurrence is replaced: whatever follows it, further copies of
      the placeholder included, is kept. */
  lemma FirstPlaceholder(x: string, name: string, v: string, y: string)
    requires '#' !in x
    ensures ReplaceFirst(x + Placeholder(name) + y, Placeholder(name), v) == x + v + y
  {
    var s := x + Placeholder(name) + y;
    var p := Placeholder(name);
    assert s[|x|..|x| + |p|] == p;
    forall j: nat | j < |x| ensures !OccursAt(s, p, j) {
      if j + |p| <= |s| {
        assert x[j] in x;
        assert s[j..j + |p|][0] == s[j] == x[j] != p[0];
      }
    }
    assert FirstOccurrence(s, p, |x|);
    assert s[..|x|] == x;
    assert s[|x| + |p|..] == y;
  }

  /** If no parameter's placeholder occurs in the text, nothing changes. */
  lemma {:induction false} SubstituteAbsent(s: string, params: seq<(string, string)>)
    requires forall e :: e in params ==> NoOccurrence(s, Placeholder(e.0))
    ensures Substitute(s, params) == s
    decreases |params|
  {
    if params != [] {
      assert params[0] in params;
      assert forall e :: e in params[1..] ==> e in params;
      SubstituteAbsent(s, params[1..]);
    }
  }

  /** The English tag page description names the tag.
      The strings are fixed by `requires` rather than written into the contract,
      which keeps the solver from unfolding the functions on literal strings. */
  lemma TagDescriptionEnglish(lang: string, key: string, tag: string)
    requires lang == "en" && key == "blog.tag_description"
    ensures key in Ui[DefaultLang]
    ensures Substitute(Lookup(lang, key), [("tag", tag)]) == "Articles tagged with " + tag
  {
    var text := Lookup(lang, key);
    assert text == "Articles tagged with " + Placeholder("tag") + "";
    FirstPlaceholder("Articles tagged with ", "tag", tag, "");
  }

  /** A single parameter is a single replacement. */
  lemma SubstituteSingle(s: string, name: string, v: string)
    ensures Substitute(s, [(name, v)]) == ReplaceFirst(s, Placeholder(name), v)
  {
    assert [(name, v)][1..] == [];
  }

  /** In `#{a} #{b}`, substituting `a` leaves `#{b}` as it is. */
  lemma OtherPlaceholderStays(a: string, b: string, v: string)
    ensures Substitute(Placeholder(a) + " " + Placeholder(b), [(a, v)]) == v + " " + Placeholder(b)
  {
    var p := Placeholder(a);
    var rest := " " + Placeholder(b);
    assert p + " " + Placeholder(b) == p + rest;
    SubstituteSingle(p + rest, a, v);
    ReplaceBeforeRest(p, a, v, rest);
    assert v + rest == v + " " + Placeholder(b);
  }

  lemma ReplaceBeforeRest(p: string, a: string, v: string, rest: string)
    requires p == Placeholder(a)
    ensures ReplaceFirst(p + rest, p, v) == v + rest
  {
    assert p + rest == [] + p + rest;
    FirstPlaceholder([], a, v, rest);
    assert [] + v + rest == v + rest;
  }

  /** A key that cannot be confused with the frame of a placeholder: it holds
      neither `#` nor `}`. */
  predicate PlainKey(k: string)
  {
    '#' !in k && '}' !in k
  }

  /** `#{name}` is `#`, `{`, the name and `}`; with a plain name its only `#` is
      its first character and its only `}` its last. */
  lemma PlaceholderShape(name: string)
    ensures var p := Placeholder(name);
      && |p| == |name| + 3 && p[0] == '#' && p[|p| - 1] == '}' && p[2..|p| - 1] == name
    ensures PlainKey(name) ==> forall k :: 0 < k < |Placeholder(name)| ==> Placeholder(name)[k] != '#'
    ensures PlainKey(name) ==> forall k :: 0 <= k < |Placeholder(name)| - 1 ==> Placeholder(name)[k] != '}'
  {
    var p := Placeholder(name);
    assert p == ['#', '{'] + name + ['}'];
    if PlainKey(name) {
      forall k | 2 <= k < |p| - 1 ensures p[k] != '#' && p[k] != '}' {
        assert p[k] == name[k - 2];
        assert name[k - 2] in name;
      }
    }
  }

  /** Placeholders of two different plain keys never overlap in a text. */
  lemma NoOverlap(s: string, a: string, j: nat, b: string, i: nat)
    requires PlainKey(a) && PlainKey(b) && a != b
    requires OccursAt(s, Placeholder(a), j) && OccursAt(s, Placeholder(b), i)
    ensures i + |Placeholder(b)| <= j || j + |Placeholder(a)| <= i
  {
    var pa, pb := Placeholder(a), Placeholder(b);
    PlaceholderShape(a);
    PlaceholderShape(b);
    if i < j < i + |pb| {
      OccursAtChar(s, pa, j, 0);
      OccursAtChar(s, pb, i, j - i);
      assert false;
    } else if j < i < j + |pa| {
      OccursAtChar(s, pb, i, 0);
      OccursAtChar(s, pa, j, i - j);
      assert false;
    } else if i == j && |pa| < |pb| {
      OccursAtChar(s, pa, i, |pa| - 1);
      OccursAtChar(s, pb, i, |pa| - 1);
      assert false;
    } else if i == j && |pb| < |pa| {
      OccursAtChar(s, pb, i, |pb| - 1);
      OccursAtChar(s, pa, i, |pb| - 1);
      assert false;
    } else if i == j {
      assert false;
    }
  }

  /** One replacement of a different plain key keeps a placeholder of a plain
      key somewhere in the text, moved by the change in length before it. */
  lemma StaysOneStep(s: string, a: string, v: string, b: string, i: nat) returns (k: nat)
    requires PlainKey(a) && PlainKey(b) && a != b
    requires OccursAt(s, Placeholder(b), i)
    ensures OccursAt(ReplaceFirst(s, Placeholder(a), v), Placeholder(b), k)
  {
    forall j: nat | FirstOccurrence(s, Placeholder(a), j)
      ensures i + |Placeholder(b)| <= j || j + |Placeholder(a)| <= i
    {
      NoOverlap(s, a, j, b, i);
    }
    k := ReplaceKeepsOccurrence(s, Placeholder(a), v, Placeholder(b), i);
  }

  /** A placeholder whose key is not among the parameters stays in the text,
      provided no key holds `#` or `}`. */
  lemma {:induction false} PlainPlaceholderStays(s: string, params: seq<(string, string)>, b: string, i: nat)
    returns (k: nat)
    requires PlainKey(b) && OccursAt(s, Placeholder(b), i)
    requires forall e :: e in params ==> PlainKey(e.0) && e.0 != b
    ensures OccursAt(Substitute(s, params), Placeholder(b), k)
    decreases |params|
  {
    if params == [] {
      k := i;
    } else {
      assert params[0] in params;
      var t := ReplaceFirst(s, Placeholder(params[0].0), params[0].1);
      var j := StaysOneStep(s, params[0].0, params[0].1, b, i);
      assert forall e :: e in params[1..] ==> e in params;
      k := PlainPlaceholderStays(t, params[1..], b, j);
    }
  }

  /** A repeated placeholder is replaced once. */
  lemma RepeatedPlaceholderOnce(a: string, v: string)
    ensures Substitute(Placeholder(a) + Placeholder(a), [(a, v)]) == v + Placeholder(a)
  {
    var p := Placeholder(a);
    SubstituteSingle(p + p, a, v);
    ReplaceBeforeRest(p, a, v, p);
  }
}
