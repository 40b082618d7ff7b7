# A verified model of a personal academic site's content core

The repository is the generator of a personal academic website: a CV, a publication
list and a blog, in Japanese and English. This project models its logic in Dafny
and proves properties of that model:

- **The blog loader** (`Asciidoc`). Every discovered `.adoc` file goes through one
  pipeline:
  - read and load the document;
  - compose the title;
  - check the four required attributes;
  - split and trim the tags;
  - derive the locale and slug from the relative path;
  - upsert one record under that path.

  A failing file is logged and never stops the others. `Loader` is a class that
  holds the content store and the log. Its `Load` method loops over the files and
  is proved against the fold `LoadAll`.
- **The `info.json` schema** (`InfoSchema`). It covers the publication, profile and
  site rules, plus the two readers of a validated publication: `parseIssued` and
  `parseAuthorName`.
- **The site data projection** (`SiteData`):
  - the container-name choice;
  - the four publication lists;
  - the defined social links;
  - the locale choice of every `_ja`/`_en` field;
  - the changelog entries;
  - the whole of `loadSiteData` on already-parsed input, with the corrected schema
    (see "## Findings").
- **The changelog schema** (`ChangelogSchema`). A version's date must start with
  `YYYY-MM-DD`. This is proved equal to a small regular-expression matcher for
  `^\d{4}-\d{2}-\d{2}`.
- **The i18n helpers** (`I18n`):
  - the `ui` string table;
  - `getLangFromUrl`;
  - the translation function `t`: a lookup with fallback, then first-occurrence
    `#{key}` substitution in parameter order. `Translate` is a method with
    the same loop.
- **String primitives** (`Strings`): the ECMAScript `split`, `join`, `trim`,
  `indexOf`, `replace` with a string pattern, and suffix stripping. They are written
  on `seq<char>`, with the exact white-space set of `String.prototype.trim`.

Four facts about the loader's code shape the model:

- `load` has no watch, change or delete handling;
- required attributes are tested for truthiness, so an empty `description` counts as missing;
- the relative path is split on `path.sep`, taken here as `/`;
- the locale segment is stored without checking it against the configured locales.

## Model

| member | source | states |
|---|---|---|
| Strings.Join | src/lib/asciidoc.ts:82 | `join`: characterised by `Strings.JoinSplit` and `Strings.SplitJoin`, which show that it inverts `split` |
| Strings.Split | src/lib/asciidoc.ts:24 | `split` on one character gives one piece more than there are separators, and no piece contains the separator |
| Strings.JoinSplit | src/lib/asciidoc.ts:79-82 | joining the pieces of a split with the separator gives back the original string |
| Strings.SplitJoin | src/lib/asciidoc.ts:79-82 | splitting a join of separator-free pieces gives back those pieces |
| Strings.SplitAtFirst | src/lib/asciidoc.ts:71 | the split of `a + sep + b`, with no separator in `a`, is `a` followed by the split of `b` |
| Strings.SplitNoSeparator | src/lib/asciidoc.ts:71 | a string without the separator splits to itself alone |
| Strings.TrimStart | src/lib/asciidoc.ts:72 | the input is removed white space followed by the result, and the result does not start with white space |
| Strings.TrimEnd | src/lib/asciidoc.ts:72 | the input is the result followed by removed white space, and the result does not end with white space |
| Strings.Trim | src/lib/asciidoc.ts:72 | `trim()` is white space, the result, white space, and the result has no white space at either end |
| Strings.TrimUnique | src/lib/asciidoc.ts:72 | any text with no edge white space, between white space, is exactly what `trim` returns |
| Strings.TrimLeadingSpace | src/lib/asciidoc.ts:72 | text with no edge white space is its own trim, also after a leading space |
| Strings.TrimOfTrimmed | src/lib/asciidoc.ts:72 | text without white space at either end is its own trim |
| Strings.TrimIdempotent | src/lib/asciidoc.ts:72 | trimming twice gives the same as trimming once |
| Strings.IndexFrom | src/i18n/utils.ts:18 | `indexOf` finds an occurrence at or after the start index and none before it, or reports that there is none |
| Strings.ReplaceFirst | src/i18n/utils.ts:18 | `replace` with a string pattern changes only the first occurrence, splicing in the value literally, and leaves the string alone when the pattern is absent |
| Strings.StripSuffix | src/lib/asciidoc.ts:83 | one trailing suffix is removed when present, and the string is unchanged otherwise |
| Strings.StripAppended | src/lib/asciidoc.ts:83 | removing a suffix just appended gives back the original |
| Asciidoc.ComposeTitle | src/lib/asciidoc.ts:45-47 | the title: `main: subtitle` with a subtitle, else `main`; stated for every stored record by `Asciidoc.IngestedRecord` |
| Asciidoc.Tags | src/lib/asciidoc.ts:68-73 | the tags: characterised by `Asciidoc.TagsArePieces`, `Asciidoc.NoTagsWhenAbsent` and `Asciidoc.TwoTags` |
| Asciidoc.Restricted | src/lib/asciidoc.ts:99-100 | `restricted` is true exactly when the attribute equals `"true"`; stated for every stored record by `Asciidoc.IngestedRecord` |
| Asciidoc.Lang | src/lib/asciidoc.ts:23-24 | the locale: the first path segment, by `Asciidoc.PathWithLocale` and `Asciidoc.PathWithoutSeparator` |
| Asciidoc.Slug | src/lib/asciidoc.ts:79-83 | the slug: the segments after the first, without one trailing `.adoc`, by `Asciidoc.PathWithLocale` and `Asciidoc.PathWithoutSeparator` |
| Asciidoc.Step | src/lib/asciidoc.ts:87-108 | one file's effect on the store: characterised by `Asciidoc.SuccessWritesOwnKey` and `Asciidoc.FailureStoresNothing` |
| Asciidoc.LoadAll | src/lib/asciidoc.ts:17-18 | the store after all the files: characterised by the `Asciidoc.LoadAll*` lemmas, `Asciidoc.LoadOrderIndependent` and `Asciidoc.LoadIdempotent` |
| Asciidoc.FailureLog | src/lib/asciidoc.ts:104-108 | the error lines of the files in order: characterised by `Asciidoc.FailuresLogged` |
| Asciidoc.MissingNames | src/lib/asciidoc.ts:55-62 | a required attribute is listed exactly when it is absent or empty, and the list is empty exactly when all four are set |
| Asciidoc.MissingNamesInOrder | src/lib/asciidoc.ts:55-60 | the missing names appear in checking order, so none appears twice |
| Asciidoc.TrimAll | src/lib/asciidoc.ts:72 | one trimmed piece per piece, in order |
| Asciidoc.IngestOne | src/lib/asciidoc.ts:19-76 | a file yields a record exactly when it loads, has a title, sets all four required attributes and converts. Each failure is the first one in that order: a read or load error with its message, no title, the non-empty list of missing names, or a conversion error with its message |
| Asciidoc.IngestedRecord | src/lib/asciidoc.ts:45-103 | every field of a stored record comes from the file: title from main and subtitle, required attributes verbatim, `date` equal to `publishedAt`, `restricted` exactly when the attribute is `"true"`, then tags, locale, slug and HTML |
| Asciidoc.TagsArePieces | src/lib/asciidoc.ts:68-73 | for a set `tags`, there is one tag per comma-separated piece (comma count + 1), each piece trimmed, in order |
| Asciidoc.NoTagsWhenAbsent | src/lib/asciidoc.ts:68-73 | an absent or empty `tags` attribute gives no tags |
| Asciidoc.TwoTags | src/lib/asciidoc.ts:68-73 | a value like `a, b` gives exactly the two tags `a` and `b` |
| Asciidoc.PathWithLocale | src/lib/asciidoc.ts:79-83 | for a path `lang/rest`, the locale is `lang` and the slug is `rest` without its trailing `.adoc`, so the slug never includes the locale |
| Asciidoc.PathWithoutSeparator | src/lib/asciidoc.ts:79-83 | a path with no separator is its own locale and has the empty slug |
| Asciidoc.FailureStoresNothing | src/lib/asciidoc.ts:62-66 | a failing file leaves the store exactly as it was |
| Asciidoc.SuccessWritesOwnKey | src/lib/asciidoc.ts:84-103 | a successful file adds or replaces only the entry under its own relative path, with its record, and every other entry is kept |
| Asciidoc.LoadAllOverrides | src/lib/asciidoc.ts:87-103 | a load is the prior store overridden by a map built from the files alone |
| Asciidoc.LoadAllFrame | src/lib/asciidoc.ts:87-103 | a key that no successful file owns keeps its prior record, or stays absent |
| Asciidoc.LoadAllSkipsFailure | src/lib/asciidoc.ts:104-108 | a failing file changes nothing: the other files load exactly as if it were absent |
| Asciidoc.LoadAllSnoc | src/lib/asciidoc.ts:17-18 | the last file is applied after all the others, and a failing last file leaves the store as the others left it |
| Asciidoc.LoadAllContents | src/lib/asciidoc.ts:84-103 | when no two different files share a path, the store holds exactly the successful files' records, each under its own path |
| Asciidoc.LoadOrderIndependent | src/lib/asciidoc.ts:17-18 | when no two different files share a path, every order of the files gives the same store |
| Asciidoc.LoadIdempotent | src/lib/asciidoc.ts:87-103 | loading the same files again changes nothing |
| Asciidoc.FailuresLogged | src/lib/asciidoc.ts:104-108 | every failing file's `Failed to load <path>: <reason>` line is in the error log, and every line of that log comes from a failing file; the line is `FailureMessage` of the path and `ErrorText` of the error |
| Asciidoc.Loader.Load | src/lib/asciidoc.ts:12-110 | the new store is the fold of the upserts over the files, and the log gains the start message followed by the failure lines |
| Asciidoc.Loader.constructor | src/lib/asciidoc.ts:9-12 | the loader starts with its base directory and the given store, and an empty log |
| InfoSchema.ValidPublication | src/lib/infoSchema.ts:28-54 | `PublicationSchema`: the type and locale literals, at least one author, one date pair of two numbers, and one of the three container fields defined; see `InfoSchema.ValidHasAuthorNames`, `InfoSchema.EmptyContainerTitleIsValid` and `InfoSchema.NoContainerIsInvalid` |
| InfoSchema.ParseInfo | src/lib/infoSchema.ts:105-107 | (corrected schema) parsing succeeds exactly when every publication is valid and the profile has a `portfolio` list, and it then returns the data unchanged |
| InfoSchema.ParseInfoAsWritten | src/lib/infoSchema.ts:92-107 | as declared, parsing succeeds exactly when every publication is valid, and it returns the data without the undeclared `custom` and `portfolio` keys |
| InfoSchema.StripUndeclared | src/lib/infoSchema.ts:28-99 | the parsed value keeps the site and the whole profile except `portfolio`, and keeps each publication of all four lists, in order, except its `custom` field |
| InfoSchema.StripCustom | src/lib/infoSchema.ts:28-47 | each publication is kept, in order, with `custom` removed |
| InfoSchema.ParseIssued | src/lib/infoSchema.ts:109-114 | year and month are the two numbers of the single date pair, and the pair is rebuilt exactly from them |
| InfoSchema.ParseIssuedRoundTrip | src/lib/infoSchema.ts:22-25 | the date pair `[[year, month]]` is valid and reads back as that year and month |
| InfoSchema.FormatAuthors | src/lib/infoSchema.ts:116-121 | one name per author, in order |
| InfoSchema.ParseAuthorName | src/lib/infoSchema.ts:116-121 | one name per author, in order: `family` then `given` with no separator for `ja`, otherwise `given family` |
| InfoSchema.ValidHasAuthorNames | src/lib/infoSchema.ts:39 | a valid publication has at least one author name |
| InfoSchema.EmptyContainerTitleIsValid | src/lib/infoSchema.ts:48-53 | for every publication, an empty `container-title` alone satisfies the container check, so validity rests on the object shape alone: defined is enough |
| InfoSchema.NoContainerIsInvalid | src/lib/infoSchema.ts:48-53 | without any of the three container fields, a publication is rejected |
| ChangelogSchema.HasDatePrefix | src/lib/changelogSchema.ts:14 | the date test: equal to the pattern `^\d{4}-\d{2}-\d{2}` on every string by `ChangelogSchema.DatePrefixIsRegex` |
| ChangelogSchema.MatchesPrefixAt | src/lib/changelogSchema.ts:14 | a start-anchored pattern of single-character atoms matches exactly when each atom matches the character at its position |
| ChangelogSchema.DatePrefixIsRegex | src/lib/changelogSchema.ts:14 | the character-level date test agrees with the pattern `^\d{4}-\d{2}-\d{2}` on every string |
| ChangelogSchema.DatePrefixOnlyLooksAtStart | src/lib/changelogSchema.ts:14 | only the first ten characters decide, and a string shorter than ten is rejected |
| ChangelogSchema.DatePrefixExtends | src/lib/changelogSchema.ts:14 | any text after a valid date prefix is accepted |
| ChangelogSchema.DatePrefixExamples | src/lib/changelogSchema.ts:14 | `2024-01-02T10:00` is accepted and `2024-01-2` is rejected |
| ChangelogSchema.DateOfDigits | src/lib/changelogSchema.ts:14 | four, two and two digits joined by hyphens, then anything, are accepted |
| ChangelogSchema.ParseChangelog | src/lib/changelogSchema.ts:21-28 | parsing succeeds exactly when every version's date has the prefix, and it then returns the data unchanged |
| ChangelogSchema.ValidChangelogAppend | src/lib/changelogSchema.ts:21-23 | a changelog of two parts is valid exactly when both parts are, and the empty list is valid |
| SiteData.FormatContainerName | src/lib/siteData.ts:136-148 | `formatContainerName`: characterised case by case by `SiteData.ContainerChoice` and `SiteData.ContainerEmptyIff` |
| SiteData.ContainerChoice | src/lib/siteData.ts:136-148 | title with its short form in parentheses, else the title, else the event title, else the short form; empty strings count as absent |
| SiteData.ContainerEmptyIff | src/lib/siteData.ts:136-148 | the container is empty exactly when none of the three fields is set to a non-empty string |
| SiteData.ValidButEmptyContainer | src/lib/siteData.ts:136-148 | for every publication with an empty `container-title` and the other two fields absent or empty, the container check passes, validity rests on the object shape alone, and the page shows an empty container |
| SiteData.ProjectPublications | src/lib/siteData.ts:156-173 | same length and order; `id`, `type`, `title`, `locale`, `abstract`, `URL`, `DOI` and `custom` copied; authors from `parseAuthorName`, container from `formatContainerName`, year and month from the date pair |
| SiteData.ProjectPublicationsAppend | src/lib/siteData.ts:156-231 | projection is element-wise: the projection of a concatenation is the concatenation of the projections |
| SiteData.ValidListsProject | src/lib/siteData.ts:163 | every valid list can be projected, and each projected entry has at least one author |
| SiteData.DefinedFrom | src/lib/siteData.ts:233-242 | the defined social links from a key position on: each with its own URL, every defined key included, in key order |
| SiteData.Socials | src/lib/siteData.ts:233-242 | a link is listed exactly when its key is a social key that is defined with that URL, in key order |
| SiteData.DefinedKeysAreKeys | src/lib/siteData.ts:233-242 | the links from the first position are exactly the defined keys, each with its URL |
| SiteData.SocialKeysDistinct | src/lib/siteData.ts:233-242 | no key is listed twice |
| SiteData.NoSocials | src/lib/siteData.ts:236 | with every link undefined there are no links |
| SiteData.Portfolios | src/lib/siteData.ts:243-249 | one entry per item, in order, with the title, category and URL copied and one of the two descriptions |
| SiteData.BuildProfile | src/lib/siteData.ts:243-264 | (corrected schema) the profile is built exactly when there is a `portfolio` list, and otherwise fails as a TypeError would; shared fields, socials and portfolios are copied or projected |
| SiteData.BuildSite | src/lib/siteData.ts:274-281 | the copyright is copied, and the title and description are one of their two language versions |
| SiteData.ChangelogEntries | src/lib/siteData.ts:266-272 | one entry per version, in order, keeping version, date and summary |
| SiteData.ChangelogDropsItemLists | src/lib/siteData.ts:266-272 | versions that differ only in their added, changed and fixed lists give the same entries |
| SiteData.LoadSiteData | src/lib/siteData.ts:150-295 | (corrected schema) the load succeeds exactly when both files are valid; otherwise `info.json` is reported first, then `CHANGELOG.toml` |
| SiteData.LoadedContents | src/lib/siteData.ts:156-295 | (corrected schema) a load's four lists are the element-wise projections of the inputs, and it keeps the changelog entries, socials and copyright |
| SiteData.JapaneseFields | src/lib/siteData.ts:246-280 | (corrected schema) locale `ja` selects every Japanese field: name, bio, focus, base, portfolio descriptions, site title and description |
| SiteData.EnglishFields | src/lib/siteData.ts:246-280 | (corrected schema) any other locale selects every English field |
| SiteData.AwardKept | src/lib/siteData.ts:170 | with the corrected schema, a publication's `custom` reaches the projected list |
| SiteData.LoadSiteDataAsWritten | src/lib/siteData.ts:150-295 | with the schemas as declared, `loadSiteData` never succeeds |
| SiteData.AsWrittenNeverLoads | src/lib/siteData.ts:243 | as declared, valid files fail on the missing `portfolio`, while the corrected load succeeds on the same input when it has one |
| SiteData.AwardDroppedAsWritten | src/lib/siteData.ts:170 | as declared, a publication's award is gone after parsing, so the projection shows none |
| I18n.UiLanguages | src/i18n/ui.ts:8-105 | the table has exactly the languages `ja` and `en`, and no language name contains `/` |
| I18n.SameKeys | src/i18n/ui.ts:8-105 | both languages define the same keys |
| I18n.NoEmptyJapanese | src/i18n/ui.ts:9-56 | no Japanese string is empty |
| I18n.NoEmptyEnglish | src/i18n/ui.ts:57-104 | no English string is empty |
| I18n.GetLangFromUrl | src/i18n/utils.ts:3-7 | the result is always a language of the table |
| I18n.SplitRootedPath | src/i18n/utils.ts:4 | splitting `/segment/rest` on `/` gives the empty string, the segment, then the pieces of the rest |
| I18n.LangOfPrefixedPath | src/i18n/utils.ts:3-5 | a path whose first segment is a language gives that language |
| I18n.LangOfOtherPath | src/i18n/utils.ts:3-7 | a path whose first segment is not a language gives the default `ja` |
| I18n.LangOfBareString | src/i18n/utils.ts:3-7 | a string with no `/` gives the default |
| I18n.EnglishBlogPath | src/i18n/utils.ts:3-5 | `/en/blog` gives `en` |
| I18n.RootPath | src/i18n/utils.ts:6 | `/` gives `ja` |
| I18n.BlogPostPath | src/i18n/utils.ts:6 | `/blog/x` gives `ja` |
| I18n.Lookup | src/i18n/utils.ts:14 | the looked-up string: characterised by `I18n.LookupFallback` and `I18n.TableComplete` |
| I18n.Substitute | src/i18n/utils.ts:16-20 | the parameters applied in entry order: characterised by `I18n.SubstituteAppend`, `I18n.SubstituteSingle`, `I18n.SubstituteAbsent` and `I18n.NoParamsUnchanged`, and computed by `I18n.Translate` |
| I18n.LookupFallback | src/i18n/utils.ts:14 | the language's string when it is non-empty, else the default language's string |
| I18n.TableComplete | src/i18n/utils.ts:14 | every default-language key is defined in every language, so the lookup never falls back |
| I18n.Translate | src/i18n/utils.ts:9-22 | the translation is the looked-up string with each parameter substituted in turn |
| I18n.NoParamsUnchanged | src/i18n/utils.ts:16-21 | without parameters, or with none, the looked-up string is returned unchanged |
| I18n.SubstituteAppend | src/i18n/utils.ts:17-19 | substitutions run in entry order, each on the previous result |
| I18n.SubstituteSingle | src/i18n/utils.ts:18 | one parameter replaces the first occurrence of its placeholder |
| I18n.NoHashNoPlaceholder | src/i18n/utils.ts:18 | a string without `#` contains no placeholder |
| I18n.AbsentPlaceholder | src/i18n/utils.ts:18 | an absent placeholder leaves the string unchanged |
| I18n.FirstPlaceholder | src/i18n/utils.ts:18 | the first placeholder is replaced by the value, and the text around it is kept |
| I18n.ReplaceBeforeRest | src/i18n/utils.ts:18 | a placeholder at the start is replaced, and the rest is kept |
| I18n.SubstituteAbsent | src/i18n/utils.ts:17-19 | parameters whose placeholders are absent change nothing |
| I18n.OtherPlaceholderStays | src/i18n/utils.ts:17-19 | in the string `#{a} #{b}`, substituting `a` alone replaces `#{a}` and leaves `#{b}` intact |
| I18n.PlainPlaceholderStays | src/i18n/utils.ts:17-19 | a placeholder whose key holds neither `#` nor `}` and is not a parameter key still occurs after the substitutions, provided no parameter key holds `#` or `}` |
| I18n.PlaceholderShape | src/i18n/utils.ts:18 | `#{name}` is `#`, `{`, the name and `}`; for a name without `#` or `}` its only `#` is the first character and its only `}` the last |
| I18n.NoOverlap | src/i18n/utils.ts:18 | placeholders of two different keys that hold neither `#` nor `}` never overlap |
| I18n.StaysOneStep | src/i18n/utils.ts:18 | replacing one such placeholder keeps an occurrence of a placeholder with a different such key |
| Strings.ReplaceKeepsOccurrence | src/i18n/utils.ts:18 | `replace` keeps every occurrence of another pattern that does not overlap the replaced one |
| Strings.SpliceBefore | src/i18n/utils.ts:18 | an occurrence ending before a replaced span stays where it was |
| Strings.SpliceAfter | src/i18n/utils.ts:18 | an occurrence starting after a replaced span moves by the change in the span's length |
| I18n.RepeatedPlaceholderOnce | src/i18n/utils.ts:18 | a repeated placeholder is replaced only at its first occurrence |
| I18n.TagDescriptionEnglish | src/i18n/ui.ts:89 | the English tag description with a tag substituted reads `Articles tagged with <tag>` |

## Left out

- Asciidoctor loading, its attribute setup, the locale-dependent captions and the HTML conversion are a foreign library. The title parts, attribute map and conversion result of each file are inputs.
- `fast-glob` discovery and `fs.readFile` are filesystem I/O. The discovered files are an input sequence, and a read failure is an input message.
- `Promise.all` runs the files concurrently. `Load` takes them one after another. `LoadOrderIndependent` shows that the order does not matter to the store when paths do not clash.
- Asciidoc.Loader.Load: the error log it builds is in file order. `Promise.all` writes those lines in completion order, which the model does not capture.
- The default argument `locale = "ja"` of `loadSiteData` (src/lib/siteData.ts:150) is not modelled. `LoadSiteData` always takes the locale explicitly, and `JapaneseFields` states the `ja` case.
- `new Date(...)` is host date parsing, so dates are kept as the attribute strings.
- `path.relative` and `path.sep` are taken as POSIX: relative paths are inputs and are split on `/`.
- The logger is modelled as a sequence of log entries, with messages built from the message templates of `load`. The message of a non-`Error` exception and the exact TypeError text of the host engine are inputs or fixed strings.
- `loadJsonFile`, `loadTomlFile`, JSON and TOML parsing, and valibot's issue messages are file I/O and foreign code. The load takes the parsed values, and a schema failure is a single error value.
- JSON numbers (`id`, year, month) are `int`. Floating-point values are not modelled.
- A JSON value of the wrong primitive type is ruled out by the Dafny types, not by a predicate.
- `certification` is read by the profile projection but declared by no schema, so its shape is unknown. It is not part of the model.
- `getLangFromUrl` takes the URL's `pathname` string rather than a `URL` object.
- `in` also matches inherited names such as `toString`. The model uses the table's own keys only.
- `replace` gives the `$` patterns in a replacement a special meaning. The model splices the value in literally.
- `Object.entries` puts integer-like keys first. The model takes the parameters as the ordered list of entries.
- `useTranslations` returns a closure. `Translate` takes the language as a parameter instead.
- The `languages` table at `src/i18n/ui.ts:1-4` feeds only the pages, not the functions modelled here.
- Watch mode, change events and deletions are not in this loader's code.
- I18n.PlainPlaceholderStays: holds only when no key holds `#` or `}`. `translate` accepts any keys, and with a key such as `a} #{b` the replaced placeholder `#{a} #{b}` swallows a placeholder `#{b}` that was in the text.
- SiteData.Portfolios: states only that each description is one of the two language versions. The exact choice per locale is proved in `SiteData.JapaneseFields` and `SiteData.EnglishFields`.
- SiteData.BuildSite: states only that title and description are one of their two language versions. The exact choice per locale is proved in `SiteData.JapaneseFields` and `SiteData.EnglishFields`.

## Findings

| source | as written | input that shows it | evidently intended | confidence | as-written member | corrected member |
|---|---|---|---|---|---|---|
| src/lib/infoSchema.ts:28-47 | `PublicationSchema` declares no `custom` key, and valibot's `object` drops undeclared keys, so `paper?.custom` at src/lib/siteData.ts:170 is always undefined | a `journal_paper` entry with `"custom": {"award": "Best Paper"}` | the award reaches the projected publication | not executed | SiteData.AwardDroppedAsWritten | SiteData.AwardKept |
| src/lib/infoSchema.ts:70-90 | `ProfileSchema` declares no `portfolio` key, so the parsed profile has none and `info.profile.portfolio.map` at src/lib/siteData.ts:243 throws a TypeError | any `info.json` and `CHANGELOG.toml` that pass their schemas, with or without a `portfolio` list | a profile with a `portfolio` list loads | not executed | SiteData.AsWrittenNeverLoads | SiteData.LoadSiteData |
