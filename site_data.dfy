/** The site data the pages read: the publications, profile, changelog and site
    texts of a validated `info.json` and `CHANGELOG.toml`, projected for one
    locale. Reading and parsing the two files are inputs here. */
module SiteData {
  import opened Wrappers
  import opened InfoSchema
  import opened ChangelogSchema

  /** A publication as the pages show it: the container is one display string,
      the authors are formatted names and the issue date is a year and a month.
      `kind` is the field `type`, `abstractText` the field `abstract`. */
  datatype Publication = Publication(
    id: int,
    kind: string,
    title: string,
    locale: string,
    author: seq<string>,
    abstractText: string,
    url: Option<string>,
    doi: Option<string>,
    container: string,
    year: int,
    month: int,
    custom: Option<Custom>)

  datatype SocialLink = SocialLink(key: string, url: string)

  datatype Portfolio = Portfolio(title: string, category: string, description: string, url: string)

  datatype Profile = Profile(
    name: string,
    bio: string,
    avatar: string,
    focus: Option<string>,
    base: Option<string>,
    email: Option<string>,
    socials: seq<SocialLink>,
    educations: seq<Affiliation>,
    experiences: seq<Affiliation>,
    portfolios: seq<Portfolio>)

  datatype ChangelogEntry = ChangelogEntry(version: string, date: string, summary: string)

  datatype SiteInfo = SiteInfo(title: string, description: string, copyright: string)

  datatype Publications = Publications(
    journalPaper: seq<Publication>,
    refereedInternationalConference: seq<Publication>,
    internationalConference: seq<Publication>,
    domesticWorkshop: seq<Publication>)

  datatype SiteData = SiteData(
    profile: Profile, publications: Publications, changelog: seq<ChangelogEntry>, site: SiteInfo)

  /** Why `loadSiteData` rejects: `info.json` or `CHANGELOG.toml` fails its schema,
      or the profile has no `portfolio` list to map over (a TypeError). */
  datatype SiteError = InfoInvalid | ChangelogInvalid | PortfolioUndefined

  /** A JavaScript truthy optional string: defined and not empty. */
  predicate Present(o: Option<string>)
  {
    o.Some? && o.value != ""
  }

  /** `formatContainerName`: the journal or proceedings title with its short form
      in parentheses, else the title alone, else the event title, else the short
      form, else the empty string. */
  function FormatContainerName(p: PublicationInput): string
  {
    if Present(p.containerTitle) && Present(p.containerTitleShort) then
      p.containerTitle.value + " (" + p.containerTitleShort.value + ")"
    else if Present(p.containerTitle) then
      p.containerTitle.value
    else if Present(p.eventTitle) then
      p.eventTitle.value
    else
      p.containerTitleShort.GetOr("")
  }

  /** The choice rule, case by case; an empty string counts as absent. */
  lemma ContainerChoice(p: PublicationInput)
    ensures Present(p.containerTitle) && Present(p.containerTitleShort) ==>
      FormatContainerName(p) == p.containerTitle.value + " (" + p.containerTitleShort.value + ")"
    ensures Present(p.containerTitle) && !Present(p.containerTitleShort) ==>
      FormatContainerName(p) == p.containerTitle.value
    ensures !Present(p.containerTitle) && Present(p.eventTitle) ==>
      FormatContainerName(p) == p.eventTitle.value
    ensures !Present(p.containerTitle) && !Present(p.eventTitle) && Present(p.containerTitleShort) ==>
      FormatContainerName(p) == p.containerTitleShort.value
  {
  }

  /** The container is empty exactly when none of the three fields is truthy. */
  lemma ContainerEmptyIff(p: PublicationInput)
    ensures FormatContainerName(p) == "" <==>
      !Present(p.containerTitle) && !Present(p.containerTitleShort) && !Present(p.eventTitle)
  {
    if Present(p.containerTitle) {
      var r := FormatContainerName(p);
      assert r[..|p.containerTitle.value|] == p.containerTitle.value;
    }
  }

  /** The schema accepts an empty `container-title` with the other two fields
      absent or empty, and the page then shows an empty container: the two rules
      use different notions of "absent". */
  lemma ValidButEmptyContainer(p: PublicationInput)
    requires p.containerTitle == Some("") && !Present(p.containerTitleShort) && !Present(p.eventTitle)
    ensures HasContainerField(p)
    ensures ValidPublication(p) <==> ValidShape(p)
    ensures FormatContainerName(p) == ""
  {
  }

  /** One element of a publication list's `map`. */
  function ProjectPublication(p: PublicationInput): Publication
    requires ValidIssued(p.dateParts)
  {
    var issued := ParseIssued(p);
    Publication(p.id, p.kind, p.title, p.locale, ParseAuthorName(p), p.abstractText,
                p.url, p.doi, FormatContainerName(p), issued.year, issued.month, p.custom)
  }

  predicate AllIssuedValid(ps: seq<PublicationInput>)
  {
    forall i :: 0 <= i < |ps| ==> ValidIssued(ps[i].dateParts)
  }

  /** A publication list's `map`: same length and order; the identifying and
      textual fields copied; the authors, container and date derived from the
      `info.json` entry. */
  function ProjectPublications(ps: seq<PublicationInput>): (r: seq<Publication>)
    requires AllIssuedValid(ps)
    ensures |r| == |ps|
    ensures forall i :: 0 <= i < |r| ==>
      && r[i].id == ps[i].id && r[i].kind == ps[i].kind && r[i].title == ps[i].title
      && r[i].locale == ps[i].locale && r[i].abstractText == ps[i].abstractText
      && r[i].url == ps[i].url && r[i].doi == ps[i].doi && r[i].custom == ps[i].custom
      && r[i].author == ParseAuthorName(ps[i])
      && r[i].container == FormatContainerName(ps[i])
      && ps[i].dateParts == [[r[i].year, r[i].month]]
  {
    seq(|ps|, i requires 0 <= i < |ps| && AllIssuedValid(ps) => ProjectPublication(ps[i]))
  }

  /** Projection distributes over concatenation: each entry is projected on its own. */
  lemma ProjectPublicationsAppend(a: seq<PublicationInput>, b: seq<PublicationInput>)
    requires AllIssuedValid(a) && AllIssuedValid(b)
    ensures AllIssuedValid(a + b)
    ensures ProjectPublications(a + b) == ProjectPublications(a) + ProjectPublications(b)
  {
    assert forall i :: 0 <= i < |a + b| ==> (a + b)[i] == if i < |a| then a[i] else b[i - |a|];
  }

  /** A valid publication list can be projected. */
  lemma ValidListsProject(ps: seq<PublicationInput>)
    requires AllValid(ps)
    ensures AllIssuedValid(ps)
    ensures forall i :: 0 <= i < |ps| ==> |ProjectPublications(ps)[i].author| >= 1
  {
    forall i | 0 <= i < |ps| ensures |ProjectPublications(ps)[i].author| >= 1 {
      assert ValidPublication(ps[i]);
      ValidHasAuthorNames(ps[i]);
    }
  }

  /** The keys of the social object, in declaration order (the order of
      `Object.keys` on the validated object). */
  const SocialKeys: seq<string> := ["keybase", "orcid", "github", "bluesky", "x"]

  /** `info.profile.social[key]` for a declared key. */
  function SocialValue(s: Social, key: string): Option<string>
  {
    if key == "keybase" then s.keybase
    else if key == "orcid" then s.orcid
    else if key == "github" then s.github
    else if key == "bluesky" then s.bluesky
    else if key == "x" then s.x
    else None
  }

  /** Position of a key in `SocialKeys`; 5 for any other string. */
  function KeyRank(key: string): nat
  {
    if key == "keybase" then 0
    else if key == "orcid" then 1
    else if key == "github" then 2
    else if key == "bluesky" then 3
    else if key == "x" then 4
    else 5
  }

  /** The defined links among the keys from position `from` on, in key order. */
  function DefinedFrom(s: Social, from: nat): (r: seq<SocialLink>)
    requires from <= |SocialKeys|
    ensures forall l :: l in r ==> from <= KeyRank(l.key) < |SocialKeys| && SocialValue(s, l.key) == Some(l.url)
    ensures forall k :: from <= k < |SocialKeys| && SocialValue(s, SocialKeys[k]).Some? ==>
      SocialLink(SocialKeys[k], SocialValue(s, SocialKeys[k]).value) in r
    ensures forall i, j :: 0 <= i < j < |r| ==> KeyRank(r[i].key) < KeyRank(r[j].key)
    decreases |SocialKeys| - from
  {
    if from == |SocialKeys| then []
    else
      var key := SocialKeys[from];
      var rest := DefinedFrom(s, from + 1);
      match SocialValue(s, key)
      case Some(u) => [SocialLink(key, u)] + rest
      case None => rest
  }

  /** `socials`: the defined social links, each key with its own URL, in key order.
      An empty string is defined. */
  function Socials(s: Social): (r: seq<SocialLink>)
    ensures forall l: SocialLink :: l in r <==> l.key in SocialKeys && SocialValue(s, l.key) == Some(l.url)
    ensures forall i, j :: 0 <= i < j < |r| ==> KeyRank(r[i].key) < KeyRank(r[j].key)
  {
    var r := DefinedFrom(s, 0);
    DefinedKeysAreKeys(s, r);
    r
  }

  lemma DefinedKeysAreKeys(s: Social, r: seq<SocialLink>)
    requires r == DefinedFrom(s, 0)
    ensures forall l: SocialLink :: l in r <==> l.key in SocialKeys && SocialValue(s, l.key) == Some(l.url)
  {
    forall l: SocialLink
      ensures l in r <==> l.key in SocialKeys && SocialValue(s, l.key) == Some(l.url)
    {
      KeyAtRank(l.key);
    }
  }

  /** A string is a social key exactly when its rank is a position of `SocialKeys`. */
  lemma KeyAtRank(key: string)
    ensures key in SocialKeys <==> KeyRank(key) < |SocialKeys|
    ensures KeyRank(key) < |SocialKeys| ==> SocialKeys[KeyRank(key)] == key
  {
  }

  /** No link is listed twice: each key appears at most once. */
  lemma SocialKeysDistinct(s: Social)
    ensures forall i, j :: 0 <= i < j < |Socials(s)| ==> Socials(s)[i].key != Socials(s)[j].key
  {
  }

  /** With every link undefined there is nothing to show. */
  lemma NoSocials(s: Social)
    requires s == Social(None, None, None, None, None)
    ensures Socials(s) == []
  {
  }

  /** `portfolios`: one entry per item, in order, with the description of the locale. */
  function Portfolios(items: seq<PortfolioItem>, locale: string): (r: seq<Portfolio>)
    ensures |r| == |items|
    ensures forall i :: 0 <= i < |r| ==>
      && r[i].title == items[i].title && r[i].category == items[i].category && r[i].url == items[i].url
      && r[i].description in {items[i].descriptionJa, items[i].descriptionEn}
  {
    seq(|items|, i requires 0 <= i < |items| =>
      Portfolio(items[i].title, items[i].category,
                if locale == "ja" then items[i].descriptionJa else items[i].descriptionEn,
                items[i].url))
  }

  /** `profile`: the name, bio, focus and base of the locale, the shared fields
      copied, the socials and portfolios projected. Without a `portfolio` list the
      `info.profile.portfolio.map` call of `loadSiteData` throws. */
  function BuildProfile(p: ProfileInput, locale: string): (r: Result<Profile, SiteError>)
    ensures r.Success? <==> p.portfolio.Some?
    ensures r.Failure? ==> r.error == PortfolioUndefined
    ensures r.Success? ==>
      && r.value.avatar == p.avatar && r.value.email == p.email
      && r.value.educations == p.education && r.value.experiences == p.experience
      && r.value.socials == Socials(p.social)
      && r.value.portfolios == Portfolios(p.portfolio.value, locale)
  {
    match p.portfolio
    case None => Failure(PortfolioUndefined)
    case Some(items) =>
      Success(Profile(
        if locale == "ja" then p.nameJa else p.nameEn,
        if locale == "ja" then p.bioJa else p.bioEn,
        p.avatar,
        if locale == "ja" then p.focusJa else p.focusEn,
        if locale == "ja" then p.baseJa else p.baseEn,
        p.email,
        Socials(p.social),
        p.education,
        p.experience,
        Portfolios(items, locale)))
  }

  /** `site`: the title and description of the locale and the copyright. */
  function BuildSite(s: SiteInput, locale: string): (r: SiteInfo)
    ensures r.copyright == s.copyright
    ensures r.title in {s.titleJa, s.titleEn} && r.description in {s.descriptionJa, s.descriptionEn}
  {
    SiteInfo(
      if locale == "ja" then s.titleJa else s.titleEn,
      if locale == "ja" then s.descriptionJa else s.descriptionEn,
      s.copyright)
  }

  /** `changelogEntries`: one entry per version, in order, keeping the version,
      date and summary. */
  function ChangelogEntries(versions: seq<Version>): (r: seq<ChangelogEntry>)
    ensures |r| == |versions|
    ensures forall i :: 0 <= i < |r| ==>
      r[i].version == versions[i].version && r[i].date == versions[i].date && r[i].summary == versions[i].summary
  {
    seq(|versions|, i requires 0 <= i < |versions| =>
      ChangelogEntry(versions[i].version, versions[i].date, versions[i].summary))
  }

  /** The added, changed and fixed lists are dropped: versions that differ only in
      them give the same entries. */
  lemma ChangelogDropsItemLists(a: seq<Version>, b: seq<Version>)
    requires |a| == |b|
    requires forall i :: 0 <= i < |a| ==>
      a[i].version == b[i].version && a[i].date == b[i].date && a[i].summary == b[i].summary
    ensures ChangelogEntries(a) == ChangelogEntries(b)
  {
  }

  function Project(info: InfoInput, changelog: Changelog, locale: string, profile: Profile): (r: SiteData)
    requires AllIssuedValid(info.journalPaper) && AllIssuedValid(info.refereedInternationalConference)
    requires AllIssuedValid(info.internationalConference) && AllIssuedValid(info.domesticWorkshop)
  {
    SiteData(
      profile,
      Publications(
        ProjectPublications(info.journalPaper),
        ProjectPublications(info.refereedInternationalConference),
        ProjectPublications(info.internationalConference),
        ProjectPublications(info.domesticWorkshop)),
      ChangelogEntries(changelog.versions),
      BuildSite(info.site, locale))
  }

  /** `loadSiteData(locale)` on the contents of the two files, with the schema
      declaring every key the function reads: `info.json` is validated first,
      then `CHANGELOG.toml`; a valid pair always loads. */
  function LoadSiteData(info: InfoInput, changelog: Changelog, locale: string): (r: Result<SiteData, SiteError>)
    ensures r.Success? <==> ValidInfo(info) && ValidChangelog(changelog)
    ensures r.Failure? ==> r.error == if !ValidInfo(info) then InfoInvalid else ChangelogInvalid
  {
    match ParseInfo(info)
    case None => Failure(InfoInvalid)
    case Some(parsed) =>
      match ParseChangelog(changelog)
      case None => Failure(ChangelogInvalid)
      case Some(log) =>
        ValidListsProject(parsed.journalPaper);
        ValidListsProject(parsed.refereedInternationalConference);
        ValidListsProject(parsed.internationalConference);
        ValidListsProject(parsed.domesticWorkshop);
        match BuildProfile(parsed.profile, locale)
        case Failure(e) => Failure(e)
        case Success(profile) => Success(Project(parsed, log, locale, profile))
  }

  /** The four publication lists of a load are the element-wise projections of the
      four input lists, and the changelog keeps every version. */
  lemma LoadedContents(info: InfoInput, changelog: Changelog, locale: string)
    requires ValidInfo(info) && ValidChangelog(changelog)
    ensures var d := LoadSiteData(info, changelog, locale).value;
      && AllIssuedValid(info.journalPaper) && AllIssuedValid(info.refereedInternationalConference)
      && AllIssuedValid(info.internationalConference) && AllIssuedValid(info.domesticWorkshop)
      && d.publications.journalPaper == ProjectPublications(info.journalPaper)
      && d.publications.refereedInternationalConference == ProjectPublications(info.refereedInternationalConference)
      && d.publications.internationalConference == ProjectPublications(info.internationalConference)
      && d.publications.domesticWorkshop == ProjectPublications(info.domesticWorkshop)
      && d.changelog == ChangelogEntries(changelog.versions)
      && d.profile.socials == Socials(info.profile.social)
      && d.site.copyright == info.site.copyright
  {
    ValidListsProject(info.journalPaper);
    ValidListsProject(info.refereedInternationalConference);
    ValidListsProject(info.internationalConference);
    ValidListsProject(info.domesticWorkshop);
  }

  /** Locale "ja" selects every Japanese field. */
  lemma JapaneseFields(info: InfoInput, changelog: Changelog)
    requires ValidInfo(info) && ValidChangelog(changelog)
    ensures var d := LoadSiteData(info, changelog, "ja").value;
      && d.profile.name == info.profile.nameJa && d.profile.bio == info.profile.bioJa
      && d.profile.focus == info.profile.focusJa && d.profile.base == info.profile.baseJa
      && d.site.title == info.site.titleJa && d.site.description == info.site.descriptionJa
      && |d.profile.portfolios| == |info.profile.portfolio.value|
      && forall i :: 0 <= i < |d.profile.portfolios| ==>
           d.profile.portfolios[i].description == info.profile.portfolio.value[i].descriptionJa
  {
    LoadedContents(info, changelog, "ja");
  }

  /** Every other locale selects the English fields. */
  lemma EnglishFields(info: InfoInput, changelog: Changelog, locale: string)
    requires ValidInfo(info) && ValidChangelog(changelog)
    requires locale != "ja"
    ensures var d := LoadSiteData(info, changelog, locale).value;
      && d.profile.name == info.profile.nameEn && d.profile.bio == info.profile.bioEn
      && d.profile.focus == info.profile.focusEn && d.profile.base == info.profile.baseEn
      && d.site.title == info.site.titleEn && d.site.description == info.site.descriptionEn
      && |d.profile.portfolios| == |info.profile.portfolio.value|
      && forall i :: 0 <= i < |d.profile.portfolios| ==>
           d.profile.portfolios[i].description == info.profile.portfolio.value[i].descriptionEn
  {
    LoadedContents(info, changelog, locale);
  }

  /** A publication's award survives the load. */
  lemma AwardKept(info: InfoInput, changelog: Changelog, locale: string, i: nat)
    requires ValidInfo(info) && ValidChangelog(changelog)
    requires i < |info.journalPaper|
    ensures i < |LoadSiteData(info, changelog, locale).value.publications.journalPaper|
    ensures LoadSiteData(info, changelog, locale).value.publications.journalPaper[i].custom ==
      info.journalPaper[i].custom
  {
    LoadedContents(info, changelog, locale);
  }

  /** `loadSiteData` as the repository declares the schema: the parsed info has lost
      every undeclared key before it is projected. */
  function LoadSiteDataAsWritten(info: InfoInput, changelog: Changelog, locale: string): (r: Result<SiteData, SiteError>)
    ensures r.Failure?
  {
    match ParseInfoAsWritten(info)
    case None => Failure(InfoInvalid)
    case Some(parsed) =>
      match ParseChangelog(changelog)
      case None => Failure(ChangelogInvalid)
      case Some(log) =>
        match BuildProfile(parsed.profile, locale)
        case Failure(e) => Failure(e)
        case Success(profile) =>
          assert false;
          Failure(PortfolioUndefined)
  }

  /** As written, no input file loads: once both files pass their schemas the
      `portfolio` list is gone and mapping over it throws. */
  lemma AsWrittenNeverLoads(info: InfoInput, changelog: Changelog, locale: string)
    requires ValidInfoAsWritten(info) && ValidChangelog(changelog)
    ensures LoadSiteDataAsWritten(info, changelog, locale) == Failure(PortfolioUndefined)
    ensures info.profile.portfolio.Some? ==> LoadSiteData(info, changelog, locale).Success?
  {
  }

  /** As written, the validated publications carry no award even when the file
      has one, so the projection cannot show it. */
  lemma AwardDroppedAsWritten(info: InfoInput, award: string)
    requires ValidInfoAsWritten(info)
    requires |info.journalPaper| >= 1 && info.journalPaper[0].custom == Some(Custom(Some(award)))
    ensures AllIssuedValid(ParseInfoAsWritten(info).value.journalPaper)
    ensures ProjectPublications(ParseInfoAsWritten(info).value.journalPaper)[0].custom == None
    ensures ProjectPublications(ParseInfoAsWritten(info).value.journalPaper)[0].custom != info.journalPaper[0].custom
  {
    var parsed := ParseInfoAsWritten(info).value;
    assert parsed.journalPaper[0] == info.journalPaper[0].(custom := None);
    assert forall i :: 0 <= i < |parsed.journalPaper| ==> parsed.journalPaper[i].dateParts == info.journalPaper[i].dateParts;
    assert forall i :: 0 <= i < |info.journalPaper| ==> ValidPublication(info.journalPaper[i]);
  }
}
