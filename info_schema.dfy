/** The shape rules `info.json` must satisfy (publications, profile, site) and
    the two small readers of a validated publication: the issue date and the
    author names. JSON values of the wrong primitive type are excluded by the
    Dafny types themselves; the predicates state every remaining rule. */
module InfoSchema {
  import opened Wrappers

  datatype Author = Author(family: string, given: string)

  /** The optional extra data of a publication (an award). */
  datatype Custom = Custom(award: Option<string>)

  /** One publication entry. `kind` is the JSON field `type`, `abstractText` the
      field `abstract`, and `dateParts` the field `issued["date-parts"]`. */
  datatype PublicationInput = PublicationInput(
    id: int,
    kind: string,
    locale: string,
    title: string,
    author: seq<Author>,
    containerTitle: Option<string>,
    containerTitleShort: Option<string>,
    eventTitle: Option<string>,
    dateParts: seq<seq<int>>,
    url: Option<string>,
    doi: Option<string>,
    abstractText: string,
    custom: Option<Custom>)

  datatype Affiliation = Affiliation(role: string, affiliation: string, duration: string)

  datatype PortfolioItem = PortfolioItem(
    title: string, category: string, descriptionJa: string, descriptionEn: string, url: string)

  /** The five social links, each optional. */
  datatype Social = Social(
    keybase: Option<string>, orcid: Option<string>, github: Option<string>,
    bluesky: Option<string>, x: Option<string>)

  datatype ProfileInput = ProfileInput(
    nameJa: string, nameEn: string, bioJa: string, bioEn: string,
    focusJa: Option<string>, focusEn: Option<string>,
    baseJa: Option<string>, baseEn: Option<string>,
    email: Option<string>, avatar: string, social: Social,
    education: seq<Affiliation>, experience: seq<Affiliation>,
    portfolio: Option<seq<PortfolioItem>>)

  datatype SiteInput = SiteInput(
    titleJa: string, titleEn: string, descriptionJa: string, descriptionEn: string, copyright: string)

  datatype InfoInput = InfoInput(
    journalPaper: seq<PublicationInput>,
    refereedInternationalConference: seq<PublicationInput>,
    internationalConference: seq<PublicationInput>,
    domesticWorkshop: seq<PublicationInput>,
    profile: ProfileInput,
    site: SiteInput)

  /** The four accepted values of a publication's `type`. */
  const PublicationTypes: seq<string> := ["article-journal", "paper-conference", "software", "webpage"]

  /** The two accepted values of a publication's `locale`. */
  const Locales: seq<string> := ["ja", "en"]

  /** `issued["date-parts"]` holds exactly one pair of exactly two numbers. */
  predicate ValidIssued(dateParts: seq<seq<int>>)
  {
    |dateParts| == 1 && |dateParts[0]| == 2
  }

  /** The schema's `check`: one of the three container fields is defined. An empty
      string is defined. */
  predicate HasContainerField(p: PublicationInput)
  {
    p.containerTitle.Some? || p.containerTitleShort.Some? || p.eventTitle.Some?
  }

  /** The object part of `PublicationSchema`: the type and locale literals, at
      least one author and the date pair. */
  predicate ValidShape(p: PublicationInput)
  {
    && p.kind in PublicationTypes
    && p.locale in Locales
    && |p.author| >= 1
    && ValidIssued(p.dateParts)
  }

  /** `PublicationSchema`: the object shape, then the container check. */
  predicate ValidPublication(p: PublicationInput)
  {
    ValidShape(p) && HasContainerField(p)
  }

  predicate AllValid(ps: seq<PublicationInput>)
  {
    forall i :: 0 <= i < |ps| ==> ValidPublication(ps[i])
  }

  /** `InfoSchema` with every key the site reads declared: the four publication
      lists are valid and the profile has a `portfolio` list. */
  predicate ValidInfo(info: InfoInput)
  {
    && AllValid(info.journalPaper)
    && AllValid(info.refereedInternationalConference)
    && AllValid(info.internationalConference)
    && AllValid(info.domesticWorkshop)
    && info.profile.portfolio.Some?
  }

  /** `parse(InfoSchema, data)` with every key the site reads declared: the data
      itself when it is valid, a validation failure otherwise. */
  function ParseInfo(info: InfoInput): (r: Option<InfoInput>)
    ensures r.Some? <==> ValidInfo(info)
    ensures r.Some? ==> r.value == info
  {
    if ValidInfo(info) then Some(info) else None
  }

  /** The schema as written: `PublicationSchema` does not declare `custom` and
      `ProfileSchema` does not declare `portfolio`, so the profile needs no
      portfolio to be valid. */
  predicate ValidInfoAsWritten(info: InfoInput)
  {
    && AllValid(info.journalPaper)
    && AllValid(info.refereedInternationalConference)
    && AllValid(info.internationalConference)
    && AllValid(info.domesticWorkshop)
  }

  /** What valibot's `object` hands back under the schema as written: only declared
      keys are kept, so every publication loses `custom` and the profile loses
      `portfolio`. */
  function StripUndeclared(info: InfoInput): (r: InfoInput)
    ensures r.profile == info.profile.(portfolio := None)
    ensures r.site == info.site
    ensures |r.journalPaper| == |info.journalPaper|
    ensures forall i :: 0 <= i < |r.journalPaper| ==> r.journalPaper[i] == info.journalPaper[i].(custom := None)
    ensures r.refereedInternationalConference == StripCustom(info.refereedInternationalConference)
    ensures r.internationalConference == StripCustom(info.internationalConference)
    ensures r.domesticWorkshop == StripCustom(info.domesticWorkshop)
  {
    info.(
      journalPaper := StripCustom(info.journalPaper),
      refereedInternationalConference := StripCustom(info.refereedInternationalConference),
      internationalConference := StripCustom(info.internationalConference),
      domesticWorkshop := StripCustom(info.domesticWorkshop),
      profile := info.profile.(portfolio := None))
  }

  function StripCustom(ps: seq<PublicationInput>): (r: seq<PublicationInput>)
    ensures |r| == |ps|
    ensures forall i :: 0 <= i < |r| ==> r[i] == ps[i].(custom := None)
  {
    seq(|ps|, i requires 0 <= i < |ps| => ps[i].(custom := None))
  }

  /** `parse(InfoSchema, data)` as the repository declares the schema. */
  function ParseInfoAsWritten(info: InfoInput): (r: Option<InfoInput>)
    ensures r.Some? <==> ValidInfoAsWritten(info)
    ensures r.Some? ==> r.value == StripUndeclared(info)
  {
    if ValidInfoAsWritten(info) then Some(StripUndeclared(info)) else None
  }

  datatype YearMonth = YearMonth(year: int, month: int)

  /** `parseIssued`: the year and month of the single date pair. */
  function ParseIssued(p: PublicationInput): (r: YearMonth)
    requires ValidIssued(p.dateParts)
    ensures p.dateParts == [[r.year, r.month]]
  {
    var pair := p.dateParts[0];
    assert pair == [pair[0], pair[1]];
    YearMonth(pair[0], pair[1])
  }

  /** `parseIssued` loses nothing: the date pair built from a year and month reads
      back as that year and month. */
  lemma ParseIssuedRoundTrip(p: PublicationInput, year: int, month: int)
    requires p.dateParts == [[year, month]]
    ensures ValidIssued(p.dateParts)
    ensures ParseIssued(p) == YearMonth(year, month)
  {
  }

  /** One author's name: family name then given name with no separator for a
      Japanese publication, `given family` otherwise. */
  function FormatAuthor(a: Author, locale: string): string
  {
    if locale == "ja" then a.family + a.given else a.given + " " + a.family
  }

  /** The authors' names, one per author and in order. */
  function FormatAuthors(authors: seq<Author>, locale: string): (r: seq<string>)
    ensures |r| == |authors|
    ensures forall i :: 0 <= i < |r| ==> r[i] == FormatAuthor(authors[i], locale)
    decreases |authors|
  {
    if authors == [] then []
    else [FormatAuthor(authors[0], locale)] + FormatAuthors(authors[1..], locale)
  }

  /** `parseAuthorName`: the publication's author names, in the publication's locale. */
  function ParseAuthorName(p: PublicationInput): (r: seq<string>)
    ensures |r| == |p.author|
    ensures forall i :: 0 <= i < |r| ==>
      r[i] == if p.locale == "ja" then p.author[i].family + p.author[i].given
              else p.author[i].given + " " + p.author[i].family
  {
    FormatAuthors(p.author, p.locale)
  }

  /** A valid publication has at least one author name to show. */
  lemma ValidHasAuthorNames(p: PublicationInput)
    requires ValidPublication(p)
    ensures |ParseAuthorName(p)| >= 1
  {
  }

  /** The container check accepts an empty `container-title` with nothing else:
      being defined is enough. */
  lemma EmptyContainerTitleIsValid(p: PublicationInput)
    requires p.containerTitle == Some("") && p.containerTitleShort.None? && p.eventTitle.None?
    ensures HasContainerField(p)
    ensures ValidPublication(p) <==> ValidShape(p)
  {
  }

  /** Without any of the three container fields a publication is rejected, whatever
      else it carries. */
  lemma NoContainerIsInvalid(p: PublicationInput)
    requires p.containerTitle.None? && p.containerTitleShort.None? && p.eventTitle.None?
    ensures !ValidPublication(p)
  {
  }
}
