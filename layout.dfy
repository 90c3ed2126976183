/** What the login screen selects from the session context: the page title, the
    separator between the login form and the alternative logins, and the order of
    the sections inside the login card. The components themselves are presentation
    and appear only as the section they stand for. */
module Layout {
  import opened Wrappers

  /** The localised labels the session supplies (`texts`); either may be missing. */
  datatype Texts = Texts(pageTitle: Option<string>, separatorText: Option<string>)

  /** The `page` entry of the locale strings (`locales.page`). */
  datatype PageLocale = PageLocale(title: Option<string>, orText: Option<string>)

  /** The locale strings (`locales`), of which the screen reads only `page`. */
  datatype Locales = Locales(page: Option<PageLocale>)

  /** The parts of the session context the screen reads; `C` is a configured
      alternative identity provider, which the screen only counts. */
  datatype LoginContext<C> = LoginContext(
    texts: Option<Texts>,
    locales: Option<Locales>,
    alternateConnections: Option<seq<C>>)

  /** The sections of the login card. */
  datatype Section = Header | AlternativeLogins | Separator(text: Option<string>) | LoginForm | Footer

  /** The argument of `renderSocialLogins`. */
  datatype Alignment = Top | Bottom

  /** A string is truthy in JavaScript when it is present and not empty. */
  predicate Truthy(s: Option<string>) {
    s.Some? && s.value != ""
  }

  /** `preferred || fallback` on two possibly missing strings. */
  function OrElse(preferred: Option<string>, fallback: Option<string>): (r: Option<string>)
    ensures r == preferred || r == fallback
    ensures Truthy(preferred) ==> r == preferred
    ensures !Truthy(preferred) ==> r == fallback
    ensures Truthy(r) <==> Truthy(preferred) || Truthy(fallback)
  {
    if Truthy(preferred) then preferred else fallback
  }

  function SeparatorOverride(texts: Option<Texts>): Option<string> {
    if texts.Some? then texts.value.separatorText else None
  }

  function TitleOverride(texts: Option<Texts>): Option<string> {
    if texts.Some? then texts.value.pageTitle else None
  }

  function Page(locales: Option<Locales>): Option<PageLocale> {
    if locales.Some? then locales.value.page else None
  }

  /** `texts?.separatorText || locales?.page?.orText` */
  function SeparatorText<C>(ctx: LoginContext<C>): (r: Option<string>)
    ensures Truthy(SeparatorOverride(ctx.texts)) ==> r == SeparatorOverride(ctx.texts)
    ensures !Truthy(SeparatorOverride(ctx.texts)) ==>
      r == (if Page(ctx.locales).Some? then Page(ctx.locales).value.orText else None)
  {
    var page := Page(ctx.locales);
    OrElse(SeparatorOverride(ctx.texts), if page.Some? then page.value.orText else None)
  }

  /** `texts?.pageTitle || locales?.page?.title`, the string the screen sets as the
      document title. */
  function PageTitle<C>(ctx: LoginContext<C>): (r: Option<string>)
    ensures Truthy(TitleOverride(ctx.texts)) ==> r == TitleOverride(ctx.texts)
    ensures !Truthy(TitleOverride(ctx.texts)) ==>
      r == (if Page(ctx.locales).Some? then Page(ctx.locales).value.title else None)
  {
    var page := Page(ctx.locales);
    OrElse(TitleOverride(ctx.texts), if page.Some? then page.value.title else None)
  }

  /** `alternateConnections && alternateConnections.length > 0` */
  function ShowSeparator<C>(ctx: LoginContext<C>): (r: bool)
    ensures r <==> ctx.alternateConnections.Some? && |ctx.alternateConnections.value| > 0
  {
    match ctx.alternateConnections
    case None => false
    case Some(connections) => |connections| > 0
  }

  /** The optional separator as a (possibly empty) run of sections. */
  function SeparatorPart(showSeparator: bool, separatorText: Option<string>): seq<Section> {
    if showSeparator then [Separator(separatorText)] else []
  }

  /** `renderSocialLogins(alignment)`: the alternative logins and, when shown, the
      separator, which sits before them for the bottom alignment (between the footer
      and the buttons) and after them for the top one (between the buttons and the form). */
  function SocialLogins(alignment: Alignment, showSeparator: bool, separatorText: Option<string>): (r: seq<Section>)
    ensures |r| == if showSeparator then 2 else 1
    ensures multiset(r) == multiset{AlternativeLogins} + multiset(SeparatorPart(showSeparator, separatorText))
    ensures alignment == Top ==> r[0] == AlternativeLogins
    ensures alignment == Bottom ==> r[|r| - 1] == AlternativeLogins
    ensures showSeparator ==> r[if alignment == Top then 1 else 0] == Separator(separatorText)
  {
    var separator := SeparatorPart(showSeparator, separatorText);
    (if alignment == Bottom then separator else [])
    + [AlternativeLogins]
    + (if alignment == Top then separator else [])
  }

  /** The login card: the header, then the alternative logins above the login form
      when the theme's social-buttons layout token is exactly "top", and below the
      footer for any other value or none. */
  function CardSections(socialButtonsLayout: Option<string>, showSeparator: bool, separatorText: Option<string>): (r: seq<Section>)
    ensures |r| == 4 + |SeparatorPart(showSeparator, separatorText)|
    ensures r[0] == Header
  {
    var top := socialButtonsLayout == Some("top");
    [Header]
    + (if top then SocialLogins(Top, showSeparator, separatorText) else [])
    + [LoginForm, Footer]
    + (if !top then SocialLogins(Bottom, showSeparator, separatorText) else [])
  }

  /** The two orders the card can take. */
  lemma CardOrder(socialButtonsLayout: Option<string>, showSeparator: bool, separatorText: Option<string>)
    ensures var sep := SeparatorPart(showSeparator, separatorText);
      CardSections(socialButtonsLayout, showSeparator, separatorText) ==
        if socialButtonsLayout == Some("top") then [Header, AlternativeLogins] + sep + [LoginForm, Footer]
        else [Header, LoginForm, Footer] + sep + [AlternativeLogins]
  {
  }

  /** Whatever the layout token, the card holds the header, the alternative logins,
      the login form and the footer once each, and the separator once exactly when it
      is shown. */
  lemma CardContents(socialButtonsLayout: Option<string>, showSeparator: bool, separatorText: Option<string>)
    ensures multiset(CardSections(socialButtonsLayout, showSeparator, separatorText))
         == multiset{Header, AlternativeLogins, LoginForm, Footer} + multiset(SeparatorPart(showSeparator, separatorText))
  {
    CardOrder(socialButtonsLayout, showSeparator, separatorText);
    OrderContents(CardSections(socialButtonsLayout, showSeparator, separatorText),
      SeparatorPart(showSeparator, separatorText), socialButtonsLayout == Some("top"));
  }

  lemma OrderContents(r: seq<Section>, sep: seq<Section>, top: bool)
    requires r == if top then [Header, AlternativeLogins] + sep + [LoginForm, Footer]
                  else [Header, LoginForm, Footer] + sep + [AlternativeLogins]
    ensures multiset(r) == multiset{Header, AlternativeLogins, LoginForm, Footer} + multiset(sep)
  {
    if top {
      assert multiset(r) == multiset([Header, AlternativeLogins]) + multiset(sep) + multiset([LoginForm, Footer]);
    } else {
      assert multiset(r) == multiset([Header, LoginForm, Footer]) + multiset(sep) + multiset([AlternativeLogins]);
    }
  }

  /** Counted section by section: the alternative logins are in the card once, and a
      separator with text `t` once when the separator is shown with that text and
      never otherwise. */
  lemma CardCounts(socialButtonsLayout: Option<string>, showSeparator: bool, separatorText: Option<string>, t: Option<string>)
    ensures multiset(CardSections(socialButtonsLayout, showSeparator, separatorText))[AlternativeLogins] == 1
    ensures multiset(CardSections(socialButtonsLayout, showSeparator, separatorText))[Separator(t)]
         == if showSeparator && t == separatorText then 1 else 0
  {
    CardContents(socialButtonsLayout, showSeparator, separatorText);
  }

  /** The layout token only reorders the card: the alternative logins appear exactly
      once whatever its value, and two tokens give cards with the same sections. */
  lemma AlignmentOnlyReorders(layout1: Option<string>, layout2: Option<string>, showSeparator: bool, separatorText: Option<string>)
    ensures multiset(CardSections(layout1, showSeparator, separatorText))
         == multiset(CardSections(layout2, showSeparator, separatorText))
    ensures multiset(CardSections(layout1, showSeparator, separatorText))[AlternativeLogins] == 1
  {
    CardContents(layout1, showSeparator, separatorText);
    CardContents(layout2, showSeparator, separatorText);
  }
}
