/** One render of the login screen, as the data it selects: the document title, the
    four countdown cells of the current state and the login card's sections. The
    theme application and the theme-token lookup are calls into code outside this
    model; the token they resolve is taken as an input. */
module LoginScreen {
  import opened Wrappers
  import opened Countdown
  import opened Display
  import opened Layout
  import opened CountdownState

  datatype View = View(title: Option<string>, countdown: seq<string>, card: seq<Section>)

  function Render<C>(ctx: LoginContext<C>, socialButtonsLayout: Option<string>, remaining: TimeRemaining): (v: View)
    ensures |v.countdown| == 4
    ensures |v.card| >= 4 && v.card[0] == Header
  {
    View(
      PageTitle(ctx),
      Cells(remaining),
      CardSections(socialButtonsLayout, ShowSeparator(ctx), SeparatorText(ctx)))
  }

  /** The separator appears in the card, once, exactly when the session offers at least
      one alternative connection, and then carries the separator text; no other
      separator ever appears. The alternative logins appear once either way. */
  lemma SeparatorShownIffConnections<C>(ctx: LoginContext<C>, socialButtonsLayout: Option<string>, remaining: TimeRemaining, t: Option<string>)
    ensures multiset(Render(ctx, socialButtonsLayout, remaining).card)[AlternativeLogins] == 1
    ensures multiset(Render(ctx, socialButtonsLayout, remaining).card)[Separator(t)]
         == if ctx.alternateConnections.Some? && |ctx.alternateConnections.value| > 0 && t == SeparatorText(ctx) then 1 else 0
  {
    var show, text := ShowSeparator(ctx), SeparatorText(ctx);
    assert Render(ctx, socialButtonsLayout, remaining).card == CardSections(socialButtonsLayout, show, text);
    CardCounts(socialButtonsLayout, show, text, t);
  }

  /** What the screen shows of a mounted countdown: the title is the `||` fallback of
      the session's texts and locales, each countdown cell reads back as the matching
      field of the timer's state, and the hours, minutes and seconds cells are exactly
      two characters wide. */
  lemma RenderOfTimer<C>(ctx: LoginContext<C>, socialButtonsLayout: Option<string>, timer: CountdownTimer)
    requires timer.Valid()
    ensures Render(ctx, socialButtonsLayout, timer.Value()).title == PageTitle(ctx)
    ensures var cells := Render(ctx, socialButtonsLayout, timer.Value()).countdown;
      && AllDigits(cells[0]) && ParseDigits(cells[0]) == timer.days
      && AllDigits(cells[1]) && ParseDigits(cells[1]) == timer.hours
      && AllDigits(cells[2]) && ParseDigits(cells[2]) == timer.minutes
      && AllDigits(cells[3]) && ParseDigits(cells[3]) == timer.seconds
      && |cells[1]| == 2 && |cells[2]| == 2 && |cells[3]| == 2
  {
    var t := timer.Value();
    assert Render(ctx, socialButtonsLayout, t).countdown == Cells(t);
    CellsReadBack(t);
  }
}
