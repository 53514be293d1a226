/**
 * The routing dashboard's demo decisions: the preferences the form edits, the two canned
 * decisions the "quick" and "advanced" buttons display, and what the result card shows of a
 * decision (the method badge and the AI-recommendation panel). The timers that delay the
 * decisions are not part of the model.
 */
module Dashboard {
  import opened Wrappers

  /** The advanced form's state. */
  datatype RoutingPreferences = RoutingPreferences(
    maxFee: real,
    useAiFallback: bool,
    minConfirmationTime: real,
    preferredNetworks: seq<string>)

  datatype DecisionMethod = Heuristic | Hybrid

  datatype Stats = Stats(gasPrice: string, confirmationTime: string, congestion: string)

  /** A displayed decision. `selectedNetwork` is `None` where the page would read
      `preferredNetworks[0]` of an empty list (`undefined`); `aiRecommendation` is the
      optional field, `None` when it is left `undefined`. */
  datatype RoutingDecision = RoutingDecision(
    selectedNetwork: Option<string>,
    decisionMethod: DecisionMethod,
    aiRecommendation: Option<string>,
    stats: Stats)

  const InitialPreferences: RoutingPreferences :=
    RoutingPreferences(5.0, true, 30.0, ["Ethereum", "Polygon", "Optimism", "Arbitrum"])

  const QuickStats: Stats := Stats("0.0012 ETH", "3 seconds", "Low")
  const AdvancedStats: Stats := Stats("0.003 ETH", "12 seconds", "Medium")

  /** The first preferred network, if there is one (JavaScript's `list[0]`). */
  function FirstPreferred(p: RoutingPreferences): (r: Option<string>)
    ensures r.Some? <==> |p.preferredNetworks| > 0
    ensures r.Some? ==> r.value == p.preferredNetworks[0]
  {
    if |p.preferredNetworks| > 0 then Some(p.preferredNetworks[0]) else None
  }

  /** `handleQuickRoute`'s decision: it takes no preferences at all, so it is a constant;
      the AI recommends the network that is selected. */
  function QuickRouteDecision(): (r: RoutingDecision)
    ensures r.selectedNetwork == Some("Optimism") && r.decisionMethod == Hybrid
    ensures r.aiRecommendation == r.selectedNetwork
    ensures r.stats == QuickStats
  {
    RoutingDecision(Some("Optimism"), Hybrid, Some("Optimism"), QuickStats)
  }

  /** `handleAdvancedRoute`'s decision: the first preferred network is selected; the method
      is hybrid exactly when the AI fallback is on, and then the AI recommends the same
      network; the fee and confirmation thresholds play no part, and the statistics are
      fixed. */
  function AdvancedRouteDecision(p: RoutingPreferences): (r: RoutingDecision)
    ensures r.selectedNetwork == FirstPreferred(p)
    ensures r.decisionMethod == Hybrid <==> p.useAiFallback
    ensures r.aiRecommendation.Some? <==> p.useAiFallback && |p.preferredNetworks| > 0
    ensures r.aiRecommendation.Some? ==> r.aiRecommendation == r.selectedNetwork
    ensures r.stats == AdvancedStats
  {
    RoutingDecision(
      FirstPreferred(p),
      if p.useAiFallback then Hybrid else Heuristic,
      if p.useAiFallback then FirstPreferred(p) else None,
      AdvancedStats)
  }

  // ---------------------------------------------------------------------------
  // What the result card shows

  /** The badge beside the selected network. */
  function Badge(d: RoutingDecision): (r: string)
    ensures r == "AI-Assisted" <==> d.decisionMethod == Hybrid
    ensures r == "Heuristic" <==> d.decisionMethod == Heuristic
  {
    match d.decisionMethod
    case Hybrid => "AI-Assisted"
    case Heuristic => assert "Heuristic"[0] != "AI-Assisted"[0]; "Heuristic"
  }

  /** `decision.aiRecommendation && …`: the panel appears when the recommendation is set
      and not the empty string (the empty string is falsy). */
  predicate ShowsAiRecommendation(d: RoutingDecision): (b: bool)
    ensures b ==> d.aiRecommendation.Some?
    ensures d.aiRecommendation == Some("") ==> !b
  {
    d.aiRecommendation.Some? && d.aiRecommendation.value != ""
  }

  /** The quick route always shows the AI badge and the recommendation panel. */
  lemma QuickRouteShowsAi()
    ensures Badge(QuickRouteDecision()) == "AI-Assisted"
    ensures ShowsAiRecommendation(QuickRouteDecision())
  {
  }

  /** On the advanced route the panel appears exactly when the AI fallback is on and the
      first preferred network has a non-empty name; whenever it appears, the badge says
      "AI-Assisted". */
  lemma AdvancedPanelIffAi(p: RoutingPreferences)
    ensures ShowsAiRecommendation(AdvancedRouteDecision(p))
        <==> p.useAiFallback && |p.preferredNetworks| > 0 && p.preferredNetworks[0] != ""
    ensures ShowsAiRecommendation(AdvancedRouteDecision(p))
        ==> Badge(AdvancedRouteDecision(p)) == "AI-Assisted"
  {
  }

  /** With the initial preferences the advanced route picks Ethereum, AI-assisted, with the
      recommendation shown. */
  lemma InitialAdvancedRoute()
    ensures AdvancedRouteDecision(InitialPreferences)
         == RoutingDecision(Some("Ethereum"), Hybrid, Some("Ethereum"), AdvancedStats)
    ensures ShowsAiRecommendation(AdvancedRouteDecision(InitialPreferences))
  {
  }

  // ---------------------------------------------------------------------------
  // The form's controls

  /** One control of the advanced form: the fee slider, the confirmation-time slider or
      the AI-fallback switch. */
  datatype PreferenceEdit =
    | SetMaxFee(fee: real)
    | SetMinConfirmationTime(seconds: real)
    | SetUseAiFallback(on: bool)

  /** `setPreferences({ ...preferences, field: value })`: the edited field takes the new
      value, every other field, the preferred networks included, keeps its old one. */
  function ApplyPreference(p: RoutingPreferences, e: PreferenceEdit): (r: RoutingPreferences)
    ensures r.preferredNetworks == p.preferredNetworks
    ensures r.maxFee == (if e.SetMaxFee? then e.fee else p.maxFee)
    ensures r.minConfirmationTime == (if e.SetMinConfirmationTime? then e.seconds else p.minConfirmationTime)
    ensures r.useAiFallback == (if e.SetUseAiFallback? then e.on else p.useAiFallback)
  {
    match e
    case SetMaxFee(fee) => p.(maxFee := fee)
    case SetMinConfirmationTime(seconds) => p.(minConfirmationTime := seconds)
    case SetUseAiFallback(on) => p.(useAiFallback := on)
  }

  /** Sliding either threshold leaves the advanced decision as it was. */
  lemma ThresholdsDoNotMatter(p: RoutingPreferences, e: PreferenceEdit)
    requires !e.SetUseAiFallback?
    ensures AdvancedRouteDecision(ApplyPreference(p, e)) == AdvancedRouteDecision(p)
  {
  }

  /** Flipping the AI switch changes the method and the recommendation, never the selected
      network or the statistics. */
  lemma AiSwitchChangesOnlyMethod(p: RoutingPreferences)
    ensures var q := ApplyPreference(p, SetUseAiFallback(!p.useAiFallback));
            var d, e := AdvancedRouteDecision(p), AdvancedRouteDecision(q);
            e.selectedNetwork == d.selectedNetwork && e.stats == d.stats
            && e.decisionMethod != d.decisionMethod
            && (|p.preferredNetworks| > 0 ==> e.aiRecommendation != d.aiRecommendation)
  {
  }

  /** Setting a control twice keeps the second value. */
  lemma LaterPreferenceWins(p: RoutingPreferences, e1: PreferenceEdit, e2: PreferenceEdit)
    requires e1.SetMaxFee? == e2.SetMaxFee?
    requires e1.SetMinConfirmationTime? == e2.SetMinConfirmationTime?
    ensures ApplyPreference(ApplyPreference(p, e1), e2) == ApplyPreference(p, e2)
  {
  }

  /** Edits of different controls commute. */
  lemma PreferenceEditsCommute(p: RoutingPreferences, e1: PreferenceEdit, e2: PreferenceEdit)
    requires e1.SetMaxFee? != e2.SetMaxFee? || e1.SetMinConfirmationTime? != e2.SetMinConfirmationTime?
    ensures ApplyPreference(ApplyPreference(p, e1), e2) == ApplyPreference(ApplyPreference(p, e2), e1)
  {
  }
}
